/** How the highlighter turns its terms into a regular expression
    (src/components/slang-analyzer.tsx, lines 79-80): every term is escaped
    with `term.replace(/[-\/\\^$*+?.()|[\]{}]/g, '\\$&')`, the escaped terms
    are joined with `|`, and the alternation is wrapped in one capturing
    group. This module models those string operations and the meaning a
    regular-expression engine gives to the result, restricted to what such
    a pattern can contain: literal characters and identity escapes. */
module RegexEscape {
  import opened SlangTypes

  /** `t` occurs in `s` starting at index `i`. */
  predicate OccursAt(t: string, s: string, i: nat) {
    i + |t| <= |s| && s[i..i + |t|] == t
  }

  /** The characters of the class `[-\/\\^$*+?.()|[\]{}]`. */
  predicate IsSpecial(c: char) {
    c == '-' || c == '/' || c == '\\' || c == '^' || c == '$' || c == '*'
    || c == '+' || c == '?' || c == '.' || c == '(' || c == ')' || c == '|'
    || c == '[' || c == ']' || c == '{' || c == '}'
  }

  /** The replacement `'\\$&'` applied to one character of the term. */
  function EscapeChar(c: char): string {
    if IsSpecial(c) then ['\\', c] else [c]
  }

  /** `term.replace(/[-\/\\^$*+?.()|[\]{}]/g, '\\$&')`: the global replace
      visits every character once, left to right. */
  function Escape(t: string): string
    decreases |t|
  {
    if t == [] then [] else EscapeChar(t[0]) + Escape(t[1..])
  }

  /** A pattern made only of non-special characters and of backslashes each
      followed by a special character: exactly the patterns `Escape` yields. */
  predicate IsEscapedLiteral(p: string)
    decreases |p|
  {
    if p == [] then true
    else if p[0] == '\\' then |p| >= 2 && IsSpecial(p[1]) && IsEscapedLiteral(p[2..])
    else !IsSpecial(p[0]) && IsEscapedLiteral(p[1..])
  }

  /** Removes one level of backslash escaping. */
  function Unescape(p: string): string
    decreases |p|
  {
    if p == [] then []
    else if p[0] == '\\' && |p| >= 2 then [p[1]] + Unescape(p[2..])
    else [p[0]] + Unescape(p[1..])
  }

  /** Escaping is a homomorphism: each character is escaped on its own. */
  lemma {:induction false} EscapeAppend(a: string, b: string)
    ensures Escape(a + b) == Escape(a) + Escape(b)
    decreases |a|
  {
    if a == [] {
      assert a + b == b;
    } else {
      assert (a + b)[0] == a[0];
      assert (a + b)[1..] == a[1..] + b;
      EscapeAppend(a[1..], b);
    }
  }

  /** Escaping yields a well-formed literal pattern, and unescaping it gives
      the term back. */
  lemma {:induction false} EscapeRoundTrip(t: string)
    ensures IsEscapedLiteral(Escape(t))
    ensures Unescape(Escape(t)) == t
    decreases |t|
  {
    if t != [] {
      EscapeRoundTrip(t[1..]);
      var p := Escape(t);
      var rest := Escape(t[1..]);
      if IsSpecial(t[0]) {
        assert p == ['\\', t[0]] + rest;
        assert p[2..] == rest;
      } else {
        assert p == [t[0]] + rest;
        assert p[1..] == rest;
      }
    }
  }

  /** Conversely, every well-formed literal pattern is the escape of its
      unescaping, so `Escape` is a bijection onto such patterns. */
  lemma {:induction false} UnescapeRoundTrip(p: string)
    requires IsEscapedLiteral(p)
    ensures Escape(Unescape(p)) == p
    decreases |p|
  {
    if p != [] {
      if p[0] == '\\' {
        UnescapeRoundTrip(p[2..]);
        assert Unescape(p) == [p[1]] + Unescape(p[2..]);
        assert p == p[..2] + p[2..];
      } else {
        UnescapeRoundTrip(p[1..]);
        assert Unescape(p) == [p[0]] + Unescape(p[1..]);
        assert p == [p[0]] + p[1..];
      }
    }
  }

  /** What a regular-expression engine does with a literal pattern tried at
      index `i` of `s`: an identity escape `\c` and an ordinary character `c`
      both match the character `c`. The result is the index after the match. */
  function MatchLiteral(p: string, s: string, i: nat): Option<nat>
    requires IsEscapedLiteral(p)
    requires i <= |s|
    decreases |p|
  {
    if p == [] then Some(i)
    else if p[0] == '\\' then
      if i < |s| && s[i] == p[1] then MatchLiteral(p[2..], s, i + 1) else None
    else if i < |s| && s[i] == p[0] then MatchLiteral(p[1..], s, i + 1) else None
  }

  /** Occurrence of a non-empty string, one character at a time. */
  lemma OccursAtCons(t: string, s: string, i: nat)
    requires t != []
    ensures OccursAt(t, s, i) <==> i < |s| && s[i] == t[0] && OccursAt(t[1..], s, i + 1)
  {
    if i + |t| <= |s| {
      assert s[i..i + |t|] == [s[i]] + s[i + 1..i + |t|];
    }
  }

  /** The escaped term, read as a pattern, matches exactly the term itself. */
  lemma {:induction false} EscapedTermMatchesLiterally(t: string, s: string, i: nat)
    requires i <= |s|
    ensures IsEscapedLiteral(Escape(t))
    ensures MatchLiteral(Escape(t), s, i) == if OccursAt(t, s, i) then Some(i + |t|) else None
    decreases |t|
  {
    EscapeRoundTrip(t);
    if t != [] {
      var p := Escape(t);
      var rest := Escape(t[1..]);
      EscapeRoundTrip(t[1..]);
      OccursAtCons(t, s, i);
      if i < |s| && s[i] == t[0] {
        EscapedTermMatchesLiterally(t[1..], s, i + 1);
      }
      if IsSpecial(t[0]) {
        assert p == ['\\', t[0]] + rest;
        assert p[2..] == rest;
      } else {
        assert p == [t[0]] + rest;
        assert p[1..] == rest;
      }
    }
  }

  /** `ps.join('|')`. */
  function JoinAlternatives(ps: seq<string>): string
    decreases |ps|
  {
    if ps == [] then []
    else if |ps| == 1 then ps[0]
    else ps[0] + "|" + JoinAlternatives(ps[1..])
  }

  /** How the engine reads an alternation: it is cut at every `|` that is not
      part of an escape. The result always holds at least one alternative. */
  function TopLevelAlternatives(p: string): (alts: seq<string>)
    ensures |alts| >= 1
    decreases |p|
  {
    if p == [] then [[]]
    else if p[0] == '\\' && |p| >= 2 then
      var rest := TopLevelAlternatives(p[2..]);
      [p[..2] + rest[0]] + rest[1..]
    else if p[0] == '|' then
      [[]] + TopLevelAlternatives(p[1..])
    else
      var rest := TopLevelAlternatives(p[1..]);
      [[p[0]] + rest[0]] + rest[1..]
  }

  /** The escaped form of every term, in order. */
  function EscapeAll(ts: seq<string>): (ps: seq<string>)
    ensures |ps| == |ts|
  {
    seq(|ts|, k requires 0 <= k < |ts| => Escape(ts[k]))
  }

  /** The source text of the pattern built on line 80: `(${escaped.join('|')})`. */
  function PatternSource(sortedTerms: seq<string>): string {
    "(" + JoinAlternatives(EscapeAll(sortedTerms)) + ")"
  }

  /** The literal strings that the alternatives inside a one-group pattern
      match, in the order the engine tries them. */
  function LiteralAlternatives(source: string): seq<string>
    requires |source| >= 2
  {
    var alts := TopLevelAlternatives(source[1..|source| - 1]);
    seq(|alts|, k requires 0 <= k < |alts| => Unescape(alts[k]))
  }

  /** Reading an alternation that starts with the escape `\c`: the escape
      is glued to the first alternative. */
  lemma EscapeHeadAlternatives(c: char, p: string)
    ensures TopLevelAlternatives(['\\', c] + p)
         == [['\\', c] + TopLevelAlternatives(p)[0]] + TopLevelAlternatives(p)[1..]
  {
    var cp := ['\\', c] + p;
    assert cp[2..] == p && cp[..2] == ['\\', c];
  }

  /** Reading an alternation that starts with a character other than `|`
      and `\`: the character is glued to the first alternative. */
  lemma PlainHeadAlternatives(c: char, p: string)
    requires c != '|' && c != '\\'
    ensures TopLevelAlternatives([c] + p)
         == [[c] + TopLevelAlternatives(p)[0]] + TopLevelAlternatives(p)[1..]
  {
    var cp := [c] + p;
    assert cp[1..] == p;
  }

  /** One step of `LiteralPrefixAlternatives`: a head that is glued to the
      first alternative, in front of a literal that is glued too. */
  lemma GlueHead(head: string, p: string, q: string)
    requires TopLevelAlternatives(head + (p + q))
          == [head + TopLevelAlternatives(p + q)[0]] + TopLevelAlternatives(p + q)[1..]
    requires TopLevelAlternatives(p + q) == [p + TopLevelAlternatives(q)[0]] + TopLevelAlternatives(q)[1..]
    ensures TopLevelAlternatives(head + p + q)
         == [head + p + TopLevelAlternatives(q)[0]] + TopLevelAlternatives(q)[1..]
  {
    var r := TopLevelAlternatives(q);
    var x := TopLevelAlternatives(p + q);
    assert x[0] == p + r[0] && x[1..] == r[1..];
    assert head + (p + q) == head + p + q;
    assert head + x[0] == head + p + r[0];
  }

  /** A well-formed literal pattern has no top-level `|`, so it stays glued
      to the first alternative of whatever follows it. */
  lemma {:induction false} LiteralPrefixAlternatives(a: string, q: string)
    requires IsEscapedLiteral(a)
    ensures TopLevelAlternatives(a + q)
         == [a + TopLevelAlternatives(q)[0]] + TopLevelAlternatives(q)[1..]
    decreases |a|
  {
    if a == [] {
      var r := TopLevelAlternatives(q);
      assert a + q == q && a + r[0] == r[0];
      assert r == [r[0]] + r[1..];
    } else {
      var n := if a[0] == '\\' then 2 else 1;
      LiteralPrefixAlternatives(a[n..], q);
      if n == 2 {
        assert a[..n] == ['\\', a[1]];
        EscapeHeadAlternatives(a[1], a[n..] + q);
      } else {
        assert a[..n] == [a[0]];
        PlainHeadAlternatives(a[0], a[n..] + q);
      }
      GlueHead(a[..n], a[n..], q);
      assert a[..n] + a[n..] == a;
    }
  }

  /** Joining well-formed literal patterns with `|` and reading the result as
      an alternation gives back exactly those patterns, in order. */
  lemma {:induction false} JoinThenSplit(ps: seq<string>)
    requires |ps| >= 1
    requires forall k :: 0 <= k < |ps| ==> IsEscapedLiteral(ps[k])
    ensures TopLevelAlternatives(JoinAlternatives(ps)) == ps
    decreases |ps|
  {
    if |ps| == 1 {
      LiteralPrefixAlternatives(ps[0], []);
      assert ps[0] + [] == ps[0];
    } else {
      JoinThenSplit(ps[1..]);
      var tail := "|" + JoinAlternatives(ps[1..]);
      assert JoinAlternatives(ps) == ps[0] + tail;
      LiteralPrefixAlternatives(ps[0], tail);
      assert tail[0] == '|' && tail[1..] == JoinAlternatives(ps[1..]);
      assert TopLevelAlternatives(tail) == [[]] + ps[1..];
      assert ps[0] + [] == ps[0];
      assert ps == [ps[0]] + ps[1..];
    }
  }

  /** The pattern built from a non-empty list of terms is the alternation of
      exactly those terms, each matched literally, tried in list order. */
  lemma PatternAlternativesAreTerms(sortedTerms: seq<string>)
    requires |sortedTerms| >= 1
    ensures LiteralAlternatives(PatternSource(sortedTerms)) == sortedTerms
  {
    var escaped := EscapeAll(sortedTerms);
    forall k | 0 <= k < |escaped|
      ensures IsEscapedLiteral(escaped[k]) && Unescape(escaped[k]) == sortedTerms[k]
    {
      EscapeRoundTrip(sortedTerms[k]);
    }
    JoinThenSplit(escaped);
    var source := PatternSource(sortedTerms);
    assert source[1..|source| - 1] == JoinAlternatives(escaped);
  }
}
