/** `text.split(regex).filter(Boolean)` (src/components/slang-analyzer.tsx,
    line 81) for a global pattern `(a1|a2|...)` whose alternatives are
    literal strings.

    `String.prototype.split` hands over to `RegExp.prototype[@@split]`
    (section 22.2.6.14 of ECMA-262). That algorithm keeps two indices: `p`,
    where the current piece began, and `q`, where the next match is tried.
    A match at `q` that ends at `e` emits the piece `S[p..q]` followed by the
    captured text, and both indices jump to `e`; where nothing matches, or
    where the match ends at `p` (an empty match right after the previous
    one), `q` advances by one. The rest of the string is the last piece. */
module RegexSplit {
  import opened SlangTypes
  import opened RegexEscape
  import opened TermOrder

  /** The alternative the engine takes at index `i`: the first one, in order,
      that occurs there. */
  function FirstMatch(alts: seq<string>, s: string, i: nat): (m: Option<string>)
    ensures m.Some? ==> m.value in alts && OccursAt(m.value, s, i)
    ensures m.None? ==> forall a :: a in alts ==> !OccursAt(a, s, i)
    decreases |alts|
  {
    if alts == [] then None
    else if OccursAt(alts[0], s, i) then Some(alts[0])
    else FirstMatch(alts[1..], s, i)
  }

  /** With the alternatives ordered longest first, the first alternative that
      occurs is a longest one that occurs. */
  lemma {:induction false} FirstMatchIsLongest(alts: seq<string>, s: string, i: nat)
    requires NonIncreasingLength(alts)
    requires FirstMatch(alts, s, i).Some?
    ensures forall a :: a in alts && OccursAt(a, s, i) ==> |a| <= |FirstMatch(alts, s, i).value|
    decreases |alts|
  {
    if !OccursAt(alts[0], s, i) {
      FirstMatchIsLongest(alts[1..], s, i);
      assert alts == [alts[0]] + alts[1..];
    }
  }

  /** The loop of `RegExp.prototype[@@split]` from the state (`p`, `q`). */
  function SplitFrom(alts: seq<string>, s: string, p: nat, q: nat): seq<string>
    requires p <= q <= |s|
    decreases |s| - q, q - p
  {
    if q == |s| then [s[p..]]
    else match FirstMatch(alts, s, q)
      case None => SplitFrom(alts, s, p, q + 1)
      case Some(t) =>
        var e := q + |t|;
        if e == p then SplitFrom(alts, s, p, q + 1)
        else [s[p..q], t] + SplitFrom(alts, s, e, e)
  }

  /** One step of the loop at a match of a non-empty alternative: the piece
      before it and the match are emitted, and the loop goes on after it. */
  lemma SplitFromMatch(alts: seq<string>, s: string, p: nat, q: nat, t: string)
    requires p <= q < |s|
    requires FirstMatch(alts, s, q) == Some(t) && t != []
    ensures q + |t| <= |s|
    ensures SplitFrom(alts, s, p, q) == [s[p..q], t] + SplitFrom(alts, s, q + |t|, q + |t|)
  {
  }

  /** `s.split(regex)`. An empty string is a special case of the algorithm:
      it yields no piece when the pattern matches there and one empty piece
      otherwise. */
  function Split(alts: seq<string>, s: string): seq<string> {
    if |s| == 0 then
      if FirstMatch(alts, s, 0).Some? then [] else [s]
    else SplitFrom(alts, s, 0, 0)
  }

  /** The pieces glued back together. */
  function Concat(parts: seq<string>): string
    decreases |parts|
  {
    if parts == [] then [] else parts[0] + Concat(parts[1..])
  }

  lemma {:induction false} ConcatAppend(a: seq<string>, b: seq<string>)
    ensures Concat(a + b) == Concat(a) + Concat(b)
    decreases |a|
  {
    if a == [] {
      assert a + b == b;
    } else {
      ConcatAppend(a[1..], b);
      assert (a + b)[1..] == a[1..] + b;
    }
  }

  /** `.filter(Boolean)`: the empty strings are the only falsy pieces. */
  function NonEmptyParts(parts: seq<string>): seq<string>
    decreases |parts|
  {
    if parts == [] then []
    else if parts[0] == [] then NonEmptyParts(parts[1..])
    else [parts[0]] + NonEmptyParts(parts[1..])
  }

  /** Filtering leaves only non-empty pieces and, since it drops only empty
      ones, the pieces still spell out the same text. */
  lemma {:induction false} NonEmptyPartsKeepsText(parts: seq<string>)
    ensures forall k :: 0 <= k < |NonEmptyParts(parts)| ==> NonEmptyParts(parts)[k] != []
    ensures Concat(NonEmptyParts(parts)) == Concat(parts)
    decreases |parts|
  {
    if parts != [] {
      NonEmptyPartsKeepsText(parts[1..]);
      var rest := NonEmptyParts(parts[1..]);
      if parts[0] != [] {
        var r := [parts[0]] + rest;
        assert r[1..] == rest;
        forall k | 0 <= k < |r| ensures r[k] != [] {
          if k > 0 {
            assert r[k] == rest[k - 1];
          }
        }
      }
    }
  }

  lemma {:induction false} NonEmptyPartsAppend(a: seq<string>, b: seq<string>)
    ensures NonEmptyParts(a + b) == NonEmptyParts(a) + NonEmptyParts(b)
    decreases |a|
  {
    if a == [] {
      assert a + b == b;
    } else {
      var ab := a + b;
      assert ab[0] == a[0] && ab[1..] == a[1..] + b;
      NonEmptyPartsAppend(a[1..], b);
      var lead: seq<string> := if a[0] == [] then [] else [a[0]];
      calc {
        NonEmptyParts(ab);
        lead + NonEmptyParts(a[1..] + b);
        lead + (NonEmptyParts(a[1..]) + NonEmptyParts(b));
        (lead + NonEmptyParts(a[1..])) + NonEmptyParts(b);
      }
    }
  }

  /** The two pieces a match emits, in front of pieces that spell out the
      rest after the match, spell out the rest from where the piece began. */
  lemma MatchPiecesConcat(s: string, p: nat, q: nat, t: string, rest: seq<string>)
    requires p <= q && OccursAt(t, s, q)
    requires Concat(rest) == s[q + |t|..]
    ensures Concat([s[p..q], t] + rest) == s[p..]
  {
    ConcatAppend([s[p..q], t], rest);
    assert Concat([s[p..q], t]) == s[p..q] + (t + Concat([]));
    assert s[p..] == s[p..q] + s[q..q + |t|] + s[q + |t|..];
  }

  /** Every loop state emits pieces that spell out the rest of the string
      from where the current piece began. */
  lemma {:induction false} SplitFromConcat(alts: seq<string>, s: string, p: nat, q: nat)
    requires p <= q <= |s|
    ensures Concat(SplitFrom(alts, s, p, q)) == s[p..]
    decreases |s| - q, q - p
  {
    if q == |s| {
      assert Concat([s[p..]]) == s[p..] + Concat([]);
    } else {
      var m := FirstMatch(alts, s, q);
      if m.None? || q + |m.value| == p {
        assert SplitFrom(alts, s, p, q) == SplitFrom(alts, s, p, q + 1);
        SplitFromConcat(alts, s, p, q + 1);
      } else {
        var e := q + |m.value|;
        assert SplitFrom(alts, s, p, q) == [s[p..q], m.value] + SplitFrom(alts, s, e, e);
        SplitFromConcat(alts, s, e, e);
        MatchPiecesConcat(s, p, q, m.value, SplitFrom(alts, s, e, e));
      }
    }
  }

  /** Splitting loses and invents nothing: the pieces, with or without the
      empty ones, concatenate to the input. This holds for any list of
      alternatives, including one with the empty string in it. */
  lemma SplitRoundTrip(alts: seq<string>, s: string)
    ensures Concat(Split(alts, s)) == s
    ensures Concat(NonEmptyParts(Split(alts, s))) == s
  {
    if |s| != 0 {
      SplitFromConcat(alts, s, 0, 0);
    }
    NonEmptyPartsKeepsText(Split(alts, s));
  }
}
