/** What a correct highlighting of a text is, stated without reference to
    regular expressions: the text is cut into segments, each slang segment is
    the longest analysis term starting where it starts (shown with the last
    analysis item carrying that term), and each plain segment is a maximal
    stretch where no term starts. */
module Highlighting {
  import opened SlangTypes
  import opened RegexEscape
  import opened AnalyzedText
  /** The longest analysis term that starts at index `o` of `s`, if any term
      starts there. Terms of equal length that both start at `o` are the same
      string, so "the" longest one is well defined. */
  ghost function LongestTermAt(analysis: seq<Item>, s: string, o: nat): Option<string>
    decreases |analysis|
  {
    if analysis == [] then None
    else
      var r := LongestTermAt(analysis[1..], s, o);
      var t := analysis[0].term;
      if OccursAt(t, s, o) && (r.None? || |r.value| < |t|) then Some(t) else r
  }

  /** `LongestTermAt` in quantified terms: nothing when no term starts at
      `o`, otherwise a term that starts there and is at least as long as every
      term that starts there. */
  lemma {:induction false} LongestTermAtIsLongest(analysis: seq<Item>, s: string, o: nat)
    ensures LongestTermAt(analysis, s, o).None?
        <==> forall k :: 0 <= k < |analysis| ==> !OccursAt(analysis[k].term, s, o)
    ensures LongestTermAt(analysis, s, o).Some? ==>
              && (exists k :: 0 <= k < |analysis| && analysis[k].term == LongestTermAt(analysis, s, o).value)
              && OccursAt(LongestTermAt(analysis, s, o).value, s, o)
              && forall k :: 0 <= k < |analysis| && OccursAt(analysis[k].term, s, o) ==>
                   |analysis[k].term| <= |LongestTermAt(analysis, s, o).value|
    decreases |analysis|
  {
    if analysis != [] {
      var rest := analysis[1..];
      LongestTermAtIsLongest(rest, s, o);
      assert forall k :: 0 < k < |analysis| ==> analysis[k] == rest[k - 1];
      var r := LongestTermAt(rest, s, o);
      var t := analysis[0].term;
      if OccursAt(t, s, o) && (r.None? || |r.value| < |t|) {
        assert LongestTermAt(analysis, s, o) == Some(t);
      } else {
        assert LongestTermAt(analysis, s, o) == r;
        if r.Some? {
          var j :| 0 <= j < |rest| && rest[j].term == r.value;
          assert analysis[j + 1].term == r.value;
        }
      }
    }
  }

  /** Two terms of the same length that start at the same index are equal. */
  lemma SameLengthSameText(t: string, u: string, s: string, o: nat)
    requires OccursAt(t, s, o) && OccursAt(u, s, o) && |t| == |u|
    ensures t == u
  {
  }

  /** No analysis term starts anywhere in `s[o..o + n]`. */
  ghost predicate PlainRun(analysis: seq<Item>, s: string, o: nat, n: nat)
    decreases n
  {
    n == 0 || (PlainRun(analysis, s, o, n - 1) && LongestTermAt(analysis, s, o + n - 1).None?)
  }

  lemma {:induction false} PlainRunMeans(analysis: seq<Item>, s: string, o: nat, n: nat)
    ensures PlainRun(analysis, s, o, n)
        ==> forall j :: o <= j < o + n ==> LongestTermAt(analysis, s, j).None?
    ensures (forall j :: o <= j < o + n ==> LongestTermAt(analysis, s, j).None?)
        ==> PlainRun(analysis, s, o, n)
    decreases n
  {
    if n > 0 {
      var m: nat := n - 1;
      PlainRunMeans(analysis, s, o, m);
      assert PlainRun(analysis, s, o, n) == (PlainRun(analysis, s, o, m) && LongestTermAt(analysis, s, o + m).None?);
      if forall j :: o <= j < o + n ==> LongestTermAt(analysis, s, j).None? {
        assert LongestTermAt(analysis, s, o + m).None?;
        assert forall j :: o <= j < o + m ==> LongestTermAt(analysis, s, j).None?;
      }
      if PlainRun(analysis, s, o, n) {
        forall j | o <= j < o + n ensures LongestTermAt(analysis, s, j).None? {
          if j < o + m {
            assert o <= j < o + m;
          }
        }
      }
    }
  }

  /** No term starts where a plain run starts. */
  lemma {:induction false} PlainRunStart(analysis: seq<Item>, s: string, o: nat, n: nat)
    requires n > 0 && PlainRun(analysis, s, o, n)
    ensures LongestTermAt(analysis, s, o).None?
    decreases n
  {
    if n > 1 {
      PlainRunStart(analysis, s, o, n - 1);
    }
  }

  /** A non-empty highlighting from `o`: the first segment is non-empty and
      spells the text at `o`; a slang segment is the longest term starting
      there, shown with the last analysis item that has that term; a plain
      segment has no term starting anywhere inside it and is followed by a
      slang segment or by the end of the text, so plain stretches are as long
      as they can be; and the other segments are the highlighting from where
      the first one ends. */
  ghost predicate NonEmptyHighlights(analysis: seq<Item>, s: string, o: nat, segs: seq<Segment>)
    requires segs != []
    decreases |segs|, 0
  {
    && segs[0].Text() != []
    && OccursAt(segs[0].Text(), s, o)
    && (match segs[0]
        case Slang(item) =>
          LongestTermAt(analysis, s, o) == Some(item.term) && LastWithTerm(analysis, item.term) == Some(item)
        case Plain(text) =>
          PlainRun(analysis, s, o, |text|) && (|segs| > 1 ==> segs[1].Slang?))
    && Highlights(analysis, s, o + |segs[0].Text()|, segs[1..])
  }

  /** `segs` is the highlighting of `s` from index `o` on: empty at the end
      of the text, and otherwise as `NonEmptyHighlights` describes. */
  ghost predicate Highlights(analysis: seq<Item>, s: string, o: nat, segs: seq<Segment>)
    decreases |segs|, 1
  {
    if segs == [] then o == |s| else NonEmptyHighlights(analysis, s, o, segs)
  }

  lemma SliceSplit(s: string, o: nat, e: nat)
    requires o <= e <= |s|
    ensures s[o..] == s[o..e] + s[e..]
  {
  }

  // The lemmas below take a highlighting as the antecedent of their
  // conclusion rather than as a precondition, so that callers can chain
  // them without re-establishing one.

  /** The first segment of a highlighting is non-empty and spells the text
      where it starts, and the rest is a highlighting from where it ends. */
  lemma HeadFacts(analysis: seq<Item>, s: string, o: nat, segs: seq<Segment>)
    requires segs != []
    ensures Highlights(analysis, s, o, segs) ==>
              && segs[0].Text() != []
              && OccursAt(segs[0].Text(), s, o)
              && Highlights(analysis, s, o + |segs[0].Text()|, segs[1..])
  {
    if Highlights(analysis, s, o, segs) {
      assert NonEmptyHighlights(analysis, s, o, segs);
    }
  }

  /** A leading slang segment is the longest term at its index, shown with
      the last item carrying that term. */
  lemma SlangHeadFacts(analysis: seq<Item>, s: string, o: nat, segs: seq<Segment>)
    requires segs != [] && segs[0].Slang?
    ensures Highlights(analysis, s, o, segs) ==>
              && LongestTermAt(analysis, s, o) == Some(segs[0].item.term)
              && LastWithTerm(analysis, segs[0].item.term) == Some(segs[0].item)
  {
    if Highlights(analysis, s, o, segs) {
      assert NonEmptyHighlights(analysis, s, o, segs);
    }
  }

  /** A leading plain segment has no term starting inside it and is followed
      by a slang segment, if by anything. */
  lemma PlainHeadFacts(analysis: seq<Item>, s: string, o: nat, segs: seq<Segment>)
    requires segs != [] && segs[0].Plain?
    ensures Highlights(analysis, s, o, segs) ==>
              PlainRun(analysis, s, o, |segs[0].text|) && (|segs| > 1 ==> segs[1].Slang?)
  {
    if Highlights(analysis, s, o, segs) {
      assert NonEmptyHighlights(analysis, s, o, segs);
    }
  }

  /** A highlighting spells out the rest of the text. */
  lemma {:induction false} HighlightsSpellsText(analysis: seq<Item>, s: string, o: nat, segs: seq<Segment>)
    ensures Highlights(analysis, s, o, segs) ==> o <= |s| && SegmentsText(segs) == s[o..]
    decreases |segs|
  {
    if segs != [] {
      var e := o + |segs[0].Text()|;
      HeadFacts(analysis, s, o, segs);
      HighlightsSpellsText(analysis, s, e, segs[1..]);
      if e <= |s| {
        SliceSplit(s, o, e);
      }
    }
  }

  /** A highlighting is empty exactly at the end of the text. */
  lemma HighlightsEndsAtEnd(analysis: seq<Item>, s: string, o: nat, segs: seq<Segment>)
    ensures Highlights(analysis, s, o, segs) ==> (segs == [] <==> o == |s|)
  {
    if segs != [] {
      HeadFacts(analysis, s, o, segs);
    }
  }

  /** A highlighting starts with a slang segment exactly where a term starts. */
  lemma FirstSegmentKind(analysis: seq<Item>, s: string, o: nat, segs: seq<Segment>)
    requires segs != []
    ensures Highlights(analysis, s, o, segs) ==> (segs[0].Slang? <==> LongestTermAt(analysis, s, o).Some?)
  {
    if segs[0].Plain? {
      HeadFacts(analysis, s, o, segs);
      PlainHeadFacts(analysis, s, o, segs);
      if Highlights(analysis, s, o, segs) {
        PlainRunStart(analysis, s, o, |segs[0].text|);
      }
    } else {
      SlangHeadFacts(analysis, s, o, segs);
    }
  }

  /** A leading plain segment ends at the end of the text or where a term
      starts. */
  lemma PlainEndsAtTermOrEnd(analysis: seq<Item>, s: string, o: nat, segs: seq<Segment>)
    requires segs != [] && segs[0].Plain?
    ensures Highlights(analysis, s, o, segs) ==>
              o + |segs[0].Text()| == |s| || LongestTermAt(analysis, s, o + |segs[0].Text()|).Some?
  {
    var e := o + |segs[0].Text()|;
    var rest := segs[1..];
    HeadFacts(analysis, s, o, segs);
    PlainHeadFacts(analysis, s, o, segs);
    HighlightsEndsAtEnd(analysis, s, e, rest);
    if rest != [] {
      FirstSegmentKind(analysis, s, e, rest);
      assert rest[0] == segs[1];
    }
  }

  /** Two highlightings that both begin with a plain segment: the first one
      cannot stop earlier than the second. */
  lemma PlainLengthIsDetermined(analysis: seq<Item>, s: string, o: nat, a: seq<Segment>, b: seq<Segment>)
    requires a != [] && a[0].Plain? && b != [] && b[0].Plain?
    ensures Highlights(analysis, s, o, a) && Highlights(analysis, s, o, b) ==> |b[0].Text()| <= |a[0].Text()|
  {
    PlainEndsAtTermOrEnd(analysis, s, o, a);
    HeadFacts(analysis, s, o, b);
    PlainHeadFacts(analysis, s, o, b);
    PlainRunMeans(analysis, s, o, |b[0].text|);
  }

  /** Two highlightings from the same index begin with the same segment. */
  lemma FirstSegmentIsDetermined(analysis: seq<Item>, s: string, o: nat, a: seq<Segment>, b: seq<Segment>)
    requires a != [] && b != []
    ensures Highlights(analysis, s, o, a) && Highlights(analysis, s, o, b) ==> a[0] == b[0]
  {
    FirstSegmentKind(analysis, s, o, a);
    FirstSegmentKind(analysis, s, o, b);
    if a[0].Plain? && b[0].Plain? {
      PlainLengthIsDetermined(analysis, s, o, a, b);
      PlainLengthIsDetermined(analysis, s, o, b, a);
      HeadFacts(analysis, s, o, a);
      HeadFacts(analysis, s, o, b);
      if OccursAt(a[0].text, s, o) && OccursAt(b[0].text, s, o) && |a[0].text| == |b[0].text| {
        SameLengthSameText(a[0].text, b[0].text, s, o);
      }
    } else if a[0].Slang? && b[0].Slang? {
      SlangHeadFacts(analysis, s, o, a);
      SlangHeadFacts(analysis, s, o, b);
    }
  }

  /** Two non-empty sequences with the same head and the same tail. */
  lemma SameHeadSameTail(a: seq<Segment>, b: seq<Segment>)
    requires a != [] && b != [] && a[0] == b[0] && a[1..] == b[1..]
    ensures a == b
  {
    assert a == [a[0]] + a[1..] && b == [b[0]] + b[1..];
  }

  /** At most one highlighting exists: the description above pins the output
      down completely. */
  lemma {:induction false} HighlightsIsUnique(analysis: seq<Item>, s: string, o: nat, a: seq<Segment>, b: seq<Segment>)
    ensures Highlights(analysis, s, o, a) && Highlights(analysis, s, o, b) ==> a == b
    decreases |a|
  {
    HighlightsEndsAtEnd(analysis, s, o, a);
    HighlightsEndsAtEnd(analysis, s, o, b);
    if a != [] && b != [] {
      FirstSegmentIsDetermined(analysis, s, o, a, b);
      HeadFacts(analysis, s, o, a);
      HeadFacts(analysis, s, o, b);
      if a[0] == b[0] {
        HighlightsIsUnique(analysis, s, o + |a[0].Text()|, a[1..], b[1..]);
        if a[1..] == b[1..] {
          SameHeadSameTail(a, b);
        }
      }
    }
  }
}
