/** `renderAnalyzedText` meets the description of `Highlighting`: the
    regular-expression split over the sorted, escaped terms cuts the text
    exactly where the longest terms start and end. */
module RenderCorrectness {
  import opened SlangTypes
  import opened RegexEscape
  import opened TermOrder
  import opened RegexSplit
  import opened AnalyzedText
  import opened Highlighting

  /** With the terms sorted longest first, the alternative the engine picks
      at an index is the longest analysis term there. */
  lemma FirstSortedMatch(analysis: seq<Item>, s: string, q: nat)
    ensures FirstMatch(SortedTerms(analysis), s, q) == LongestTermAt(analysis, s, q)
  {
    var terms := Terms(analysis);
    var sorted := SortedTerms(analysis);
    SortedTermsAreTheTerms(terms);
    LongestTermAtIsLongest(analysis, s, q);
    forall k | 0 <= k < |analysis| ensures analysis[k].term in sorted {
      assert terms[k] == analysis[k].term;
    }
    var m := FirstMatch(sorted, s, q);
    var l := LongestTermAt(analysis, s, q);
    if m.Some? {
      FirstMatchIsLongest(sorted, s, q);
      var i :| 0 <= i < |terms| && terms[i] == m.value;
      assert analysis[i].term == m.value;
      var k :| 0 <= k < |analysis| && analysis[k].term == l.value;
      SameLengthSameText(m.value, l.value, s, q);
    }
  }

  /** `m` maps every analysis term, and nothing else, to the last analysis
      item with that term: what `SlangMap` builds (`SlangMapTakesLatest`). */
  ghost predicate KeysAreLatest(analysis: seq<Item>, m: map<string, Item>) {
    forall t :: (t in m <==> LastWithTerm(analysis, t).Some?)
                && (t in m ==> m[t] == LastWithTerm(analysis, t).value)
  }

  /** The longest term at an index is a key of the map, and the map shows
      the last item carrying it. */
  lemma LongestTermIsKey(analysis: seq<Item>, m: map<string, Item>, s: string, q: nat, t: string)
    requires KeysAreLatest(analysis, m)
    requires LongestTermAt(analysis, s, q) == Some(t)
    ensures t in m && LastWithTerm(analysis, t) == Some(m[t]) && m[t].term == t
    ensures OccursAt(t, s, q)
  {
    LongestTermAtIsLongest(analysis, s, q);
    LastWithTermIsLatest(analysis, t);
  }

  /** A slang segment for the longest term at `q`, showing the last item with
      that term, can be put in front of a highlighting from where it ends. */
  lemma PrependSlangItem(analysis: seq<Item>, s: string, q: nat, item: Item, tail: seq<Segment>)
    requires item.term != [] && OccursAt(item.term, s, q)
    requires LongestTermAt(analysis, s, q) == Some(item.term)
    requires LastWithTerm(analysis, item.term) == Some(item)
    requires Highlights(analysis, s, q + |item.term|, tail)
    ensures Highlights(analysis, s, q, [Slang(item)] + tail)
  {
    var segs := [Slang(item)] + tail;
    assert segs[0] == Slang(item) && segs[1..] == tail;
    assert NonEmptyHighlights(analysis, s, q, segs);
  }

  /** A non-empty longest term at `q`, shown with its map entry, can head the
      highlighting from `q`. */
  lemma PrependSlang(analysis: seq<Item>, m: map<string, Item>, s: string, q: nat, t: string, tail: seq<Segment>)
    requires KeysAreLatest(analysis, m)
    requires t != [] && LongestTermAt(analysis, s, q) == Some(t)
    requires Highlights(analysis, s, q + |t|, tail)
    ensures t in m
    ensures Highlights(analysis, s, q, [Slang(m[t])] + tail)
  {
    LongestTermIsKey(analysis, m, s, q, t);
    PrependSlangItem(analysis, s, q, m[t], tail);
  }

  /** A stretch `[p, q)` with no term in it, followed by a highlighting that
      is empty or starts with a slang segment, can be prepended as one plain
      segment. */
  lemma PrependPlain(analysis: seq<Item>, s: string, p: nat, q: nat, tail: seq<Segment>)
    requires p < q <= |s|
    requires PlainRun(analysis, s, p, q - p)
    requires tail != [] ==> tail[0].Slang?
    requires Highlights(analysis, s, q, tail)
    ensures Highlights(analysis, s, p, [Plain(s[p..q])] + tail)
  {
    var segs := [Plain(s[p..q])] + tail;
    assert segs[0] == Plain(s[p..q]) && segs[1..] == tail;
    assert |segs| > 1 ==> segs[1] == tail[0];
    assert NonEmptyHighlights(analysis, s, p, segs);
  }

  /** A piece `s[p..q]` that starts where no term starts is not a key. */
  lemma PlainPieceIsNotKey(analysis: seq<Item>, m: map<string, Item>, s: string, p: nat, q: nat)
    requires KeysAreLatest(analysis, m)
    requires p <= q <= |s|
    requires LongestTermAt(analysis, s, p).None?
    ensures s[p..q] !in m
  {
    LongestTermAtIsLongest(analysis, s, p);
    forall k | 0 <= k < |analysis| ensures analysis[k].term != s[p..q] {
      assert !OccursAt(analysis[k].term, s, p);
      assert OccursAt(s[p..q], s, p);
    }
    LastWithTermIsLatest(analysis, s[p..q]);
  }

  /** Filtering and classifying the pieces of one match step. */
  lemma StepPieces(m: map<string, Item>, w: string, t: string, rest: seq<string>)
    requires t != [] && t in m && w !in m
    ensures Classify(NonEmptyParts([w, t] + rest), m)
         == (if w == [] then [] else [Plain(w)]) + ([Slang(m[t])] + Classify(NonEmptyParts(rest), m))
  {
    NonEmptyPartsAppend([w, t], rest);
    NonEmptyPartsAppend([w], [t]);
    assert [w, t] == [w] + [t];
    assert NonEmptyParts([t]) == [t];
    var lead: seq<string> := if w == [] then [] else [w];
    assert NonEmptyParts([w]) == lead;
    assert NonEmptyParts([w, t] + rest) == lead + ([t] + NonEmptyParts(rest));
    ClassifyAppend(lead, [t] + NonEmptyParts(rest), m);
    ClassifyAppend([t], NonEmptyParts(rest), m);
    assert Classify([t], m) == [Slang(m[t])];
    assert Classify(lead, m) == if w == [] then [] else [Plain(w)];
  }

  /** Filtering and classifying the last piece of the split. */
  lemma LastPieceSegments(m: map<string, Item>, w: string)
    requires w !in m
    ensures Classify(NonEmptyParts([w]), m) == if w == [] then [] else [Plain(w)]
  {
    if w != [] {
      assert NonEmptyParts([w]) == [w];
    } else {
      assert NonEmptyParts([w]) == [];
    }
  }

  /** A non-empty last piece with no term in it is one plain segment. */
  lemma LastPlainPiece(analysis: seq<Item>, m: map<string, Item>, s: string, p: nat)
    requires KeysAreLatest(analysis, m)
    requires p < |s|
    requires PlainRun(analysis, s, p, |s| - p)
    ensures s[p..] !in m
    ensures Highlights(analysis, s, p, [Plain(s[p..])])
  {
    PlainRunStart(analysis, s, p, |s| - p);
    PlainPieceIsNotKey(analysis, m, s, p, |s|);
    PrependPlain(analysis, s, p, |s|, []);
    assert s[p..|s|] == s[p..];
    assert [Plain(s[p..|s|])] + [] == [Plain(s[p..])];
  }

  /** The last piece of the split, when no term starts in it. */
  lemma LastPieceHighlights(analysis: seq<Item>, m: map<string, Item>, s: string, p: nat)
    requires KeysAreLatest(analysis, m)
    requires p <= |s|
    requires PlainRun(analysis, s, p, |s| - p)
    ensures Highlights(analysis, s, p, Classify(NonEmptyParts([s[p..]]), m))
  {
    if p < |s| {
      LastPlainPiece(analysis, m, s, p);
      LastPieceSegments(m, s[p..]);
    } else {
      assert NonEmptyParts([s[p..]]) == [];
    }
  }

  /** One match step of the split: the plain stretch before the match (if
      any) and the matched term, in front of the highlighting of the rest. */
  lemma MatchStepHighlights(analysis: seq<Item>, m: map<string, Item>, s: string, p: nat, q: nat, t: string,
                            rest: seq<string>)
    requires KeysAreLatest(analysis, m)
    requires forall k :: 0 <= k < |analysis| ==> analysis[k].term != []
    requires p <= q < |s|
    requires PlainRun(analysis, s, p, q - p)
    requires t != [] && LongestTermAt(analysis, s, q) == Some(t)
    requires Highlights(analysis, s, q + |t|, Classify(NonEmptyParts(rest), m))
    ensures Highlights(analysis, s, p, Classify(NonEmptyParts([s[p..q], t] + rest), m))
  {
    var restSegs := Classify(NonEmptyParts(rest), m);
    PrependSlang(analysis, m, s, q, t, restSegs);
    var tail := [Slang(m[t])] + restSegs;
    if p < q {
      PlainRunStart(analysis, s, p, q - p);
      PlainPieceIsNotKey(analysis, m, s, p, q);
      StepPieces(m, s[p..q], t, rest);
      PrependPlain(analysis, s, p, q, tail);
    } else {
      assert s[p..q] == [];
      LastWithTermIsLatest(analysis, []);
      StepPieces(m, s[p..q], t, rest);
      assert [] + tail == tail;
    }
  }

  /** When no analysis term is empty, neither is the longest one. */
  lemma LongestTermIsNonEmpty(analysis: seq<Item>, s: string, q: nat)
    requires forall k :: 0 <= k < |analysis| ==> analysis[k].term != []
    requires LongestTermAt(analysis, s, q).Some?
    ensures LongestTermAt(analysis, s, q).value != []
  {
    LongestTermAtIsLongest(analysis, s, q);
  }

  /** The engine, trying the alternatives `alts` in order, picks the
      longest analysis term at every index of `s`. */
  ghost predicate PicksLongest(analysis: seq<Item>, alts: seq<string>, s: string) {
    forall q: nat {:trigger LongestTermAt(analysis, s, q)} ::
      q < |s| ==> FirstMatch(alts, s, q) == LongestTermAt(analysis, s, q)
  }

  /** A match at `q` during the split loop: what the loop yields from
      (`p`, `q`) is the highlighting of `s[p..]` when what it yields after the
      match is the highlighting of the rest. */
  lemma MatchCase(analysis: seq<Item>, alts: seq<string>, m: map<string, Item>, s: string, p: nat, q: nat,
                  restSegs: seq<Segment>, segs: seq<Segment>)
    requires KeysAreLatest(analysis, m)
    requires forall k :: 0 <= k < |analysis| ==> analysis[k].term != []
    requires PicksLongest(analysis, alts, s)
    requires p <= q < |s|
    requires PlainRun(analysis, s, p, q - p)
    requires FirstMatch(alts, s, q).Some?
    requires restSegs == Classify(NonEmptyParts(SplitFrom(alts, s, q + |FirstMatch(alts, s, q).value|,
                                                          q + |FirstMatch(alts, s, q).value|)), m)
    requires segs == Classify(NonEmptyParts(SplitFrom(alts, s, p, q)), m)
    ensures Highlights(analysis, s, q + |FirstMatch(alts, s, q).value|, restSegs) ==> Highlights(analysis, s, p, segs)
  {
    var t := FirstMatch(alts, s, q).value;
    assert FirstMatch(alts, s, q) == LongestTermAt(analysis, s, q);
    LongestTermIsNonEmpty(analysis, s, q);
    if Highlights(analysis, s, q + |t|, restSegs) {
      SplitFromMatch(alts, s, p, q, t);
      var rest := SplitFrom(alts, s, q + |t|, q + |t|);
      MatchStepHighlights(analysis, m, s, p, q, t, rest);
      assert segs == Classify(NonEmptyParts([s[p..q], t] + rest), m);
    }
  }

  /** The end of the split loop: the rest of the string is the last piece. */
  lemma LastCase(analysis: seq<Item>, alts: seq<string>, m: map<string, Item>, s: string, p: nat,
                 segs: seq<Segment>)
    requires KeysAreLatest(analysis, m)
    requires p <= |s|
    requires PlainRun(analysis, s, p, |s| - p)
    requires segs == Classify(NonEmptyParts(SplitFrom(alts, s, p, |s|)), m)
    ensures Highlights(analysis, s, p, segs)
  {
    LastPieceHighlights(analysis, m, s, p);
  }

  /** What the engine matches is never empty, so the loop makes progress. */
  lemma MatchIsNonEmpty(analysis: seq<Item>, alts: seq<string>, s: string, q: nat)
    requires forall k :: 0 <= k < |analysis| ==> analysis[k].term != []
    requires PicksLongest(analysis, alts, s)
    requires q < |s|
    requires FirstMatch(alts, s, q).Some?
    ensures FirstMatch(alts, s, q).value != []
  {
    assert FirstMatch(alts, s, q) == LongestTermAt(analysis, s, q);
    LongestTermIsNonEmpty(analysis, s, q);
  }

  /** No match at `q`: the loop moves on to `q + 1` within the same piece,
      and the stretch without terms grows by one. */
  lemma NoMatchCase(analysis: seq<Item>, alts: seq<string>, s: string, p: nat, q: nat)
    requires PicksLongest(analysis, alts, s)
    requires p <= q < |s|
    requires PlainRun(analysis, s, p, q - p)
    requires FirstMatch(alts, s, q).None?
    ensures PlainRun(analysis, s, p, q + 1 - p)
    ensures SplitFrom(alts, s, p, q) == SplitFrom(alts, s, p, q + 1)
  {
    assert FirstMatch(alts, s, q) == LongestTermAt(analysis, s, q);
  }

  /** One turn of the split loop, from state (`p`, `q`) to the next state
      (`p2`, `q2`): the highlighting of what the loop yields from the next
      state extends to one of what it yields from this one. */
  lemma LoopStep(analysis: seq<Item>, alts: seq<string>, m: map<string, Item>,
                 s: string, p: nat, q: nat, segs: seq<Segment>)
      returns (p2: nat, q2: nat, segs2: seq<Segment>)
    requires KeysAreLatest(analysis, m)
    requires forall k :: 0 <= k < |analysis| ==> analysis[k].term != []
    requires PicksLongest(analysis, alts, s)
    requires p <= q < |s|
    requires PlainRun(analysis, s, p, q - p)
    requires segs == Classify(NonEmptyParts(SplitFrom(alts, s, p, q)), m)
    ensures q < q2 && p2 <= q2 <= |s|
    ensures PlainRun(analysis, s, p2, q2 - p2)
    ensures segs2 == Classify(NonEmptyParts(SplitFrom(alts, s, p2, q2)), m)
    ensures Highlights(analysis, s, p2, segs2) ==> Highlights(analysis, s, p, segs)
  {
    if FirstMatch(alts, s, q).None? {
      NoMatchCase(analysis, alts, s, p, q);
      p2, q2, segs2 := p, q + 1, segs;
    } else {
      MatchIsNonEmpty(analysis, alts, s, q);
      var e := q + |FirstMatch(alts, s, q).value|;
      segs2 := Classify(NonEmptyParts(SplitFrom(alts, s, e, e)), m);
      MatchCase(analysis, alts, m, s, p, q, segs2, segs);
      p2, q2 := e, e;
    }
  }

  /** The split loop from state (`p`, `q`), where no term starts in `[p, q)`,
      filtered and classified, is the highlighting of `s[p..]`. */
  lemma {:induction false} SplitFromHighlights(analysis: seq<Item>, alts: seq<string>, m: map<string, Item>,
                                               s: string, p: nat, q: nat, segs: seq<Segment>)
    requires KeysAreLatest(analysis, m)
    requires forall k :: 0 <= k < |analysis| ==> analysis[k].term != []
    requires PicksLongest(analysis, alts, s)
    requires p <= q <= |s|
    requires PlainRun(analysis, s, p, q - p)
    requires segs == Classify(NonEmptyParts(SplitFrom(alts, s, p, q)), m)
    ensures Highlights(analysis, s, p, segs)
    decreases |s| - q
  {
    if q == |s| {
      LastCase(analysis, alts, m, s, p, segs);
    } else {
      var p2, q2, segs2 := LoopStep(analysis, alts, m, s, p, q, segs);
      SplitFromHighlights(analysis, alts, m, s, p2, q2, segs2);
    }
  }

  /** Main theorem: when every analysis term is non-empty, the rendered
      segments are the highlighting of the whole text. */
  lemma RenderHighlights(text: string, analysis: seq<Item>)
    requires |analysis| > 0
    requires forall k :: 0 <= k < |analysis| ==> analysis[k].term != []
    ensures RenderAnalyzedText(text, analysis).Highlighted?
    ensures Highlights(analysis, text, 0, RenderAnalyzedText(text, analysis).segments)
  {
    var sorted := SortedTerms(analysis);
    var m := SlangMap(analysis);
    SortedTermsAreTheTerms(Terms(analysis));
    PatternAlternativesAreTerms(sorted);
    if |text| == 0 {
      assert NonEmptyParts([text]) == [];
    } else {
      forall t ensures (t in m <==> LastWithTerm(analysis, t).Some?)
                       && (t in m ==> m[t] == LastWithTerm(analysis, t).value) {
        SlangMapTakesLatest(analysis, t);
      }
      forall q: nat | q < |text| ensures FirstMatch(sorted, text, q) == LongestTermAt(analysis, text, q) {
        FirstSortedMatch(analysis, text, q);
      }
      SplitFromHighlights(analysis, sorted, m, text, 0, 0, RenderAnalyzedText(text, analysis).segments);
    }
  }
}
