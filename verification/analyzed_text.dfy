/** `renderAnalyzedText` (src/components/slang-analyzer.tsx, lines 64-94):
    cuts the submitted text into plain stretches and slang terms. The JSX is
    abstracted into a `View`: a single paragraph holding the text, or a
    sequence of segments, each a plain fragment or a slang term carrying the
    analysis item its popover shows. */
module AnalyzedText {
  import opened SlangTypes
  import opened RegexEscape
  import opened TermOrder
  import opened RegexSplit

  datatype Segment = Plain(text: string) | Slang(item: Item) {
    /** The characters of the text this segment stands for. */
    function Text(): string {
      match this
      case Plain(text) => text
      case Slang(item) => item.term
    }
  }

  datatype View = Paragraph(text: string) | Highlighted(segments: seq<Segment>)

  function SegmentsText(segs: seq<Segment>): string
    decreases |segs|
  {
    if segs == [] then [] else segs[0].Text() + SegmentsText(segs[1..])
  }

  /** The text a view displays. */
  function ViewText(v: View): string {
    match v
    case Paragraph(text) => text
    case Highlighted(segs) => SegmentsText(segs)
  }

  /** `analysis.map((s) => s.term)`. */
  function Terms(analysis: seq<Item>): seq<string> {
    seq(|analysis|, k requires 0 <= k < |analysis| => analysis[k].term)
  }

  /** `new Map(analysis.map((item) => [item.term, item]))`: entries are set in
      order, so a later item with the same term replaces an earlier one. */
  function SlangMap(analysis: seq<Item>): map<string, Item>
    decreases |analysis|
  {
    if analysis == [] then map[]
    else
      var last := analysis[|analysis| - 1];
      SlangMap(analysis[..|analysis| - 1])[last.term := last]
  }

  /** The last element of the analysis whose term is `t`, if any. */
  function LastWithTerm(analysis: seq<Item>, t: string): Option<Item>
    decreases |analysis|
  {
    if analysis == [] then None
    else if analysis[|analysis| - 1].term == t then Some(analysis[|analysis| - 1])
    else LastWithTerm(analysis[..|analysis| - 1], t)
  }

  /** `LastWithTerm` finds nothing exactly when no element has the term `t`,
      and otherwise an element with that term and no later element with it. */
  lemma {:induction false} LastWithTermIsLatest(analysis: seq<Item>, t: string)
    ensures LastWithTerm(analysis, t).None? <==> forall k :: 0 <= k < |analysis| ==> analysis[k].term != t
    ensures LastWithTerm(analysis, t).Some? ==>
              exists k :: 0 <= k < |analysis| && analysis[k] == LastWithTerm(analysis, t).value
                && analysis[k].term == t
                && forall j :: k < j < |analysis| ==> analysis[j].term != t
    decreases |analysis|
  {
    if analysis != [] {
      var n := |analysis|;
      var init := analysis[..n - 1];
      LastWithTermIsLatest(init, t);
      assert forall k :: 0 <= k < |init| ==> init[k] == analysis[k];
      if analysis[n - 1].term != t && LastWithTerm(init, t).Some? {
        var k :| 0 <= k < |init| && init[k] == LastWithTerm(init, t).value && init[k].term == t
          && forall j :: k < j < |init| ==> init[j].term != t;
        forall j | k < j < n ensures analysis[j].term != t {
          if j < n - 1 {
            assert analysis[j] == init[j];
          }
        }
      }
    }
  }

  /** Looking a term up in the map yields the analysis item that came last
      with that term; the keys are exactly the terms. */
  lemma {:induction false} SlangMapTakesLatest(analysis: seq<Item>, t: string)
    ensures t in SlangMap(analysis) <==> LastWithTerm(analysis, t).Some?
    ensures t in SlangMap(analysis) ==> SlangMap(analysis)[t] == LastWithTerm(analysis, t).value
    decreases |analysis|
  {
    if analysis != [] {
      var n := |analysis|;
      var init := analysis[..n - 1];
      SlangMapTakesLatest(init, t);
    }
  }

  /** One part of the split, as lines 85-90 show it: an item is always
      truthy, so a part is a slang term exactly when it is a key of the map. */
  function ClassifyPart(part: string, m: map<string, Item>): Segment {
    if part in m then Slang(m[part]) else Plain(part)
  }

  /** `parts.map(...)` with `slangMap.get(part)`. */
  function Classify(parts: seq<string>, m: map<string, Item>): (segs: seq<Segment>)
    ensures |segs| == |parts|
    decreases |parts|
  {
    if parts == [] then [] else [ClassifyPart(parts[0], m)] + Classify(parts[1..], m)
  }

  lemma {:induction false} ClassifyAppend(a: seq<string>, b: seq<string>, m: map<string, Item>)
    ensures Classify(a + b, m) == Classify(a, m) + Classify(b, m)
    decreases |a|
  {
    if a == [] {
      assert a + b == b;
    } else {
      var ab := a + b;
      assert ab[0] == a[0] && ab[1..] == a[1..] + b;
      ClassifyAppend(a[1..], b, m);
      calc {
        Classify(ab, m);
        [ClassifyPart(a[0], m)] + Classify(a[1..] + b, m);
        [ClassifyPart(a[0], m)] + (Classify(a[1..], m) + Classify(b, m));
        ([ClassifyPart(a[0], m)] + Classify(a[1..], m)) + Classify(b, m);
      }
    }
  }

  /** When every key of the map names an item with that term, classifying
      keeps each part's text, so the segments spell out the parts. */
  lemma {:induction false} ClassifyKeepsText(parts: seq<string>, m: map<string, Item>)
    requires forall t :: t in m ==> m[t].term == t
    ensures forall k :: 0 <= k < |parts| ==> Classify(parts, m)[k].Text() == parts[k]
    ensures SegmentsText(Classify(parts, m)) == Concat(parts)
    decreases |parts|
  {
    if parts != [] {
      ClassifyKeepsText(parts[1..], m);
      var segs := Classify(parts, m);
      assert segs[1..] == Classify(parts[1..], m);
      forall k | 0 <= k < |parts| ensures segs[k].Text() == parts[k] {
        if k > 0 {
          assert segs[k] == Classify(parts[1..], m)[k - 1];
        }
      }
    }
  }

  /** The terms sorted longest first (lines 71-73). */
  function SortedTerms(analysis: seq<Item>): seq<string> {
    SortByLengthDesc(Terms(analysis))
  }

  /** `renderAnalyzedText(text, analysis)`. The second emptiness check of the
      source (lines 75-77) is left out: it can only see a list as long as the
      analysis, which is non-empty there (`SortedTermsAreTheTerms`). */
  function RenderAnalyzedText(text: string, analysis: seq<Item>): View {
    if |analysis| == 0 then Paragraph(text)
    else
      var slangMap := SlangMap(analysis);
      var sortedTerms := SortedTerms(analysis);
      var regex := PatternSource(sortedTerms);
      var parts := NonEmptyParts(Split(LiteralAlternatives(regex), text));
      Highlighted(Classify(parts, slangMap))
  }

  /** Rendering gives back exactly the text, for any analysis (even one with
      an empty term), and never produces an empty segment. */
  lemma RenderRoundTrip(text: string, analysis: seq<Item>)
    ensures ViewText(RenderAnalyzedText(text, analysis)) == text
    ensures RenderAnalyzedText(text, analysis).Highlighted? ==>
              forall k :: 0 <= k < |RenderAnalyzedText(text, analysis).segments| ==>
                RenderAnalyzedText(text, analysis).segments[k].Text() != []
  {
    if |analysis| > 0 {
      var sorted := SortedTerms(analysis);
      var parts := NonEmptyParts(Split(LiteralAlternatives(PatternSource(sorted)), text));
      SplitRoundTrip(LiteralAlternatives(PatternSource(sorted)), text);
      NonEmptyPartsKeepsText(Split(LiteralAlternatives(PatternSource(sorted)), text));
      var m := SlangMap(analysis);
      forall t | t in m ensures m[t].term == t {
        SlangMapTakesLatest(analysis, t);
        LastWithTermIsLatest(analysis, t);
      }
      ClassifyKeepsText(parts, m);
    }
  }

  /** An empty analysis renders the whole text as one plain paragraph. */
  lemma EmptyAnalysisRendersPlain(text: string)
    ensures RenderAnalyzedText(text, []) == Paragraph(text)
  {
  }
}
