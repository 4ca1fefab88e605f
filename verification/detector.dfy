/**
 Parsing of the OCR engine's result (`TextDetector.detect`, detector.py).

 The OCR call itself is an input: the list of pages it returned, or `None`.
 Only the first page is read. A dictionary page carries three parallel lists
 (`rec_polys`, `rec_texts`, `rec_scores`), zipped to the shortest; a legacy
 page is a list of `[box, (text, score)]` lines. Either way an entry is kept
 when its score is at least 0.85, in input order, with its box truncated to
 integers and its text and score passed through.
 */
module Detector {
  import opened Wrappers
  import opened Geometry

  /** Entries scoring below this are dropped as noise. */
  const MinConfidence: real := 0.85

  /** A corner as the OCR engine reports it, in floating point. */
  datatype RawPoint = RawPoint(x: real, y: real)

  datatype RawQuad = RawQuad(a: RawPoint, b: RawPoint, c: RawPoint, d: RawPoint)

  /** One line of the legacy format: `[box, (text, score)]`. */
  datatype Line = Line(box: RawQuad, text: string, score: real)

  /** The first page of an OCR result. A dictionary page may lack any of its
      three keys; `Other` is any other object (including `None`). */
  datatype Page =
    | DictPage(recTexts: Option<seq<string>>, recPolys: Option<seq<RawQuad>>, recScores: Option<seq<real>>)
    | ListPage(lines: seq<Line>)
    | Other

  /** One parsed detection: its box, text and confidence. */
  datatype Detection = Detection(box: Quad, text: string, confidence: real)

  /** The `KeyError` raised when a dictionary page has `rec_texts` but not
      another key it reads. */
  datatype DetectError = MissingKey(key: string)

  /** An entry before filtering: box, text, score. */
  type Entry = (RawQuad, string, real)

  /** `n` is `r` truncated toward zero: the integer next to `r` on the side
      of 0, or `r` itself when it is whole. */
  predicate TruncOf(n: int, r: real) {
    && (r >= 0.0 ==> n as real <= r < n as real + 1.0)
    && (r < 0.0 ==> n as real - 1.0 < r <= n as real)
  }

  /** `astype(np.int32)` of one coordinate: truncation toward zero. */
  function TruncToInt(r: real): (n: int)
    ensures r >= 0.0 ==> n as real <= r < n as real + 1.0
    ensures r < 0.0 ==> n as real - 1.0 < r <= n as real
  {
    if r >= 0.0 then r.Floor else -((-r).Floor)
  }

  function ToPoint(p: RawPoint): (q: Point)
    ensures TruncOf(q.x, p.x) && TruncOf(q.y, p.y)
  {
    Point(TruncToInt(p.x), TruncToInt(p.y))
  }

  /** A box with every coordinate truncated toward zero, corners in order. */
  function ToBox(q: RawQuad): (b: Quad)
    ensures TruncOf(b.p0.x, q.a.x) && TruncOf(b.p0.y, q.a.y)
    ensures TruncOf(b.p1.x, q.b.x) && TruncOf(b.p1.y, q.b.y)
    ensures TruncOf(b.p2.x, q.c.x) && TruncOf(b.p2.y, q.c.y)
    ensures TruncOf(b.p3.x, q.d.x) && TruncOf(b.p3.y, q.d.y)
  {
    Quad(ToPoint(q.a), ToPoint(q.b), ToPoint(q.c), ToPoint(q.d))
  }

  /** Python's `zip` of three lists: as long as the shortest, element by element. */
  function Zip3<A, B, C>(a: seq<A>, b: seq<B>, c: seq<C>): (r: seq<(A, B, C)>)
    ensures |r| <= |a| && |r| <= |b| && |r| <= |c|
    ensures |r| == |a| || |r| == |b| || |r| == |c|
    ensures forall i :: 0 <= i < |r| ==> r[i] == (a[i], b[i], c[i])
    decreases |a|
  {
    if |a| == 0 || |b| == 0 || |c| == 0 then []
    else [(a[0], b[0], c[0])] + Zip3(a[1..], b[1..], c[1..])
  }

  /** `score < 0.85` skips the entry, so an entry is kept exactly when its
      score is at least 0.85. */
  function Keep(e: Entry): (b: bool)
    ensures b <==> e.2 >= MinConfidence
  {
    !(e.2 < MinConfidence)
  }

  function ToDetection(e: Entry): Detection {
    Detection(ToBox(e.0), e.1, e.2)
  }

  /** The loop of both formats from entry `i` on: keep, convert, append. */
  function FilterFrom(es: seq<Entry>, i: nat): (r: seq<Detection>)
    requires i <= |es|
    ensures |r| <= |es| - i
    ensures forall k :: 0 <= k < |r| ==> r[k].confidence >= MinConfidence
    decreases |es| - i
  {
    if i == |es| then []
    else (if Keep(es[i]) then [ToDetection(es[i])] else []) + FilterFrom(es, i + 1)
  }

  function FilterEntries(es: seq<Entry>): (r: seq<Detection>)
    ensures |r| <= |es|
    ensures forall k :: 0 <= k < |r| ==> r[k].confidence >= MinConfidence
  {
    FilterFrom(es, 0)
  }

  /** The indices from `i` on of the kept entries, in increasing order. */
  function KeptFrom(es: seq<Entry>, i: nat): (idx: seq<nat>)
    requires i <= |es|
    ensures forall k :: 0 <= k < |idx| ==> i <= idx[k] < |es| && Keep(es[idx[k]])
    decreases |es| - i
  {
    if i == |es| then []
    else (if Keep(es[i]) then [i] else []) + KeptFrom(es, i + 1)
  }

  predicate Increasing(s: seq<nat>) {
    forall k, l :: 0 <= k < l < |s| ==> s[k] < s[l]
  }

  lemma {:induction false} KeptFromIncreasing(es: seq<Entry>, i: nat)
    requires i <= |es|
    ensures Increasing(KeptFrom(es, i))
    decreases |es| - i
  {
    if i < |es| {
      KeptFromIncreasing(es, i + 1);
      var idx := KeptFrom(es, i + 1);
      if Keep(es[i]) {
        var idx0 := KeptFrom(es, i);
        assert idx0 == [i] + idx;
        forall k, l | 0 <= k < l < |idx0|
          ensures idx0[k] < idx0[l]
        {
          assert idx0[l] == idx[l - 1];
          if k > 0 {
            assert idx0[k] == idx[k - 1];
          }
        }
      }
    }
  }

  lemma {:induction false} KeptFromComplete(es: seq<Entry>, i: nat)
    requires i <= |es|
    ensures forall j :: i <= j < |es| && Keep(es[j]) ==> j in KeptFrom(es, i)
    decreases |es| - i
  {
    if i < |es| {
      KeptFromComplete(es, i + 1);
    }
  }

  /** The indices of the kept entries. */
  function KeptIndices(es: seq<Entry>): (idx: seq<nat>)
    ensures forall k :: 0 <= k < |idx| ==> idx[k] < |es| && Keep(es[idx[k]])
    ensures Increasing(idx)
    ensures forall j :: 0 <= j < |es| && Keep(es[j]) ==> j in idx
  {
    KeptFromIncreasing(es, 0);
    KeptFromComplete(es, 0);
    KeptFrom(es, 0)
  }

  lemma {:induction false} FilterFromKeepsOrder(es: seq<Entry>, i: nat)
    requires i <= |es|
    ensures var r, idx := FilterFrom(es, i), KeptFrom(es, i);
            |r| == |idx| && forall k :: 0 <= k < |r| ==> r[k] == ToDetection(es[idx[k]])
    decreases |es| - i
  {
    if i < |es| {
      FilterFromKeepsOrder(es, i + 1);
      var r, idx := FilterFrom(es, i + 1), KeptFrom(es, i + 1);
      var r0, idx0 := FilterFrom(es, i), KeptFrom(es, i);
      if Keep(es[i]) {
        assert r0 == [ToDetection(es[i])] + r && idx0 == [i] + idx;
        forall k | 0 <= k < |r0|
          ensures r0[k] == ToDetection(es[idx0[k]])
        {
          if k > 0 {
            assert r0[k] == r[k - 1] && idx0[k] == idx[k - 1];
          }
        }
      } else {
        assert r0 == r && idx0 == idx;
      }
    }
  }

  /** The filter keeps exactly the entries scoring at least 0.85, in their
      input order, each converted with its text and score unchanged. */
  lemma FilterKeepsOrder(es: seq<Entry>)
    ensures var r, idx := FilterEntries(es), KeptIndices(es);
            |r| == |idx|
            && forall k :: 0 <= k < |r| ==>
                 r[k] == ToDetection(es[idx[k]])
                 && r[k].text == es[idx[k]].1 && r[k].confidence == es[idx[k]].2
  {
    FilterFromKeepsOrder(es, 0);
  }

  /** `TextDetector.detect` after the OCR call. */
  function Detect(result: Option<seq<Page>>): (r: Result<seq<Detection>, DetectError>)
    ensures result.None? || result.value == [] ==> r == Success([])
    ensures r.Failure? <==>
              && result.Some? && |result.value| > 0 && result.value[0].DictPage?
              && result.value[0].recTexts.Some?
              && (result.value[0].recPolys.None? || result.value[0].recScores.None?)
    ensures r.Failure? && result.value[0].recPolys.None? ==> r.error == MissingKey("rec_polys")
    ensures r.Failure? && result.value[0].recPolys.Some? ==> r.error == MissingKey("rec_scores")
    ensures r.Success? ==> forall k :: 0 <= k < |r.value| ==> r.value[k].confidence >= MinConfidence
  {
    if result.None? || |result.value| == 0 then Success([])
    else
      match result.value[0]
      case DictPage(texts, polys, scores) =>
        if texts.None? then Success([])
        else if polys.None? then Failure(MissingKey("rec_polys"))
        else if scores.None? then Failure(MissingKey("rec_scores"))
        else Success(FilterEntries(Zip3(polys.value, texts.value, scores.value)))
      case ListPage(lines) =>
        Success(FilterEntries(seq(|lines|, i requires 0 <= i < |lines| => (lines[i].box, lines[i].text, lines[i].score))))
      case Other => Success([])
  }

  /** Pages after the first never matter. */
  lemma OnlyFirstPage(p: Page, rest1: seq<Page>, rest2: seq<Page>)
    ensures Detect(Some([p] + rest1)) == Detect(Some([p] + rest2))
  {
  }

  /** A dictionary page without `rec_texts`, or an unrecognised page, parses
      to no detections rather than an error. */
  lemma UnknownFormatIsEmpty(rest: seq<Page>, polys: Option<seq<RawQuad>>, scores: Option<seq<real>>)
    ensures Detect(Some([Other] + rest)) == Success([])
    ensures Detect(Some([DictPage(None, polys, scores)] + rest)) == Success([])
  {
  }

  /** A dictionary page with `rec_texts` raises `KeyError` for the first of
      `rec_polys` and `rec_scores` it lacks, whatever follows it. */
  lemma MissingKeyErrors(texts: seq<string>, polys: seq<RawQuad>, scores: Option<seq<real>>, rest: seq<Page>)
    ensures Detect(Some([DictPage(Some(texts), None, scores)] + rest)) == Failure(MissingKey("rec_polys"))
    ensures Detect(Some([DictPage(Some(texts), Some(polys), None)] + rest)) == Failure(MissingKey("rec_scores"))
  {
  }

  /** A complete dictionary page keeps exactly its confident entries, zipped
      to the shortest of its three lists, in order. */
  lemma DictPageDetections(texts: seq<string>, polys: seq<RawQuad>, scores: seq<real>, rest: seq<Page>)
    ensures var es := Zip3(polys, texts, scores);
            var r := Detect(Some([DictPage(Some(texts), Some(polys), Some(scores))] + rest));
            && r.Success?
            && |r.value| == |KeptIndices(es)|
            && forall k :: 0 <= k < |r.value| ==>
                 var i := KeptIndices(es)[k];
                 i < |polys| && i < |texts| && i < |scores|
                 && r.value[k] == Detection(ToBox(polys[i]), texts[i], scores[i])
                 && scores[i] >= MinConfidence
  {
    FilterKeepsOrder(Zip3(polys, texts, scores));
  }

  /** A legacy page keeps exactly its confident lines, in order. */
  lemma ListPageDetections(lines: seq<Line>, rest: seq<Page>)
    ensures var es := seq(|lines|, i requires 0 <= i < |lines| => (lines[i].box, lines[i].text, lines[i].score));
            var r := Detect(Some([ListPage(lines)] + rest));
            && r.Success?
            && |r.value| == |KeptIndices(es)|
            && forall k :: 0 <= k < |r.value| ==>
                 var i := KeptIndices(es)[k];
                 i < |lines|
                 && r.value[k] == Detection(ToBox(lines[i].box), lines[i].text, lines[i].score)
                 && lines[i].score >= MinConfidence
  {
    FilterKeepsOrder(seq(|lines|, i requires 0 <= i < |lines| => (lines[i].box, lines[i].text, lines[i].score)));
  }
}
