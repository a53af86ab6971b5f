/** The OCR stage (ocr_app/processor.py, `extract_text_with_paddleocr`, and the
    skew-angle fold of `preprocess_image_for_ocr`). The enhancement pass and
    the text recogniser are libraries: what they make of each image is given as
    an `OcrOutcome`. What is modelled is how the per-image results are filtered
    and stitched into one text with a page marker per image. */
module OcrExtractor {
  import opened Common

  /** `OCR_CONFIDENCE_THRESHOLD`. */
  const ConfidenceThreshold: real := 0.80

  /** One recognised line of text with the recogniser's confidence. */
  datatype OcrLine = OcrLine(text: string, confidence: real)

  /** What the recogniser does with one image: it raises, it returns nothing
      (`result` or `result[0]` empty), or it returns lines in its own order. */
  datatype OcrOutcome = OcrRaised | NoText | Recognized(lines: seq<OcrLine>)

  /** The comprehension that keeps the lines whose confidence is strictly
      above the threshold, in the recogniser's order. */
  function Confident(lines: seq<OcrLine>): (r: seq<OcrLine>)
    ensures |r| <= |lines|
    ensures forall l :: l in r ==> l in lines && l.confidence > ConfidenceThreshold
    ensures forall l :: l in lines && l.confidence > ConfidenceThreshold ==> l in r
  {
    if lines == [] then []
    else if lines[0].confidence > ConfidenceThreshold then [lines[0]] + Confident(lines[1..])
    else Confident(lines[1..])
  }

  /** Filtering commutes with concatenation: the kept lines of a list are the
      kept lines of its first part followed by those of its second part. */
  lemma {:induction false} ConfidentKeepsOrder(a: seq<OcrLine>, b: seq<OcrLine>)
    ensures Confident(a + b) == Confident(a) + Confident(b)
  {
    if a == [] {
      assert a + b == b;
    } else {
      assert (a + b)[0] == a[0];
      assert (a + b)[1..] == a[1..] + b;
      ConfidentKeepsOrder(a[1..], b);
    }
  }

  /** A line at exactly the threshold is dropped; one just above it is kept. */
  lemma ThresholdIsStrict(t: string)
    ensures Confident([OcrLine(t, 0.80)]) == []
    ensures Confident([OcrLine(t, 0.81)]) == [OcrLine(t, 0.81)]
  {
  }

  function Texts(lines: seq<OcrLine>): seq<string>
  {
    Map((l: OcrLine) => l.text, lines)
  }

  /** What one image contributes after its marker: the surviving lines joined
      by newlines, or nothing when the recogniser raised or found nothing. */
  function PageText(o: OcrOutcome): string
  {
    match o
    case Recognized(lines) => Join(Texts(Confident(lines)), "\n")
    case _ => ""
  }

  /** An empty recognition result contributes nothing, like no result. */
  lemma NoLinesNoText(o: OcrOutcome)
    ensures PageText(o) == if o.Recognized? && |o.lines| > 0 then Join(Texts(Confident(o.lines)), "\n") else ""
  {
    if o.Recognized? && |o.lines| == 0 {
      assert Texts(Confident(o.lines)) == [];
    }
  }

  /** The part of every page marker that precedes the page number. */
  const MarkerHead: string := "\n--- TEXT FROM PAGE/IMAGE "
  const MarkerTail: string := " ---\n"

  /** The separator written before the text of the `n`-th image (1-based). */
  function PageMarker(n: nat): string
  {
    MarkerHead + Decimal(n) + MarkerTail
  }

  /** What the `n`-th image contributes: its marker, then its text. */
  function Block(n: nat, o: OcrOutcome): string
  {
    PageMarker(n) + PageText(o)
  }

  /** One block per image, in image order. */
  function Blocks(outcomes: seq<OcrOutcome>): seq<string>
  {
    seq(|outcomes|, i requires 0 <= i < |outcomes| => Block(i + 1, outcomes[i]))
  }

  /** Strings written one after the other. */
  function Concat(parts: seq<string>): string
  {
    if parts == [] then "" else Concat(parts[..|parts| - 1]) + parts[|parts| - 1]
  }

  /** The aggregated text for the recogniser's outcomes on the images, in order. */
  function RawText(outcomes: seq<OcrOutcome>): string
  {
    Concat(Blocks(outcomes))
  }

  lemma AppendAssociative(a: string, b: string, c: string)
    ensures (a + b) + c == a + (b + c)
  {
  }

  lemma ConcatStep(parts: seq<string>, i: nat)
    requires i < |parts|
    ensures Concat(parts[..i + 1]) == Concat(parts[..i]) + parts[i]
  {
    assert parts[..i + 1][..i] == parts[..i];
  }

  /** `extract_text_with_paddleocr`: for each image in order, its marker and
      then its filtered text. A failure on one image leaves its marker and
      contributes no text. */
  method ExtractText(ocr: Bytes -> OcrOutcome, images: seq<Bytes>) returns (text: string)
    ensures text == RawText(Map(ocr, images))
  {
    ghost var blocks := Blocks(Map(ocr, images));
    text := "";
    for i := 0 to |images|
      invariant text == Concat(blocks[..i])
    {
      ghost var before := text;
      text := text + PageMarker(i + 1);
      var outcome := ocr(images[i]);
      NoLinesNoText(outcome);
      match outcome {
        case Recognized(lines) =>
          if |lines| > 0 {
            var kept := Confident(lines);
            text := text + Join(Texts(kept), "\n");
          }
        case _ =>
      }
      assert text == (before + PageMarker(i + 1)) + PageText(outcome);
      AppendAssociative(before, PageMarker(i + 1), PageText(outcome));
      assert blocks[i] == Block(i + 1, outcome);
      ConcatStep(blocks, i);
    }
    assert blocks[..|images|] == blocks;
  }

  lemma {:induction false} ConcatGrows(parts: seq<string>, j: nat)
    requires j <= |parts|
    ensures HasPrefix(Concat(parts), Concat(parts[..j]))
    decreases |parts|
  {
    if j == |parts| {
      assert parts[..j] == parts;
    } else {
      var init := parts[..|parts| - 1];
      ConcatGrows(init, j);
      assert init[..j] == parts[..j];
      var p, a := Concat(parts[..j]), Concat(init);
      assert Concat(parts) == a + parts[|parts| - 1];
      assert (a + parts[|parts| - 1])[..|p|] == a[..|p|];
    }
  }

  /** Block by block: the text of the first `i` images is a prefix of the text
      of all of them, and page `i + 1`'s marker and text follow it directly. */
  lemma RawTextPrefix(outcomes: seq<OcrOutcome>, i: nat)
    requires i < |outcomes|
    ensures HasPrefix(RawText(outcomes), RawText(outcomes[..i]) + Block(i + 1, outcomes[i]))
  {
    var blocks := Blocks(outcomes);
    ConcatGrows(blocks, i + 1);
    ConcatStep(blocks, i);
    assert blocks[..i] == Blocks(outcomes[..i]);
  }

  /** Markers carry distinct page numbers. */
  lemma PageMarkerInjective(a: nat, b: nat)
    requires PageMarker(a) == PageMarker(b)
    ensures a == b
  {
    var ma, mb := PageMarker(a), PageMarker(b);
    assert |Decimal(a)| == |Decimal(b)|;
    assert Decimal(a) == ma[|MarkerHead|..|ma| - |MarkerTail|];
    assert Decimal(b) == mb[|MarkerHead|..|mb| - |MarkerTail|];
    DecimalInjective(a, b);
  }

  /** The number of positions at which `p` occurs in `s`. */
  function Occurrences(s: string, p: string): nat
    requires |p| > 0
    decreases |s|
  {
    if |s| < |p| then 0
    else (if s[..|p|] == p then 1 else 0) + Occurrences(s[1..], p)
  }

  /** A pattern whose only newline is its first character. */
  predicate NewlineLed(p: string)
  {
    |p| > 0 && p[0] == '\n' && forall k :: 1 <= k < |p| ==> p[k] != '\n'
  }

  lemma {:induction false} NoNewlineNoOccurrence(s: string, p: string)
    requires NewlineLed(p)
    requires forall k :: 0 <= k < |s| ==> s[k] != '\n'
    ensures Occurrences(s, p) == 0
    decreases |s|
  {
    if |s| >= |p| {
      assert s[..|p|][0] == s[0];
      NoNewlineNoOccurrence(s[1..], p);
    }
  }

  lemma {:induction false} AbsentNoOccurrence(s: string, p: string)
    requires |p| > 0 && !Contains(s, p)
    ensures Occurrences(s, p) == 0
    decreases |s|
  {
    if |s| >= |p| {
      AbsentNoOccurrence(s[1..], p);
    }
  }

  /** Occurrences of a newline-led pattern do not straddle a boundary that is
      followed by a newline, so they add up across it. */
  lemma {:induction false} OccurrencesSplit(a: string, b: string, p: string)
    requires NewlineLed(p)
    requires b == [] || b[0] == '\n'
    ensures Occurrences(a + b, p) == Occurrences(a, p) + Occurrences(b, p)
    decreases |a|
  {
    if a == [] {
      assert a + b == b;
    } else if |a + b| >= |p| {
      assert (a + b)[1..] == a[1..] + b;
      OccurrencesSplit(a[1..], b, p);
      if |a| >= |p| {
        assert (a + b)[..|p|] == a[..|p|];
      } else {
        assert (a + b)[..|p|][|a|] == b[0];
        assert (a + b)[..|p|] != p;
      }
    }
  }

  lemma {:induction false} MarkerOccursOnce(n: nat, body: string)
    requires !Contains("\n" + body, MarkerHead)
    ensures Occurrences(PageMarker(n) + body, MarkerHead) == 1
  {
    var lead := MarkerHead + Decimal(n) + " ---";
    assert NewlineLed(MarkerHead);
    assert PageMarker(n) + body == lead + ("\n" + body);
    OccurrencesSplit(lead, "\n" + body, MarkerHead);
    AbsentNoOccurrence("\n" + body, MarkerHead);
    assert lead[..|MarkerHead|] == MarkerHead;
    forall k | 0 <= k < |lead[1..]| ensures lead[1..][k] != '\n' {
      if k + 1 >= |MarkerHead| + |Decimal(n)| {
        assert lead[k + 1] == " ---"[k + 1 - |MarkerHead| - |Decimal(n)|];
      } else if k + 1 >= |MarkerHead| {
        assert lead[k + 1] == Decimal(n)[k + 1 - |MarkerHead|];
      }
    }
    NoNewlineNoOccurrence(lead[1..], MarkerHead);
  }

  /** Recognised text that itself reads as the start of a marker. */
  predicate ForgesMarker(o: OcrOutcome)
  {
    Contains("\n" + PageText(o), MarkerHead)
  }

  lemma {:induction false} ConcatOccurrences(parts: seq<string>, p: string)
    requires NewlineLed(p)
    requires forall i :: 0 <= i < |parts| ==> |parts[i]| > 0 && parts[i][0] == '\n'
    requires forall i :: 0 <= i < |parts| ==> Occurrences(parts[i], p) == 1
    ensures Occurrences(Concat(parts), p) == |parts|
    decreases |parts|
  {
    if parts != [] {
      var n := |parts|;
      ConcatOccurrences(parts[..n - 1], p);
      OccurrencesSplit(Concat(parts[..n - 1]), parts[n - 1], p);
    }
  }

  /** Exactly one marker per image, whatever the recogniser did with it, as
      long as no recognised text itself reads as a marker. */
  lemma OneMarkerPerImage(outcomes: seq<OcrOutcome>)
    requires forall i :: 0 <= i < |outcomes| ==> !ForgesMarker(outcomes[i])
    ensures Occurrences(RawText(outcomes), MarkerHead) == |outcomes|
  {
    var blocks := Blocks(outcomes);
    forall i | 0 <= i < |blocks|
      ensures |blocks[i]| > 0 && blocks[i][0] == '\n'
      ensures Occurrences(blocks[i], MarkerHead) == 1
    {
      MarkerOccursOnce(i + 1, PageText(outcomes[i]));
    }
    assert NewlineLed(MarkerHead);
    ConcatOccurrences(blocks, MarkerHead);
  }

  /** The deskew angle. The fold assumes `minAreaRect` reports a skew in
      [-90, 0), as OpenCV releases before 4.5.1 do (later ones report
      (0, 90]); for such a skew the correction lies in (-45, 45]. For any
      angle, the correction undoes the skew up to a quarter turn. */
  function DeskewAngle(angle: real): (r: real)
    ensures -90.0 <= angle < 0.0 ==> -45.0 < r <= 45.0
    ensures r + angle == 0.0 || r + angle == -90.0
  {
    if angle < -45.0 then -(90.0 + angle) else -angle
  }
}
