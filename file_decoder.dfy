/** Turning one submitted file into the ordered list of canonical images the
    rest of the pipeline reads (ocr_app/processor.py, `normalize_image` and
    `process_file_input`). Decoding and re-encoding images and rendering PDF
    pages are done by libraries; their outcomes are given as functions. */
module FileDecoder {
  import opened Common

  /** What the image library does with a byte string: it either fails to
      decode it, or re-encodes it as an RGB JPEG at quality 95. */
  datatype Reencoded = Undecodable | Jpeg(bytes: Bytes)

  /** What the PDF library does at each step of the page loop: it renders
      the next page as JPEG bytes, or it raises (a corrupt file raises when it
      is opened, before the first page). The loop ends at the first raise. */
  datatype PageOutcome = Rendered(jpeg: Bytes) | RenderRaised

  /** The pages rendered before the first failure, in page order. */
  function PagesBeforeFailure(outcomes: seq<PageOutcome>): (r: seq<Bytes>)
    ensures |r| <= |outcomes|
    ensures forall i :: 0 <= i < |r| ==> outcomes[i] == Rendered(r[i])
    ensures |r| < |outcomes| ==> outcomes[|r|].RenderRaised?
    decreases |outcomes|
  {
    if outcomes == [] || outcomes[0].RenderRaised? then []
    else [outcomes[0].jpeg] + PagesBeforeFailure(outcomes[1..])
  }

  /** `normalize_image`: the re-encoded image, or the input itself when the
      image library fails on it. */
  function NormalizeImage(reencode: Bytes -> Reencoded, image: Bytes): (r: Bytes)
    ensures reencode(image).Undecodable? ==> r == image
    ensures reencode(image).Jpeg? ==> r == reencode(image).bytes
  {
    match reencode(image)
    case Undecodable => image
    case Jpeg(bytes) => bytes
  }

  /** The file name test: `filename.lower().endswith('.pdf')`. */
  predicate IsPdfName(name: string)
  {
    EndsWith(Lower(name), ".pdf")
  }

  /** The images one file contributes, as `process_file_input` returns them. */
  function DecodedImages(render: Bytes -> seq<PageOutcome>, reencode: Bytes -> Reencoded,
                         name: string, content: Bytes): seq<Bytes>
  {
    if IsPdfName(name) then Map(page => NormalizeImage(reencode, page), PagesBeforeFailure(render(content)))
    else [NormalizeImage(reencode, content)]
  }

  /** `process_file_input`: a PDF yields one normalized image per page rendered
      before any failure, in page order; any other file yields exactly one
      image. A rendering failure ends the page loop and is swallowed. */
  method ProcessFileInput(render: Bytes -> seq<PageOutcome>, reencode: Bytes -> Reencoded,
                          content: Bytes, name: string)
    returns (images: seq<Bytes>)
    ensures !IsPdfName(name) ==> images == [NormalizeImage(reencode, content)]
    ensures IsPdfName(name) ==>
              var pages := PagesBeforeFailure(render(content));
              |images| == |pages| &&
              forall i :: 0 <= i < |images| ==> images[i] == NormalizeImage(reencode, pages[i])
    ensures images == DecodedImages(render, reencode, name, content)
  {
    images := [];
    if IsPdfName(name) {
      var outcomes := render(content);
      var i := 0;
      while i < |outcomes|
        invariant 0 <= i <= |outcomes| && |images| == i
        invariant forall j :: 0 <= j < i ==> outcomes[j].Rendered? && images[j] == NormalizeImage(reencode, outcomes[j].jpeg)
      {
        match outcomes[i]
        case RenderRaised =>
          break;
        case Rendered(jpeg) =>
          images := images + [NormalizeImage(reencode, jpeg)];
        i := i + 1;
      }
      assert |PagesBeforeFailure(outcomes)| == i;
    } else {
      images := images + [NormalizeImage(reencode, content)];
    }
  }

  /** A failure while rendering page `n + 1` keeps the `n` pages rendered
      before it, whatever the document holds after that page. */
  lemma {:induction false} RenderFailureKeepsRenderedPages(pages: seq<Bytes>, later: seq<PageOutcome>)
    ensures PagesBeforeFailure(Map(p => Rendered(p), pages) + [RenderRaised] + later) == pages
    decreases |pages|
  {
    var outcomes := Map(p => Rendered(p), pages) + [RenderRaised] + later;
    if pages == [] {
      assert outcomes[0] == RenderRaised;
    } else {
      assert outcomes[0] == Rendered(pages[0]);
      assert outcomes[1..] == Map(p => Rendered(p), pages[1..]) + [RenderRaised] + later;
      RenderFailureKeepsRenderedPages(pages[1..], later);
      assert pages == [pages[0]] + pages[1..];
    }
  }

  /** The suffix test ignores the case of the name. */
  lemma {:induction false} PdfNameIgnoresCase(name: string)
    ensures IsPdfName(name) <==> IsPdfName(Lower(name))
  {
    LowerIdempotent(name);
  }

  lemma PdfNameExamples()
    ensures IsPdfName("SCAN.PDF") && IsPdfName("a.Pdf")
    ensures !IsPdfName("scan.pdf.png") && !IsPdfName("pdf")
  {
    assert Lower("SCAN.PDF") == "scan.pdf";
    assert Lower("a.Pdf") == "a.pdf";
    assert Lower("scan.pdf.png") == "scan.pdf.png";
  }
}
