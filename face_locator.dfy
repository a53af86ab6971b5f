/** Choosing the face to keep (`detect_and_crop_face`,
    ocr_app/processor.py:176-193): the images are scanned in order, those the
    decoder or the classifier fails on are skipped, and the first image with
    at least one detected box gives the face, cut out along its largest box.
    Decoding, classification and the cropping itself are done by libraries;
    their outcome per image is given as a function, and the chosen crop is
    identified by the image's position and the box. */
module FaceLocator {
  import opened Common

  /** A detection rectangle `(x, y, w, h)` in pixels. */
  datatype Box = Box(x: int, y: int, w: int, h: int)

  function Area(b: Box): int
  {
    b.w * b.h
  }

  /** What happens to one image: it does not decode, the classifier raises,
      or the classifier returns its boxes (possibly none). */
  datatype FaceOutcome = Undecodable | Raised | Detected(boxes: seq<Box>)

  /** The face kept: which image, and the rectangle cut out of it. */
  datatype FaceHit = FaceHit(image: nat, box: Box)

  predicate HasFace(o: FaceOutcome)
  {
    o.Detected? && |o.boxes| > 0
  }

  /** `sorted(faces, key=w*h, reverse=True)[0]`: the sort is stable, so this
      is the first box of greatest area. */
  function LargestIndex(boxes: seq<Box>): (r: nat)
    requires |boxes| > 0
    ensures r < |boxes|
    ensures forall j :: 0 <= j < |boxes| ==> Area(boxes[j]) <= Area(boxes[r])
    ensures forall j :: 0 <= j < r ==> Area(boxes[j]) < Area(boxes[r])
    decreases |boxes|
  {
    if |boxes| == 1 then 0
    else
      var k := LargestIndex(boxes[..|boxes| - 1]);
      if Area(boxes[|boxes| - 1]) > Area(boxes[k]) then |boxes| - 1 else k
  }

  /** The face the scan settles on, given each image's outcome in order:
      nothing when no image has a box; otherwise the first image that has
      one, with its first box of greatest area. */
  function FindFace(outcomes: seq<FaceOutcome>): (r: Option<FaceHit>)
    ensures r.None? <==> forall i :: 0 <= i < |outcomes| ==> !HasFace(outcomes[i])
    ensures r.Some? ==>
              r.value.image < |outcomes| && HasFace(outcomes[r.value.image]) &&
              (forall j :: 0 <= j < r.value.image ==> !HasFace(outcomes[j])) &&
              r.value.box == outcomes[r.value.image].boxes[LargestIndex(outcomes[r.value.image].boxes)]
    decreases |outcomes|
  {
    if outcomes == [] then None
    else if HasFace(outcomes[0]) then Some(FaceHit(0, outcomes[0].boxes[LargestIndex(outcomes[0].boxes)]))
    else match FindFace(outcomes[1..])
      case None => None
      case Some(hit) => Some(FaceHit(hit.image + 1, hit.box))
  }

  /** `detect_and_crop_face`: a loop over the images that skips failures and
      returns at the first image with a box. */
  method DetectAndCropFace(detect: Bytes -> FaceOutcome, images: seq<Bytes>)
    returns (face: Option<FaceHit>)
    ensures face == FindFace(Map(detect, images))
  {
    ghost var outcomes := Map(detect, images);
    for i := 0 to |images|
      invariant forall j :: 0 <= j < i ==> !HasFace(outcomes[j])
    {
      var outcome := detect(images[i]);
      if outcome.Undecodable? {
        continue;
      }
      if outcome.Raised? {
        continue;
      }
      if |outcome.boxes| > 0 {
        assert outcomes[i] == outcome && HasFace(outcomes[i]);
        ghost var hit := FindFace(outcomes);
        assert hit.Some? && hit.value.image == i;
        return Some(FaceHit(i, outcome.boxes[LargestIndex(outcome.boxes)]));
      }
    }
    return None;
  }

  /** Once an image has a face, the images after it make no difference: the
      scan never looks at them. */
  lemma {:induction false} LaterImagesNeverExamined(outcomes: seq<FaceOutcome>, later: seq<FaceOutcome>)
    requires FindFace(outcomes).Some?
    ensures FindFace(outcomes + later) == FindFace(outcomes)
    decreases |outcomes|
  {
    assert (outcomes + later)[0] == outcomes[0];
    if !HasFace(outcomes[0]) {
      assert (outcomes + later)[1..] == outcomes[1..] + later;
      LaterImagesNeverExamined(outcomes[1..], later);
    }
  }

  /** Boxes of equal area are settled in favour of the one detected first. */
  lemma TiesGoToEarliestBox(a: Box, b: Box)
    requires Area(a) == Area(b)
    ensures LargestIndex([a, b]) == 0
  {
    assert [a, b][..1] == [a];
  }
}
