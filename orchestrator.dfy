/** The background task that turns a set of uploaded files into one saved
    document (`process_documents_task`, ocr_app/processor.py:197-238), and
    the language-model step it calls (`structure_data_with_master_prompt`,
    ocr_app/processor.py:150-160).

    The engines the task drives (PDF rendering, image re-encoding, text
    recognition, base64 encoding, the language model, the face classifier
    and the database insert) are given as functions; the progress reports
    and the calls are recorded, in order, as the run's effects. */
module Orchestrator {
  import opened Common
  import opened KeyOrder
  import opened FileDecoder
  import opened OcrExtractor
  import opened Dates
  import opened PostValidator
  import opened FaceLocator

  /** One entry of the submitted dictionary: `(filename, file_bytes)`. */
  datatype SubmittedFile = SubmittedFile(name: string, content: Bytes)

  /** The language model call: the JSON it answered, or the text of the
      exception raised on the way (HTTP error, timeout, unparsable body). */
  datatype LlmReply = Answered(data: Json) | TransportError(message: string)

  /** The arguments of `save_processed_document`. The document is the
      cleaned JSON (its `json.dumps` text is left to the serializer). */
  datatype SaveCall = SaveCall(docType: string, document: Json, originals: seq<Bytes>, face: Option<FaceHit>)

  /** The database insert: the new document's id, or the exception raised. */
  datatype SaveReply = Saved(docId: int) | SaveRaised(message: string)

  datatype Engines = Engines(
    render: Bytes -> seq<PageOutcome>,
    reencode: Bytes -> Reencoded,
    ocr: Bytes -> OcrOutcome,
    base64: Bytes -> string,
    llm: (string, seq<string>) -> LlmReply,
    detect: Bytes -> FaceOutcome,
    save: SaveCall -> SaveReply)

  /** What the task does that the outside world can see, in order. */
  datatype Effect =
    | Progress(status: string)
    | RecognizeText(images: seq<Bytes>)
    | Structure(rawText: string, encodedImages: seq<string>)
    | LocateFace(images: seq<Bytes>)
    | Save(call: SaveCall)

  /** Why a run ends in FAILURE. */
  datatype Failure =
    | NoValidImages(message: string) // no file yielded an image
    | StructuringFailed(error: Json) // the answer is an object with an "error" key
    | ErrorCheckRaised              // `"error" in answer` or `answer["error"]` raised
    | SaveFailed(message: string)   // the insert raised

  /** SUCCESS with `{'status': 'Task Complete!', 'result': doc_id}`, or FAILURE. */
  datatype Outcome = Completed(status: string, docId: int) | Failed(failure: Failure)

  datatype Run = Run(effects: seq<Effect>, outcome: Outcome)

  const NoImagesMessage := "No valid images could be processed from the provided file(s)."
  const OcrStatus := "Cleaning images & performing high-accuracy OCR..."
  const StructuringStatus := "AI is analyzing and structuring the document..."
  const ValidatingStatus := "Validating and formatting final data..."
  const FaceStatus := "Detecting faces..."
  const SavingStatus := "Saving to database..."
  const CompleteStatus := "Task Complete!"
  const LlmErrorPrefix := "The language model failed to structure the text. Error: "

  /** `structure_data_with_master_prompt`: the model's answer, or an object
      whose only key "error" carries the exception's text. */
  function StructuredData(reply: LlmReply): (r: Json)
    ensures reply.TransportError? ==> r.JObject? && r.fields.Keys == {"error"}
  {
    match reply
    case Answered(data) => data
    case TransportError(message) => JObject(map["error" := JString(LlmErrorPrefix + message)])
  }

  /** `if "error" in structured_data: raise Exception(structured_data["error"])`
      on every kind of JSON value the model can answer with. */
  function ErrorCheck(data: Json): Option<Failure>
  {
    match data
    case JObject(fields) => if "error" in fields then Some(StructuringFailed(fields["error"])) else None
    case JArray(items) => if JString("error") in items then Some(ErrorCheckRaised) else None
    case JString(s) => if Contains(s, "error") then Some(ErrorCheckRaised) else None
    case _ => Some(ErrorCheckRaised)
  }

  predicate KeysIn(keys: seq<string>, files: map<string, SubmittedFile>)
  {
    forall k :: k in keys ==> k in files
  }

  function FileImages(e: Engines, file: SubmittedFile): seq<Bytes>
  {
    DecodedImages(e.render, e.reencode, file.name, file.content)
  }

  /** `all_image_bytes`: the images of the files, one file after another. */
  function GatheredImages(e: Engines, files: map<string, SubmittedFile>, keys: seq<string>): seq<Bytes>
    requires KeysIn(keys, files)
    decreases |keys|
  {
    if keys == [] then []
    else GatheredImages(e, files, keys[..|keys| - 1]) + FileImages(e, files[keys[|keys| - 1]])
  }

  /** `original_images_to_save`: each file's own bytes. */
  function Originals(files: map<string, SubmittedFile>, keys: seq<string>): seq<Bytes>
    requires KeysIn(keys, files)
  {
    seq(|keys|, i requires 0 <= i < |keys| => files[keys[i]].content)
  }

  function Keys(files: map<string, SubmittedFile>): seq<string>
  {
    SortedKeys(files.Keys)
  }

  function Images(e: Engines, files: map<string, SubmittedFile>): seq<Bytes>
  {
    GatheredImages(e, files, Keys(files))
  }

  function Encoded(e: Engines, images: seq<Bytes>): seq<string>
  {
    Map(e.base64, images)
  }

  function Answer(e: Engines, images: seq<Bytes>): Json
  {
    StructuredData(e.llm(RawText(Map(e.ocr, images)), Encoded(e, images)))
  }

  /** The calls and reports up to the language model. */
  function EarlyEffects(e: Engines, images: seq<Bytes>): seq<Effect>
  {
    [Progress(OcrStatus), RecognizeText(images),
     Progress(StructuringStatus), Structure(RawText(Map(e.ocr, images)), Encoded(e, images))]
  }

  function SaveCallOf(e: Engines, files: map<string, SubmittedFile>, docType: string): SaveCall
  {
    var images := Images(e, files);
    SaveCall(docType, PostValidated(Iso, Answer(e, images)),
             Originals(files, Keys(files)), FindFace(Map(e.detect, images)))
  }

  function LateEffects(call: SaveCall, images: seq<Bytes>): seq<Effect>
  {
    [Progress(ValidatingStatus), Progress(FaceStatus), LocateFace(images), Progress(SavingStatus), Save(call)]
  }

  /** What a run of the task does, given its engines and its input. */
  function RunSpec(e: Engines, files: map<string, SubmittedFile>, docType: string): Run
  {
    var images := Images(e, files);
    if images == [] then Run([], Failed(NoValidImages(NoImagesMessage)))
    else match ErrorCheck(Answer(e, images))
      case Some(failure) => Run(EarlyEffects(e, images), Failed(failure))
      case None =>
        var call := SaveCallOf(e, files, docType);
        var effects := EarlyEffects(e, images) + LateEffects(call, images);
        match e.save(call)
        case Saved(id) => Run(effects, Completed(CompleteStatus, id))
        case SaveRaised(message) => Run(effects, Failed(SaveFailed(message)))
  }

  /** The loop over the files in key order: each file's bytes are kept as an
      original, and its images are appended to the list for recognition. */
  method CollectFiles(e: Engines, files: map<string, SubmittedFile>, keys: seq<string>)
    returns (allImages: seq<Bytes>, originals: seq<Bytes>)
    requires KeysIn(keys, files)
    ensures allImages == GatheredImages(e, files, keys)
    ensures originals == Originals(files, keys)
  {
    allImages, originals := [], [];
    for i := 0 to |keys|
      invariant allImages == GatheredImages(e, files, keys[..i])
      invariant originals == Originals(files, keys[..i])
    {
      var file := files[keys[i]];
      originals := originals + [file.content];
      var decoded := ProcessFileInput(e.render, e.reencode, file.content, file.name);
      assert keys[..i + 1][..i] == keys[..i];
      allImages := allImages + decoded;
    }
    assert keys[..|keys|] == keys;
  }

  /** `process_documents_task`. */
  method ProcessDocumentsTask(e: Engines, files: map<string, SubmittedFile>, docType: string)
    returns (run: Run)
    ensures run == RunSpec(e, files, docType)
  {
    var keys := SortedKeys(files.Keys);
    var allImages, originals := CollectFiles(e, files, keys);
    if allImages == [] {
      return Run([], Failed(NoValidImages(NoImagesMessage)));
    }
    var effects := [Progress(OcrStatus), RecognizeText(allImages)];
    var rawText := ExtractText(e.ocr, allImages);
    effects := effects + [Progress(StructuringStatus)];
    var encoded := Map(e.base64, allImages);
    effects := effects + [Structure(rawText, encoded)];
    var structured := StructuredData(e.llm(rawText, encoded));
    assert allImages == Images(e, files) && structured == Answer(e, allImages);
    assert effects == EarlyEffects(e, allImages);
    var failure := ErrorCheck(structured);
    if failure.Some? {
      return Run(effects, Failed(failure.value));
    }
    effects := effects + [Progress(ValidatingStatus)];
    var document := PostProcessAndValidate(Iso, structured);
    effects := effects + [Progress(FaceStatus), LocateFace(allImages)];
    var face := DetectAndCropFace(e.detect, allImages);
    effects := effects + [Progress(SavingStatus)];
    var call := SaveCall(docType, document, originals, face);
    effects := effects + [Save(call)];
    assert call == SaveCallOf(e, files, docType);
    assert effects == EarlyEffects(e, allImages) + LateEffects(call, allImages);
    match e.save(call)
    case Saved(id) =>
      run := Run(effects, Completed(CompleteStatus, id));
    case SaveRaised(message) =>
      run := Run(effects, Failed(SaveFailed(message)));
  }

  /** The progress states a run reports, in order. */
  function Statuses(effects: seq<Effect>): seq<string>
    decreases |effects|
  {
    if effects == [] then []
    else (if effects[0].Progress? then [effects[0].status] else []) + Statuses(effects[1..])
  }

  /** How many times a run writes to the database. */
  function SaveCount(effects: seq<Effect>): nat
    decreases |effects|
  {
    if effects == [] then 0
    else (if effects[0].Save? then 1 else 0) + SaveCount(effects[1..])
  }

  lemma {:induction false} StatusesAppend(a: seq<Effect>, b: seq<Effect>)
    ensures Statuses(a + b) == Statuses(a) + Statuses(b)
    ensures SaveCount(a + b) == SaveCount(a) + SaveCount(b)
    decreases |a|
  {
    if a == [] {
      assert a + b == b;
    } else {
      assert (a + b)[0] == a[0] && (a + b)[1..] == a[1..] + b;
      StatusesAppend(a[1..], b);
    }
  }

  lemma EarlyEffectsCounts(e: Engines, images: seq<Bytes>)
    ensures Statuses(EarlyEffects(e, images)) == [OcrStatus, StructuringStatus]
    ensures SaveCount(EarlyEffects(e, images)) == 0
  {
    var early := EarlyEffects(e, images);
    assert Statuses(early[4..]) == [] && SaveCount(early[4..]) == 0;
    assert early[3..][1..] == early[4..] && early[2..][1..] == early[3..] && early[1..][1..] == early[2..];
    assert Statuses(early[3..]) == [] && SaveCount(early[3..]) == 0;
    assert Statuses(early[2..]) == [StructuringStatus] && SaveCount(early[2..]) == 0;
    assert Statuses(early[1..]) == [StructuringStatus] && SaveCount(early[1..]) == 0;
  }

  lemma LateEffectsCounts(call: SaveCall, images: seq<Bytes>)
    ensures Statuses(LateEffects(call, images)) == [ValidatingStatus, FaceStatus, SavingStatus]
    ensures SaveCount(LateEffects(call, images)) == 1
  {
    var late := LateEffects(call, images);
    assert Statuses(late[5..]) == [] && SaveCount(late[5..]) == 0;
    assert late[4..][1..] == late[5..] && late[3..][1..] == late[4..];
    assert late[2..][1..] == late[3..] && late[1..][1..] == late[2..];
    assert Statuses(late[4..]) == [] && SaveCount(late[4..]) == 1;
    assert Statuses(late[3..]) == [SavingStatus] && SaveCount(late[3..]) == 1;
    assert Statuses(late[2..]) == [SavingStatus] && SaveCount(late[2..]) == 1;
    assert Statuses(late[1..]) == [FaceStatus, SavingStatus] && SaveCount(late[1..]) == 1;
  }

  /** With no image at all the run fails at once: no progress is reported
      and neither the recognizer nor anything after it is called. No other
      failure is reported this way. */
  lemma NoImagesFailsBeforeRecognition(e: Engines, files: map<string, SubmittedFile>, docType: string)
    ensures RunSpec(e, files, docType).outcome == Failed(NoValidImages(NoImagesMessage)) <==> Images(e, files) == []
    ensures Images(e, files) == [] ==> RunSpec(e, files, docType).effects == []
  {
  }

  /** A run reports its progress states in a fixed order, and writes to the
      database exactly once when there are images and the answer passes the
      "error" check, and never otherwise. */
  lemma ProgressAndSaveCount(e: Engines, files: map<string, SubmittedFile>, docType: string)
    ensures var run := RunSpec(e, files, docType);
            var images := Images(e, files);
            var passes := images != [] && ErrorCheck(Answer(e, images)).None?;
            SaveCount(run.effects) == (if passes then 1 else 0) &&
            Statuses(run.effects) ==
              (if images == [] then []
               else if passes then [OcrStatus, StructuringStatus, ValidatingStatus, FaceStatus, SavingStatus]
               else [OcrStatus, StructuringStatus])
  {
    var images := Images(e, files);
    var run := RunSpec(e, files, docType);
    if images == [] {
      assert run.effects == [];
    } else if ErrorCheck(Answer(e, images)).Some? {
      assert run.effects == EarlyEffects(e, images);
      EarlyEffectsCounts(e, images);
    } else {
      var call := SaveCallOf(e, files, docType);
      assert run.effects == EarlyEffects(e, images) + LateEffects(call, images);
      EarlyEffectsCounts(e, images);
      LateEffectsCounts(call, images);
      StatusesAppend(EarlyEffects(e, images), LateEffects(call, images));
    }
  }

  /** An answer that is an object with an "error" key fails the run with that
      key's value, and nothing is saved. */
  lemma ErrorKeyFailsWithoutSaving(e: Engines, files: map<string, SubmittedFile>, docType: string)
    requires Images(e, files) != []
    requires Answer(e, Images(e, files)).JObject? && "error" in Answer(e, Images(e, files)).fields
    ensures RunSpec(e, files, docType).outcome
            == Failed(StructuringFailed(Answer(e, Images(e, files)).fields["error"]))
    ensures SaveCount(RunSpec(e, files, docType).effects) == 0
  {
    var images := Images(e, files);
    var failure := StructuringFailed(Answer(e, images).fields["error"]);
    assert ErrorCheck(Answer(e, images)) == Some(failure);
    assert RunSpec(e, files, docType) == Run(EarlyEffects(e, images), Failed(failure));
    EarlyEffectsCounts(e, images);
  }

  /** A number, boolean or null answer makes the `in` test raise, so the
      run fails and nothing is saved. A list or a string fails only when it
      holds "error" (the lookup `answer["error"]` then raises). */
  lemma NonObjectAnswers(e: Engines, files: map<string, SubmittedFile>, docType: string)
    requires Images(e, files) != []
    ensures var answer := Answer(e, Images(e, files));
            var run := RunSpec(e, files, docType);
            (answer.JNumber? || answer.JBool? || answer.JNull?) ==>
              run.outcome == Failed(ErrorCheckRaised) && SaveCount(run.effects) == 0
    ensures var answer := Answer(e, Images(e, files));
            var run := RunSpec(e, files, docType);
            answer.JArray? ==> (run.outcome == Failed(ErrorCheckRaised) <==> JString("error") in answer.items)
    ensures var answer := Answer(e, Images(e, files));
            var run := RunSpec(e, files, docType);
            answer.JString? ==> (run.outcome == Failed(ErrorCheckRaised) <==> Contains(answer.s, "error"))
  {
    ProgressAndSaveCount(e, files, docType);
  }

  /** The run completes exactly when it has images, the answer passes the
      "error" check and the insert returns an id; that id is the result. */
  lemma CompletesWithSavedId(e: Engines, files: map<string, SubmittedFile>, docType: string)
    ensures var run := RunSpec(e, files, docType);
            var images := Images(e, files);
            run.outcome.Completed? <==>
              images != [] && ErrorCheck(Answer(e, images)).None? && e.save(SaveCallOf(e, files, docType)).Saved?
    ensures var run := RunSpec(e, files, docType);
            run.outcome.Completed? ==>
              run.outcome == Completed(CompleteStatus, e.save(SaveCallOf(e, files, docType)).docId)
  {
  }

  /** When the language model call raises, the run fails with the message
      "The language model failed to structure the text. Error: " followed by
      the exception's text, and nothing is saved. */
  lemma TransportErrorFailsRun(e: Engines, files: map<string, SubmittedFile>, docType: string, message: string)
    requires Images(e, files) != []
    requires e.llm(RawText(Map(e.ocr, Images(e, files))), Encoded(e, Images(e, files))) == TransportError(message)
    ensures RunSpec(e, files, docType).outcome == Failed(StructuringFailed(JString(LlmErrorPrefix + message)))
    ensures SaveCount(RunSpec(e, files, docType).effects) == 0
  {
    ErrorKeyFailsWithoutSaving(e, files, docType);
  }

  /** A run that gets past the "error" check ends by saving the call built
      by `SaveCallOf`; the language model was given one base64 text per
      image, in image order. */
  lemma SaveIsLastEffect(e: Engines, files: map<string, SubmittedFile>, docType: string)
    requires Images(e, files) != [] && ErrorCheck(Answer(e, Images(e, files))).None?
    ensures var effects := RunSpec(e, files, docType).effects;
            |effects| == 9 && effects[8] == Save(SaveCallOf(e, files, docType))
    ensures var images := Images(e, files);
            var effects := RunSpec(e, files, docType).effects;
            effects[3] == Structure(RawText(Map(e.ocr, images)), Encoded(e, images)) &&
            |effects[3].encodedImages| == |images| &&
            forall i :: 0 <= i < |images| ==> effects[3].encodedImages[i] == e.base64(images[i])
  {
    var images := Images(e, files);
    var effects := RunSpec(e, files, docType).effects;
    assert effects == EarlyEffects(e, images) + LateEffects(SaveCallOf(e, files, docType), images);
  }

  /** The database receives one original per submitted file, in key order,
      the cleaned answer, and the face found in the gathered images. */
  lemma SaveCallHoldsEveryFile(e: Engines, files: map<string, SubmittedFile>, docType: string)
    ensures var call := SaveCallOf(e, files, docType);
            var keys := Keys(files);
            |call.originals| == |files| &&
            (forall i :: 0 <= i < |keys| ==> call.originals[i] == files[keys[i]].content) &&
            (forall i, j :: 0 <= i < j < |keys| ==> LexLe(keys[i], keys[j]) && keys[i] != keys[j]) &&
            call.docType == docType &&
            call.document == PostValidated(Iso, Answer(e, Images(e, files))) &&
            call.face == FindFace(Map(e.detect, Images(e, files)))
  {
    assert |files.Keys| == |files|;
  }

  /** The gathered images are the images of the files taken one after another
      in key order. */
  lemma {:induction false} GatheredImagesAppend(e: Engines, files: map<string, SubmittedFile>,
                                                a: seq<string>, b: seq<string>)
    requires KeysIn(a, files) && KeysIn(b, files)
    ensures KeysIn(a + b, files)
    ensures GatheredImages(e, files, a + b) == GatheredImages(e, files, a) + GatheredImages(e, files, b)
    decreases |b|
  {
    if b == [] {
      assert a + b == a;
    } else {
      var c, front, last := a + b, b[..|b| - 1], b[|b| - 1];
      assert c[..|c| - 1] == a + front && c[|c| - 1] == last;
      assert KeysIn(front, files) by {
        forall k | k in front ensures k in files {
          assert k in b;
        }
      }
      GatheredImagesAppend(e, files, a, front);
      var tail := FileImages(e, files[last]);
      calc {
        GatheredImages(e, files, c);
        GatheredImages(e, files, a + front) + tail;
        (GatheredImages(e, files, a) + GatheredImages(e, files, front)) + tail;
        GatheredImages(e, files, a) + (GatheredImages(e, files, front) + tail);
        GatheredImages(e, files, a) + GatheredImages(e, files, b);
      }
    }
  }

  /** When no file is a PDF, each file contributes exactly its own normalized
      image, in key order. */
  lemma {:induction false} NonPdfFilesOneImageEach(e: Engines, files: map<string, SubmittedFile>, keys: seq<string>)
    requires KeysIn(keys, files)
    requires forall k :: k in keys ==> !IsPdfName(files[k].name)
    ensures |GatheredImages(e, files, keys)| == |keys|
    ensures forall i :: 0 <= i < |keys| ==>
              GatheredImages(e, files, keys)[i] == NormalizeImage(e.reencode, files[keys[i]].content)
    decreases |keys|
  {
    if keys != [] {
      var init := keys[..|keys| - 1];
      assert forall k :: k in init ==> k in keys;
      NonPdfFilesOneImageEach(e, files, init);
    }
  }
}
