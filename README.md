# Document OCR pipeline: a verified model of the processing task

This project models, in Dafny, the core of `ocr_app/processor.py`. That module
is a background task. It takes a dictionary of uploaded files (images or
PDFs) and turns every file into canonical JPEG images. It runs text
recognition on each image and stitches the recognised lines into one text,
with a marker before each image. It then asks a language model to structure
that text as JSON and cleans the dates in the answer. Finally it looks for a
face in the images and saves the document, the original files and the face
crop to the database.

The model follows the source function by function:

| module (file) | source |
|---|---|
| `Common` (common.dfy) | Python values the pipeline uses: bytes, JSON, `str.lower`, `in`, `endswith`, `join`, `str(int)` |
| `KeyOrder` (key_order.dfy) | `sorted(file_contents_dict.keys())`: Python's order on `str` |
| `FileDecoder` (file_decoder.dfy) | `normalize_image`, `process_file_input` |
| `OcrExtractor` (ocr_extractor.dfy) | `extract_text_with_paddleocr`, the confidence threshold, the skew-angle fold |
| `Dates` (dates.dfy) | the `strptime` / `strftime` calls of the date clean-up |
| `DateLanguages` (date_languages.dfy) | exactly which texts each `strptime` format reads as a given date |
| `PostValidator` (post_validator.dfy) | `post_process_and_validate` |
| `FaceLocator` (face_locator.dfy) | `detect_and_crop_face` |
| `Orchestrator` (orchestrator.dfy) | `process_documents_task`, `structure_data_with_master_prompt` |

The task drives several engines. These are the PDF renderer, the image
re-encoder, the text recogniser, base64, the language model, the face
classifier and the database insert. Each one is a function parameter that
returns the engine's outcome for one item, and the exceptions they raise are
cases of those outcome types. The loops that change state are methods
(`FileDecoder.ProcessFileInput`, `OcrExtractor.ExtractText`,
`PostValidator.PostProcessAndValidate`, `FaceLocator.DetectAndCropFace`,
`Orchestrator.CollectFiles`, `Orchestrator.ProcessDocumentsTask`). Each method
is proved equal to a specification function, and the lemmas state what the
source promises about those functions.

The task's progress reports and its calls are recorded, in order, as
`Orchestrator.Effect` values. The task's end is `Completed` with the
document id, or `Failed` with the reason.

## Model

| member | source | states |
|---|---|---|
| `Common.DecimalRoundTrip` | ocr_app/processor.py:81 | the page number written into a marker reads back as the same number |
| `Common.DecimalInjective` | ocr_app/processor.py:81 | different page numbers give different decimal texts |
| `KeyOrder.LexLeTotal` | ocr_app/processor.py:206 | any two keys are comparable under Python's string order |
| `KeyOrder.LexLeTransitive` | ocr_app/processor.py:206 | the string order is transitive |
| `KeyOrder.LexLeAntisymmetric` | ocr_app/processor.py:206 | two keys that are each at most the other are equal |
| `KeyOrder.LeastExists` | ocr_app/processor.py:206 | every non-empty key set has a least key, so sorting is defined |
| `KeyOrder.SortedKeys` | ocr_app/processor.py:206 | `sorted(keys)` holds every key exactly once, in strictly increasing string order |
| `KeyOrder.TenthFileBeforeSecond` | ocr_app/processor.py:206 | `file_10` is visited before `file_2` |
| `FileDecoder.NormalizeImage` | ocr_app/processor.py:27-36 | the re-encoded JPEG, or the input bytes unchanged when the image library fails |
| `FileDecoder.ProcessFileInput` | ocr_app/processor.py:60-75 | a non-PDF yields exactly one normalized image; a PDF yields one normalized image per page rendered before the first failure, in page order |
| `FileDecoder.RenderFailureKeepsRenderedPages` | ocr_app/processor.py:64-72 | when rendering page n+1 raises, exactly the n pages rendered before it are kept, whatever follows |
| `FileDecoder.PagesBeforeFailure` | ocr_app/processor.py:64-72 | the kept pages are the longest run of rendered pages at the front: each is a rendered page, and the page after them raised |
| `FileDecoder.PdfNameIgnoresCase` | ocr_app/processor.py:63 | the PDF test gives the same answer on the name and its lower-cased form |
| `FileDecoder.PdfNameExamples` | ocr_app/processor.py:63 | `SCAN.PDF` and `a.Pdf` are PDFs; `scan.pdf.png` and `pdf` are not |
| `OcrExtractor.Confident` | ocr_app/processor.py:86-89 | every kept line has confidence strictly above 0.80 and came from the input; every such input line is kept |
| `OcrExtractor.ConfidentKeepsOrder` | ocr_app/processor.py:87-89 | filtering keeps the recogniser's order: the filter of `a + b` is the filter of `a` followed by that of `b` |
| `OcrExtractor.ThresholdIsStrict` | ocr_app/processor.py:18 | a line at exactly 0.80 is dropped; one at 0.81 is kept |
| `OcrExtractor.NoLinesNoText` | ocr_app/processor.py:86-90 | an empty or missing result adds no text after the marker |
| `OcrExtractor.ExtractText` | ocr_app/processor.py:77-93 | the text is, image by image, the marker numbered `i+1` then the kept lines joined by newlines |
| `OcrExtractor.RawTextPrefix` | ocr_app/processor.py:80-90 | the text of the first `i` images is a prefix, followed directly by image `i+1`'s marker and text |
| `OcrExtractor.PageMarkerInjective` | ocr_app/processor.py:81 | markers of different pages differ |
| `OcrExtractor.MarkerOccursOnce` | ocr_app/processor.py:81-82 | a page's block contains its marker exactly once when its text does not forge one |
| `OcrExtractor.OneMarkerPerImage` | ocr_app/processor.py:80-92 | when no recognised text contains `\n--- TEXT FROM PAGE/IMAGE `, the text has exactly one marker per image, including images whose recognition raised or found nothing |
| `OcrExtractor.DeskewAngle` | ocr_app/processor.py:48-49 | a skew in [-90, 0), the range OpenCV before 4.5.1 reports, folds into (-45, 45]; for any angle the correction undoes the skew up to a quarter turn |
| `Dates.Combine` | ocr_app/processor.py:170 | a parse succeeds only for a date that exists: year 1 to 9999, day within its month |
| `Dates.ParseWith` | ocr_app/processor.py:168-170 | each of the five formats yields only valid dates; `DateLanguages.ParseWithExact` states exactly which texts it reads |
| `Dates.FirstParse` | ocr_app/processor.py:168-173 | the format loop yields only valid dates |
| `Dates.FirstParseDecides` | ocr_app/processor.py:168-173 | the first format that accepts the value decides the date; the value is rejected exactly when every format rejects it |
| `Dates.IsoRoundTrip` | ocr_app/processor.py:168-170 | the ISO text of any date is read back, by the first format, as that date |
| `Dates.AsWrittenNeverParses` | ocr_app/processor.py:170 | the "%Y-MM-DD" output is accepted by none of the five formats |
| `Dates.DayFirstRoundTrip` | ocr_app/processor.py:168-170 | "%d/%m/%Y" text of any date is read back as that date, day first, by the fourth format and by the whole loop |
| `Dates.Capitalized` | ocr_app/processor.py:168 | the capitalised month word has the same length, only ASCII letters, and lower-cases back to the table entry |
| `Dates.AbbreviationNamesMonth` | ocr_app/processor.py:168 | each month's abbreviation is a three-letter word that `%b` reads as that month's number |
| `Dates.FullNameNamesMonth` | ocr_app/processor.py:168 | each month's full name is a word of at least three letters that `%B` reads as that month's number |
| `Dates.FirstParseSkips` | ocr_app/processor.py:168-173 | formats that reject the value can be dropped from the front of the loop without changing its answer |
| `Dates.ParseDateAt` | ocr_app/processor.py:168-173 | when every format before the k-th rejects the value and the k-th accepts it, the loop's date is the k-th format's date |
| `Dates.DayAbbrevFields` | ocr_app/processor.py:168 | "%d %b %Y" splits "<day> <abbreviation> <year>" into exactly those three fields |
| `Dates.MonthNameFields` | ocr_app/processor.py:168 | "%B %d, %Y" splits "<name> <day>, <year>" into exactly those three fields |
| `Dates.MonthNameTextNotEarlier` | ocr_app/processor.py:168 | "<name> <day>, <year>" is rejected by "%Y-%m-%d" and by "%d %b %Y" |
| `Dates.DayAbbrevRoundTrip` | ocr_app/processor.py:168-170 | "%d %b %Y" text of any date ("15 Mar 1990") is read back as that date, by the second format and by the whole loop |
| `Dates.MonthNameRoundTrip` | ocr_app/processor.py:168-170 | "%B %d, %Y" text of any date ("March 15, 1990") is read back as that date, by the third format and by the whole loop |
| `Dates.NoMonthAboveTwelve` | ocr_app/processor.py:168 | two digits from 13 to 31 are not a `%m` month |
| `Dates.MonthFirstRoundTrip` | ocr_app/processor.py:168-170 | "%m/%d/%Y" text of any date is read as that date by the fifth format; the whole loop reads it as that date when the day is above 12, and with month and day swapped otherwise, because "%d/%m/%Y" is tried first |
| `Dates.SlashedDatesAreDayFirst` | ocr_app/processor.py:168 | "03/04/2020" is the 3rd of April 2020 |
| `Dates.AsWrittenDropsMonthAndDay` | ocr_app/processor.py:170 | as written, 15 March 1990 becomes "1990-MM-DD" (the same text as 31 December 1990) where "1990-03-15" is meant |
| `Dates.IndexOfFirst` | ocr_app/processor.py:168 | no earlier position holds the separator found; when none is found the character does not occur |
| `Dates.FirstIndex` | ocr_app/processor.py:168 | a character at position k with none before it is found at k |
| `Dates.NamedFromEntry` | ocr_app/processor.py:168 | a month word is read as month m only when it lower-cases to the m-th table entry |
| `Dates.DayFieldExact` | ocr_app/processor.py:168 | `%d` reads a text as day n exactly when it is n's two digits, or for n below 10 one digit alone or after one space |
| `Dates.MonthFieldExact` | ocr_app/processor.py:168 | `%m` reads a text as month n exactly when it is n's two digits, or for n below 10 one digit |
| `Dates.YearFieldExact` | ocr_app/processor.py:168 | `%Y` reads a text as year y exactly when it is y's four zero-padded digits |
| `DateLanguages.IsoExact` | ocr_app/processor.py:168-170 | "%Y-%m-%d" reads a text as d exactly when it is d's year, month text and day text joined by hyphens, nothing around them |
| `DateLanguages.SlashedExact` | ocr_app/processor.py:168-170 | "%d/%m/%Y" and "%m/%d/%Y" read a text as d exactly when it is the two field texts in the format's order and the year, joined by slashes |
| `DateLanguages.DayAbbrevExact` | ocr_app/processor.py:168-170 | "%d %b %Y" reads a text as d exactly when it is a day text, whitespace, the month's abbreviation in any case, whitespace and the year |
| `DateLanguages.MonthNameExact` | ocr_app/processor.py:168-170 | "%B %d, %Y" reads a text as d exactly when it is the month's name in any case, whitespace, a day text, a comma, whitespace and the year |
| `DateLanguages.ParseWithExact` | ocr_app/processor.py:168-170 | each format reads a text as d exactly when d is valid and the text is in that format's language for d |
| `DateLanguages.IsoTextIsShort` | ocr_app/processor.py:168-170 | "%Y-%m-%d" reads no text longer than ten characters |
| `DateLanguages.IsoRejectsTrailingText` | ocr_app/processor.py:168-170 | an ISO date followed by any further text is not read by "%Y-%m-%d" |
| `DateLanguages.SingleDigitFields` | ocr_app/processor.py:168 | "5" is day and month 5, and " 5" is day 5 |
| `DateLanguages.SlashedSingleDigits` | ocr_app/processor.py:168-173 | the loop reads "5/3/1990" as the 5th of March 1990 |
| `DateLanguages.TabBeforeMonth` | ocr_app/processor.py:168-173 | the loop reads "15\tMar 1990" as the 15th of March 1990: a tab counts as whitespace |
| `PostValidator.PostValidated` | ocr_app/processor.py:164-167 | a non-object is returned unchanged; an object keeps its keys, and a field whose key lacks "date" or whose value is not a string is unchanged |
| `PostValidator.PostProcessAndValidate` | ocr_app/processor.py:162-174 | the in-place pass with its inner format loop and `break` computes exactly `PostValidated` |
| `PostValidator.FirstAcceptingFormatDecides` | ocr_app/processor.py:168-171 | a date-named string is rewritten from the first format that accepts it |
| `PostValidator.UnparseableValueKept` | ocr_app/processor.py:172-173 | a string no format accepts is left as it is |
| `PostValidator.NormalizedFieldIdempotent` | ocr_app/processor.py:167-171 | cleaning a field twice gives the same value as cleaning it once |
| `PostValidator.PostValidationIdempotent` | ocr_app/processor.py:166-174 | the pass is idempotent, both as written and with the ISO format |
| `PostValidator.SlashedBirthDateExample` | ocr_app/processor.py:167-170 | `date_of_birth` "03/04/2020" becomes "2020-04-03" while `id_number` with the same text is untouched |
| `FaceLocator.LargestIndex` | ocr_app/processor.py:186 | the chosen box has area at least that of every box, and every earlier box is strictly smaller |
| `FaceLocator.TiesGoToEarliestBox` | ocr_app/processor.py:186 | of two boxes of equal area the first is chosen |
| `FaceLocator.FindFace` | ocr_app/processor.py:178-193 | nothing exactly when no image has a box; otherwise the first image with a box, and its largest box |
| `FaceLocator.DetectAndCropFace` | ocr_app/processor.py:176-193 | the scan that skips failing images and returns at the first face computes `FindFace` |
| `FaceLocator.LaterImagesNeverExamined` | ocr_app/processor.py:185-189 | once an image gives a face, images after it make no difference |
| `Orchestrator.StructuredData` | ocr_app/processor.py:150-160 | a transport error becomes an object whose only key is "error" |
| `Orchestrator.CollectFiles` | ocr_app/processor.py:203-211 | one original per file in key order, and the files' images concatenated in key order |
| `Orchestrator.ProcessDocumentsTask` | ocr_app/processor.py:198-238 | the task's effects and outcome are those of `RunSpec` |
| `Orchestrator.NoImagesFailsBeforeRecognition` | ocr_app/processor.py:213-214 | the run fails with "no valid images" exactly when no image was gathered, and then before any report or call |
| `Orchestrator.ProgressAndSaveCount` | ocr_app/processor.py:216-234 | progress states come in the fixed order; the database is written exactly once when the error check passes, never otherwise |
| `Orchestrator.ErrorKeyFailsWithoutSaving` | ocr_app/processor.py:223-224 | an answer with an "error" key fails the run with that value, and nothing is saved |
| `Orchestrator.NonObjectAnswers` | ocr_app/processor.py:223-224 | number, boolean and null answers fail the run; a list or string fails exactly when it holds "error" |
| `Orchestrator.TransportErrorFailsRun` | ocr_app/processor.py:159-160 | a failed model call fails the run with "The language model failed to structure the text. Error: " and the cause, and saves nothing |
| `Orchestrator.CompletesWithSavedId` | ocr_app/processor.py:234-236 | the run completes exactly when it has images, passes the check and the insert returns an id; that id is the result |
| `Orchestrator.SaveIsLastEffect` | ocr_app/processor.py:220-234 | the save is the last effect; the model gets one base64 text per image, in image order |
| `Orchestrator.SaveCallHoldsEveryFile` | ocr_app/processor.py:204-234 | the insert gets one original per file in sorted key order, the cleaned answer and the face found |
| `Orchestrator.GatheredImagesAppend` | ocr_app/processor.py:206-211 | the image list of two key runs is the concatenation of their image lists |
| `Orchestrator.NonPdfFilesOneImageEach` | ocr_app/processor.py:206-211 | with no PDF, there is one image per file, the file's own normalized image, in key order |

## Left out

- Image work is given as engine outcomes: decoding, CLAHE, `minAreaRect`, rotation, the Haar classifier, cropping and JPEG/PNG encoding (processor.py:41-55, 180-189). Only the skew-angle fold is modelled.
- PDF rendering and PIL re-encoding are given as outcomes (`PageOutcome` per page, `Reencoded`).
- The HTTP request to the language model, the prompt text and the JSON parse of the reply are given only as an outcome, `Answered(json)` or `TransportError(text)`. A reply without a `response` field gives `{}`; that falls inside `Answered`.
- `json.dumps` and `base64.b64encode` are opaque. The save call holds the cleaned JSON value and not its text, and base64 is a function parameter.
- Every engine is assumed to be deterministic: the same bytes give the same outcome.
- Console logging (`print`) is not modelled. Nor are the Celery transport, task binding and `update_state`; the progress states are recorded as effects instead.
- ocr_app/app.py and ocr_app/database.py are not part of this model. The web layer builds the keys `file_0`, `file_1`, …, which the model takes as arbitrary strings.
- Confidences are mathematical reals rather than IEEE floats. Box areas are unbounded integers, so numpy `int32` overflow is not modelled.
- `Common.Lower`: ASCII case mapping only. The PDF suffix test and the "date" key test ignore non-ASCII case rules.
- `Dates.Pad4`: years are written with four digits, zero-padded, as `strftime` does from CPython 3.12.5 and 3.13 on. Older releases on glibc write a year below 1000 with fewer digits ("999"), and the model does not follow them.
- `Dates.MonthNamed`: month names match ignoring ASCII case only. Only English month names are modelled, because `%b` and `%B` follow the C locale.
- `Dates.YearField`: `\d` is restricted to ASCII digits, while Python's `strptime` also accepts other Unicode decimal digits. The same holds for `Dates.DayField`.
- `FaceLocator.DetectAndCropFace`: encoding the chosen crop is assumed to succeed. In the source, an exception there is caught and the scan moves on to the next image.
- `PostValidator.PostProcessAndValidate`: the dictionary is updated in place in the source and returned. The model returns the new value, so aliasing of the answer object is not modelled. Keys are visited in an arbitrary order, and every key is handled on its own.
- `Orchestrator.ProcessDocumentsTask` cleans dates with the corrected ISO format (see Findings). The literal "%Y-MM-DD" behaviour is `Dates.FormatAsWritten`, which `PostValidator.PostValidated` also accepts as `AsWritten`.

## Findings

| source | as written | input that shows it | evidently intended | confidence | as-written member | corrected member |
|---|---|---|---|---|---|---|
| ocr_app/processor.py:170 | `strftime("%Y-MM-DD")`: `MM` and `DD` are not directives, so only the year survives | `{"date_of_birth": "15/03/1990"}` becomes `"1990-MM-DD"`, the same as for 31/12/1990 | `strftime("%Y-%m-%d")`, giving `"1990-03-15"`, as the prompt (processor.py:104) asks | high; not executed | `Dates.AsWrittenDropsMonthAndDay` | `Dates.IsoRoundTrip` |
