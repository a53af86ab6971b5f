/** The deterministic clean-up of the language model's answer
    (`post_process_and_validate`, ocr_app/processor.py:162-174): every string
    stored under a key whose lower-cased name contains "date" is read with
    the first of five date formats that accepts it and written back in one
    canonical form; everything else is left alone. */
module PostValidator {
  import opened Common
  import opened Dates

  predicate IsDateKey(key: string)
  {
    Contains(Lower(key), "date")
  }

  /** The value the pass leaves under `key`. */
  function NormalizedField(style: DateStyle, key: string, value: Json): Json
  {
    if IsDateKey(key) && value.JString? then
      match ParseDate(value.s)
      case Some(d) => JString(Render(style, d))
      case None => value
    else value
  }

  /** The document after the pass: anything but an object is returned as it
      is; an object keeps its keys, and only date-named string fields change. */
  function PostValidated(style: DateStyle, data: Json): (r: Json)
    ensures !data.JObject? ==> r == data
    ensures data.JObject? ==> r.JObject? && r.fields.Keys == data.fields.Keys
    ensures data.JObject? ==>
              forall k :: k in data.fields && !(IsDateKey(k) && data.fields[k].JString?) ==>
                r.fields[k] == data.fields[k]
  {
    match data
    case JObject(fields) => JObject(map k | k in fields :: NormalizedField(style, k, fields[k]))
    case _ => data
  }

  /** `post_process_and_validate`: a pass over the keys, and for a date-named
      string an inner pass over the formats that stops at the first one
      that accepts it. */
  method PostProcessAndValidate(style: DateStyle, data: Json) returns (r: Json)
    ensures r == PostValidated(style, data)
  {
    if !data.JObject? {
      return data;
    }
    var fields := data.fields;
    var result := fields;
    var pending := fields.Keys;
    while pending != {}
      invariant pending <= fields.Keys && result.Keys == fields.Keys
      invariant forall k :: k in pending ==> result[k] == fields[k]
      invariant forall k :: k in fields && k !in pending ==> result[k] == NormalizedField(style, k, fields[k])
      decreases pending
    {
      var key :| key in pending;
      var value := fields[key];
      if IsDateKey(key) && value.JString? {
        ghost var before := result;
        var i := 0;
        while i < |Formats|
          invariant 0 <= i <= |Formats|
          invariant FirstParse(Formats[i..], value.s) == ParseDate(value.s)
          invariant result == before
        {
          var parsed := ParseWith(Formats[i], value.s);
          if parsed.Some? {
            result := result[key := JString(Render(style, parsed.value))];
            break;
          }
          i := i + 1;
        }
      }
      pending := pending - {key};
    }
    r := JObject(result);
  }

  /** The first format that accepts a date-named string decides what is
      stored under its key. */
  lemma FirstAcceptingFormatDecides(style: DateStyle, data: Json, key: string, i: int)
    requires data.JObject? && key in data.fields && IsDateKey(key) && data.fields[key].JString?
    requires 0 <= i < |Formats| && ParseWith(Formats[i], data.fields[key].s).Some?
    requires forall j :: 0 <= j < i ==> ParseWith(Formats[j], data.fields[key].s).None?
    ensures PostValidated(style, data).fields[key]
            == JString(Render(style, ParseWith(Formats[i], data.fields[key].s).value))
  {
    var s := data.fields[key].s;
    FirstParseDecides(Formats, s, ParseWith(Formats[i], s).value);
  }

  /** A date-named string that no format accepts is left as it is. */
  lemma UnparseableValueKept(style: DateStyle, data: Json, key: string)
    requires data.JObject? && key in data.fields && data.fields[key].JString?
    requires forall i :: 0 <= i < |Formats| ==> ParseWith(Formats[i], data.fields[key].s).None?
    ensures PostValidated(style, data).fields[key] == data.fields[key]
  {
    FirstParseDecides(Formats, data.fields[key].s, Date(1, 1, 1));
  }

  lemma NormalizedFieldIdempotent(style: DateStyle, key: string, value: Json)
    ensures NormalizedField(style, key, NormalizedField(style, key, value)) == NormalizedField(style, key, value)
  {
    if IsDateKey(key) && value.JString? && ParseDate(value.s).Some? {
      var d := ParseDate(value.s).value;
      match style
      case Iso => IsoRoundTrip(d);
      case AsWritten => AsWrittenNeverParses(d);
    }
  }

  /** Running the pass a second time changes nothing, whichever way dates
      are written back. */
  lemma PostValidationIdempotent(style: DateStyle, data: Json)
    ensures PostValidated(style, PostValidated(style, data)) == PostValidated(style, data)
  {
    if data.JObject? {
      var once := PostValidated(style, data);
      var twice := PostValidated(style, once);
      forall k | k in data.fields ensures twice.fields[k] == once.fields[k] {
        NormalizedFieldIdempotent(style, k, data.fields[k]);
      }
      assert twice.fields == once.fields;
    }
  }

  lemma BirthDateKeyIsDateKey()
    ensures IsDateKey("date_of_birth")
  {
    assert Lower("date_of_birth")[..4] == "date";
  }

  lemma IdNumberKeyIsNotDateKey()
    ensures !IsDateKey("id_number")
  {
    LowerLacks("id_number", 't');
    MissingCharNotContained(Lower("id_number"), "date", 't');
  }

  /** What the pass leaves under each of the two keys of the example. */
  lemma SlashedExampleFields(value: string)
    requires value == "03/04/2020"
    ensures NormalizedField(Iso, "date_of_birth", JString(value)) == JString("2020-04-03")
    ensures NormalizedField(Iso, "id_number", JString(value)) == JString(value)
  {
    SlashedDatesAreDayFirst(value);
    BirthDateKeyIsDateKey();
    IdNumberKeyIsNotDateKey();
    IsoExampleText();
  }

  /** A birth date written "03/04/2020" is stored as the 3rd of April, while
      a field whose name does not mention a date keeps the same text. */
  lemma SlashedBirthDateExample(value: string)
    requires value == "03/04/2020"
    ensures var data := JObject(map["date_of_birth" := JString(value), "id_number" := JString(value)]);
            PostValidated(Iso, data) == JObject(map["date_of_birth" := JString("2020-04-03"), "id_number" := JString(value)])
  {
    SlashedExampleFields(value);
    var data := JObject(map["date_of_birth" := JString(value), "id_number" := JString(value)]);
    var r := PostValidated(Iso, data);
    assert r.fields["date_of_birth"] == JString("2020-04-03");
    assert r.fields["id_number"] == JString(value);
    assert r.fields.Keys == {"date_of_birth", "id_number"};
  }
}
