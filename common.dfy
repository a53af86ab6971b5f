/** Values shared by every stage of the document pipeline: optional values,
    raw bytes, JSON documents as the language model returns them, and the few
    Python string operations the pipeline relies on (`str.lower` on ASCII,
    `in`, `endswith`, `str.join` and `str(int)`). */
module Common {

  datatype Option<T> = None | Some(value: T)

  newtype byte = x: int | 0 <= x < 256

  /** An encoded file or image, as the pipeline passes it around. */
  type Bytes = seq<byte>

  /** A JSON document as `json.loads` produces it. */
  datatype Json =
    | JNull
    | JBool(b: bool)
    | JNumber(n: real)
    | JString(s: string)
    | JArray(items: seq<Json>)
    | JObject(fields: map<string, Json>)

  /** A list comprehension `[f(x) for x in s]`. */
  function Map<A, B>(f: A -> B, s: seq<A>): seq<B>
  {
    seq(|s|, i requires 0 <= i < |s| => f(s[i]))
  }

  function LowerChar(c: char): char
  {
    if 'A' <= c <= 'Z' then (c as int + 32) as char else c
  }

  /** `str.lower` restricted to ASCII letters: other characters are kept. */
  function Lower(s: string): string
  {
    seq(|s|, i requires 0 <= i < |s| => LowerChar(s[i]))
  }

  predicate HasPrefix(s: string, p: string)
  {
    |p| <= |s| && s[..|p|] == p
  }

  /** Python's `p in s` on strings. */
  predicate Contains(s: string, p: string)
    decreases |s|
  {
    HasPrefix(s, p) || (|s| > 0 && Contains(s[1..], p))
  }

  /** Python's `s.endswith(p)`. */
  predicate EndsWith(s: string, p: string)
  {
    |p| <= |s| && s[|s| - |p|..] == p
  }

  /** Python's `sep.join(parts)`. */
  function Join(parts: seq<string>, sep: string): string
    decreases |parts|
  {
    if |parts| == 0 then ""
    else if |parts| == 1 then parts[0]
    else parts[0] + sep + Join(parts[1..], sep)
  }

  predicate IsDigit(c: char)
  {
    '0' <= c <= '9'
  }

  function DigitChar(d: int): char
    requires 0 <= d <= 9
  {
    (48 + d) as char
  }

  function DigitValue(c: char): int
  {
    c as int - 48
  }

  /** `str(n)` for a natural number: decimal, no leading zeros. */
  function Decimal(n: nat): (r: string)
    ensures |r| >= 1
    ensures forall i :: 0 <= i < |r| ==> IsDigit(r[i])
  {
    if n < 10 then [DigitChar(n)] else Decimal(n / 10) + [DigitChar(n % 10)]
  }

  /** `int(s)` on a string of ASCII digits. */
  function DecimalValue(s: string): int
  {
    if s == [] then 0 else DecimalValue(s[..|s| - 1]) * 10 + DigitValue(s[|s| - 1])
  }

  /** Reading back a number's decimal text gives the number. */
  lemma {:induction false} DecimalRoundTrip(n: nat)
    ensures DecimalValue(Decimal(n)) == n
  {
    if n >= 10 {
      var s := Decimal(n);
      assert s[..|s| - 1] == Decimal(n / 10);
      DecimalRoundTrip(n / 10);
    }
  }

  /** Different numbers have different decimal texts. */
  lemma DecimalInjective(a: nat, b: nat)
    requires Decimal(a) == Decimal(b)
    ensures a == b
  {
    DecimalRoundTrip(a);
    DecimalRoundTrip(b);
  }

  lemma {:induction false} LowerIdempotent(s: string)
    ensures Lower(Lower(s)) == Lower(s)
  {
    assert forall i :: 0 <= i < |s| ==> LowerChar(LowerChar(s[i])) == LowerChar(s[i]);
  }

  /** `p in s` is false when `p` has a character `s` lacks. */
  lemma {:induction false} MissingCharNotContained(s: string, p: string, c: char)
    requires c in p && c !in s
    ensures !Contains(s, p)
    decreases |s|
  {
    var i :| 0 <= i < |p| && p[i] == c;
    if |p| <= |s| {
      assert s[..|p|][i] != p[i];
    }
    if |s| > 0 {
      assert forall x :: x in s[1..] ==> x in s;
      MissingCharNotContained(s[1..], p, c);
    }
  }

  /** A lower-case letter is missing from `Lower(s)` when neither it nor its
      upper-case form occurs in `s`. */
  lemma LowerLacks(s: string, c: char)
    requires 'a' <= c <= 'z' && c !in s && (c as int - 32) as char !in s
    ensures c !in Lower(s)
  {
    forall i | 0 <= i < |s| ensures Lower(s)[i] != c {
      assert s[i] != c && s[i] != (c as int - 32) as char;
    }
  }
}
