/**
 The length-prefixed, domain-separated preimages of apps/api/src/task-admission.ts. HMAC-SHA-256
 itself is not modelled: everything here is about the text it is given. A character stands for one
 UTF-16 code unit, which is what `.length` counts.
 */
module FieldEncoding {
  import opened Wrappers

  datatype Field = Field(name: string, value: string)

  // ----- decimal numerals, as `${n}` prints them

  function Digit(d: nat): char
    requires d < 10
  {
    "0123456789"[d]
  }

  predicate IsDigit(c: char) {
    '0' <= c <= '9'
  }

  function Decimal(n: nat): (text: string)
    ensures text != [] && forall i :: 0 <= i < |text| ==> IsDigit(text[i])
  {
    if n < 10 then [Digit(n)] else Decimal(n / 10) + [Digit(n % 10)]
  }

  function DigitValue(c: char): nat
    requires IsDigit(c)
  {
    c as int - '0' as int
  }

  function ValueOf(text: string): nat
    requires forall i :: 0 <= i < |text| ==> IsDigit(text[i])
  {
    if text == [] then 0
    else 10 * ValueOf(text[..|text| - 1]) + DigitValue(text[|text| - 1])
  }

  lemma {:induction false} DecimalRoundTrip(n: nat)
    ensures ValueOf(Decimal(n)) == n
    ensures n > 0 ==> Decimal(n)[0] != '0'
  {
    if n >= 10 {
      DecimalRoundTrip(n / 10);
      assert Decimal(n)[..|Decimal(n)| - 1] == Decimal(n / 10);
    }
  }

  /** A numeral without a leading zero is the one `${n}` prints for its value. */
  lemma {:induction false} CanonicalNumeral(text: string)
    requires text != [] && (forall i :: 0 <= i < |text| ==> IsDigit(text[i])) && (|text| == 1 || text[0] != '0')
    ensures Decimal(ValueOf(text)) == text
    ensures |text| > 1 || text[0] != '0' ==> ValueOf(text) > 0
  {
    var front := text[..|text| - 1];
    var last := DigitValue(text[|text| - 1]);
    assert Digit(last) == text[|text| - 1];
    if front == [] {
      assert ValueOf(front) == 0;
      assert text == [Digit(last)];
    } else {
      CanonicalNumeral(front);
      assert ValueOf(text) == 10 * ValueOf(front) + last;
      assert text == front + [Digit(last)];
    }
  }

  // ----- one length-prefixed text

  /** `${text.length}:${text}` */
  function Prefixed(text: string): string {
    Decimal(|text|) + ":" + text
  }

  /** Where the first non-digit stands. */
  function DigitsIn(text: string): (n: nat)
    ensures n <= |text|
    ensures forall i :: 0 <= i < n ==> IsDigit(text[i])
    ensures n < |text| ==> !IsDigit(text[n])
  {
    if text == [] || !IsDigit(text[0]) then 0 else 1 + DigitsIn(text[1..])
  }

  lemma {:induction false} DigitsInNumeral(numeral: string, rest: string)
    requires forall i :: 0 <= i < |numeral| ==> IsDigit(numeral[i])
    requires rest == [] || !IsDigit(rest[0])
    ensures DigitsIn(numeral + rest) == |numeral|
  {
    if numeral == [] {
      assert numeral + rest == rest;
    } else {
      DigitsInNumeral(numeral[1..], rest);
      assert (numeral + rest)[1..] == numeral[1..] + rest;
    }
  }

  /** Reads one length-prefixed text from the front: the text and what follows it. */
  function TakePrefixed(input: string): (r: Option<(string, string)>)
    ensures r.Some? ==> |r.value.1| < |input|
  {
    var n := DigitsIn(input);
    if n == 0 || n == |input| || input[n] != ':' || (n > 1 && input[0] == '0') then None else
    var size := ValueOf(input[..n]);
    var body := input[n + 1..];
    if |body| < size then None else Some((body[..size], body[size..]))
  }

  lemma TakeAfterPrefixed(text: string, rest: string)
    ensures TakePrefixed(Prefixed(text) + rest) == Some((text, rest))
  {
    var numeral := Decimal(|text|);
    var input := Prefixed(text) + rest;
    var tail := ":" + text + rest;
    assert input == numeral + tail;
    DigitsInNumeral(numeral, tail);
    DecimalRoundTrip(|text|);
    assert input[..|numeral|] == numeral;
    assert input[|numeral| + 1..] == text + rest;
    assert |numeral| > 1 ==> |text| >= 10;
  }

  /** Only the canonical form is read. */
  lemma TakeIsPrefixed(input: string)
    requires TakePrefixed(input).Some?
    ensures input == Prefixed(TakePrefixed(input).value.0) + TakePrefixed(input).value.1
  {
    var n := DigitsIn(input);
    CanonicalNumeral(input[..n]);
    assert input == input[..n] + [input[n]] + input[n + 1..];
  }

  // ----- field lists

  function EncodeField(f: Field): string {
    Prefixed(f.name) + Prefixed(f.value)
  }

  /** `encodeFields` */
  function EncodeFields(fields: seq<Field>): string {
    if fields == [] then "" else EncodeField(fields[0]) + EncodeFields(fields[1..])
  }

  function DecodeFields(input: string): Option<seq<Field>>
    decreases |input|
  {
    if input == "" then Some([]) else
    match TakePrefixed(input)
    case None => None
    case Some((name, afterName)) =>
      match TakePrefixed(afterName)
      case None => None
      case Some((value, rest)) =>
        match DecodeFields(rest)
        case None => None
        case Some(fields) => Some([Field(name, value)] + fields)
  }

  /** The decoder inverts the encoder on every list, digits and colons in the values included. */
  lemma {:induction false} DecodeInvertsEncode(fields: seq<Field>)
    ensures DecodeFields(EncodeFields(fields)) == Some(fields)
  {
    if fields != [] {
      var f, rest := fields[0], EncodeFields(fields[1..]);
      var input := EncodeFields(fields);
      assert input == Prefixed(f.name) + (Prefixed(f.value) + rest);
      TakeAfterPrefixed(f.name, Prefixed(f.value) + rest);
      TakeAfterPrefixed(f.value, rest);
      DecodeInvertsEncode(fields[1..]);
      assert [f] + fields[1..] == fields;
    }
  }

  lemma EncodeCons(f: Field, fields: seq<Field>)
    ensures EncodeFields([f] + fields) == Prefixed(f.name) + (Prefixed(f.value) + EncodeFields(fields))
  {
    assert ([f] + fields)[1..] == fields;
  }

  /** And it accepts nothing else: what it reads is exactly what the encoder would have written. */
  lemma {:induction false} EncodeInvertsDecode(input: string)
    requires DecodeFields(input).Some?
    ensures EncodeFields(DecodeFields(input).value) == input
    decreases |input|
  {
    if input != "" {
      TakeIsPrefixed(input);
      var (name, afterName) := TakePrefixed(input).value;
      TakeIsPrefixed(afterName);
      var (value, rest) := TakePrefixed(afterName).value;
      EncodeInvertsDecode(rest);
      EncodeCons(Field(name, value), DecodeFields(rest).value);
    }
  }

  // ----- the preimages

  const NUL := '\0'
  const LABEL := "tikdd-task-admission-v1"

  /** What `digest` feeds to the HMAC. */
  function Preimage(domain: string, fields: seq<Field>): string {
    LABEL + [NUL] + domain + [NUL] + EncodeFields(fields)
  }

  /** How many characters stand before the first NUL. */
  function BeforeNul(text: string): (n: nat)
    ensures n <= |text|
  {
    if text == [] || text[0] == NUL then 0 else 1 + BeforeNul(text[1..])
  }

  lemma {:induction false} BeforeNulIsLength(front: string, rest: string)
    requires NUL !in front
    ensures BeforeNul(front + [NUL] + rest) == |front|
  {
    if front != [] {
      BeforeNulIsLength(front[1..], rest);
      assert (front + [NUL] + rest)[1..] == front[1..] + [NUL] + rest;
    }
  }

  lemma SplitAtNul(a: string, b: string, s: string, t: string)
    requires NUL !in a && NUL !in b && a + [NUL] + s == b + [NUL] + t
    ensures a == b && s == t
  {
    BeforeNulIsLength(a, s);
    BeforeNulIsLength(b, t);
    var whole := a + [NUL] + s;
    assert whole[..|a|] == a && whole[..|b|] == b;
    assert whole[|a| + 1..] == s && whole[|b| + 1..] == t;
  }

  lemma SamePrefix(prefix: string, s: string, t: string)
    requires prefix + s == prefix + t
    ensures s == t
  {
    assert s == (prefix + s)[|prefix|..] && t == (prefix + t)[|prefix|..];
  }

  /** For domains without NUL, equal preimages come only from equal domains and equal field lists. */
  lemma PreimageInjective(d1: string, f1: seq<Field>, d2: string, f2: seq<Field>)
    requires NUL !in d1 && NUL !in d2
    ensures Preimage(d1, f1) == Preimage(d2, f2) <==> d1 == d2 && f1 == f2
  {
    if Preimage(d1, f1) == Preimage(d2, f2) {
      var version := LABEL + [NUL];
      var s, t := d1 + [NUL] + EncodeFields(f1), d2 + [NUL] + EncodeFields(f2);
      assert Preimage(d1, f1) == version + s && Preimage(d2, f2) == version + t;
      SamePrefix(version, s, t);
      SplitAtNul(d1, d2, EncodeFields(f1), EncodeFields(f2));
      DecodeInvertsEncode(f1);
      DecodeInvertsEncode(f2);
    }
  }

  // ----- the hasher's five callers

  datatype Subject =
    | IdempotencyKey(key: string)
    | CanonicalSource(platform: string, canonicalUrl: string)
    | ClientAddress(address: string)
    | QuotaPermit(idempotencyKey: string)
    | Request(platform: string, canonicalUrl: string)

  function Domain(s: Subject): string {
    match s
    case IdempotencyKey(_) => "idempotency-key"
    case CanonicalSource(_, _) => "canonical-source"
    case ClientAddress(_) => "client-address"
    case QuotaPermit(_) => "quota-permit"
    case Request(_, _) => "request"
  }

  function Fields(s: Subject): seq<Field> {
    match s
    case IdempotencyKey(key) => [Field("key", key)]
    case CanonicalSource(platform, url) => [Field("platform", platform), Field("canonicalUrl", url)]
    case ClientAddress(address) => [Field("address", address)]
    case QuotaPermit(key) => [Field("idempotencyKey", key)]
    case Request(platform, url) => [Field("platform", platform), Field("canonicalUrl", url)]
  }

  /** No two different subjects, of the same or of different kinds, share a preimage. */
  lemma SubjectsNeverCollide(s: Subject, t: Subject)
    ensures Preimage(Domain(s), Fields(s)) == Preimage(Domain(t), Fields(t)) <==> s == t
  {
    PreimageInjective(Domain(s), Fields(s), Domain(t), Fields(t));
    DomainsDiffer(s, t);
    if Fields(s) == Fields(t) && Domain(s) == Domain(t) {
      assert Fields(s)[0] == Fields(t)[0];
      if s.CanonicalSource? || s.Request? {
        assert Fields(s)[1] == Fields(t)[1];
      }
    }
  }

  predicate SameKind(s: Subject, t: Subject) {
    && s.IdempotencyKey? == t.IdempotencyKey? && s.CanonicalSource? == t.CanonicalSource?
    && s.ClientAddress? == t.ClientAddress? && s.QuotaPermit? == t.QuotaPermit?
  }

  lemma DomainsDiffer(s: Subject, t: Subject)
    ensures NUL !in Domain(s)
    ensures Domain(s) == Domain(t) <==> SameKind(s, t)
  {
    assert Domain(s)[0] == Domain(t)[0] || Domain(s) != Domain(t);
    assert |Domain(s)| == |Domain(t)| || Domain(s) != Domain(t);
  }
}
