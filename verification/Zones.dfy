/**
 Machine readable zones as a document prints them: section 4.9 of ICAO Doc 9303-3 for the check
 digits, section 4.2 of Doc 9303-5 for the three lines of a TD1 card and section 4.2 of Doc 9303-4
 for the two lines of a TD3 passport. A zone is a row of fields; nothing here knows a position.
 */
module Zones {
  import opened ByteStrings

  const PAD: Byte := 0x3C

  /* ---- check digits ---- */

  /** The characters of a zone in the order of their values. */
  const ALPHABET := "0123456789ABCDEFGHIJKLMNOPQRSTUVWXYZ"

  function PlaceOf(c: Byte, n: nat): (v: Option<nat>)
    requires n <= |ALPHABET|
    ensures v.Some? ==> v.value < n && ALPHABET[v.value] as int == c
    ensures v.None? ==> forall i :: 0 <= i < n ==> ALPHABET[i] as int != c
  {
    if n == 0 then None else if ALPHABET[n - 1] as int == c then Some(n - 1) else PlaceOf(c, n - 1)
  }

  predicate InAlphabet(c: Byte) {
    PlaceOf(c, |ALPHABET|).Some?
  }

  predicate Printable(field: Bytes) {
    forall i :: 0 <= i < |field| ==> InAlphabet(field[i]) || field[i] == PAD
  }

  /** The value of a character; fillers count nothing. */
  function Worth(c: Byte): nat {
    match PlaceOf(c, |ALPHABET|) case None => 0 case Some(v) => v
  }

  /** The weights are 7, 3, 1 over and over, beginning with w. */
  function Weighted(field: Bytes, w: nat): nat {
    if field == [] then 0 else Worth(field[0]) * w + Weighted(field[1..], if w == 7 then 3 else if w == 3 then 1 else 7)
  }

  function Digit(field: Bytes): (d: Byte) {
    '0' as int + Weighted(field, 7) % 10
  }

  /* ---- fields ---- */

  function Padded(s: Bytes, n: nat): (f: Bytes)
    requires |s| <= n
    ensures |f| == n
  {
    s + seq(n - |s|, i => PAD)
  }

  /** Primary and secondary identifier, two fillers between them, single fillers for spaces. */
  function Names(surname: Bytes, given: Bytes, n: nat): (f: Bytes)
    requires |surname| + 2 + |given| <= n
    ensures |f| == n
  {
    Padded(WithoutSpaces(surname) + [PAD, PAD] + WithoutSpaces(given), n)
  }

  function WithoutSpaces(s: Bytes): (t: Bytes)
    ensures |t| == |s|
  {
    seq(|s|, i requires 0 <= i < |s| => if s[i] == 0x20 then PAD else s[i])
  }

  /** A field that is not filled up in the middle: letters and digits only. */
  predicate Plain(s: Bytes, most: nat) {
    |s| <= most && forall i :: 0 <= i < |s| ==> InAlphabet(s[i])
  }

  /** Words with one space between them. */
  predicate IsName(s: Bytes) {
    forall i :: 0 <= i < |s| ==> InName(s, i)
  }

  predicate InName(s: Bytes, i: nat)
    requires i < |s|
  {
    InAlphabet(s[i]) || (s[i] == 0x20 && 0 < i < |s| - 1 && s[i + 1] != 0x20)
  }

  /** What a document says about its holder. */
  datatype Holder = Holder(
    documentType: Bytes, issuingState: Bytes, surname: Bytes, givenNames: Bytes, documentNumber: Bytes,
    nationality: Bytes, dateOfBirth: Bytes, sex: Byte, dateOfExpiry: Bytes, optional: Bytes, moreOptional: Bytes)
  {
    predicate Valid(format: Format) {
      && Plain(documentType, 2) && Plain(issuingState, 3) && Plain(nationality, 3)
      && Plain(documentNumber, 9) && documentNumber != []
      && Plain(dateOfBirth, 6) && |dateOfBirth| == 6 && Plain(dateOfExpiry, 6) && |dateOfExpiry| == 6
      && (InAlphabet(sex) || sex == PAD)
      && Printable(optional) && |optional| <= (if format == Card then 15 else 14)
      && Printable(moreOptional) && |moreOptional| <= 11
      && IsName(surname) && IsName(givenNames)
      && |surname| + 2 + |givenNames| <= (if format == Card then 30 else 39)
    }
  }

  /** TD1 or TD3. */
  datatype Format = Card | Passport

  /** The check digits of number, birth and expiry as they are printed, right or not. */
  datatype Digits = Digits(number: Byte, birth: Byte, expiry: Byte)

  function RightDigits(h: Holder): Digits
    requires |h.documentNumber| <= 9
  {
    Digits(Digit(Padded(h.documentNumber, 9)), Digit(h.dateOfBirth), Digit(h.dateOfExpiry))
  }

  function Join(fields: seq<Bytes>): Bytes {
    if fields == [] then [] else Join(fields[..|fields| - 1]) + fields[|fields| - 1]
  }

  /** Three lines of thirty characters. */
  function CardFields(h: Holder, d: Digits): seq<Bytes>
    requires h.Valid(Card)
  {
    var number := [Padded(h.documentNumber, 9), [d.number]];
    var birth, expiry := [h.dateOfBirth, [d.birth]], [h.dateOfExpiry, [d.expiry]];
    var optional, more := Padded(h.optional, 15), Padded(h.moreOptional, 11);
    [Padded(h.documentType, 2), Padded(h.issuingState, 3)] + number + [optional]
    + birth + [[h.sex]] + expiry + [Padded(h.nationality, 3), more, [Digit(Join(number + [optional] + birth + expiry + [more]))]]
    + [Names(h.surname, h.givenNames, 30)]
  }

  /** Two lines of forty-four. */
  function PassportFields(h: Holder, d: Digits): seq<Bytes>
    requires h.Valid(Passport)
  {
    var number := [Padded(h.documentNumber, 9), [d.number]];
    var birth, expiry := [h.dateOfBirth, [d.birth]], [h.dateOfExpiry, [d.expiry]];
    var optional := [Padded(h.optional, 14), [Digit(Padded(h.optional, 14))]];
    [Padded(h.documentType, 2), Padded(h.issuingState, 3), Names(h.surname, h.givenNames, 39)]
    + number + [Padded(h.nationality, 3)] + birth + [[h.sex]] + expiry + optional
    + [[Digit(Join(number + birth + expiry + optional))]]
  }

  function Fields(h: Holder, format: Format, d: Digits): seq<Bytes>
    requires h.Valid(format)
  {
    match format case Card => CardFields(h, d) case Passport => PassportFields(h, d)
  }

  function Printed(h: Holder, format: Format, d: Digits): Bytes
    requires h.Valid(format)
  {
    Join(Fields(h, format, d))
  }

  function Zone(h: Holder, format: Format): Bytes
    requires h.Valid(format)
  {
    Printed(h, format, RightDigits(h))
  }

  /** What the access keys are made from: number, birth and expiry, each with its check digit. */
  function AccessInformation(h: Holder): Bytes
    requires |h.documentNumber| <= 9
  {
    var number := Padded(h.documentNumber, 9);
    number + [Digit(number)] + h.dateOfBirth + [Digit(h.dateOfBirth)] + h.dateOfExpiry + [Digit(h.dateOfExpiry)]
  }
}
