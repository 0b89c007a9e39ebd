/** Every printed zone is read back field by field, and the typed fields give the printed key material. */
module ZoneTheorems {
  import opened ByteStrings
  import M = Mrz
  import opened MrzParsing
  import Z = Zones

  /* ---- check digits ---- */

  lemma AlphabetPlaces(i: nat)
    requires i < 36
    ensures Z.ALPHABET[i] as int == if i < 10 then 0x30 + i else 0x41 + i - 10
  {
  }

  /** The place of a character in the alphabet is its value. */
  lemma ValuesAgree(c: Byte)
    ensures M.CharValue(c) == if c == Z.PAD then Some(0) else Z.PlaceOf(c, 36)
    ensures Z.InAlphabet(c) ==> c != Z.PAD && 0x30 <= c <= 0x5A
  {
    forall i: nat | i < 36
      ensures Z.ALPHABET[i] as int == if i < 10 then 0x30 + i else 0x41 + i - 10
    {
      AlphabetPlaces(i);
    }
    hide Z.PlaceOf;
    var place := Z.PlaceOf(c, 36);
    if 0x30 <= c <= 0x39 {
      assert Z.ALPHABET[c - 0x30] as int == c;
    } else if 0x41 <= c <= 0x5A {
      assert Z.ALPHABET[c - 0x41 + 10] as int == c;
    }
  }

  lemma WorthIsValue(c: Byte)
    ensures Z.InAlphabet(c) || c == Z.PAD ==> M.CharValue(c) == Some(Z.Worth(c))
  {
    hide Z.PlaceOf, M.CharValue;
    ValuesAgree(c);
    assert |Z.ALPHABET| == 36;
  }

  /** Which of the three weights a position has. */
  function WeightAt(w: nat, n: nat): nat
    decreases n
  {
    if n == 0 then w else WeightAt(if w == 7 then 3 else if w == 3 then 1 else 7, n - 1)
  }

  lemma {:induction false} WeightsRepeat(n: nat)
    ensures WeightAt(7, n) == M.Weight(n)
    ensures WeightAt(3, n) == M.Weight(n + 1)
    ensures WeightAt(1, n) == M.Weight(n + 2)
  {
    if n > 0 {
      WeightsRepeat(n - 1);
    }
  }

  lemma {:induction false} WeightedSnoc(field: Bytes, c: Byte, w: nat)
    ensures Z.Weighted(field + [c], w) == Z.Weighted(field, w) + Z.Worth(c) * WeightAt(w, |field|)
  {
    hide Z.Worth;
    if field == [] {
      assert field + [c] == [c] && [c][1..] == [];
    } else {
      assert (field + [c])[1..] == field[1..] + [c];
      WeightedSnoc(field[1..], c, if w == 7 then 3 else if w == 3 then 1 else 7);
    }
  }

  lemma {:induction false} SumsAgree(field: Bytes)
    requires Z.Printable(field)
    ensures M.IsMrz(field) && M.WeightedSum(field) == Z.Weighted(field, 7)
  {
    hide Z.Worth, M.CharValue, M.Weight, Z.InAlphabet;
    forall i | 0 <= i < |field| ensures M.CharValue(field[i]).Some? {
      WorthIsValue(field[i]);
    }
    if field != [] {
      var n := |field| - 1;
      SumsAgree(field[..n]);
      WorthIsValue(field[n]);
      WeightedSnoc(field[..n], field[n], 7);
      WeightsRepeat(n);
      assert field[..n] + [field[n]] == field;
    }
  }

  /** The terminal's check digit is the one that is printed. */
  lemma DigitsAgree(field: Bytes)
    requires Z.Printable(field)
    ensures M.CheckDigit(field) == Some(Z.Digit(field))
  {
    SumsAgree(field);
  }

  /* ---- fields of a row ---- */

  function Offset(fields: seq<Bytes>, k: nat): nat
    requires k <= |fields|
  {
    if k == 0 then 0 else Offset(fields, k - 1) + |fields[k - 1]|
  }

  lemma {:induction false} OffsetOfFront(fields: seq<Bytes>, n: nat, k: nat)
    requires k <= n <= |fields|
    ensures Offset(fields[..n], k) == Offset(fields, k)
  {
    if k > 0 {
      OffsetOfFront(fields, n, k - 1);
    }
  }

  lemma {:induction false} JoinLength(fields: seq<Bytes>)
    ensures |Z.Join(fields)| == Offset(fields, |fields|)
  {
    if fields != [] {
      var n := |fields| - 1;
      JoinLength(fields[..n]);
      OffsetOfFront(fields, n, n);
    }
  }

  predicate Stands(fields: seq<Bytes>, k: nat)
    requires k < |fields|
  {
    var at := Offset(fields, k);
    at + |fields[k]| <= |Z.Join(fields)| && Z.Join(fields)[at..at + |fields[k]|] == fields[k]
  }

  /** Each field stands where the ones before it end. */
  lemma {:induction false} FieldAt(fields: seq<Bytes>, k: nat)
    requires k < |fields|
    ensures Stands(fields, k)
  {
    var n := |fields| - 1;
    JoinLength(fields[..n]);
    OffsetOfFront(fields, n, k);
    if k < n {
      FieldAt(fields[..n], k);
      var at := Offset(fields, k);
      assert Z.Join(fields)[at..at + |fields[k]|] == Z.Join(fields[..n])[at..at + |fields[k]|];
    } else {
      OffsetOfFront(fields, n, n);
    }
  }

  /* ---- the fields of a zone ---- */

  lemma PaddedIsTrimmed(s: Bytes, n: nat)
    requires Z.Plain(s, n)
    ensures Trim(Z.Padded(s, n)) == s && Z.Printable(Z.Padded(s, n)) && NulFree(Z.Padded(s, n))
    ensures forall i :: |s| <= i < n ==> Z.Padded(s, n)[i] == M.FILLER
  {
    hide Trim, Z.InAlphabet;
    forall i | 0 <= i < |s| ensures s[i] != M.FILLER && s[i] != 0 {
      ValuesAgree(s[i]);
    }
    TrimStopsAt(Z.Padded(s, n), |s|);
  }

  lemma NamesArePrinted(surname: Bytes, given: Bytes, n: nat)
    requires |surname| + 2 + |given| <= n
    ensures Z.Names(surname, given, n) == PrintedName(surname, given, n)
  {
  }

  lemma NamesFit(s: Bytes)
    requires Z.IsName(s)
    ensures IsSurname(s) && IsGiven(s)
  {
    hide Z.InAlphabet;
    forall i | 0 <= i < |s| ensures s[i] != M.FILLER && (i == |s| - 1 ==> !IsSpace(s[i])) && !(i < |s| - 1 && s[i] == 0x20 && s[i + 1] == 0x20) {
      assert Z.InName(s, i);
      ValuesAgree(s[i]);
    }
  }

  /** Where the fields of a row of fourteen stand. */
  lemma Offsets(fields: seq<Bytes>)
    requires |fields| == 14
    ensures Offset(fields, 0) == 0
    ensures forall k :: 0 <= k < 14 ==> Offset(fields, k + 1) == Offset(fields, k) + |fields[k]|
    ensures |Z.Join(fields)| == Offset(fields, 14)
  {
    JoinLength(fields);
  }

  lemma FieldFrom(fields: seq<Bytes>, k: nat, at: nat, value: Bytes)
    requires k < |fields| && Offset(fields, k) == at && fields[k] == value
    ensures at + |value| <= |Z.Join(fields)| && Z.Join(fields)[at..at + |value|] == value
    ensures |value| == 1 ==> Z.Join(fields)[at] == value[0]
  {
    hide Offset, Z.Join;
    FieldAt(fields, k);
    if |value| == 1 {
      assert Z.Join(fields)[at] == Z.Join(fields)[at..at + 1][0];
    }
  }

  lemma PassportFieldsAre(h: Z.Holder, d: Z.Digits)
    requires h.Valid(Z.Passport)
    ensures var f := Z.PassportFields(h, d); var number := Z.Padded(h.documentNumber, 9);
      && |f| == 14 && f[0] == Z.Padded(h.documentType, 2) && f[1] == Z.Padded(h.issuingState, 3)
      && f[2] == Z.Names(h.surname, h.givenNames, 39) && f[3] == number && f[4] == [d.number]
      && f[5] == Z.Padded(h.nationality, 3) && f[6] == h.dateOfBirth && f[7] == [d.birth]
      && f[8] == [h.sex] && f[9] == h.dateOfExpiry && f[10] == [d.expiry]
      && |f[11]| == 14 && |f[12]| == 1 && |f[13]| == 1
  {
  }

  lemma CardFieldsAre(h: Z.Holder, d: Z.Digits)
    requires h.Valid(Z.Card)
    ensures var f := Z.CardFields(h, d); var number := Z.Padded(h.documentNumber, 9);
      && |f| == 14 && f[0] == Z.Padded(h.documentType, 2) && f[1] == Z.Padded(h.issuingState, 3)
      && f[2] == number && f[3] == [d.number] && |f[4]| == 15
      && f[5] == h.dateOfBirth && f[6] == [d.birth] && f[7] == [h.sex]
      && f[8] == h.dateOfExpiry && f[9] == [d.expiry] && f[10] == Z.Padded(h.nationality, 3)
      && |f[11]| == 11 && |f[12]| == 1 && f[13] == Z.Names(h.surname, h.givenNames, 30)
  {
  }

  /** A string that holds the fields of a document where this layout looks for them. */
  predicate Holds(zone: Bytes, l: Layout, h: Z.Holder, d: Z.Digits)
    requires LayoutOf(zone) == Some(l) && |h.documentNumber| <= 9 && |h.documentType| <= 2 && |h.issuingState| <= 3
    requires |h.nationality| <= 3 && |h.surname| + 2 + |h.givenNames| <= l.nameLen && |h.dateOfBirth| == |h.dateOfExpiry| == 6
  {
    var number := Z.Padded(h.documentNumber, 9);
    && zone[..2] == Z.Padded(h.documentType, 2) && zone[2..5] == Z.Padded(h.issuingState, 3)
    && zone[l.name..l.name + l.nameLen] == Z.Names(h.surname, h.givenNames, l.nameLen)
    && zone[l.number..l.number + 9] == number && zone[l.number + 9] == d.number
    && zone[l.nationality..l.nationality + 3] == Z.Padded(h.nationality, 3)
    && zone[l.birth..l.birth + 6] == h.dateOfBirth && zone[l.birth + 6] == d.birth
    && zone[l.sex] == h.sex
    && zone[l.expiry..l.expiry + 6] == h.dateOfExpiry && zone[l.expiry + 6] == d.expiry
  }

  function LayoutFor(format: Z.Format): Layout {
    match format case Card => TD1 case Passport => TD3
  }

  lemma PassportHolds(h: Z.Holder, d: Z.Digits)
    requires h.Valid(Z.Passport)
    ensures var zone := Z.Printed(h, Z.Passport, d); LayoutOf(zone) == Some(TD3) && Holds(zone, TD3, h, d)
  {
    hide Z.PassportFields, Z.Join, Offset, Z.InAlphabet, Z.IsName, Z.Printable, Z.Padded, Z.Names, Z.Digit;
    var f, zone := Z.PassportFields(h, d), Z.Printed(h, Z.Passport, d);
    PassportFieldsAre(h, d);
    Offsets(f);
    assert Offset(f, 1) == 2 && Offset(f, 2) == 5 && Offset(f, 3) == 44 && Offset(f, 4) == 53 && Offset(f, 5) == 54;
    assert Offset(f, 6) == 57 && Offset(f, 7) == 63 && Offset(f, 8) == 64 && Offset(f, 9) == 65 && Offset(f, 10) == 71;
    assert Offset(f, 11) == 72 && Offset(f, 12) == 86 && Offset(f, 13) == 87 && Offset(f, 14) == 88;
    FieldFrom(f, 0, 0, Z.Padded(h.documentType, 2));
    FieldFrom(f, 1, 2, Z.Padded(h.issuingState, 3));
    FieldFrom(f, 2, 5, Z.Names(h.surname, h.givenNames, 39));
    FieldFrom(f, 3, 44, Z.Padded(h.documentNumber, 9));
    FieldFrom(f, 4, 53, [d.number]);
    FieldFrom(f, 5, 54, Z.Padded(h.nationality, 3));
    FieldFrom(f, 6, 57, h.dateOfBirth);
    FieldFrom(f, 7, 63, [d.birth]);
    FieldFrom(f, 8, 64, [h.sex]);
    FieldFrom(f, 9, 65, h.dateOfExpiry);
    FieldFrom(f, 10, 71, [d.expiry]);
  }

  lemma CardHolds(h: Z.Holder, d: Z.Digits)
    requires h.Valid(Z.Card)
    ensures var zone := Z.Printed(h, Z.Card, d); LayoutOf(zone) == Some(TD1) && Holds(zone, TD1, h, d)
  {
    hide Z.CardFields, Z.Join, Offset, Z.InAlphabet, Z.IsName, Z.Printable, Z.Padded, Z.Names, Z.Digit;
    var f, zone := Z.CardFields(h, d), Z.Printed(h, Z.Card, d);
    CardFieldsAre(h, d);
    Offsets(f);
    assert Offset(f, 1) == 2 && Offset(f, 2) == 5 && Offset(f, 3) == 14 && Offset(f, 4) == 15 && Offset(f, 5) == 30;
    assert Offset(f, 6) == 36 && Offset(f, 7) == 37 && Offset(f, 8) == 38 && Offset(f, 9) == 44 && Offset(f, 10) == 45;
    assert Offset(f, 11) == 48 && Offset(f, 12) == 59 && Offset(f, 13) == 60 && Offset(f, 14) == 90;
    FieldFrom(f, 0, 0, Z.Padded(h.documentType, 2));
    FieldFrom(f, 1, 2, Z.Padded(h.issuingState, 3));
    FieldFrom(f, 2, 5, Z.Padded(h.documentNumber, 9));
    FieldFrom(f, 3, 14, [d.number]);
    FieldFrom(f, 5, 30, h.dateOfBirth);
    FieldFrom(f, 6, 36, [d.birth]);
    FieldFrom(f, 7, 37, [h.sex]);
    FieldFrom(f, 8, 38, h.dateOfExpiry);
    FieldFrom(f, 9, 44, [d.expiry]);
    FieldFrom(f, 10, 45, Z.Padded(h.nationality, 3));
    FieldFrom(f, 13, 60, Z.Names(h.surname, h.givenNames, 30));
  }

  lemma ZoneHolds(h: Z.Holder, format: Z.Format, d: Z.Digits)
    requires h.Valid(format)
    ensures var zone, l := Z.Printed(h, format, d), LayoutFor(format); LayoutOf(zone) == Some(l) && Holds(zone, l, h, d)
  {
    match format case Card => CardHolds(h, d); case Passport => PassportHolds(h, d);
  }

  /* ---- the theorems ---- */

  /** What the terminal is to read: every field, and for each check digit whether it is the right one. */
  function Readings(h: Z.Holder, d: Z.Digits): MrzFields
    requires |h.documentNumber| <= 9
  {
    var right := Z.RightDigits(h);
    MrzFields(h.documentType, h.issuingState, h.surname, h.givenNames, h.documentNumber, h.nationality,
              h.dateOfBirth, h.sex, h.dateOfExpiry, d.number == right.number, d.birth == right.birth, d.expiry == right.expiry)
  }

  /** The terminal reads every field that was printed, and tells of each check digit whether it is right. */
  lemma PrintedZoneIsRead(h: Z.Holder, format: Z.Format, d: Z.Digits)
    requires h.Valid(format)
    ensures FieldsOf(Z.Printed(h, format, d)) == Some(Readings(h, d))
  {
    var zone, l := Z.Printed(h, format, d), LayoutFor(format);
    ZoneHolds(h, format, d);
    FieldsAreRead(zone, l, h, format, d);
  }

  lemma FieldsAreRead(zone: Bytes, l: Layout, h: Z.Holder, format: Z.Format, d: Z.Digits)
    requires h.Valid(format) && l == LayoutFor(format) && LayoutOf(zone) == Some(l) && Holds(zone, l, h, d)
    ensures FieldsAt(zone, l) == Readings(h, d)
  {
    hide Trim, Surname, GivenNames, Z.Padded, Z.Names, Z.Digit, M.CheckDigit, Z.InAlphabet;
    PaddedIsTrimmed(h.documentType, 2);
    PaddedIsTrimmed(h.issuingState, 3);
    PaddedIsTrimmed(h.nationality, 3);
    PaddedIsTrimmed(h.documentNumber, 9);
    PaddedIsTrimmed(h.dateOfBirth, 6);
    PaddedIsTrimmed(h.dateOfExpiry, 6);
    FullFieldIsPadded(h.dateOfBirth);
    FullFieldIsPadded(h.dateOfExpiry);
    DigitsAgree(Z.Padded(h.documentNumber, 9));
    DigitsAgree(h.dateOfBirth);
    DigitsAgree(h.dateOfExpiry);
    NamesFit(h.surname);
    NamesFit(h.givenNames);
    NamesArePrinted(h.surname, h.givenNames, l.nameLen);
    NameRoundTrip(h.surname, h.givenNames, l.nameLen, NAME_CAPACITY, NAME_CAPACITY);
  }

  lemma FullFieldIsPadded(s: Bytes)
    ensures Z.Padded(s, |s|) == s
  {
  }

  predicate SameButForCase(typed: Bytes, number: Bytes) {
    && |typed| == |number|
    && forall i :: 0 <= i < |number| ==> typed[i] == number[i] || (0x41 <= number[i] <= 0x5A && typed[i] == number[i] + 0x20)
  }

  /** The key material is made from what was typed: number, birth and expiry with their check digits. */
  lemma TypedFieldsGiveAccess(h: Z.Holder, format: Z.Format, typed: Bytes)
    requires h.Valid(format) && SameButForCase(typed, h.documentNumber)
    ensures M.MrzInformation(typed, h.dateOfBirth, h.dateOfExpiry) == Some(Z.AccessInformation(h))
  {
    hide Z.Digit, M.CheckDigit, Z.InAlphabet;
    NumberIsPadded(h.documentNumber, typed);
    PaddedIsTrimmed(h.documentNumber, 9);
    PaddedIsTrimmed(h.dateOfBirth, 6);
    PaddedIsTrimmed(h.dateOfExpiry, 6);
    FullFieldIsPadded(h.dateOfBirth);
    FullFieldIsPadded(h.dateOfExpiry);
    DigitsAgree(Z.Padded(h.documentNumber, 9));
    DigitsAgree(h.dateOfBirth);
    DigitsAgree(h.dateOfExpiry);
    hide Z.Padded, M.PrintedNumber;
    var n, b, e := Z.Padded(h.documentNumber, 9), h.dateOfBirth, h.dateOfExpiry;
    assert n + [Z.Digit(n)] + (b + [Z.Digit(b)]) + (e + [Z.Digit(e)])
        == n + [Z.Digit(n)] + b + [Z.Digit(b)] + e + [Z.Digit(e)];
  }

  /** The number as it is typed, in small letters or large, is printed in large ones and filled up. */
  lemma NumberIsPadded(number: Bytes, typed: Bytes)
    requires Z.Plain(number, 9) && SameButForCase(typed, number)
    ensures M.PrintedNumber(typed) == Z.Padded(number, 9)
  {
    hide Z.InAlphabet;
    forall i | 0 <= i < |number| ensures M.Upper(typed[i]) == number[i] {
      ValuesAgree(number[i]);
    }
  }

  /** A printed zone has no NUL in it. */
  lemma ZoneIsNulFree(h: Z.Holder, format: Z.Format)
    requires h.Valid(format)
    ensures NulFree(Z.Zone(h, format))
  {
    var fields := Z.Fields(h, format, Z.RightDigits(h));
    FieldsAreNulFree(h, format);
    JoinIsNulFree(fields);
  }

  lemma {:induction false} JoinIsNulFree(fields: seq<Bytes>)
    requires forall k :: 0 <= k < |fields| ==> NulFree(fields[k])
    ensures NulFree(Z.Join(fields))
  {
    if fields != [] {
      JoinIsNulFree(fields[..|fields| - 1]);
    }
  }

  lemma PrintableIsNulFree(s: Bytes, n: nat)
    requires |s| <= n && Z.Printable(s)
    ensures NulFree(Z.Padded(s, n)) && NulFree(s)
  {
    hide Z.InAlphabet;
    forall i | 0 <= i < |s| ensures s[i] != 0 {
      ValuesAgree(s[i]);
    }
  }

  lemma NamesAreNulFree(surname: Bytes, given: Bytes, n: nat)
    requires Z.IsName(surname) && Z.IsName(given) && |surname| + 2 + |given| <= n
    ensures NulFree(Z.Names(surname, given, n))
  {
    hide Z.InAlphabet;
    forall i | 0 <= i < |surname| ensures surname[i] != 0 {
      assert Z.InName(surname, i);
      ValuesAgree(surname[i]);
    }
    forall i | 0 <= i < |given| ensures given[i] != 0 {
      assert Z.InName(given, i);
      ValuesAgree(given[i]);
    }
  }

  lemma FieldsAreNulFree(h: Z.Holder, format: Z.Format)
    requires h.Valid(format)
    ensures var f := Z.Fields(h, format, Z.RightDigits(h)); forall k :: 0 <= k < |f| ==> NulFree(f[k])
  {
    hide Z.InAlphabet, Z.Digit, Z.Names, Z.Padded, Z.Join;
    PrintableIsNulFree(h.documentType, 2);
    PrintableIsNulFree(h.issuingState, 3);
    PrintableIsNulFree(h.nationality, 3);
    PrintableIsNulFree(h.documentNumber, 9);
    PrintableIsNulFree(h.dateOfBirth, 6);
    PrintableIsNulFree(h.dateOfExpiry, 6);
    PrintableIsNulFree(h.optional, if format == Z.Card then 15 else 14);
    PrintableIsNulFree(h.moreOptional, 11);
    NamesAreNulFree(h.surname, h.givenNames, if format == Z.Card then 30 else 39);
    ValuesAgree(h.sex);
    DigitIsNotNul();
  }

  lemma DigitIsNotNul()
    ensures forall field :: Z.Digit(field) != 0
  {
  }
}
