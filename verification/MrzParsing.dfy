/** src/bac.c:458-583 - from the bytes of EF.DG1 to the fields of a TD1 or TD3 machine readable zone. */
module MrzParsing {
  import opened BerTlv
  import opened ByteStrings
  import opened Mrz

  /* ---- EF.DG1 ---- */

  const DG1_TAG: Byte := 0x61

  function MrzOfDg1(dg1: Bytes): Option<Bytes> {
    if |dg1| < 2 || dg1[0] != DG1_TAG then None
    else
      match TlvHeader(dg1)
      case None => None
      case Some(outer) =>
        if outer.header + outer.content > |dg1| || !([0x5F, 0x1F] <= dg1[outer.header..]) then None
        else
          match BerLength(dg1[outer.header + 2..])
          case None => None
          case Some(inner) =>
            var pos := outer.header + 2 + inner.header;
            if pos + inner.content > |dg1| then None else Some(CString(dg1[pos..pos + inner.content]))
  }

  method ParseDg1(dg1: Bytes) returns (mrz: Option<Bytes>)
    ensures mrz == MrzOfDg1(dg1)
  {
    hide CString;
    if |dg1| < 2 || dg1[0] != DG1_TAG {
      return None;
    }
    var outer := TlvHeader(dg1);
    if outer.None? {
      return None;
    }
    if outer.value.header + outer.value.content > |dg1| {
      return None;
    }
    var pos := outer.value.header;
    if pos + 2 > |dg1| || dg1[pos] != 0x5F || dg1[pos + 1] != 0x1F {
      return None;
    }
    assert dg1[pos..][..2] == [0x5F, 0x1F];
    var inner := BerLength(dg1[pos + 2..]);
    if inner.None? {
      return None;
    }
    pos := pos + 2 + inner.value.header;
    if pos + inner.value.content > |dg1| {
      return None;
    }
    mrz := Some(CString(dg1[pos..pos + inner.value.content]));
  }

  /** EF.DG1 as section 4.7.1 of ICAO Doc 9303-10 lays it out. */
  function Dg1(mrz: Bytes): Bytes
    requires |mrz| < 0x1_0000 - 5
  {
    Encode(0x61, [0x5F, 0x1F] + EncodeLength(|mrz|) + mrz)
  }

  lemma BerLengthOfEncoded(n: nat, tail: Bytes)
    requires n < 0x1_0000
    ensures BerLength(EncodeLength(n) + tail) == Some(Length(|EncodeLength(n)|, n))
  {
  }

  lemma Dg1RoundTrip(mrz: Bytes, tail: Bytes)
    requires |mrz| < 0x1_0000 - 5 && NulFree(mrz)
    ensures MrzOfDg1(Dg1(mrz) + tail) == Some(mrz)
  {
    hide BerLength, EncodeLength, CString;
    var field := EncodeLength(|mrz|);
    var content := [0x5F, 0x1F] + field + mrz;
    var header := [DG1_TAG] + EncodeLength(|content|);
    var dg1 := Dg1(mrz) + tail;
    assert dg1 == header + content + tail;
    assert dg1[1..] == EncodeLength(|content|) + (content + tail);
    BerLengthOfEncoded(|content|, content + tail);
    assert dg1[|header|..] == content + tail && dg1[|header|..][..2] == [0x5F, 0x1F];
    assert dg1[|header| + 2..] == field + (mrz + tail);
    BerLengthOfEncoded(|mrz|, mrz + tail);
    var pos := |header| + 2 + |field|;
    assert dg1[pos..pos + |mrz|] == mrz;
    CStringOfNulFree(mrz);
  }

  /* ---- fields ---- */

  /** A field without its fillers: everything before the first one. */
  function Trim(field: Bytes): (t: Bytes)
    ensures t <= field
    ensures forall i :: 0 <= i < |t| ==> t[i] != FILLER
    ensures |t| < |field| ==> field[|t|] == FILLER
  {
    if field == [] || field[0] == FILLER then [] else [field[0]] + Trim(field[1..])
  }

  lemma {:induction false} TrimStopsAt(field: Bytes, n: nat)
    requires n <= |field| && (forall i :: 0 <= i < n ==> field[i] != FILLER)
    requires n < |field| ==> field[n] == FILLER
    ensures Trim(field) == field[..n]
  {
    if n > 0 {
      TrimStopsAt(field[1..], n - 1);
    }
  }

  method TrimCopy(src: Bytes, len: nat, capacity: nat) returns (out: Bytes)
    requires len <= |src| && 0 < capacity
    ensures out == Trim(Take(src[..len], capacity - 1))
  {
    var n := 0;
    while n < len && n + 1 < capacity && src[n] != FILLER
      invariant 0 <= n <= len && n < capacity
      invariant forall i :: 0 <= i < n ==> src[i] != FILLER
    {
      n := n + 1;
    }
    TrimStopsAt(Take(src[..len], capacity - 1), n);
    assert Take(src[..len], capacity - 1)[..n] == src[..n];
    out := src[..n];
  }

  datatype MrzFields = MrzFields(
    documentType: Bytes, issuingState: Bytes, surname: Bytes, givenNames: Bytes,
    documentNumber: Bytes, nationality: Bytes, dateOfBirth: Bytes, sex: Byte, dateOfExpiry: Bytes,
    documentNumberOk: bool, dateOfBirthOk: bool, dateOfExpiryOk: bool)

  /** Where the two formats keep their fields; a check digit directly follows its field. */
  datatype Layout = Layout(number: nat, birth: nat, sex: nat, expiry: nat, nationality: nat, name: nat, nameLen: nat)

  const NAME_CAPACITY := 64
  const TD1_LEN := 90
  const TD3_LEN := 88
  const TD1 := Layout(5, 30, 37, 38, 45, 60, 30)
  const TD3 := Layout(44, 57, 64, 65, 54, 5, 39)

  function LayoutOf(mrz: Bytes): (l: Option<Layout>) {
    if |mrz| == TD1_LEN then Some(TD1) else if |mrz| == TD3_LEN then Some(TD3) else None
  }

  predicate Checked(mrz: Bytes, at: nat, len: nat)
    requires at + len < |mrz|
  {
    CheckDigit(mrz[at..at + len]) == Some(mrz[at + len])
  }

  /* ---- names ---- */

  /** Where the double filler between the names is, or the end. */
  function Separator(field: Bytes): (sep: nat)
    ensures sep <= |field|
    ensures sep < |field| ==> sep + 1 < |field| && field[sep] == FILLER && field[sep + 1] == FILLER
  {
    if |field| < 2 then |field|
    else if field[0] == FILLER && field[1] == FILLER then 0
    else 1 + Separator(field[1..])
  }

  lemma {:induction false} SeparatorIsFirst(field: Bytes, n: nat)
    requires n <= |field|
    requires forall i :: 0 <= i < n && i + 1 < |field| ==> !(field[i] == FILLER && field[i + 1] == FILLER)
    requires n < |field| ==> n + 1 < |field| && field[n] == FILLER && field[n + 1] == FILLER
    ensures Separator(field) == n
  {
    if n > 0 && |field| >= 2 {
      forall i | 0 <= i < n - 1 && i + 1 < |field[1..]|
        ensures !(field[1..][i] == FILLER && field[1..][i + 1] == FILLER)
      {
        assert field[1..][i] == field[i + 1];
      }
      SeparatorIsFirst(field[1..], n - 1);
    }
  }

  function Spaced(s: Bytes): (t: Bytes)
    ensures |t| == |s|
  {
    seq(|s|, i requires 0 <= i < |s| => if s[i] == FILLER then 0x20 else s[i])
  }

  predicate IsSpace(c: Byte) { c == 0x20 || c == 9 || c == 10 || c == 12 || c == 13 }

  function Chomp(s: Bytes): (t: Bytes)
    ensures t <= s && (t != [] ==> !IsSpace(t[|t| - 1]))
    ensures forall i :: |t| <= i < |s| ==> IsSpace(s[i])
  {
    if s != [] && IsSpace(s[|s| - 1]) then Chomp(s[..|s| - 1]) else s
  }

  /** Surname and given names out of the name field, each cut to the buffer it goes to and its terminator. */
  function Surname(field: Bytes, capacity: nat): Bytes
    requires 0 < capacity
  {
    Chomp(Spaced(Take(field[..Separator(field)], capacity - 1)))
  }

  function GivenNames(field: Bytes, capacity: nat): Bytes
    requires 0 < capacity
  {
    if Separator(field) + 2 < |field| then Chomp(Spaced(Take(field[Separator(field) + 2..], capacity - 1))) else []
  }

  method SpaceOut(s: Bytes, capacity: nat) returns (out: Bytes)
    requires 0 < capacity
    ensures out == Chomp(Spaced(Take(s, capacity - 1)))
  {
    var n := if |s| < capacity - 1 then |s| else capacity - 1;
    out := [];
    for i := 0 to n
      invariant |out| == i && forall k :: 0 <= k < i ==> out[k] == Spaced(s)[k]
    {
      out := out + [if s[i] == FILLER then 0x20 else s[i]];
    }
    assert out == Spaced(Take(s, capacity - 1));
    out := Chomp(out);
  }

  method DecodeName(field: Bytes, surnameCap: nat, givenCap: nat) returns (surname: Bytes, givenNames: Bytes)
    requires 0 < surnameCap && 0 < givenCap
    ensures surname == Surname(field, surnameCap) && givenNames == GivenNames(field, givenCap)
  {
    var sep := 0;
    while sep + 1 < |field| && !(field[sep] == FILLER && field[sep + 1] == FILLER)
      invariant sep <= |field|
      invariant forall i :: 0 <= i < sep && i + 1 < |field| ==> !(field[i] == FILLER && field[i + 1] == FILLER)
    {
      sep := sep + 1;
    }
    if sep + 1 >= |field| {
      sep := |field|;
    }
    SeparatorIsFirst(field, sep);
    surname := SpaceOut(field[..sep], surnameCap);
    givenNames := [];
    if sep + 2 < |field| {
      givenNames := SpaceOut(field[sep + 2..], givenCap);
    }
  }

  /** What the zone prints for a name, filled up to the length of the field. */
  function PrintedName(surname: Bytes, given: Bytes, len: nat): (field: Bytes)
    requires |surname| + 2 + |given| <= len
    ensures |field| == len
  {
    seq(len, i requires 0 <= i < len =>
      if i < |surname| then Filled(surname[i])
      else if |surname| + 2 <= i < |surname| + 2 + |given| then Filled(given[i - |surname| - 2])
      else FILLER)
  }

  function Filled(c: Byte): Byte { if c == 0x20 then FILLER else c }

  /** Single spaces inside, none at the end, no fillers: what a printed surname can carry. */
  predicate IsSurname(s: Bytes) {
    && (forall i :: 0 <= i < |s| ==> s[i] != FILLER)
    && (forall i :: 0 <= i < |s| - 1 ==> !(s[i] == 0x20 && s[i + 1] == 0x20))
    && (s != [] ==> !IsSpace(s[|s| - 1]))
  }

  predicate IsGiven(s: Bytes) {
    && (forall i :: 0 <= i < |s| ==> s[i] != FILLER)
    && (s != [] ==> !IsSpace(s[|s| - 1]))
  }

  lemma {:induction false} ChompOfPadded(s: Bytes, t: Bytes)
    requires s <= t && (s != [] ==> !IsSpace(s[|s| - 1]))
    requires forall i :: |s| <= i < |t| ==> IsSpace(t[i])
    ensures Chomp(t) == s
    decreases |t|
  {
    if |s| < |t| {
      ChompOfPadded(s, t[..|t| - 1]);
    }
  }

  lemma PrintedSurname(surname: Bytes, given: Bytes, len: nat)
    requires |surname| + 2 + |given| <= len && IsSurname(surname)
    ensures Separator(PrintedName(surname, given, len)) == |surname|
    ensures Spaced(PrintedName(surname, given, len)[..|surname|]) == surname
  {
    var field, n := PrintedName(surname, given, len), |surname|;
    assert forall i :: 0 <= i < n ==> field[i] == Filled(surname[i]);
    forall i | 0 <= i < n
      ensures !(field[i] == FILLER && field[i + 1] == FILLER)
    {
      if i == n - 1 {
        assert surname[i] != 0x20;
      }
    }
    SeparatorIsFirst(field, n);
  }

  lemma PrintedGiven(surname: Bytes, given: Bytes, len: nat, i: nat)
    requires |surname| + 2 + |given| <= len && IsGiven(given) && i < len - |surname| - 2
    ensures Spaced(PrintedName(surname, given, len)[|surname| + 2..])[i] == if i < |given| then given[i] else 0x20
  {
    var field := PrintedName(surname, given, len);
    var k := |surname| + 2 + i;
    assert field[|surname| + 2..][i] == field[k];
    assert field[k] == if i < |given| then Filled(given[i]) else FILLER;
  }

  /** Names that fit the buffers come back from the zone as they were printed. */
  lemma NameRoundTrip(surname: Bytes, given: Bytes, len: nat, surnameCap: nat, givenCap: nat)
    requires |surname| + 2 + |given| <= len && IsSurname(surname) && IsGiven(given)
    requires |surname| < surnameCap && |given| < givenCap
    ensures Surname(PrintedName(surname, given, len), surnameCap) == surname
    ensures GivenNames(PrintedName(surname, given, len), givenCap) == given
  {
    hide PrintedName, Spaced, Chomp, Separator;
    var field, n := PrintedName(surname, given, len), |surname|;
    PrintedSurname(surname, given, len);
    ChompOfPadded(surname, surname);
    if n + 2 < len {
      var part := Take(field[n + 2..], givenCap - 1);
      var rest := Spaced(part);
      assert part == field[n + 2..][..|part|] && IsSpace(0x20);
      forall i: nat | i < |rest|
        ensures rest[i] == if i < |given| then given[i] else 0x20
      {
        PrintedGiven(surname, given, len, i);
        SpacedAt(part, field[n + 2..], i);
      }
      ChompOfPadded(given, rest);
    }
  }

  lemma SpacedAt(s: Bytes, t: Bytes, i: nat)
    requires i < |s| && i < |t| && s[i] == t[i]
    ensures Spaced(s)[i] == Spaced(t)[i]
  {
  }

  /* ---- the whole zone ---- */

  function FieldsAt(mrz: Bytes, l: Layout): MrzFields
    requires LayoutOf(mrz) == Some(l)
  {
    var name := mrz[l.name..l.name + l.nameLen];
    MrzFields(
      Trim(mrz[..2]), Trim(mrz[2..5]), Surname(name, NAME_CAPACITY), GivenNames(name, NAME_CAPACITY),
      Trim(mrz[l.number..l.number + 9]), Trim(mrz[l.nationality..l.nationality + 3]),
      Trim(mrz[l.birth..l.birth + 6]), mrz[l.sex], Trim(mrz[l.expiry..l.expiry + 6]),
      Checked(mrz, l.number, 9), Checked(mrz, l.birth, 6), Checked(mrz, l.expiry, 6))
  }

  function FieldsOf(mrz: Bytes): Option<MrzFields> {
    match LayoutOf(mrz)
    case None => None
    case Some(l) => Some(FieldsAt(mrz, l))
  }

  method CheckedField(mrz: Bytes, at: nat, len: nat) returns (ok: bool)
    requires at + len < |mrz|
    ensures ok == Checked(mrz, at, len)
  {
    var digit := ComputeCheckDigit(mrz[at..at + len]);
    ok := digit.Some? && digit.value == mrz[at + len];
  }

  /** src/bac.c:522-583. */
  method ParseFields(mrz: Option<Bytes>) returns (fields: Option<MrzFields>)
    ensures mrz.None? ==> fields.None?
    ensures mrz.Some? ==> fields == FieldsOf(mrz.value)
  {
    hide Surname, GivenNames, CheckDigit, Trim;
    if mrz.None? {
      return None;
    }
    var m := mrz.value;
    var l: Layout;
    if |m| == TD1_LEN {
      l := TD1;
    } else if |m| == TD3_LEN {
      l := TD3;
    } else {
      return None;
    }
    var documentType := TrimCopy(m, 2, 3);
    var issuingState := TrimCopy(m[2..], 3, 4);
    var surname, givenNames := DecodeName(m[l.name..l.name + l.nameLen], NAME_CAPACITY, NAME_CAPACITY);
    var number := TrimCopy(m[l.number..], 9, 10);
    var numberOk := CheckedField(m, l.number, 9);
    var birth := TrimCopy(m[l.birth..], 6, 7);
    var birthOk := CheckedField(m, l.birth, 6);
    var expiry := TrimCopy(m[l.expiry..], 6, 7);
    var expiryOk := CheckedField(m, l.expiry, 6);
    var nationality := TrimCopy(m[l.nationality..], 3, 4);
    assert forall at: nat, n: nat :: at + n <= |m| ==> m[at..][..n] == m[at..at + n];
    fields := Some(MrzFields(documentType, issuingState, surname, givenNames, number, nationality, birth,
                             m[l.sex], expiry, numberOk, birthOk, expiryOk));
  }

  /** The number and the dates as printed, each with the check digit printed after it. */
  function PrintedInformation(mrz: Bytes, l: Layout): Bytes
    requires LayoutOf(mrz) == Some(l)
  {
    mrz[l.number..l.number + 10] + mrz[l.birth..l.birth + 7] + mrz[l.expiry..l.expiry + 7]
  }

  predicate OnlyTrailingFillers(field: Bytes) {
    forall i :: |Trim(field)| <= i < |field| ==> field[i] == FILLER
  }

  /* ---- the keys of a document from its own zone ---- */

  lemma CheckedIff(mrz: Bytes, at: nat, len: nat)
    requires at + len < |mrz|
    ensures Checked(mrz, at, len) <==> WithCheckDigit(mrz[at..at + len]) == Some(mrz[at..at + len + 1])
  {
    hide CheckDigit;
    var field := mrz[at..at + len];
    assert mrz[at..at + len + 1] == field + [mrz[at + len]];
    if CheckDigit(field).Some? {
      assert (field + [CheckDigit(field).value])[len] == CheckDigit(field).value;
    }
  }

  lemma PrintedNumberIff(field: Bytes)
    requires |field| == DOC_NUMBER_LEN
    ensures PrintedNumber(Trim(field)) == field ==> OnlyTrailingFillers(field)
    ensures IsMrz(field) && OnlyTrailingFillers(field) ==> PrintedNumber(Trim(field)) == field
  {
    var t := Trim(field);
    if PrintedNumber(t) == field {
      assert forall i :: |t| <= i < |field| ==> field[i] == PrintedNumber(t)[i];
    }
    if IsMrz(field) && OnlyTrailingFillers(field) {
      forall i | 0 <= i < |field|
        ensures PrintedNumber(t)[i] == field[i]
      {
        assert CharValue(field[i]).Some?;
      }
    }
  }

  lemma JoinIsInjective(a: Bytes, b: Bytes, c: Bytes, a': Bytes, b': Bytes, c': Bytes)
    requires |a| == |a'| && |b| == |b'| && a + b + c == a' + b' + c'
    ensures a == a' && b == b' && c == c'
  {
    var s := a + b + c;
    assert s[..|a|] == a && s[..|a|] == a';
    assert s[|a|..|a| + |b|] == b && s[|a|..|a| + |b|] == b';
    assert s[|a| + |b|..] == c && s[|a| + |b|..] == c';
  }

  predicate Usable(mrz: Bytes, l: Layout)
    requires LayoutOf(mrz) == Some(l)
  {
    var f := FieldsAt(mrz, l);
    && f.documentNumberOk && f.dateOfBirthOk && f.dateOfExpiryOk
    && f.documentNumber != [] && OnlyTrailingFillers(mrz[l.number..l.number + 9])
    && |f.dateOfBirth| == 6 && |f.dateOfExpiry| == 6
  }

  /**
   The parsed fields give back exactly the printed bytes the keys are made from if and only if all
   three check digits are right, the dates are full and fillers only follow the document number.
   */
  lemma KeysMatchZoneIff(mrz: Bytes, l: Layout)
    requires LayoutOf(mrz) == Some(l)
    ensures var f := FieldsAt(mrz, l);
      MrzInformation(f.documentNumber, f.dateOfBirth, f.dateOfExpiry) == Some(PrintedInformation(mrz, l)) <==> Usable(mrz, l)
  {
    hide CheckDigit, Surname, GivenNames, PrintedNumber, Trim, WithCheckDigit, OnlyTrailingFillers;
    var number, birth, expiry := mrz[l.number..l.number + 9], mrz[l.birth..l.birth + 6], mrz[l.expiry..l.expiry + 6];
    CheckedIff(mrz, l.number, 9);
    CheckedIff(mrz, l.birth, 6);
    CheckedIff(mrz, l.expiry, 6);
    PrintedNumberIff(number);
    assert |Trim(birth)| == 6 ==> Trim(birth) == birth;
    assert |Trim(expiry)| == 6 ==> Trim(expiry) == expiry;
    if Usable(mrz, l) {
      CheckedIsMrz(number);
      assert |Trim(number)| <= 9 && WithCheckDigit(PrintedNumber(Trim(number))) == Some(mrz[l.number..l.number + 10]);
    }
    if MrzInformation(Trim(number), Trim(birth), Trim(expiry)) == Some(PrintedInformation(mrz, l)) {
      var n, b, e := WithCheckDigit(PrintedNumber(Trim(number))).value, WithCheckDigit(birth).value, WithCheckDigit(expiry).value;
      WithCheckDigitIsLonger(PrintedNumber(Trim(number)));
      WithCheckDigitIsLonger(birth);
      JoinIsInjective(n, b, e, mrz[l.number..l.number + 10], mrz[l.birth..l.birth + 7], mrz[l.expiry..l.expiry + 7]);
      assert n[..9] == number;
      assert Usable(mrz, l);
    }
  }

  lemma CheckedIsMrz(field: Bytes)
    ensures WithCheckDigit(field).Some? ==> IsMrz(field)
  {
  }

  lemma WithCheckDigitIsLonger(field: Bytes)
    ensures WithCheckDigit(field).Some? ==>
      |WithCheckDigit(field).value| == |field| + 1 && WithCheckDigit(field).value[..|field|] == field
  {
    hide CheckDigit;
  }
}
