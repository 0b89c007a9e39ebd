/** src/bac.c:203-297 - check digits of a machine readable zone and the keys made from it. */
module Mrz {
  import opened Arithmetic
  import opened BasicAccessControl
  import opened ByteStrings
  import opened KeyDerivation

  const FILLER: Byte := 0x3C

  /** The weight of a character, section 4.9 of ICAO Doc 9303-3: digits, then letters, fillers zero. */
  function CharValue(c: Byte): (v: Option<nat>)
    ensures v.Some? ==> v.value < 36
  {
    if 0x30 <= c <= 0x39 then Some(c - 0x30)
    else if 0x41 <= c <= 0x5A then Some(c - 0x41 + 10)
    else if c == FILLER then Some(0)
    else None
  }

  predicate IsMrz(field: Bytes) {
    forall i :: 0 <= i < |field| ==> CharValue(field[i]).Some?
  }

  function Weight(n: nat): nat {
    if n % 3 == 0 then 7 else if n % 3 == 1 then 3 else 1
  }

  function WeightedSum(field: Bytes): nat
    requires IsMrz(field)
  {
    if field == [] then 0
    else
      var n := |field| - 1;
      WeightedSum(field[..n]) + CharValue(field[n]).value * Weight(n)
  }

  function CheckDigit(field: Bytes): (digit: Option<Byte>) {
    if IsMrz(field) then Some(0x30 + WeightedSum(field) % 10) else None
  }

  method ComputeCheckDigit(field: Bytes) returns (digit: Option<Byte>)
    ensures digit == CheckDigit(field)
  {
    var weights := [7, 3, 1];
    var sum := 0;
    assert field[..0] == [];
    for n := 0 to |field|
      invariant IsMrz(field[..n]) && sum == WeightedSum(field[..n])
    {
      var v := CharValue(field[n]);
      if v.None? {
        return None;
      }
      assert field[..n + 1][..n] == field[..n];
      sum := sum + v.value * weights[n % 3];
    }
    assert field[..|field|] == field;
    digit := Some(0x30 + sum % 10);
  }

  /* ---- which errors the check digit notices ---- */

  /** Changing one character moves the sum by its weight times the change of its value. */
  lemma {:induction false} SumAfterSubstitution(field: Bytes, i: nat, c: Byte)
    requires IsMrz(field) && i < |field| && CharValue(c).Some?
    ensures IsMrz(field[i := c])
    ensures WeightedSum(field[i := c]) - WeightedSum(field) == Weight(i) * (CharValue(c).value - CharValue(field[i]).value)
    decreases |field|
  {
    hide CharValue, Weight;
    var n := |field| - 1;
    if i == n {
      assert field[i := c][..n] == field[..n];
      assert (CharValue(c).value - CharValue(field[i]).value) * Weight(i)
        == CharValue(c).value * Weight(i) - CharValue(field[i]).value * Weight(i);
    } else {
      SumAfterSubstitution(field[..n], i, c);
      assert field[i := c][..n] == field[..n][i := c];
    }
  }

  /** The weights are prime to ten, so only values that agree modulo ten are confused. */
  lemma SubstitutionIsNoticedIff(field: Bytes, i: nat, c: Byte)
    requires IsMrz(field) && i < |field| && CharValue(c).Some?
    ensures CheckDigit(field[i := c]) == CheckDigit(field) <==> CharValue(c).value % 10 == CharValue(field[i]).value % 10
  {
    SumAfterSubstitution(field, i, c);
    var a, b := WeightedSum(field), WeightedSum(field[i := c]);
    var d := CharValue(c).value - CharValue(field[i]).value;
    WeightsArePrimeToTen(Weight(i), d);
    SameRemainder(b, a, 10);
    SameRemainder(CharValue(c).value, CharValue(field[i]).value, 10);
  }

  lemma WeightsArePrimeToTen(w: nat, d: int)
    requires w == 7 || w == 3 || w == 1
    ensures (w * d) % 10 == 0 <==> d % 10 == 0
  {
    var q, r := d / 10, d % 10;
    assert w * d == 10 * (w * q) + w * r;
  }

  lemma SameRemainder(a: int, b: int, m: nat)
    requires m > 0
    ensures a % m == b % m <==> (a - b) % m == 0
  {
    var qa, qb, q := a / m, b / m, (a - b) / m;
    assert a == m * qa + a % m && b == m * qb + b % m && a - b == m * q + (a - b) % m;
    if (a - b) % m == 0 {
      assert a % m - b % m == m * (q - qa + qb);
      Small(a % m - b % m, m, q - qa + qb);
    } else if a % m == b % m {
      assert (a - b) % m == m * (qa - qb - q);
      Small((a - b) % m, m, qa - qb - q);
    }
  }

  lemma Small(x: int, m: nat, k: int)
    requires x == m * k && 0 - m < x < m
    ensures x == 0
  {
    MultipleAtLeast(m, k);
  }

  predicate IsDigit(c: Byte) { 0x30 <= c <= 0x39 }

  /** In a field of digits no single wrong digit goes unnoticed. */
  lemma DigitSubstitutionIsNoticed(field: Bytes, i: nat, c: Byte)
    requires (forall k :: 0 <= k < |field| ==> IsDigit(field[k])) && i < |field|
    requires IsDigit(c) && c != field[i]
    ensures CheckDigit(field[i := c]) != CheckDigit(field)
  {
    SubstitutionIsNoticedIff(field, i, c);
  }

  function Swapped(field: Bytes, i: nat): Bytes
    requires i + 1 < |field|
  {
    field[i := field[i + 1]][i + 1 := field[i]]
  }

  lemma SumAfterTransposition(field: Bytes, i: nat)
    requires IsMrz(field) && i + 1 < |field|
    ensures IsMrz(Swapped(field, i))
    ensures WeightedSum(Swapped(field, i)) - WeightedSum(field)
      == (Weight(i) - Weight(i + 1)) * (CharValue(field[i + 1]).value - CharValue(field[i]).value)
  {
    hide CharValue, WeightedSum, Weight;
    SumAfterSubstitution(field, i, field[i + 1]);
    SumAfterSubstitution(field[i := field[i + 1]], i + 1, field[i]);
    Factored(Weight(i), Weight(i + 1), CharValue(field[i + 1]).value - CharValue(field[i]).value);
  }

  /** Swapping two neighbours is missed exactly when their values agree modulo five. */
  lemma TranspositionIsNoticedIff(field: Bytes, i: nat)
    requires IsMrz(field) && i + 1 < |field|
    ensures CheckDigit(Swapped(field, i)) == CheckDigit(field)
      <==> CharValue(field[i]).value % 5 == CharValue(field[i + 1]).value % 5
  {
    hide CharValue, WeightedSum, Swapped;
    SumAfterTransposition(field, i);
    EvenWeightSteps(Weight(i) - Weight(i + 1), CharValue(field[i + 1]).value - CharValue(field[i]).value);
    hide Weight;
    SameRemainder(WeightedSum(Swapped(field, i)), WeightedSum(field), 10);
    SameRemainder(CharValue(field[i + 1]).value, CharValue(field[i]).value, 5);
  }

  lemma EvenWeightSteps(k: int, d: int)
    requires k == 4 || k == 2 || k == -6
    ensures (k * d) % 10 == 0 <==> d % 5 == 0
  {
    if k == 4 {
      TimesFour(d);
    } else if k == 2 {
      TimesTwo(d);
    } else {
      TimesTwo(-3 * d);
    }
  }

  lemma TimesFour(d: int)
    ensures (4 * d) % 10 == 0 <==> d % 5 == 0
  {
    var q, r := d / 5, d % 5;
    var carry, rest := 4 * r / 10, 4 * r % 10;
    assert 4 * d == 10 * (2 * q + carry) + rest;
    DivisionIsUnique(2 * q + carry, rest, 10);
  }

  lemma TimesTwo(d: int)
    ensures (2 * d) % 10 == 0 <==> d % 5 == 0
  {
    var q, r := d / 5, d % 5;
    assert 2 * d == 10 * q + 2 * r;
    DivisionIsUnique(q, 2 * r, 10);
  }

  lemma Factored(w: int, v: int, d: int)
    ensures w * d + v * (0 - d) == (w - v) * d
  {
  }

  /* ---- what the keys are made from ---- */

  const DOC_NUMBER_LEN := 9
  const DATE_LEN := 6

  function Upper(c: Byte): Byte { if 0x61 <= c <= 0x7A then c - 0x20 else c }

  /** A document number as the zone prints it: upper case, filled up to nine characters. */
  function PrintedNumber(number: Bytes): (doc: Bytes)
    requires |number| <= DOC_NUMBER_LEN
    ensures |doc| == DOC_NUMBER_LEN
  {
    seq(DOC_NUMBER_LEN, i requires 0 <= i < DOC_NUMBER_LEN => if i < |number| then Upper(number[i]) else FILLER)
  }

  /** A field followed by its check digit. */
  function WithCheckDigit(field: Bytes): Option<Bytes> {
    match CheckDigit(field)
    case None => None
    case Some(digit) => Some(field + [digit])
  }

  /** The 24 bytes that are hashed. */
  function MrzInformation(number: Bytes, birth: Bytes, expiry: Bytes): (info: Option<Bytes>) {
    if |number| == 0 || |number| > DOC_NUMBER_LEN || |birth| != DATE_LEN || |expiry| != DATE_LEN then None
    else
      match (WithCheckDigit(PrintedNumber(number)), WithCheckDigit(birth), WithCheckDigit(expiry))
      case (Some(n), Some(b), Some(e)) => Some(n + b + e)
      case _ => None
  }

  method FillNumber(number: Bytes) returns (filled: Bytes)
    requires |number| <= DOC_NUMBER_LEN
    ensures filled == PrintedNumber(number)
  {
    var doc := new Byte[9](i => FILLER);
    for i := 0 to |number|
      invariant forall k :: 0 <= k < 9 ==> doc[k] == if k < i then Upper(number[k]) else FILLER
    {
      doc[i] := Upper(number[i]);
    }
    assert doc[..] == PrintedNumber(number);
    filled := doc[..];
  }

  method MrzSha1(sha1: Bytes -> Bytes, number: Option<Bytes>, birth: Option<Bytes>, expiry: Option<Bytes>)
    returns (digest: Option<Bytes>)
    ensures digest ==
      if number.None? || birth.None? || expiry.None? then None
      else match MrzInformation(number.value, birth.value, expiry.value)
        case None => None
        case Some(info) => Some(sha1(info))
  {
    if number.None? || birth.None? || expiry.None? {
      return None;
    }
    var n, b, e := number.value, birth.value, expiry.value;
    if |n| == 0 || |n| > DOC_NUMBER_LEN || |b| != DATE_LEN || |e| != DATE_LEN {
      return None;
    }
    hide CheckDigit, PrintedNumber;
    var info := FillNumber(n);
    var digit := ComputeCheckDigit(info);
    if digit.None? {
      return None;
    }
    info := info + [digit.value];
    info := info + b;
    digit := ComputeCheckDigit(b);
    if digit.None? {
      return None;
    }
    info := info + [digit.value];
    info := info + e;
    digit := ComputeCheckDigit(e);
    if digit.None? {
      return None;
    }
    info := info + [digit.value];
    assert info == WithCheckDigit(PrintedNumber(n)).value + WithCheckDigit(b).value + WithCheckDigit(e).value;
    digest := Some(sha1(info));
  }

  /** The static keys from the typed fields. */
  function StaticKeysFor(sha1: Bytes -> Bytes, number: Bytes, birth: Bytes, expiry: Bytes): (keys: Option<StaticKeys>)
    requires IsSha1(sha1)
    ensures keys.Some? ==> keys.value.Valid()
  {
    match MrzInformation(number, birth, expiry)
    case None => None
    case Some(info) =>
      var seed := sha1(info)[..16];
      Some(StaticKeys(Kdf(sha1, seed, 1), Kdf(sha1, seed, 2)))
  }

  method DeriveStaticKeys(sha1: Bytes -> Bytes, number: Option<Bytes>, birth: Option<Bytes>, expiry: Option<Bytes>)
    returns (keys: Option<StaticKeys>)
    requires IsSha1(sha1)
    ensures keys == if number.None? || birth.None? || expiry.None? then None
                    else StaticKeysFor(sha1, number.value, birth.value, expiry.value)
  {
    var digest := MrzSha1(sha1, number, birth, expiry);
    if digest.None? {
      return None;
    }
    var seed := digest.value[..16];
    var kEnc := DeriveKey(sha1, seed, 1);
    var kMac := DeriveKey(sha1, seed, 2);
    keys := Some(StaticKeys(kEnc, kMac));
  }
}
