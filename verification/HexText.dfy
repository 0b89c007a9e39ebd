/** src/ndef.c:75-89, 690-719 - bytes as hexadecimal text and back. */
module HexText {
  import opened ByteStrings

  const DIGITS := "0123456789abcdef"

  function Digit(n: nat): char
    requires n < 16
  {
    DIGITS[n]
  }

  /** The value of a hexadecimal digit of either case. */
  function DigitValue(c: char): (v: Option<nat>)
    ensures v.Some? ==> v.value < 16
  {
    if '0' <= c <= '9' then Some(c as nat - '0' as nat)
    else if 'a' <= c <= 'f' then Some(c as nat - 'a' as nat + 10)
    else if 'A' <= c <= 'F' then Some(c as nat - 'A' as nat + 10)
    else None
  }

  lemma DigitValueInvertsDigit(n: nat)
    requires n < 16
    ensures DigitValue(Digit(n)) == Some(n)
  {
    assert DIGITS[..] == ['0', '1', '2', '3', '4', '5', '6', '7', '8', '9', 'a', 'b', 'c', 'd', 'e', 'f'];
  }

  function LowerCase(c: char): char {
    if 'A' <= c <= 'F' then (c as nat - 'A' as nat + 'a' as nat) as char else c
  }

  lemma DigitInvertsDigitValue(c: char)
    requires DigitValue(c).Some?
    ensures Digit(DigitValue(c).value) == LowerCase(c)
  {
    assert DIGITS[..] == ['0', '1', '2', '3', '4', '5', '6', '7', '8', '9', 'a', 'b', 'c', 'd', 'e', 'f'];
  }

  function LowerCased(s: string): (t: string)
    ensures |t| == |s| && forall i :: 0 <= i < |s| ==> t[i] == LowerCase(s[i])
  {
    if s == "" then "" else LowerCased(s[..|s| - 1]) + [LowerCase(s[|s| - 1])]
  }

  lemma LowerCasedTwice(s: string, a: char, b: char)
    ensures LowerCased(s + [a, b]) == LowerCased(s) + [LowerCase(a), LowerCase(b)]
  {
    hide LowerCase, LowerCased;
    assert forall i :: 0 <= i < |s| ==> (s + [a, b])[i] == s[i];
  }

  function ToHex(data: Bytes): (hex: string)
    ensures |hex| == 2 * |data|
  {
    if data == [] then ""
    else
      var b := data[|data| - 1];
      ToHex(data[..|data| - 1]) + [Digit(b / 16), Digit(b % 16)]
  }

  /** Pairs of digits as bytes, or nothing when one of them is not a digit or one is left over. */
  function FromDigits(hex: string): (data: Option<Bytes>)
    ensures data.Some? ==> 2 * |data.value| == |hex|
  {
    if hex == "" then Some([])
    else if |hex| == 1 then None
    else
      var n := |hex| - 2;
      var hi, lo := DigitValue(hex[n]), DigitValue(hex[n + 1]);
      match FromDigits(hex[..n])
      case None => None
      case Some(before) => if hi.None? || lo.None? then None else Some(before + [hi.value * 16 + lo.value])
  }

  /** A malformed pair anywhere makes the whole text malformed. */
  lemma {:induction false} BadPairIsRefused(hex: string, i: nat)
    requires 2 * i + 1 < |hex|
    requires DigitValue(hex[2 * i]).None? || DigitValue(hex[2 * i + 1]).None?
    ensures FromDigits(hex) == None
    decreases |hex|
  {
    if 2 * i < |hex| - 2 && |hex| % 2 == 0 {
      BadPairIsRefused(hex[..|hex| - 2], i);
    } else if |hex| % 2 == 1 {
      OddIsRefused(hex);
    }
  }

  lemma {:induction false} OddIsRefused(hex: string)
    requires |hex| % 2 == 1
    ensures FromDigits(hex) == None
    decreases |hex|
  {
    if |hex| > 1 {
      OddIsRefused(hex[..|hex| - 2]);
    }
  }

  method BytesToHex(data: Bytes) returns (hex: string)
    ensures hex == ToHex(data)
  {
    hex := "";
    assert data[..0] == [];
    for n := 0 to |data|
      invariant hex == ToHex(data[..n])
    {
      assert data[..n + 1][..n] == data[..n];
      hex := hex + [Digit(data[n] / 16), Digit(data[n] % 16)];
    }
    assert data[..|data|] == data;
  }

  method HexToBytes(hex: string) returns (data: Option<Bytes>)
    ensures data == if hex == "" then None else FromDigits(hex)
  {
    if |hex| == 0 || |hex| % 2 != 0 {
      if hex != "" {
        OddIsRefused(hex);
      }
      return None;
    }
    var bytes: Bytes := [];
    var n := 0;
    assert hex[..0] == "";
    while n < |hex|
      invariant 0 <= n <= |hex| && n % 2 == 0
      invariant FromDigits(hex[..n]) == Some(bytes)
      decreases |hex| - n
    {
      var hi, lo := DigitValue(hex[n]), DigitValue(hex[n + 1]);
      if hi.None? || lo.None? {
        BadPairIsRefused(hex, n / 2);
        return None;
      }
      assert hex[..n + 2][..n] == hex[..n];
      bytes := bytes + [hi.value * 16 + lo.value];
      n := n + 2;
    }
    assert hex[..|hex|] == hex;
    data := Some(bytes);
  }

  lemma {:induction false} FromHexInvertsToHex(data: Bytes)
    ensures FromDigits(ToHex(data)) == Some(data)
    decreases |data|
  {
    hide Digit, DigitValue;
    if data != [] {
      var n := |data| - 1;
      var b := data[n];
      FromHexInvertsToHex(data[..n]);
      DigitValueInvertsDigit(b / 16);
      DigitValueInvertsDigit(b % 16);
      assert ToHex(data)[..2 * n] == ToHex(data[..n]);
      assert data == data[..n] + [b];
    }
  }

  lemma EmptyText()
    ensures FromDigits("") == Some([]) && ToHex([]) == "" && LowerCased("") == ""
  {
  }

  lemma ToHexOfOneMore(data: Bytes, hi: nat, lo: nat)
    requires hi < 16 && lo < 16
    ensures ToHex(data + [hi * 16 + lo]) == ToHex(data) + [Digit(hi), Digit(lo)]
  {
    hide Digit;
    var b: Byte := hi * 16 + lo;
    assert b / 16 == hi && b % 16 == lo;
    assert (data + [b])[..|data|] == data;
  }

  lemma AcceptedPair(hex: string)
    requires hex != "" && FromDigits(hex).Some?
    ensures |hex| >= 2
    ensures var n := |hex| - 2; var before, hi, lo := FromDigits(hex[..n]), DigitValue(hex[n]), DigitValue(hex[n + 1]);
      before.Some? && hi.Some? && lo.Some? && FromDigits(hex) == Some(before.value + [hi.value * 16 + lo.value])
  {
    hide DigitValue;
  }

  /** Text that is accepted comes back in lower case. */
  lemma {:induction false} ToHexInvertsFromHex(hex: string)
    requires FromDigits(hex).Some?
    ensures ToHex(FromDigits(hex).value) == LowerCased(hex)
    decreases |hex|
  {
    hide *;
    if hex == "" {
      EmptyText();
    } else {
      AcceptedPair(hex);
      var n := |hex| - 2;
      ToHexInvertsFromHex(hex[..n]);
      DigitInvertsDigitValue(hex[n]);
      DigitInvertsDigitValue(hex[n + 1]);
      ToHexOfOneMore(FromDigits(hex[..n]).value, DigitValue(hex[n]).value, DigitValue(hex[n + 1]).value);
      LowerCasedTwice(hex[..n], hex[n], hex[n + 1]);
      assert hex == hex[..n] + [hex[n], hex[n + 1]];
    }
  }
}
