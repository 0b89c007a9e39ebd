/** Padding method 2 of ISO/IEC 9797-1 and the loop that strips it again. */
module Padding {
  import opened Arithmetic
  import opened ByteStrings

  function IsoPad(block: nat, m: Bytes): (p: Bytes)
    requires block > 0
  {
    m + [0x80] + Zeros(block - 1 - |m| % block)
  }

  /** The padded length is the smallest multiple of the block that exceeds the message. */
  lemma PadIsAlignedAndMinimal(block: nat, m: Bytes)
    requires block > 0
    ensures |IsoPad(block, m)| % block == 0
    ensures |m| < |IsoPad(block, m)| <= |m| + block
    ensures m <= IsoPad(block, m)
    ensures forall n :: n % block == 0 && n > |m| ==> n >= |IsoPad(block, m)|
  {
    var q, len := |m| / block, |IsoPad(block, m)|;
    assert len == block * (q + 1);
    ModOfMultiple(block, q + 1);
    forall n | n % block == 0 && n > |m|
      ensures n >= len
    {
      assert len - n == block * (q + 1 - n / block);
      MultipleAtLeast(block, q + 1 - n / block);
    }
  }

  /** The padding loop of both secure-messaging layers. */
  method Pad(block: nat, data: Bytes) returns (out: Bytes)
    requires block > 0
    ensures out == IsoPad(block, data)
  {
    var pad := block - |data| % block;
    out := data + [0x80];
    var n := 1;
    while n < pad
      invariant 1 <= n <= pad
      invariant out == data + [0x80] + Zeros(n - 1)
    {
      out := out + [0];
      n := n + 1;
    }
  }

  /* ---- removing the padding ---- */

  /** How many bytes are left once the zeros at the end are gone. */
  function WithoutZeros(s: Bytes): (i: nat)
    ensures i <= |s| && (i > 0 ==> s[i - 1] != 0)
  {
    if s == [] || s[|s| - 1] != 0 then |s| else WithoutZeros(s[..|s| - 1])
  }

  lemma {:induction false} OnlyZerosGo(s: Bytes)
    ensures s == s[..WithoutZeros(s)] + Zeros(|s| - WithoutZeros(s))
  {
    if s != [] && s[|s| - 1] == 0 {
      var front, i := s[..|s| - 1], WithoutZeros(s);
      OnlyZerosGo(front);
      assert front[..i] == s[..i];
      assert Zeros(|s| - i) == Zeros(|front| - i) + [0];
      assert s == front + [0];
    }
  }

  function Unpad(s: Bytes): Option<Bytes> {
    var i := WithoutZeros(s);
    if i == 0 || s[i - 1] != 0x80 then None else Some(s[..i - 1])
  }

  method StripPadding(dec: Bytes) returns (plain: Option<Bytes>)
    ensures plain == Unpad(dec)
  {
    var i := |dec|;
    assert dec[..i] == dec;
    while i > 0 && dec[i - 1] == 0
      invariant i <= |dec| && WithoutZeros(dec) == WithoutZeros(dec[..i])
    {
      assert dec[..i][..i - 1] == dec[..i - 1];
      i := i - 1;
    }
    if i == 0 || dec[i - 1] != 0x80 {
      return None;
    }
    return Some(dec[..i - 1]);
  }

  lemma {:induction false} WithoutZerosOf(p: Bytes, n: nat)
    requires p != [] && p[|p| - 1] != 0
    ensures WithoutZeros(p + Zeros(n)) == |p|
  {
    var s := p + Zeros(n);
    if n == 0 {
      assert s == p;
    } else {
      WithoutZerosOf(p, n - 1);
      assert s[..|s| - 1] == p + Zeros(n - 1);
    }
  }

  ghost predicate IsPadded(s: Bytes, p: Bytes) {
    exists n: nat :: s == p + [0x80] + Zeros(n)
  }

  /** The strip loop accepts exactly: any text, one 0x80, any number of zeros. */
  lemma UnpadAccepts(s: Bytes, p: Bytes)
    ensures Unpad(s) == Some(p) <==> IsPadded(s, p)
  {
    if Unpad(s) == Some(p) {
      OnlyZerosGo(s);
      assert s == p + [0x80] + Zeros(|s| - WithoutZeros(s));
    }
    forall n: nat | s == p + [0x80] + Zeros(n)
      ensures Unpad(s) == Some(p)
    {
      WithoutZerosOf(p + [0x80], n);
      assert s[..|p|] == p;
    }
  }

  lemma UnpadInvertsPad(block: nat, m: Bytes)
    requires block > 0
    ensures Unpad(IsoPad(block, m)) == Some(m)
  {
    UnpadAccepts(IsoPad(block, m), m);
  }

  lemma PadIsInjective(block: nat, a: Bytes, b: Bytes)
    requires block > 0 && IsoPad(block, a) == IsoPad(block, b)
    ensures a == b
  {
    UnpadInvertsPad(block, a);
    UnpadInvertsPad(block, b);
  }
}
