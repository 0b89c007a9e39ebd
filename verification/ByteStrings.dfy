/** Bytes, byte strings and the handful of bit operations the C code uses on them. */
module ByteStrings {
  type Byte = x: int | 0 <= x < 0x100

  type Bytes = seq<Byte>

  datatype Option<+T> = None | Some(value: T)

  /** Success, as the last two bytes of an unprotected response. */
  const SW_OK: Bytes := [0x90, 0x00]

  /* ---- sequences ---- */

  /** The first n elements, or all where there are fewer. */
  function Take<T>(s: seq<T>, n: nat): seq<T> {
    if |s| <= n then s else s[..n]
  }

  /** Joins what has been cut off so far with the fate of the rest. */
  function Prepend<T>(done: seq<T>, rest: Option<seq<T>>): Option<seq<T>> {
    match rest
    case None => None
    case Some(more) => Some(done + more)
  }

  lemma PrependIsConcat<T>(a: seq<T>, b: seq<T>, rest: Option<seq<T>>)
    ensures Prepend(a, Prepend(b, rest)) == Prepend(a + b, rest)
    ensures Prepend([], rest) == rest
    ensures Prepend(a, Some([])) == Some(a) && Prepend(a, Some(b)) == Some(a + b)
  {
    assert a + [] == a;
    if rest.Some? {
      assert [] + rest.value == rest.value && a + (b + rest.value) == a + b + rest.value;
    }
  }

  lemma SliceOfSlice(s: Bytes, p: nat, end: nat, a: nat, b: nat)
    requires p <= end <= |s| && a <= b <= end - p
    ensures s[p..end][a..b] == s[p + a..p + b]
  {
    assert |s[p..end][a..b]| == b - a == |s[p + a..p + b]|;
    assert forall i :: 0 <= i < b - a ==> s[p..end][a..b][i] == s[p..end][a + i] == s[p + a..p + b][i];
  }

  function Zeros(n: nat): (z: Bytes)
    ensures |z| == n && forall i :: 0 <= i < n ==> z[i] == 0
  {
    seq(n, i => 0)
  }

  /* ---- text ---- */

  /** A C string made from these bytes ends at the first NUL. */
  function CString(s: Bytes): (r: Bytes)
    ensures r <= s
  {
    if s == [] || s[0] == 0 then [] else [s[0]] + CString(s[1..])
  }

  predicate NulFree(s: Bytes) {
    forall i :: 0 <= i < |s| ==> s[i] != 0
  }

  lemma {:induction false} CStringOfNulFree(s: Bytes)
    requires NulFree(s)
    ensures CString(s) == s
  {
    if s != [] {
      CStringOfNulFree(s[1..]);
    }
  }

  function Ascii(s: string): Bytes {
    seq(|s|, i requires 0 <= i < |s| => if s[i] < 128 as char then s[i] as int else 0)
  }

  /* ---- big-endian numbers ---- */

  function Pow256(n: nat): (p: nat)
    ensures p > 0
  {
    if n == 0 then 1 else 256 * Pow256(n - 1)
  }

  /** The number a byte string writes, most significant byte first. */
  function BigEndian(s: Bytes): (v: nat)
    ensures v < Pow256(|s|)
  {
    if s == [] then 0 else BigEndian(s[..|s| - 1]) * 256 + s[|s| - 1]
  }

  lemma {:induction false} BigEndianInjective(a: Bytes, b: Bytes)
    requires |a| == |b| && BigEndian(a) == BigEndian(b)
    ensures a == b
  {
    if a != [] {
      var n := |a| - 1;
      assert a[n] == BigEndian(a) % 256 && b[n] == BigEndian(b) % 256;
      BigEndianInjective(a[..n], b[..n]);
      assert a == a[..n] + [a[n]] && b == b[..n] + [b[n]];
    }
  }

  /* ---- bitwise operations on n-bit numbers ---- */

  function Pow2(n: nat): (p: nat)
    ensures p > 0
  {
    if n == 0 then 1 else 2 * Pow2(n - 1)
  }

  function XorBits(n: nat, a: nat, b: nat): (r: nat)
    ensures r < Pow2(n)
  {
    if n == 0 then 0
    else (if a % 2 == b % 2 then 0 else 1) + 2 * XorBits(n - 1, a / 2, b / 2)
  }

  function OrBits(n: nat, a: nat, b: nat): (r: nat)
    ensures r < Pow2(n)
  {
    if n == 0 then 0
    else (if a % 2 == 1 || b % 2 == 1 then 1 else 0) + 2 * OrBits(n - 1, a / 2, b / 2)
  }

  lemma {:induction false} XorBitsLaws(n: nat, a: nat, b: nat)
    requires a < Pow2(n) && b < Pow2(n)
    ensures XorBits(n, XorBits(n, a, b), b) == a
    ensures XorBits(n, a, b) == 0 <==> a == b
    ensures XorBits(n, a, b) == XorBits(n, b, a)
  {
    if n > 0 {
      XorBitsLaws(n - 1, a / 2, b / 2);
      var bit, rest, x := if a % 2 == b % 2 then 0 else 1, XorBits(n - 1, a / 2, b / 2), XorBits(n, a, b);
      assert x == bit + 2 * rest && x % 2 == bit && x / 2 == rest;
    }
  }

  lemma {:induction false} OrBitsZero(n: nat, a: nat, b: nat)
    requires a < Pow2(n) && b < Pow2(n)
    ensures OrBits(n, a, b) == 0 <==> a == 0 && b == 0
  {
    if n > 0 {
      OrBitsZero(n - 1, a / 2, b / 2);
    }
  }

  lemma ByteIsEightBits()
    ensures Pow2(8) == 0x100
  {
  }

  function Xor(a: Byte, b: Byte): (r: Byte)
    ensures r == 0 <==> a == b
  {
    ByteIsEightBits();
    XorBitsLaws(8, a, b);
    XorBits(8, a, b)
  }

  lemma XorCancels(a: Byte, b: Byte)
    ensures Xor(Xor(a, b), b) == a
    ensures Xor(a, b) == Xor(b, a)
  {
    ByteIsEightBits();
    XorBitsLaws(8, a, b);
  }

  function Or(a: Byte, b: Byte): (r: Byte)
    ensures r == 0 <==> a == 0 && b == 0
  {
    ByteIsEightBits();
    OrBitsZero(8, a, b);
    OrBits(8, a, b)
  }

  function XorAll(a: Bytes, b: Bytes): (r: Bytes)
    requires |a| == |b|
    ensures |r| == |a|
  {
    seq(|a|, i requires 0 <= i < |a| => Xor(a[i], b[i]))
  }

  lemma XorAllCancels(a: Bytes, b: Bytes)
    requires |a| == |b|
    ensures XorAll(XorAll(a, b), b) == a
  {
    forall i | 0 <= i < |a|
      ensures XorAll(XorAll(a, b), b)[i] == a[i]
    {
      XorCancels(a[i], b[i]);
    }
  }

  /** Compares without an early exit: differences are or-ed together and looked at once. */
  method BytesEqual(a: Bytes, b: Bytes) returns (same: bool)
    requires |a| == |b|
    ensures same <==> a == b
  {
    var diff: Byte := 0;
    for n := 0 to |a|
      invariant diff == 0 <==> a[..n] == b[..n]
    {
      assert a[..n + 1] == a[..n] + [a[n]] && b[..n + 1] == b[..n] + [b[n]];
      diff := Or(diff, Xor(a[n], b[n]));
    }
    assert a[..|a|] == a && b[..|b|] == b;
    same := diff == 0;
  }
}
