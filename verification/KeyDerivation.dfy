/** Session and static keys from a seed: section 9.7.1 of ICAO Doc 9303-11. */
module KeyDerivation {
  import opened ByteStrings

  /** How many of the low n bits of v are set. */
  function Ones(n: nat, v: nat): nat {
    if n == 0 then 0 else v % 2 + Ones(n - 1, v / 2)
  }

  lemma OnesStep(n: nat, v: nat)
    requires n > 0
    ensures Ones(n, v) == v % 2 + Ones(n - 1, v / 2)
  {
  }

  /** A byte with its lowest bit chosen so that an odd number of bits is set. */
  function OddParity(b: Byte): (r: Byte) {
    b - b % 2 + (if Ones(8, b - b % 2) % 2 == 1 then 0 else 1)
  }

  function OddParityAll(key: Bytes): (r: Bytes)
    ensures |r| == |key|
  {
    seq(|key|, i requires 0 <= i < |key| => OddParity(key[i]))
  }

  /** The result has odd parity and keeps the seven key bits. */
  lemma ParityIsOdd(b: Byte)
    ensures Ones(8, OddParity(b)) % 2 == 1
    ensures OddParity(b) / 2 == b / 2
  {
    hide Ones;
    var v := b - b % 2;
    assert v % 2 == 0 && (v + 1) % 2 == 1 && (v + 1) / 2 == v / 2 == b / 2;
    OnesStep(8, v);
    OnesStep(8, v + 1);
  }

  lemma ParityIsIdempotent(b: Byte)
    ensures OddParity(OddParity(b)) == OddParity(b)
  {
    hide Ones;
    var r := OddParity(b);
    var v := b - b % 2;
    assert r - r % 2 == v;
  }

  /** The adjustment, in place: count the bits above the lowest one and set it to even them out. */
  method SetKeyParity(key: array<Byte>)
    modifies key
    ensures key[..] == OddParityAll(old(key[..]))
  {
    ghost var was := key[..];
    for n := 0 to key.Length
      invariant forall i :: 0 <= i < n ==> key[i] == OddParity(was[i])
      invariant forall i :: n <= i < key.Length ==> key[i] == was[i]
    {
      var v := key[n] - key[n] % 2;
      var ones, rest := 0, v;
      for b := 0 to 8
        invariant ones + Ones(8 - b, rest) == Ones(8, v)
      {
        if rest % 2 == 1 {
          ones := ones + 1;
        }
        rest := rest / 2;
      }
      key[n] := v + (if ones % 2 == 1 then 0 else 1);
    }
  }

  /** A 32-bit counter, most significant byte first. */
  function Counter32(c: nat): (s: Bytes)
    ensures |s| == 4
  {
    [c / 0x100_0000 % 0x100, c / 0x1_0000 % 0x100, c / 0x100 % 0x100, c % 0x100]
  }

  ghost predicate IsSha1(sha1: Bytes -> Bytes) {
    forall m: Bytes :: |sha1(m)| == 20
  }

  function Kdf(sha1: Bytes -> Bytes, seed: Bytes, c: nat): (key: Bytes)
    requires IsSha1(sha1)
    ensures |key| == 16
  {
    OddParityAll(sha1(seed + Counter32(c))[..16])
  }

  method DeriveKey(sha1: Bytes -> Bytes, seed: Bytes, c: nat) returns (key: Bytes)
    requires IsSha1(sha1)
    ensures key == Kdf(sha1, seed, c)
  {
    var d := seed + [c / 0x100_0000 % 0x100, c / 0x1_0000 % 0x100, c / 0x100 % 0x100, c % 0x100];
    var digest := sha1(d);
    var out := new Byte[16](i requires 0 <= i < 16 => digest[i]);
    assert out[..] == digest[..16];
    SetKeyParity(out);
    key := out[..];
  }
}
