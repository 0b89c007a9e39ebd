/**
 Block ciphers as keyed bijections, the CBC mode built on them, and the retail MAC.

 Nothing is assumed about a cipher except that encryption and decryption under one key
 undo each other; every theorem holds for every such pair.
 */
module BlockCiphers {
  import opened Arithmetic
  import opened ByteStrings
  import opened Padding

  datatype BlockCipher = BlockCipher(size: nat, enc: (Bytes, Bytes) -> Bytes, dec: (Bytes, Bytes) -> Bytes) {

    ghost predicate Lawful() {
      size > 0 && forall k: Bytes, b: Bytes :: |b| == size ==> Inverts(k, b)
    }

    ghost predicate Inverts(k: Bytes, b: Bytes) {
      && |enc(k, b)| == size
      && |dec(k, b)| == size
      && dec(k, enc(k, b)) == b
      && enc(k, dec(k, b)) == b
    }
  }

  lemma DropBlock(n: nat, size: nat)
    requires size > 0 && n > 0 && n % size == 0
    ensures n >= size && (n - size) % size == 0
  {
    var q := n / size;
    assert n == size * q;
    MultipleAtLeast(size, q);
    assert n - size == size * (q - 1);
    ModOfMultiple(size, q - 1);
  }

  /* ---- cipher block chaining ---- */

  function CbcEncrypt(c: BlockCipher, key: Bytes, iv: Bytes, m: Bytes): (r: Bytes)
    requires c.Lawful() && |iv| == c.size && |m| % c.size == 0
    ensures |r| == |m|
    decreases |m|
  {
    if m == [] then []
    else
      DropBlock(|m|, c.size);
      var x := XorAll(m[..c.size], iv);
      assert c.Inverts(key, x);
      var y := c.enc(key, x);
      y + CbcEncrypt(c, key, y, m[c.size..])
  }

  function CbcDecrypt(c: BlockCipher, key: Bytes, iv: Bytes, m: Bytes): (r: Bytes)
    requires c.Lawful() && |iv| == c.size && |m| % c.size == 0
    ensures |r| == |m|
    decreases |m|
  {
    if m == [] then []
    else
      DropBlock(|m|, c.size);
      var y := m[..c.size];
      assert c.Inverts(key, y);
      XorAll(c.dec(key, y), iv) + CbcDecrypt(c, key, y, m[c.size..])
  }

  lemma {:induction false} CbcDecryptInvertsEncrypt(c: BlockCipher, key: Bytes, iv: Bytes, m: Bytes)
    requires c.Lawful() && |iv| == c.size && |m| % c.size == 0
    ensures CbcDecrypt(c, key, iv, CbcEncrypt(c, key, iv, m)) == m
    decreases |m|
  {
    if m != [] {
      DropBlock(|m|, c.size);
      var head, tail := m[..c.size], m[c.size..];
      var x := XorAll(head, iv);
      assert c.Inverts(key, x);
      var y := c.enc(key, x);
      var rest := CbcEncrypt(c, key, y, tail);
      CbcDecryptInvertsEncrypt(c, key, y, tail);
      XorAllCancels(head, iv);
      assert (y + rest)[..c.size] == y && (y + rest)[c.size..] == rest;
      assert m == head + tail;
    }
  }

  lemma {:induction false} CbcEncryptInvertsDecrypt(c: BlockCipher, key: Bytes, iv: Bytes, m: Bytes)
    requires c.Lawful() && |iv| == c.size && |m| % c.size == 0
    ensures CbcEncrypt(c, key, iv, CbcDecrypt(c, key, iv, m)) == m
    decreases |m|
  {
    if m != [] {
      DropBlock(|m|, c.size);
      var y, tail := m[..c.size], m[c.size..];
      assert c.Inverts(key, y);
      var x := XorAll(c.dec(key, y), iv);
      var rest := CbcDecrypt(c, key, y, tail);
      CbcEncryptInvertsDecrypt(c, key, y, tail);
      XorAllCancels(c.dec(key, y), iv);
      assert (x + rest)[..c.size] == x && (x + rest)[c.size..] == rest;
      assert m == y + tail;
    }
  }

  /* ---- single DES out of triple DES ---- */

  /** Encrypt, decrypt, encrypt under the three thirds of a 24-byte key. */
  function Ede3(des: BlockCipher): BlockCipher {
    BlockCipher(
      des.size,
      (k, b) => if |k| == 24 then des.enc(k[16..], des.dec(k[8..16], des.enc(k[..8], b))) else b,
      (k, b) => if |k| == 24 then des.dec(k[..8], des.enc(k[8..16], des.dec(k[16..], b))) else b)
  }

  lemma Ede3IsLawful(des: BlockCipher)
    requires des.Lawful()
    ensures Ede3(des).Lawful()
  {
    forall k: Bytes, b: Bytes | |b| == des.size
      ensures Ede3(des).Inverts(k, b)
    {
      if |k| == 24 {
        var k1, k2, k3 := k[..8], k[8..16], k[16..];
        assert des.Inverts(k1, b) && des.Inverts(k3, b);
        assert des.Inverts(k2, des.enc(k1, b)) && des.Inverts(k2, des.dec(k3, b));
        assert des.Inverts(k3, des.dec(k2, des.enc(k1, b)));
        assert des.Inverts(k1, des.enc(k2, des.dec(k3, b)));
      }
    }
  }

  /** With three equal keys the middle two steps cancel. */
  lemma Ede3OfEqualKeysIsDes(des: BlockCipher, k: Bytes, b: Bytes)
    requires des.Lawful() && |k| == 8 && |b| == des.size
    ensures Ede3(des).enc(k + k + k, b) == des.enc(k, b)
    ensures Ede3(des).dec(k + k + k, b) == des.dec(k, b)
  {
    var kkk := k + k + k;
    assert kkk[..8] == k && kkk[8..16] == k && kkk[16..] == k;
    assert des.Inverts(k, b);
  }

  lemma {:induction false} CbcOfEde3EqualKeysIsCbcOfDes(des: BlockCipher, k: Bytes, iv: Bytes, m: Bytes)
    requires des.Lawful() && Ede3(des).Lawful() && |k| == 8 && |iv| == des.size && |m| % des.size == 0
    ensures CbcEncrypt(Ede3(des), k + k + k, iv, m) == CbcEncrypt(des, k, iv, m)
    decreases |m|
  {
    if m != [] {
      DropBlock(|m|, des.size);
      var x := XorAll(m[..des.size], iv);
      assert des.Inverts(k, x);
      Ede3OfEqualKeysIsDes(des, k, x);
      CbcOfEde3EqualKeysIsCbcOfDes(des, k, des.enc(k, x), m[des.size..]);
    }
  }

  /* ---- MAC algorithm 3 of ISO/IEC 9797-1 ---- */

  /** The chaining value H after absorbing the blocks of m. */
  function Chain(des: BlockCipher, k: Bytes, h: Bytes, m: Bytes): (r: Bytes)
    requires des.Lawful() && |h| == des.size && |m| % des.size == 0
    ensures |r| == des.size
    decreases |m|
  {
    if m == [] then h
    else
      DropBlock(|m|, des.size);
      var x := XorAll(m[..des.size], h);
      assert des.Inverts(k, x);
      Chain(des, k, des.enc(k, x), m[des.size..])
  }

  /** Padding method 2, a CBC chain under K, then decryption under K' and encryption under K. */
  function MacAlgorithm3(des: BlockCipher, key: Bytes, data: Bytes): (mac: Bytes)
    requires des.Lawful() && |key| == 16
    ensures |mac| == des.size
  {
    PadIsAlignedAndMinimal(des.size, data);
    var h := Chain(des, key[..8], Zeros(des.size), IsoPad(des.size, data));
    assert des.Inverts(key[8..], h);
    var d := des.dec(key[8..], h);
    assert des.Inverts(key[..8], d);
    des.enc(key[..8], d)
  }

  lemma {:induction false} LastCbcBlockIsChain(des: BlockCipher, k: Bytes, h: Bytes, m: Bytes)
    requires des.Lawful() && |h| == des.size && |m| % des.size == 0 && m != []
    ensures |m| >= des.size
    ensures var e := CbcEncrypt(des, k, h, m); e[|e| - des.size..] == Chain(des, k, h, m)
    decreases |m|
  {
    DropBlock(|m|, des.size);
    var x, tail := XorAll(m[..des.size], h), m[des.size..];
    assert des.Inverts(k, x);
    var y := des.enc(k, x);
    if tail != [] {
      LastCbcBlockIsChain(des, k, y, tail);
      var e := CbcEncrypt(des, k, y, tail);
      assert (y + e)[|y + e| - des.size..] == e[|e| - des.size..];
    } else {
      assert CbcEncrypt(des, k, h, m) == y + [] == y;
    }
  }

  /** The retail MAC, with every single-DES step run as EDE3 under three equal keys. */
  method RetailMac(des: BlockCipher, key: Bytes, data: Bytes) returns (mac: Bytes)
    requires des.Lawful() && des.size == 8 && |key| == 16
    ensures mac == MacAlgorithm3(des, key, data)
  {
    var ede := Ede3(des);
    Ede3IsLawful(des);
    var k1, k2 := key[..8], key[8..];
    var padded := Pad(8, data);
    PadIsAlignedAndMinimal(8, data);
    var cbcOut := CbcEncrypt(ede, k1 + k1 + k1, Zeros(8), padded);
    CbcOfEde3EqualKeysIsCbcOfDes(des, k1, Zeros(8), padded);
    LastCbcBlockIsChain(des, k1, Zeros(8), padded);
    var last := cbcOut[|cbcOut| - 8..];
    Ede3OfEqualKeysIsDes(des, k2, last);
    var decrypted := ede.dec(k2 + k2 + k2, last);
    assert des.Inverts(k2, last);
    Ede3OfEqualKeysIsDes(des, k1, decrypted);
    mac := ede.enc(k1 + k1 + k1, decrypted);
  }
}
