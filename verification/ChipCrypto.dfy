/**
 The cryptography of the chip, written from sections 4.3.3, 9.7.1 and 9.8 of ICAO Doc 9303-11 and from
 ISO/IEC 9797-1: whole strings block by block from the end, two-key triple DES spelled out, and what
 each key is for as four literal bytes. The terminal's own functions are proved to compute the same.
 */
module ChipCrypto {
  import opened Arithmetic
  import opened BerTlv
  import opened BlockCiphers
  import opened ByteStrings
  import opened KeyDerivation
  import opened Padding
  import opened SecureMessaging

  /* ---- modes over a block permutation ---- */

  /** A function on blocks of n bytes. */
  ghost predicate OnBlocks(e: Bytes -> Bytes, n: nat) {
    n > 0 && forall b: Bytes :: |b| == n ==> |e(b)| == n
  }

  /** Whole blocks of n bytes. */
  predicate Aligned(n: nat, m: Bytes) {
    n > 0 && |m| % n == 0
  }

  lemma WholeBlocks(n: nat, size: nat)
    requires size > 0 && n % size == 0
    ensures n == 0 || n >= size
  {
  }

  /** All blocks but the last. */
  lemma AlignedFront(n: nat, m: Bytes)
    requires Aligned(n, m) && m != []
    ensures |m| >= n && Aligned(n, m[..|m| - n]) && m == m[..|m| - n] + m[|m| - n..]
    ensures m[..|m| - n] == [] || |m[..|m| - n]| >= n
  {
    DropBlock(|m|, n);
    WholeBlocks(|m| - n, n);
  }

  /** C_j is the encryption of P_j xor C_(j-1), where C_0 is the start value. */
  function Enciphered(e: Bytes -> Bytes, n: nat, start: Bytes, m: Bytes): (r: Bytes)
    requires OnBlocks(e, n) && |start| == n && Aligned(n, m)
    ensures |r| == |m|
    decreases |m|
  {
    if m == [] then []
    else
      AlignedFront(n, m);
      var front := Enciphered(e, n, start, m[..|m| - n]);
      front + e(XorAll(m[|m| - n..], Before(n, start, front)))
  }

  /** P_j is the decryption of C_j, xor C_(j-1). */
  function Deciphered(d: Bytes -> Bytes, n: nat, start: Bytes, c: Bytes): (r: Bytes)
    requires OnBlocks(d, n) && |start| == n && Aligned(n, c)
    ensures |r| == |c|
    decreases |c|
  {
    if c == [] then []
    else
      AlignedFront(n, c);
      Deciphered(d, n, start, c[..|c| - n]) + XorAll(d(c[|c| - n..]), Before(n, start, c[..|c| - n]))
  }

  /** H_j is the encryption of D_j xor H_(j-1), where H_0 is zero. */
  function Chained(e: Bytes -> Bytes, n: nat, m: Bytes): (h: Bytes)
    requires OnBlocks(e, n) && Aligned(n, m)
    ensures |h| == n
    decreases |m|
  {
    if m == [] then Zeros(n)
    else
      AlignedFront(n, m);
      e(XorAll(m[|m| - n..], Chained(e, n, m[..|m| - n])))
  }

  /** The block before the next one: the last of a string, or the start value. */
  function Before(n: nat, start: Bytes, s: Bytes): (b: Bytes)
    requires |start| == n && (s == [] || |s| >= n)
    ensures |b| == n
  {
    if s == [] then start else s[|s| - n..]
  }

  lemma BeforeOfSum(n: nat, start: Bytes, head: Bytes, s: Bytes)
    requires |start| == |head| == n && n > 0 && (s == [] || |s| >= n)
    ensures Before(n, start, head + s) == Before(n, head, s)
  {
    if s != [] {
      assert (head + s)[|head + s| - n..] == s[|s| - n..];
    }
  }

  lemma HeadAndTail(m: Bytes, b: Bytes, n: nat)
    requires n <= |m|
    ensures (m + b)[..n] == m[..n] && (m + b)[n..] == m[n..] + b
  {
  }

  lemma CbcSteps(c: BlockCipher, key: Bytes, iv: Bytes, m: Bytes)
    requires c.Lawful() && |iv| == c.size && |m| % c.size == 0
    ensures m == [] ==> CbcEncrypt(c, key, iv, m) == CbcDecrypt(c, key, iv, m) == []
    ensures m != [] ==>
      && |m| >= c.size && |m[c.size..]| % c.size == 0
      && var head, tail := m[..c.size], m[c.size..]; var y := c.enc(key, XorAll(head, iv));
      && |y| == c.size && |c.dec(key, head)| == c.size
      && CbcEncrypt(c, key, iv, m) == y + CbcEncrypt(c, key, y, tail)
      && CbcDecrypt(c, key, iv, m) == XorAll(c.dec(key, head), iv) + CbcDecrypt(c, key, head, tail)
  {
    if m != [] {
      DropBlock(|m|, c.size);
      assert c.Inverts(key, XorAll(m[..c.size], iv)) && c.Inverts(key, m[..c.size]);
    }
  }

  lemma CbcOfBlock(c: BlockCipher, key: Bytes, iv: Bytes, b: Bytes)
    requires c.Lawful() && |iv| == c.size == |b|
    ensures |b| % c.size == 0 && |c.dec(key, b)| == c.size
    ensures CbcEncrypt(c, key, iv, b) == c.enc(key, XorAll(b, iv))
    ensures CbcDecrypt(c, key, iv, b) == XorAll(c.dec(key, b), iv)
  {
    assert b[..c.size] == b && b[c.size..] == [];
    assert c.Inverts(key, b);
  }

  lemma {:induction false} EncryptSnoc(c: BlockCipher, key: Bytes, iv: Bytes, m: Bytes, b: Bytes)
    requires c.Lawful() && |iv| == c.size && |m| % c.size == 0 && |b| == c.size
    ensures |m + b| % c.size == 0
    ensures m == [] || |m| >= c.size
    ensures CbcEncrypt(c, key, iv, m + b)
      == CbcEncrypt(c, key, iv, m) + c.enc(key, XorAll(b, Before(c.size, iv, CbcEncrypt(c, key, iv, m))))
    decreases |m|
  {
    hide CbcEncrypt, CbcDecrypt;
    OneBlockMore(|m|, c.size);
    CbcSteps(c, key, iv, m);
    if m == [] {
      assert m + b == b;
      CbcOfBlock(c, key, iv, b);
    } else {
      CbcSteps(c, key, iv, m + b);
      HeadAndTail(m, b, c.size);
      var y := c.enc(key, XorAll(m[..c.size], iv));
      EncryptSnoc(c, key, y, m[c.size..], b);
      BeforeOfSum(c.size, iv, y, CbcEncrypt(c, key, y, m[c.size..]));
    }
  }

  lemma {:induction false} DecryptSnoc(c: BlockCipher, key: Bytes, iv: Bytes, m: Bytes, b: Bytes)
    requires c.Lawful() && |iv| == c.size && |m| % c.size == 0 && |b| == c.size
    ensures |m + b| % c.size == 0 && |c.dec(key, b)| == c.size && (m == [] || |m| >= c.size)
    ensures CbcDecrypt(c, key, iv, m + b)
      == CbcDecrypt(c, key, iv, m) + XorAll(c.dec(key, b), Before(c.size, iv, m))
    decreases |m|
  {
    hide CbcEncrypt, CbcDecrypt;
    OneBlockMore(|m|, c.size);
    CbcSteps(c, key, iv, m);
    if m == [] {
      assert m + b == b;
      CbcOfBlock(c, key, iv, b);
    } else {
      CbcSteps(c, key, iv, m + b);
      HeadAndTail(m, b, c.size);
      DecryptSnoc(c, key, m[..c.size], m[c.size..], b);
      assert m == m[..c.size] + m[c.size..];
      BeforeOfSum(c.size, iv, m[..c.size], m[c.size..]);
    }
  }

  lemma {:induction false} ChainSnoc(des: BlockCipher, k: Bytes, h: Bytes, m: Bytes, b: Bytes)
    requires des.Lawful() && |h| == des.size && |m| % des.size == 0 && |b| == des.size
    ensures |m + b| % des.size == 0
    ensures Chain(des, k, h, m + b) == des.enc(k, XorAll(b, Chain(des, k, h, m)))
    decreases |m|
  {
    OneBlockMore(|m|, des.size);
    if m == [] {
      assert m + b == b && b[..des.size] == b && b[des.size..] == [];
      assert des.Inverts(k, XorAll(b, h));
    } else {
      DropBlock(|m|, des.size);
      var head, tail := m[..des.size], m[des.size..];
      assert (m + b)[..des.size] == head && (m + b)[des.size..] == tail + b;
      assert des.Inverts(k, XorAll(head, h));
      ChainSnoc(des, k, des.enc(k, XorAll(head, h)), tail, b);
    }
  }

  lemma OneBlockMore(n: nat, size: nat)
    requires size > 0 && n % size == 0
    ensures (n + size) % size == 0
  {
    var q := n / size;
    assert n + size == size * (q + 1);
    ModOfMultiple(size, q + 1);
  }

  lemma FromTheEnd(f: Bytes -> Bytes, n: nat, start: Bytes, m: Bytes)
    requires OnBlocks(f, n) && |start| == n && Aligned(n, m)
    ensures m == [] ==> Enciphered(f, n, start, m) == Deciphered(f, n, start, m) == []
    ensures m != [] ==>
      && |m| >= n && Aligned(n, m[..|m| - n])
      && var front, last := m[..|m| - n], m[|m| - n..];
      && m == front + last && |f(last)| == n && (front == [] || |front| >= n)
      && Enciphered(f, n, start, m)
        == Enciphered(f, n, start, front) + f(XorAll(last, Before(n, start, Enciphered(f, n, start, front))))
      && Deciphered(f, n, start, m) == Deciphered(f, n, start, front) + XorAll(f(last), Before(n, start, front))
  {
    hide Aligned;
    if m != [] {
      AlignedFront(n, m);
    }
  }

  /** Block by block from the end is block by block from the front. */
  lemma {:induction false} EncipheredIsCbc(c: BlockCipher, key: Bytes, e: Bytes -> Bytes, iv: Bytes, m: Bytes)
    requires c.Lawful() && |iv| == c.size && |m| % c.size == 0 && OnBlocks(e, c.size)
    requires forall b: Bytes :: |b| == c.size ==> e(b) == c.enc(key, b)
    ensures Enciphered(e, c.size, iv, m) == CbcEncrypt(c, key, iv, m)
    decreases |m|
  {
    hide CbcEncrypt, CbcDecrypt, Enciphered, Deciphered, Before;
    FromTheEnd(e, c.size, iv, m);
    CbcSteps(c, key, iv, m);
    if m != [] {
      var front, last := m[..|m| - c.size], m[|m| - c.size..];
      EncipheredIsCbc(c, key, e, iv, front);
      EncryptSnoc(c, key, iv, front, last);
    }
  }

  lemma {:induction false} DecipheredIsCbc(c: BlockCipher, key: Bytes, d: Bytes -> Bytes, iv: Bytes, m: Bytes)
    requires c.Lawful() && |iv| == c.size && |m| % c.size == 0 && OnBlocks(d, c.size)
    requires forall b: Bytes :: |b| == c.size ==> d(b) == c.dec(key, b)
    ensures Deciphered(d, c.size, iv, m) == CbcDecrypt(c, key, iv, m)
    decreases |m|
  {
    hide CbcEncrypt, CbcDecrypt, Enciphered, Deciphered, Before;
    FromTheEnd(d, c.size, iv, m);
    CbcSteps(c, key, iv, m);
    if m != [] {
      var front, last := m[..|m| - c.size], m[|m| - c.size..];
      DecipheredIsCbc(c, key, d, iv, front);
      DecryptSnoc(c, key, iv, front, last);
    }
  }

  lemma ChainedFromTheEnd(e: Bytes -> Bytes, n: nat, m: Bytes)
    requires OnBlocks(e, n) && Aligned(n, m) && m != []
    ensures |m| >= n && Aligned(n, m[..|m| - n]) && m == m[..|m| - n] + m[|m| - n..]
    ensures Chained(e, n, m) == e(XorAll(m[|m| - n..], Chained(e, n, m[..|m| - n])))
  {
    hide Aligned;
    AlignedFront(n, m);
  }

  lemma ChainedNothing(e: Bytes -> Bytes, n: nat)
    requires OnBlocks(e, n)
    ensures Chained(e, n, []) == Zeros(n)
  {
  }

  lemma {:induction false} ChainedIsChain(des: BlockCipher, k: Bytes, e: Bytes -> Bytes, m: Bytes)
    requires des.Lawful() && |m| % des.size == 0 && OnBlocks(e, des.size)
    requires forall b: Bytes :: |b| == des.size ==> e(b) == des.enc(k, b)
    ensures Chained(e, des.size, m) == Chain(des, k, Zeros(des.size), m)
    decreases |m|
  {
    hide Chained;
    if m == [] {
      ChainedNothing(e, des.size);
    } else {
      ChainedFromTheEnd(e, des.size, m);
      hide Chain, XorAll;
      var front, last := m[..|m| - des.size], m[|m| - des.size..];
      ChainedIsChain(des, k, e, front);
      ChainSnoc(des, k, Zeros(des.size), front, last);
    }
  }

  /* ---- triple DES with two keys ---- */

  ghost predicate IsDes(des: BlockCipher) {
    des.Lawful() && des.size == 8
  }

  function TwoKeyEncrypt(des: BlockCipher, key: Bytes): Bytes -> Bytes
    requires |key| == 16
  {
    b => des.enc(key[..8], des.dec(key[8..], des.enc(key[..8], b)))
  }

  function TwoKeyDecrypt(des: BlockCipher, key: Bytes): Bytes -> Bytes
    requires |key| == 16
  {
    b => des.dec(key[..8], des.enc(key[8..], des.dec(key[..8], b)))
  }

  /** Under K1 | K2 | K1 the 24-byte cipher is the two-key one. */
  lemma TwoKeysOfThree(des: BlockCipher, key: Bytes)
    requires IsDes(des) && |key| == 16
    ensures Ede3(des).Lawful() && |key + key[..8]| == 24
    ensures OnBlocks(TwoKeyEncrypt(des, key), 8) && OnBlocks(TwoKeyDecrypt(des, key), 8)
    ensures forall b: Bytes :: |b| == 8 ==> TwoKeyEncrypt(des, key)(b) == Ede3(des).enc(key + key[..8], b)
    ensures forall b: Bytes :: |b| == 8 ==> TwoKeyDecrypt(des, key)(b) == Ede3(des).dec(key + key[..8], b)
  {
    hide BlockCipher.Lawful, TwoKeyEncrypt, TwoKeyDecrypt, Ede3;
    Ede3IsLawful(des);
    forall b: Bytes | |b| == 8
      ensures TwoKeyEncrypt(des, key)(b) == Ede3(des).enc(key + key[..8], b) && |TwoKeyEncrypt(des, key)(b)| == 8
      ensures TwoKeyDecrypt(des, key)(b) == Ede3(des).dec(key + key[..8], b) && |TwoKeyDecrypt(des, key)(b)| == 8
    {
      TwoKeysAt(des, key, b);
    }
  }

  lemma TwoKeysAt(des: BlockCipher, key: Bytes, b: Bytes)
    requires IsDes(des) && |key| == 16 && |b| == 8
    ensures TwoKeyEncrypt(des, key)(b) == Ede3(des).enc(key + key[..8], b) && |TwoKeyEncrypt(des, key)(b)| == 8
    ensures TwoKeyDecrypt(des, key)(b) == Ede3(des).dec(key + key[..8], b) && |TwoKeyDecrypt(des, key)(b)| == 8
  {
    Ede3IsLawful(des);
    var k := key + key[..8];
    assert Ede3(des).Inverts(k, b);
    hide BlockCipher.Lawful;
    assert k[..8] == key[..8] && k[8..16] == key[8..] && k[16..] == key[..8];
  }

  /** Triple DES in CBC mode with a zero start value. */
  function TripleDesEncrypt(des: BlockCipher, key: Bytes, m: Bytes): (r: Bytes)
    requires IsDes(des) && |key| == 16 && |m| % 8 == 0
    ensures |r| == |m|
  {
    TwoKeysOfThree(des, key);
    Enciphered(TwoKeyEncrypt(des, key), 8, [0, 0, 0, 0, 0, 0, 0, 0], m)
  }

  function TripleDesDecrypt(des: BlockCipher, key: Bytes, c: Bytes): (r: Bytes)
    requires IsDes(des) && |key| == 16 && |c| % 8 == 0
    ensures |r| == |c|
  {
    TwoKeysOfThree(des, key);
    Deciphered(TwoKeyDecrypt(des, key), 8, [0, 0, 0, 0, 0, 0, 0, 0], c)
  }

  lemma TripleDesIsEde3(des: BlockCipher, key: Bytes, m: Bytes)
    requires IsDes(des) && |key| == 16 && |m| % 8 == 0
    ensures Ede3(des).Lawful()
    ensures TripleDesEncrypt(des, key, m) == CbcEncrypt(Ede3(des), key + key[..8], Zeros(8), m)
    ensures TripleDesDecrypt(des, key, m) == CbcDecrypt(Ede3(des), key + key[..8], Zeros(8), m)
  {
    TwoKeysOfThree(des, key);
    EightZeros();
    EncipheredIsCbc(Ede3(des), key + key[..8], TwoKeyEncrypt(des, key), Zeros(8), m);
    DecipheredIsCbc(Ede3(des), key + key[..8], TwoKeyDecrypt(des, key), Zeros(8), m);
  }

  lemma EightZeros()
    ensures [0, 0, 0, 0, 0, 0, 0, 0] == Zeros(8)
  {
  }

  /** The retail MAC: a chain under K over the padded string, then decryption under K' and encryption under K. */
  function RetailMacOf(des: BlockCipher, key: Bytes, m: Bytes): (mac: Bytes)
    requires IsDes(des) && |key| == 16
    ensures |mac| == 8
  {
    PadIsAlignedAndMinimal(8, m);
    DesOnBlocks(des, key[..8]);
    DesOnBlocks(des, key[8..]);
    var h := Chained(b => des.enc(key[..8], b), 8, IsoPad(8, m));
    des.enc(key[..8], des.dec(key[8..], h))
  }

  lemma DesOnBlocks(des: BlockCipher, k: Bytes)
    requires IsDes(des)
    ensures OnBlocks(b => des.enc(k, b), 8)
    ensures forall b: Bytes :: |b| == 8 ==> |des.enc(k, b)| == 8 && |des.dec(k, b)| == 8
  {
    forall b: Bytes | |b| == 8
      ensures |des.enc(k, b)| == 8 && |des.dec(k, b)| == 8
    {
      assert des.Inverts(k, b);
    }
  }

  lemma RetailMacIsAlgorithm3(des: BlockCipher, key: Bytes, m: Bytes)
    requires IsDes(des) && |key| == 16
    ensures RetailMacOf(des, key, m) == MacAlgorithm3(des, key, m)
  {
    PadIsAlignedAndMinimal(8, m);
    DesOnBlocks(des, key[..8]);
    ChainedIsChain(des, key[..8], b => des.enc(key[..8], b), IsoPad(8, m));
  }

  /* ---- secure messaging, section 9.8 ---- */

  function BlockOf(suite: Suite): nat {
    match suite case BacSuite(_, _, _) => 8 case PaceSuite(_, _, _, _) => 16
  }

  lemma AesOnBlocks(suite: Suite)
    requires suite.Valid() && suite.PaceSuite?
    ensures OnBlocks(b => suite.aes.enc(suite.ksEnc, b), 16) && OnBlocks(b => suite.aes.dec(suite.ksEnc, b), 16)
    ensures forall b: Bytes :: |b| == 16 ==> |suite.aes.enc(suite.ksEnc, b)| == 16
  {
    forall b: Bytes | |b| == 16
      ensures |suite.aes.enc(suite.ksEnc, b)| == 16 && |suite.aes.dec(suite.ksEnc, b)| == 16
    {
      assert suite.aes.Inverts(suite.ksEnc, b);
    }
  }

  /** Encryption of padded data: triple DES from zero, or AES from the encrypted counter. */
  function Encipher(suite: Suite, ssc: Bytes, padded: Bytes): (c: Bytes)
    requires suite.Valid() && |ssc| == BlockOf(suite) && |padded| % BlockOf(suite) == 0
    ensures |c| == |padded|
  {
    match suite
    case BacSuite(des, ksEnc, _) => TripleDesEncrypt(des, ksEnc, padded)
    case PaceSuite(aes, _, ksEnc, _) =>
      AesOnBlocks(suite);
      Enciphered(b => aes.enc(ksEnc, b), 16, aes.enc(ksEnc, ssc), padded)
  }

  function Decipher(suite: Suite, ssc: Bytes, c: Bytes): (padded: Bytes)
    requires suite.Valid() && |ssc| == BlockOf(suite) && |c| % BlockOf(suite) == 0
    ensures |padded| == |c|
  {
    match suite
    case BacSuite(des, ksEnc, _) => TripleDesDecrypt(des, ksEnc, c)
    case PaceSuite(aes, _, ksEnc, _) =>
      AesOnBlocks(suite);
      Deciphered(b => aes.dec(ksEnc, b), 16, aes.enc(ksEnc, ssc), c)
  }

  /** The eight bytes of a DO'8E': the retail MAC, or the most significant half of the CMAC over the padded string. */
  function Checksum(suite: Suite, m: Bytes): (mac: Bytes)
    requires suite.Valid()
    ensures |mac| == 8
  {
    match suite
    case BacSuite(des, _, ksMac) => RetailMacOf(des, ksMac, m)
    case PaceSuite(_, cmac, _, ksMac) =>
      var full := cmac(ksMac, IsoPad(16, m));
      [full[0], full[1], full[2], full[3], full[4], full[5], full[6], full[7]]
  }

  /** The terminal's suite computes what the chip's does. */
  lemma SuitesAgree(suite: Suite, ssc: Bytes, m: Bytes)
    requires suite.Valid() && |ssc| == suite.Block()
    ensures BlockOf(suite) == suite.Block()
    ensures Checksum(suite, m) == suite.Mac(m)
    ensures |m| % suite.Block() == 0 ==> Encipher(suite, ssc, m) == suite.Encrypt(ssc, m)
    ensures |m| % suite.Block() == 0 ==> Decipher(suite, ssc, m) == suite.Decrypt(ssc, m)
  {
    match suite
    case BacSuite(des, ksEnc, ksMac) =>
      RetailMacIsAlgorithm3(des, ksMac, m);
      if |m| % 8 == 0 {
        TripleDesIsEde3(des, ksEnc, m);
      }
    case PaceSuite(aes, cmac, ksEnc, ksMac) =>
      AesOnBlocks(suite);
      if |m| % 16 == 0 {
        EncipheredIsCbc(aes, ksEnc, b => aes.enc(ksEnc, b), aes.enc(ksEnc, ssc), m);
        DecipheredIsCbc(aes, ksEnc, b => aes.dec(ksEnc, b), aes.enc(ksEnc, ssc), m);
      }
  }

  /** The data in a DO'87': after the indicator 01, whole blocks that decipher to padded data. */
  function Opened(suite: Suite, ssc: Bytes, do87: Bytes): Option<Bytes>
    requires suite.Valid() && |ssc| == BlockOf(suite) && IsObject(do87)
  {
    var content := do87[TlvHeader(do87).value.header..];
    if |content| <= 1 || content[0] != 0x01 || (|content| - 1) % BlockOf(suite) != 0 then None
    else Unpad(Decipher(suite, ssc, content[1..]))
  }

  /** Chip and terminal open the same data objects to the same data. */
  lemma OpenedAgrees(suite: Suite, ssc: Bytes, do87: Bytes)
    requires suite.Valid() && |ssc| == suite.Block() && IsObject(do87)
    ensures Opened(suite, ssc, do87) == OpenDataObject(suite, ssc, do87, NoFault)
  {
    var content := do87[TlvHeader(do87).value.header..];
    hide TlvHeader, Unpad;
    if |content| > 1 {
      SuitesAgree(suite, ssc, content[1..]);
    }
  }

  /* ---- key derivation, section 9.7.1 ---- */

  /** What a key is for: the 32-bit counter of the derivation. */
  datatype Purpose = ForEncryption | ForMac | ForPassword
  {
    function Counter(): Bytes {
      match this
      case ForEncryption => [0, 0, 0, 1]
      case ForMac => [0, 0, 0, 2]
      case ForPassword => [0, 0, 0, 3]
    }

    function Number(): nat {
      match this case ForEncryption => 1 case ForMac => 2 case ForPassword => 3
    }
  }

  /** A two-key triple DES key: the first sixteen bytes of the hash, each with odd parity. */
  function DesKey(sha1: Bytes -> Bytes, seed: Bytes, purpose: Purpose): (key: Bytes)
    requires IsSha1(sha1)
    ensures |key| == 16
  {
    var digest := sha1(seed + purpose.Counter());
    seq(16, i requires 0 <= i < 16 => OddParity(digest[i]))
  }

  lemma CounterBytes(purpose: Purpose)
    ensures Counter32(purpose.Number()) == purpose.Counter()
  {
  }

  lemma DesKeyIsKdf(sha1: Bytes -> Bytes, seed: Bytes, purpose: Purpose)
    requires IsSha1(sha1)
    ensures DesKey(sha1, seed, purpose) == Kdf(sha1, seed, purpose.Number())
  {
    CounterBytes(purpose);
  }

  /** An AES key: 128 bits from SHA-1, 256 bits from SHA-256, with the bytes as they come. */
  function AesKey(sha1: Bytes -> Bytes, sha256: Bytes -> Bytes, bits: nat, secret: Bytes, purpose: Purpose): (key: Bytes)
    requires IsSha1(sha1) && (forall m: Bytes :: |sha256(m)| == 32) && bits in {128, 256}
    ensures |key| == bits / 8
  {
    var digest := if bits == 128 then sha1(secret + purpose.Counter()) else sha256(secret + purpose.Counter());
    seq(bits / 8, i requires 0 <= i < bits / 8 => digest[i])
  }
}
