/** The BAC handshake, section 4.3 of ICAO Doc 9303-11: terminal, honest chip, and their agreement. */
module BasicAccessControl {
  import opened BlockCiphers
  import opened ByteStrings
  import opened ChipCrypto
  import opened KeyDerivation
  import opened SecureMessaging

  /** The primitives the handshake runs on. */
  datatype BacPrimitives = BacPrimitives(des: BlockCipher, sha1: Bytes -> Bytes) {
    ghost predicate Valid() {
      des.Lawful() && des.size == 8 && IsSha1(sha1)
    }
  }

  datatype StaticKeys = StaticKeys(kEnc: Bytes, kMac: Bytes) {
    predicate Valid() {
      |kEnc| == 16 && |kMac| == 16
    }
  }

  datatype Challenge = Challenge(rndIfd: Bytes, kIfd: Bytes) {
    predicate Valid() {
      |rndIfd| == 8 && |kIfd| == 16
    }
  }

  /** Triple DES under K1 | K2 | K1 with a zero start value. */
  function Encrypt3Des(p: BacPrimitives, key: Bytes, m: Bytes): (r: Bytes)
    requires p.Valid() && |m| % 8 == 0
    ensures |r| == |m|
  {
    Ede3IsLawful(p.des);
    CbcEncrypt(Ede3(p.des), key + if |key| >= 8 then key[..8] else [], Zeros(8), m)
  }

  function Decrypt3Des(p: BacPrimitives, key: Bytes, m: Bytes): (r: Bytes)
    requires p.Valid() && |m| % 8 == 0
    ensures |r| == |m|
  {
    Ede3IsLawful(p.des);
    CbcDecrypt(Ede3(p.des), key + if |key| >= 8 then key[..8] else [], Zeros(8), m)
  }

  lemma TripleDesInverts(p: BacPrimitives, key: Bytes, m: Bytes)
    requires p.Valid() && |m| % 8 == 0
    ensures Decrypt3Des(p, key, Encrypt3Des(p, key, m)) == m
    ensures Encrypt3Des(p, key, Decrypt3Des(p, key, m)) == m
  {
    Ede3IsLawful(p.des);
    var key24 := key + if |key| >= 8 then key[..8] else [];
    CbcDecryptInvertsEncrypt(Ede3(p.des), key24, Zeros(8), m);
    CbcEncryptInvertsDecrypt(Ede3(p.des), key24, Zeros(8), m);
  }

  /** 32 encrypted bytes and the MAC over them. */
  function Sealed(p: BacPrimitives, keys: StaticKeys, s: Bytes): (r: Bytes)
    requires p.Valid() && keys.Valid() && |s| == 32
    ensures |r| == 40
  {
    var e := Encrypt3Des(p, keys.kEnc, s);
    e + MacAlgorithm3(p.des, keys.kMac, e)
  }

  /** The contents of a sealed block, if its MAC is right. */
  function Unsealed(p: BacPrimitives, keys: StaticKeys, r: Bytes): (s: Option<Bytes>)
    requires p.Valid() && keys.Valid()
    ensures s.Some? ==> |s.value| == 32
  {
    if |r| != 40 || MacAlgorithm3(p.des, keys.kMac, r[..32]) != r[32..] then None
    else Some(Decrypt3Des(p, keys.kEnc, r[..32]))
  }

  /** Sealing and unsealing are inverse to each other on everything that unseals. */
  lemma UnsealedIffSealed(p: BacPrimitives, keys: StaticKeys, r: Bytes, s: Bytes)
    requires p.Valid() && keys.Valid() && |s| == 32
    ensures Unsealed(p, keys, r) == Some(s) <==> r == Sealed(p, keys, s)
  {
    TripleDesInverts(p, keys.kEnc, s);
    if |r| == 40 {
      TripleDesInverts(p, keys.kEnc, r[..32]);
      assert r == r[..32] + r[32..];
    }
    var e := Encrypt3Des(p, keys.kEnc, s);
    var sealed := Sealed(p, keys, s);
    assert sealed[..32] == e && sealed[32..] == MacAlgorithm3(p.des, keys.kMac, e);
  }

  /** What somebody who holds the static keys makes of 32 bytes, with the cryptography of the chip. */
  function SealedByHolder(p: BacPrimitives, keys: StaticKeys, s: Bytes): (r: Bytes)
    requires p.Valid() && keys.Valid() && |s| == 32
    ensures |r| == 40
  {
    var e := TripleDesEncrypt(p.des, keys.kEnc, s);
    e + RetailMacOf(p.des, keys.kMac, e)
  }

  function UnsealedByHolder(p: BacPrimitives, keys: StaticKeys, r: Bytes): (s: Option<Bytes>)
    requires p.Valid() && keys.Valid()
    ensures s.Some? ==> |s.value| == 32
  {
    if |r| != 40 || RetailMacOf(p.des, keys.kMac, r[..32]) != r[32..] then None
    else Some(TripleDesDecrypt(p.des, keys.kEnc, r[..32]))
  }

  /** The terminal seals and unseals as any holder of the keys does. */
  lemma HoldersAgree(p: BacPrimitives, keys: StaticKeys, s: Bytes, r: Bytes)
    requires p.Valid() && keys.Valid() && |s| == 32
    ensures Sealed(p, keys, s) == SealedByHolder(p, keys, s)
    ensures Unsealed(p, keys, r) == UnsealedByHolder(p, keys, r)
  {
    hide Ede3, MacAlgorithm3, CbcEncrypt, CbcDecrypt, RetailMacOf, TripleDesEncrypt, TripleDesDecrypt;
    TripleDesIsEde3(p.des, keys.kEnc, s);
    RetailMacIsAlgorithm3(p.des, keys.kMac, Encrypt3Des(p, keys.kEnc, s));
    if |r| == 40 {
      TripleDesIsEde3(p.des, keys.kEnc, r[..32]);
      RetailMacIsAlgorithm3(p.des, keys.kMac, r[..32]);
    }
  }

  /** The session both sides derive from their two key halves and two random numbers. */
  function BacSessionKeys(p: BacPrimitives, kIfd: Bytes, kIcc: Bytes, rndIcc: Bytes, rndIfd: Bytes): SessionKeys
    requires p.Valid() && |kIfd| == |kIcc| == 16 && |rndIcc| == |rndIfd| == 8
  {
    var seed := XorAll(kIfd, kIcc);
    SessionKeys(Kdf(p.sha1, seed, 1), Kdf(p.sha1, seed, 2), rndIcc[4..] + rndIfd[4..])
  }

  /** MUTUAL AUTHENTICATE with the sealed RND.IFD | RND.ICC | K.IFD. */
  function MutualAuthenticate(p: BacPrimitives, keys: StaticKeys, rndIcc: Bytes, c: Challenge): Bytes
    requires p.Valid() && keys.Valid() && |rndIcc| == 8 && c.Valid()
  {
    [0x00, 0x82, 0x00, 0x00, 40] + Sealed(p, keys, c.rndIfd + rndIcc + c.kIfd) + [40]
  }

  /** K.ICC, if the response is sealed under the same keys and echoes both random numbers. */
  function AcceptedKey(p: BacPrimitives, keys: StaticKeys, rndIcc: Bytes, c: Challenge, response: Bytes): (k: Option<Bytes>)
    requires p.Valid() && keys.Valid() && |rndIcc| == 8 && c.Valid()
    ensures k.Some? ==> |k.value| == 16
  {
    match Unsealed(p, keys, response)
    case None => None
    case Some(r) => if r[..8] == rndIcc && r[8..16] == c.rndIfd then Some(r[16..]) else None
  }

  /**
   A response is accepted with the chip's key half k if and only if it is, bit for bit, what a chip
   with the same static keys and that key half sends.
   */
  lemma AcceptedIffFromKeyHolder(p: BacPrimitives, keys: StaticKeys, rndIcc: Bytes, c: Challenge, response: Bytes, k: Bytes)
    requires p.Valid() && keys.Valid() && |rndIcc| == 8 && c.Valid() && |k| == 16
    ensures AcceptedKey(p, keys, rndIcc, c, response) == Some(k)
            <==> response == SealedByHolder(p, keys, rndIcc + c.rndIfd + k)
  {
    hide Sealed, SealedByHolder, UnsealedByHolder;
    HoldersAgree(p, keys, rndIcc + c.rndIfd + k, response);
    var s := rndIcc + c.rndIfd + k;
    assert s[..8] == rndIcc && s[8..16] == c.rndIfd && s[16..] == k;
    UnsealedIffSealed(p, keys, response, s);
    match Unsealed(p, keys, response)
    case None =>
    case Some(r) =>
      assert r == r[..8] + r[8..16] + r[16..];
      UnsealedIffSealed(p, keys, response, r);
  }

  /* ---- the honest chip ---- */

  datatype ChipOutcome = ChipOutcome(response: Bytes, session: SessionKeys)

  /** What a chip with challenge rndIcc and key half kIcc makes of a MUTUAL AUTHENTICATE. */
  function ChipAuthenticates(p: BacPrimitives, keys: StaticKeys, rndIcc: Bytes, kIcc: Bytes, apdu: Bytes): Option<ChipOutcome>
    requires p.Valid() && keys.Valid() && |rndIcc| == 8 && |kIcc| == 16
  {
    if |apdu| != 46 || apdu[..5] != [0x00, 0x82, 0x00, 0x00, 0x28] || apdu[45] != 0x28 then None
    else
      match UnsealedByHolder(p, keys, apdu[5..45])
      case None => None
      case Some(s) =>
        if s[8..16] != rndIcc then None
        else Some(ChipOutcome(SealedByHolder(p, keys, rndIcc + s[..8] + kIcc), ChipSession(p, rndIcc, kIcc, s[..8], s[16..])))
  }

  /** The chip's session: keys from the xor of both halves, the counter from the ends of both challenges. */
  function ChipSession(p: BacPrimitives, rndIcc: Bytes, kIcc: Bytes, rndIfd: Bytes, kIfd: Bytes): SessionKeys
    requires p.Valid() && |kIfd| == |kIcc| == 16 && |rndIcc| == |rndIfd| == 8
  {
    var seed := XorAll(kIcc, kIfd);
    SessionKeys(DesKey(p.sha1, seed, ForEncryption), DesKey(p.sha1, seed, ForMac),
                [rndIcc[4], rndIcc[5], rndIcc[6], rndIcc[7], rndIfd[4], rndIfd[5], rndIfd[6], rndIfd[7]])
  }

  lemma SessionsAgree(p: BacPrimitives, rndIcc: Bytes, kIcc: Bytes, rndIfd: Bytes, kIfd: Bytes)
    requires p.Valid() && |kIfd| == |kIcc| == 16 && |rndIcc| == |rndIfd| == 8
    ensures ChipSession(p, rndIcc, kIcc, rndIfd, kIfd) == BacSessionKeys(p, kIfd, kIcc, rndIcc, rndIfd)
  {
    hide DesKey, Kdf;
    XorAllCommutes(kIcc, kIfd);
    DesKeyIsKdf(p.sha1, XorAll(kIcc, kIfd), ForEncryption);
    DesKeyIsKdf(p.sha1, XorAll(kIcc, kIfd), ForMac);
  }

  lemma XorAllCommutes(a: Bytes, b: Bytes)
    requires |a| == |b|
    ensures XorAll(a, b) == XorAll(b, a)
  {
    forall i | 0 <= i < |a|
      ensures XorAll(a, b)[i] == XorAll(b, a)[i]
    {
      XorCancels(a[i], b[i]);
    }
  }

  lemma CommandBytes(sealed: Bytes)
    requires |sealed| == 40
    ensures var apdu := [0x00, 0x82, 0x00, 0x00, 40] + sealed + [40];
      |apdu| == 46 && apdu[..5] == [0x00, 0x82, 0x00, 0x00, 0x28] && apdu[5..45] == sealed && apdu[45] == 0x28
  {
  }

  /** With the same static keys the chip accepts the command, the terminal the answer, and both hold one session. */
  lemma HandshakeAgrees(p: BacPrimitives, keys: StaticKeys, rndIcc: Bytes, kIcc: Bytes, c: Challenge)
    requires p.Valid() && keys.Valid() && |rndIcc| == 8 && |kIcc| == 16 && c.Valid()
    ensures var chip := ChipAuthenticates(p, keys, rndIcc, kIcc, MutualAuthenticate(p, keys, rndIcc, c));
            && chip.Some?
            && AcceptedKey(p, keys, rndIcc, c, chip.value.response) == Some(kIcc)
            && chip.value.session == BacSessionKeys(p, c.kIfd, kIcc, rndIcc, c.rndIfd)
  {
    hide Sealed, Unsealed, SealedByHolder, UnsealedByHolder, ChipSession, BacSessionKeys, AcceptedKey;
    var s := c.rndIfd + rndIcc + c.kIfd;
    assert s[..8] == c.rndIfd && s[8..16] == rndIcc && s[16..] == c.kIfd;
    var apdu, sealed := MutualAuthenticate(p, keys, rndIcc, c), Sealed(p, keys, s);
    CommandBytes(sealed);
    UnsealedIffSealed(p, keys, sealed, s);
    HoldersAgree(p, keys, s, sealed);
    SessionsAgree(p, rndIcc, kIcc, c.rndIfd, c.kIfd);
    AcceptedIffFromKeyHolder(p, keys, rndIcc, c, SealedByHolder(p, keys, rndIcc + c.rndIfd + kIcc), kIcc);
  }

  /* ---- the terminal ---- */

  /** The handshake state of a passport read. */
  class Handshake {
    const p: BacPrimitives
    const keys: StaticKeys
    var challenge: Challenge
    var session: SessionKeys

    constructor (p: BacPrimitives, keys: StaticKeys, blank: SessionKeys)
      ensures this.p == p && this.keys == keys && session == blank
    {
      this.p, this.keys, this.session := p, keys, blank;
      challenge := Challenge([], []);
    }

    ghost predicate Valid() {
      p.Valid() && keys.Valid()
    }

    /** random is what the generator returned, if it did not fail. */
    method BuildMutualAuthenticate(rndIcc: Bytes, random: Option<Challenge>, fault: Fault) returns (apdu: Option<Bytes>)
      requires Valid() && |rndIcc| == 8
      requires random.Some? ==> random.value.Valid()
      modifies this`challenge
      ensures apdu.Some? <==> random.Some? && fault == NoFault
      ensures apdu.Some? ==> challenge == random.value
                             && apdu.value == MutualAuthenticate(p, keys, rndIcc, challenge)
    {
      if random.None? {
        return None;
      }
      challenge := random.value;
      var s := challenge.rndIfd + rndIcc + challenge.kIfd;
      if fault == CipherFault {
        return None;
      }
      var eIfd := Encrypt3Des(p, keys.kEnc, s);
      if fault == MacFault {
        return None;
      }
      var mIfd := RetailMac(p.des, keys.kMac, eIfd);
      return Some([0x00, 0x82, 0x00, 0x00, 40] + (eIfd + mIfd) + [40]);
    }

    /** Every check comes before the first write, so a rejected response leaves the session alone. */
    method ProcessResponse(rndIcc: Bytes, response: Bytes, fault: Fault) returns (ok: bool)
      requires Valid() && |rndIcc| == 8 && challenge.Valid()
      modifies this`session
      ensures ok <==> fault == NoFault && AcceptedKey(p, keys, rndIcc, challenge, response).Some?
      ensures ok ==> session == BacSessionKeys(p, challenge.kIfd,
                                            AcceptedKey(p, keys, rndIcc, challenge, response).value,
                                            rndIcc, challenge.rndIfd)
      ensures !ok ==> session == old(session)
    {
      if |response| != 40 {
        return false;
      }
      var eIcc := response[..32];
      if fault == MacFault {
        return false;
      }
      var expected := RetailMac(p.des, keys.kMac, eIcc);
      var same := BytesEqual(expected, response[32..]);
      if !same || fault == CipherFault {
        return false;
      }
      var r := Decrypt3Des(p, keys.kEnc, eIcc);
      same := BytesEqual(r[..8], rndIcc);
      if !same {
        return false;
      }
      same := BytesEqual(r[8..16], challenge.rndIfd);
      if !same {
        return false;
      }
      var kSeed := XorAll(challenge.kIfd, r[16..]);
      var ksEnc := DeriveKey(p.sha1, kSeed, 1);
      var ksMac := DeriveKey(p.sha1, kSeed, 2);
      session := SessionKeys(ksEnc, ksMac, rndIcc[4..] + challenge.rndIfd[4..]);
      return true;
    }
  }
}
