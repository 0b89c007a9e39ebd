/**
 PACE with generic mapping, section 4.4 of ICAO Doc 9303-11: the four rounds as the terminal runs
 them, over any curve group.
 */
module Pace {
  import opened BlockCiphers
  import opened ByteStrings
  import opened CardAccess
  import opened KeyDerivation
  import opened SecureMessaging

  const NONCE_LEN_MAX := 64

  /**
   The points of a curve under addition, and their encodings. Only commutativity, associativity
   and the neutral element are used. The neutral point has no uncompressed encoding and no
   affine coordinates, which is how the library reports it.
   */
  datatype Curve<!P(!new)> = Curve(
    zero: P, add: (P, P) -> P, generator: P,
    coordLen: nat, encode: P -> Bytes, decode: Bytes -> Option<P>, x: P -> Bytes)
  {
    ghost predicate Lawful() {
      && 1 <= coordLen <= 40
      && (forall a, b :: add(a, b) == add(b, a))
      && (forall a, b, c :: add(add(a, b), c) == add(a, add(b, c)))
      && (forall a :: add(zero, a) == a)
      && (forall a :: a != zero ==> Encodes(a))
    }

    ghost predicate Encodes(a: P) {
      && |encode(a)| == PubLen() && encode(a)[0] == 0x04
      && decode(encode(a)) == Some(a)
      && |x(a)| == coordLen
    }

    function PubLen(): nat {
      1 + 2 * coordLen
    }

    /** n times a point. */
    function Times(n: nat, a: P): P {
      if n == 0 then zero else add(a, Times(n - 1, a))
    }

    lemma Shuffle(a: P, b: P, c: P, d: P)
      requires Lawful()
      ensures add(add(a, b), add(c, d)) == add(add(a, c), add(b, d))
    {
      assert add(add(a, b), add(c, d)) == add(a, add(b, add(c, d)));
      assert add(b, add(c, d)) == add(add(b, c), d) == add(add(c, b), d) == add(c, add(b, d));
      assert add(a, add(c, add(b, d))) == add(add(a, c), add(b, d));
    }

    lemma {:induction false} TimesOfSum(n: nat, a: P, b: P)
      requires Lawful()
      ensures Times(n, add(a, b)) == add(Times(n, a), Times(n, b))
    {
      if n > 0 {
        TimesOfSum(n - 1, a, b);
        Shuffle(a, b, Times(n - 1, a), Times(n - 1, b));
      }
    }

    lemma {:induction false} TimesOfZero(n: nat)
      requires Lawful()
      ensures Times(n, zero) == zero
    {
      if n > 0 {
        TimesOfZero(n - 1);
      }
    }

    /** Times is repeated addition. */
    lemma {:induction false} TimesAdds(m: nat, n: nat, a: P)
      requires Lawful()
      ensures Times(0, a) == zero && Times(1, a) == a
      ensures Times(m + n, a) == add(Times(m, a), Times(n, a))
    {
      assert Times(1, a) == add(a, Times(0, a)) == add(zero, a);
      if m > 0 {
        TimesAdds(m - 1, n, a);
        assert Times(m + n, a) == add(a, Times(m - 1 + n, a));
      }
    }

    /** Diffie-Hellman: it does not matter which factor is applied first. */
    lemma {:induction false} TimesCommutes(m: nat, n: nat, a: P)
      requires Lawful()
      ensures Times(m, Times(n, a)) == Times(n, Times(m, a))
    {
      if m == 0 {
        TimesOfZero(n);
      } else {
        TimesCommutes(m - 1, n, a);
        TimesOfSum(n, a, Times(m - 1, a));
      }
    }

    /** The mapped generator of generic mapping: s times G plus the shared mapping point. */
    function Mapped(s: nat, secret: nat, peer: P): P {
      add(Times(s, generator), Times(secret, peer))
    }

    lemma MappingAgrees(s: nat, t: nat, c: nat)
      requires Lawful()
      ensures Mapped(s, t, Times(c, generator)) == Mapped(s, c, Times(t, generator))
    {
      TimesCommutes(t, c, generator);
    }
  }

  /* ---- dynamic authentication data ---- */

  function Wrap7C(tag: Byte, data: Bytes): Bytes {
    [0x7C, (|data| + 2) % 0x100, tag, |data| % 0x100] + data
  }

  /** Looks for a tag in a row of short-form objects. */
  function FindTag(s: Bytes, tag: Byte): (r: Option<Bytes>)
    ensures r.Some? ==> |r.value| < 0x80
    decreases |s|
  {
    if |s| < 2 || s[1] >= 0x80 || 2 + s[1] as nat > |s| then None
    else
      var n := 2 + s[1] as nat;
      if s[0] == tag then Some(s[2..n]) else FindTag(s[n..], tag)
  }

  function FindIn7C(resp: Bytes, tag: Byte): (r: Option<Bytes>)
    ensures r.Some? ==> |r.value| < 0x80
  {
    if |resp| < 2 || resp[0] != 0x7C || resp[1] >= 0x80 || resp[1] as nat + 2 > |resp| then None
    else FindTag(resp[2..resp[1] as nat + 2], tag)
  }

  lemma FindTagMeans(s: Bytes, tag: Byte)
    requires |s| >= 2
    ensures var n := 2 + s[1] as nat;
      FindTag(s, tag) == if s[1] >= 0x80 || n > |s| then None else if s[0] == tag then Some(s[2..n]) else FindTag(s[n..], tag)
  {
  }

  /** One step of the search, at a cursor. */
  lemma FindTagAt(s: Bytes, pos: nat, end: nat, tag: Byte)
    requires pos + 2 <= end <= |s|
    ensures var next := pos + 2 + s[pos + 1];
      FindTag(s[pos..end], tag) ==
        if s[pos + 1] >= 0x80 || next > end then None
        else if s[pos] == tag then Some(s[pos + 2..next]) else FindTag(s[next..end], tag)
  {
    hide FindTag;
    FindTagMeans(s[pos..end], tag);
    var row, n := s[pos..end], 2 + s[pos + 1] as nat;
    assert row[0] == s[pos] && row[1] == s[pos + 1];
    if n <= |row| {
      SliceOfSlice(s, pos, end, n, |row|);
      SliceOfSlice(s, pos, end, 2, n);
    }
  }

  /** The search loop over a 7C template; bytes after the template, such as a status word, are ignored. */
  method SearchIn7C(resp: Bytes, tag: Byte) returns (content: Option<Bytes>)
    ensures content == FindIn7C(resp, tag)
  {
    if |resp| < 2 || resp[0] != 0x7C || resp[1] >= 0x80 {
      return None;
    }
    var end := resp[1] as nat + 2;
    if end > |resp| {
      return None;
    }
    var pos := 2;
    while pos + 2 <= end
      invariant 2 <= pos <= end
      invariant FindIn7C(resp, tag) == FindTag(resp[pos..end], tag)
      decreases end - pos
    {
      FindTagAt(resp, pos, end, tag);
      var t, l := resp[pos], resp[pos + 1];
      if l >= 0x80 || pos + 2 + l as nat > end {
        return None;
      }
      var n := 2 + l as nat;
      if t == tag {
        return Some(resp[pos + 2..pos + n]);
      }
      pos := pos + n;
    }
    return None;
  }

  lemma FindsWrapped(tag: Byte, data: Bytes, tail: Bytes)
    requires |data| <= 125
    ensures FindIn7C(Wrap7C(tag, data) + tail, tag) == Some(data)
  {
    var s := Wrap7C(tag, data) + tail;
    var inner := s[2..|data| + 4];
    assert inner == [tag, |data|] + data;
    assert inner[2..2 + |data|] == data;
  }

  /** Other objects in front of the one with the tag are passed over. */
  lemma FindTagPasses(other: Byte, data: Bytes, tag: Byte, rest: Bytes)
    requires |data| < 0x80 && other != tag
    ensures FindTag([other, |data|] + data + rest, tag) == FindTag(rest, tag)
    ensures FindTag([other, |data|] + data + rest, other) == Some(data)
  {
    var s := [other, |data| as Byte] + data + rest;
    assert s[2..2 + |data|] == data && s[2 + |data|..] == rest;
  }

  /* ---- keys and tokens ---- */

  /** The primitives PACE runs on; keyLen is 16 or 32, as the negotiated protocol says. */
  datatype PacePrimitives = PacePrimitives(
    aes: BlockCipher, cmac: (Bytes, Bytes) -> Bytes, sha1: Bytes -> Bytes, sha256: Bytes -> Bytes, keyLen: nat)
  {
    ghost predicate Valid() {
      && aes.Lawful() && aes.size == 16
      && (forall k: Bytes, m: Bytes :: |cmac(k, m)| == 16)
      && IsSha1(sha1)
      && (forall m: Bytes :: |sha256(m)| == 32)
      && (keyLen == 16 || keyLen == 32)
    }
  }

  /** Unlike the BAC derivation: any length of secret, no parity bits, the digest chosen by key length. */
  function PaceKdf(p: PacePrimitives, secret: Bytes, c: nat): (key: Bytes)
    requires p.Valid()
    ensures |key| == p.keyLen
  {
    if p.keyLen == 16 then p.sha1(secret + Counter32(c))[..16] else p.sha256(secret + Counter32(c))[..32]
  }

  function PaceSessionKeys(p: PacePrimitives, secret: Bytes): SessionKeys
    requires p.Valid()
  {
    SessionKeys(PaceKdf(p, secret, 1), PaceKdf(p, secret, 2), Zeros(16))
  }

  function TokenInput(oid: Bytes, pub: Bytes): Bytes {
    [0x7F, 0x49, (2 + |oid| + 2 + |pub|) % 0x100, 0x06, |oid| % 0x100] + oid + [0x86, |pub| % 0x100] + pub
  }

  function Token(p: PacePrimitives, ksMac: Bytes, oid: Bytes, pub: Bytes): (t: Bytes)
    requires p.Valid()
    ensures |t| == 8
  {
    p.cmac(ksMac, TokenInput(oid, pub))[..8]
  }

  function GeneralAuthenticate(cla: Byte, tag: Byte, data: Bytes): Bytes {
    [cla, 0x86, 0x00, 0x00, |Wrap7C(tag, data)| % 0x100] + Wrap7C(tag, data) + [0x00]
  }

  /** The token input determines the protocol and the key. */
  lemma TokenInputIsInjective(oid: Bytes, pub: Bytes, oid': Bytes, pub': Bytes)
    requires |oid| < 0x100 && |oid'| < 0x100
    ensures TokenInput(oid, pub) == TokenInput(oid', pub') <==> oid == oid' && pub == pub'
  {
    var s, t := TokenInput(oid, pub), TokenInput(oid', pub');
    if s == t {
      assert s[4] == |oid| && t[4] == |oid'|;
      assert s[5..5 + |oid|] == oid && t[5..5 + |oid'|] == oid';
      assert s[7 + |oid|..] == pub && t[7 + |oid'|..] == pub';
    }
  }

  /** The first command: which protocol, and that the password is the card access number or the zone. */
  method BuildMseSetAt(oid: Bytes, useCan: bool) returns (apdu: Bytes)
    ensures apdu == SetAt(oid, useCan)
  {
    var oidTlv: Bytes := [0x80, |oid| % 0x100];
    var pwdTlv: Bytes := [0x83, 0x01, if useCan then 0x02 else 0x01];
    apdu := [0x00, 0x22, 0xC1, 0xA4] + [(|oidTlv| + |oid| + |pwdTlv|) % 0x100] + oidTlv + oid + pwdTlv;
  }

  function SetAt(oid: Bytes, useCan: bool): Bytes {
    [0x00, 0x22, 0xC1, 0xA4, (5 + |oid|) % 0x100, 0x80, |oid| % 0x100] + oid + [0x83, 0x01, if useCan then 0x02 else 0x01]
  }

  /** The second: an empty template. */
  const GET_NONCE: Bytes := [0x10, 0x86, 0x00, 0x00, 0x02, 0x7C, 0x00, 0x00]

  /* ---- the terminal ---- */

  class PaceExchange<P(==, !new)> {
    const p: PacePrimitives
    const curve: Curve<P>
    const oid: Bytes
    const kPi: Bytes
    var nonce: Bytes
    var priv1: nat
    var mapped: Option<P>
    var priv2: nat
    var myPub2: Bytes
    var chipPub2: Bytes
    var session: SessionKeys

    constructor (p: PacePrimitives, curve: Curve<P>, oid: Bytes, password: Bytes)
      requires p.Valid() && curve.Lawful() && KeyLenOf(oid) == p.keyLen
      ensures Valid()
      ensures this.p == p && this.curve == curve && this.oid == oid && kPi == PaceKdf(p, password, 3)
    {
      this.p, this.curve, this.oid, kPi := p, curve, oid, PaceKdf(p, password, 3);
      nonce, priv1, mapped, priv2 := [], 0, None, 0;
      myPub2, chipPub2, session := [], [], SessionKeys([], [], []);
    }

    ghost predicate Valid() {
      p.Valid() && curve.Lawful() && KeyLenOf(oid) == p.keyLen
    }

    /** Round 1. */
    method ProcessNonceResponse(resp: Bytes, fault: bool) returns (ok: bool)
      requires Valid()
      modifies this`nonce
      ensures ok <==> !fault && FindIn7C(resp, 0x80).Some?
                      && var z := FindIn7C(resp, 0x80).value;
                      0 < |z| <= NONCE_LEN_MAX && |z| % 16 == 0
      ensures ok ==> nonce == CbcDecrypt(p.aes, kPi, Zeros(16), FindIn7C(resp, 0x80).value)
      ensures !ok ==> nonce == old(nonce)
    {
      var found := SearchIn7C(resp, 0x80);
      if found.None? {
        return false;
      }
      var z := found.value;
      if |z| == 0 || |z| % 16 != 0 || |z| > NONCE_LEN_MAX || fault {
        return false;
      }
      nonce := CbcDecrypt(p.aes, kPi, Zeros(16), z);
      return true;
    }

    /** Round 2, command: the random scalar times G. */
    method BuildMapNonce(scalar: nat, fault: bool) returns (apdu: Option<Bytes>)
      requires Valid()
      modifies this`priv1
      ensures priv1 == scalar
      ensures var pub := curve.Times(scalar, curve.generator);
              apdu == if fault || pub == curve.zero then None
                      else Some(GeneralAuthenticate(0x10, 0x81, curve.encode(pub)))
    {
      priv1 := scalar;
      var pub := curve.Times(scalar, curve.generator);
      if fault || pub == curve.zero {
        return None;
      }
      var dad := Wrap7C(0x81, curve.encode(pub));
      return Some([0x10, 0x86, 0x00, 0x00, |dad| % 0x100] + dad + [0x00]);
    }

    /** A peer's point, if the bytes are an uncompressed encoding of the right length. */
    function PointFrom(bytes: Bytes): Option<P> {
      if |bytes| != curve.PubLen() || bytes[0] != 0x04 then None else curve.decode(bytes)
    }

    /** Round 2, response: the mapped generator. */
    method ProcessMapNonceResponse(resp: Bytes, fault: bool) returns (ok: bool)
      requires Valid()
      modifies this`mapped
      ensures ok <==> !fault && FindIn7C(resp, 0x82).Some? && PointFrom(FindIn7C(resp, 0x82).value).Some?
      ensures ok ==> mapped == Some(curve.Mapped(BigEndian(nonce), priv1, PointFrom(FindIn7C(resp, 0x82).value).value))
      ensures !ok ==> mapped == old(mapped)
    {
      var found := SearchIn7C(resp, 0x82);
      if found.None? {
        return false;
      }
      var chipPub1 := PointFrom(found.value);
      if chipPub1.None? || fault {
        return false;
      }
      var h := curve.Times(priv1, chipPub1.value);
      var sg := curve.Times(BigEndian(nonce), curve.generator);
      mapped := Some(curve.add(sg, h));
      return true;
    }

    /** Round 3, command: the second random scalar times the mapped generator. */
    method BuildKeyAgreement(scalar: nat, fault: bool) returns (apdu: Option<Bytes>)
      requires Valid() && mapped.Some?
      modifies this`priv2, this`myPub2
      ensures priv2 == scalar
      ensures var pub := curve.Times(scalar, mapped.value);
              apdu == if fault || pub == curve.zero then None
                      else Some(GeneralAuthenticate(0x10, 0x83, curve.encode(pub)))
      ensures apdu.Some? ==> myPub2 == curve.encode(curve.Times(scalar, mapped.value))
    {
      priv2 := scalar;
      var pub := curve.Times(scalar, mapped.value);
      if fault || pub == curve.zero {
        return None;
      }
      myPub2 := curve.encode(pub);
      var dad := Wrap7C(0x83, myPub2);
      return Some([0x10, 0x86, 0x00, 0x00, |dad| % 0x100] + dad + [0x00]);
    }

    /** Round 3, response: the session keys, from the x coordinate of the shared point alone. */
    method ProcessKeyAgreementResponse(resp: Bytes, fault: bool) returns (ok: bool)
      requires Valid()
      modifies this`chipPub2, this`session
      ensures ok <==> !fault && FindIn7C(resp, 0x84).Some? && PointFrom(FindIn7C(resp, 0x84).value).Some?
                      && curve.Times(priv2, PointFrom(FindIn7C(resp, 0x84).value).value) != curve.zero
      ensures ok ==> chipPub2 == FindIn7C(resp, 0x84).value
                     && session == PaceSessionKeys(p, curve.x(curve.Times(priv2, PointFrom(chipPub2).value)))
      ensures !ok ==> session == old(session)
    {
      var found := SearchIn7C(resp, 0x84);
      if found.None? || |found.value| != curve.PubLen() {
        return false;
      }
      chipPub2 := found.value;
      var point := PointFrom(found.value);
      if point.None? || fault {
        return false;
      }
      var shared := curve.Times(priv2, point.value);
      if shared == curve.zero {
        return false;
      }
      session := SessionKeys(PaceKdf(p, curve.x(shared), 1), PaceKdf(p, curve.x(shared), 2), Zeros(16));
      return true;
    }

    /** Round 4, command: the token over the chip's own key. */
    method BuildMutualAuth(fault: bool) returns (apdu: Option<Bytes>)
      requires Valid()
      ensures apdu == if fault then None
                      else Some(GeneralAuthenticate(0x00, 0x85, Token(p, session.ksMac, oid, chipPub2)))
    {
      if fault {
        return None;
      }
      var dad := Wrap7C(0x85, p.cmac(session.ksMac, TokenInput(oid, chipPub2))[..8]);
      return Some([0x00, 0x86, 0x00, 0x00, |dad| % 0x100] + dad + [0x00]);
    }

    /** Round 4, response: the chip's token over our key. */
    method VerifyMutualAuthResponse(resp: Bytes, fault: bool) returns (ok: bool)
      requires Valid()
      ensures ok <==> !fault && FindIn7C(resp, 0x86) == Some(Token(p, session.ksMac, oid, myPub2))
    {
      var found := SearchIn7C(resp, 0x86);
      if found.None? || |found.value| != 8 || fault {
        return false;
      }
      var expected := p.cmac(session.ksMac, TokenInput(oid, myPub2))[..8];
      ok := BytesEqual(expected, found.value);
    }
  }
}
