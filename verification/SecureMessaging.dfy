/**
 Secure messaging, section 9.8 of ICAO Doc 9303-11: what a protected command and a protected
 response are, byte for byte, in the two suites (triple DES after BAC, AES after PACE).
 */
module SecureMessaging {
  import opened Arithmetic
  import opened BerTlv
  import opened BlockCiphers
  import opened ByteStrings
  import opened Padding
  import opened SendSequenceCounter

  /** What a key agreement leaves behind: two session keys and where the counter starts. */
  datatype SessionKeys = SessionKeys(ksEnc: Bytes, ksMac: Bytes, ssc: Bytes)

  /** Session keys together with the primitives they are used with. */
  datatype Suite =
    | BacSuite(des: BlockCipher, ksEnc: Bytes, ksMac: Bytes)
    | PaceSuite(aes: BlockCipher, cmac: (Bytes, Bytes) -> Bytes, ksEnc: Bytes, ksMac: Bytes)
  {
    ghost predicate Valid() {
      match this
      case BacSuite(des, ksEnc, ksMac) =>
        des.Lawful() && des.size == 8 && |ksEnc| == 16 && |ksMac| == 16
      case PaceSuite(aes, cmac, ksEnc, ksMac) =>
        aes.Lawful() && aes.size == 16 && forall k: Bytes, m: Bytes :: |cmac(k, m)| == 16
    }

    /** Block length, which is also the length of the send sequence counter. */
    function Block(): (b: nat)
      ensures b == 8 || b == 16
    {
      if BacSuite? then 8 else 16
    }

    /** The most command data the guards let through. */
    function MaxData(): nat {
      if BacSuite? then 223 else 190
    }

    /** The most command data for which DO'87' keeps a valid short-form length. */
    function MaxShortData(): nat {
      if BacSuite? then 119 else 111
    }

    function Encrypt(ssc: Bytes, padded: Bytes): (ct: Bytes)
      requires Valid() && |ssc| == Block() && |padded| % Block() == 0
      ensures |ct| == |padded|
    {
      match this
      case BacSuite(des, ksEnc, _) =>
        Ede3IsLawful(des);
        CbcEncrypt(Ede3(des), ksEnc + ksEnc[..8], Zeros(8), padded)
      case PaceSuite(aes, _, ksEnc, _) =>
        assert aes.Inverts(ksEnc, ssc);
        CbcEncrypt(aes, ksEnc, aes.enc(ksEnc, ssc), padded)
    }

    function Decrypt(ssc: Bytes, ct: Bytes): (padded: Bytes)
      requires Valid() && |ssc| == Block() && |ct| % Block() == 0
      ensures |padded| == |ct|
    {
      match this
      case BacSuite(des, ksEnc, _) =>
        Ede3IsLawful(des);
        CbcDecrypt(Ede3(des), ksEnc + ksEnc[..8], Zeros(8), ct)
      case PaceSuite(aes, _, ksEnc, _) =>
        assert aes.Inverts(ksEnc, ssc);
        CbcDecrypt(aes, ksEnc, aes.enc(ksEnc, ssc), ct)
    }

    /** The eight-byte MAC of a DO'8E'; both suites pad the input with method 2. */
    function Mac(input: Bytes): (mac: Bytes)
      requires Valid()
      ensures |mac| == 8
    {
      match this
      case BacSuite(des, _, ksMac) => MacAlgorithm3(des, ksMac, input)
      case PaceSuite(_, cmac, _, ksMac) => cmac(ksMac, IsoPad(16, input))[..8]
    }

    lemma DecryptInvertsEncrypt(ssc: Bytes, padded: Bytes)
      requires Valid() && |ssc| == Block() && |padded| % Block() == 0
      ensures Decrypt(ssc, Encrypt(ssc, padded)) == padded
    {
      match this
      case BacSuite(des, ksEnc, _) =>
        Ede3IsLawful(des);
        CbcDecryptInvertsEncrypt(Ede3(des), ksEnc + ksEnc[..8], Zeros(8), padded);
      case PaceSuite(aes, _, ksEnc, _) =>
        assert aes.Inverts(ksEnc, ssc);
        CbcDecryptInvertsEncrypt(aes, ksEnc, aes.enc(ksEnc, ssc), padded);
    }

    lemma EncryptInvertsDecrypt(ssc: Bytes, ct: Bytes)
      requires Valid() && |ssc| == Block() && |ct| % Block() == 0
      ensures Encrypt(ssc, Decrypt(ssc, ct)) == ct
    {
      match this
      case BacSuite(des, ksEnc, _) =>
        Ede3IsLawful(des);
        CbcEncryptInvertsDecrypt(Ede3(des), ksEnc + ksEnc[..8], Zeros(8), ct);
      case PaceSuite(aes, _, ksEnc, _) =>
        assert aes.Inverts(ksEnc, ssc);
        CbcEncryptInvertsDecrypt(aes, ksEnc, aes.enc(ksEnc, ssc), ct);
    }
  }

  /** Which of the crypto library's calls fails, if any. */
  datatype Fault = NoFault | CipherFault | MacFault

  /* ---- commands ---- */

  /** A TLV whose length byte is simply cut down to eight bits. */
  function ShortTlv(tag: Byte, data: Bytes): (d: Bytes) {
    [tag, |data| % 0x100] + data
  }

  function DataObject87(suite: Suite, ssc: Bytes, data: Bytes): Bytes
    requires suite.Valid() && |ssc| == suite.Block()
  {
    if data == [] then []
    else
      PadIsAlignedAndMinimal(suite.Block(), data);
      ShortTlv(0x87, [0x01] + suite.Encrypt(ssc, IsoPad(suite.Block(), data)))
  }

  function DataObject97(le: int): Bytes
    requires le <= 255
  {
    if le < 0 then [] else ShortTlv(0x97, [le])
  }

  function CommandMac(suite: Suite, ssc: Bytes, header: Bytes, objects: Bytes): (mac: Bytes)
    requires suite.Valid()
    ensures |mac| == 8
  {
    suite.Mac(ssc + IsoPad(suite.Block(), header) + objects)
  }

  function CommandBody(suite: Suite, ssc: Bytes, header: Bytes, data: Bytes, le: int): Bytes
    requires suite.Valid() && |ssc| == suite.Block() && le <= 255
  {
    var objects := DataObject87(suite, ssc, data) + DataObject97(le);
    objects + ShortTlv(0x8E, CommandMac(suite, ssc, header, objects))
  }

  /** The protected command for an already advanced counter. */
  function Command(suite: Suite, ssc: Bytes, header: Bytes, data: Bytes, le: int): Bytes
    requires suite.Valid() && |ssc| == suite.Block() && le <= 255
  {
    var body := CommandBody(suite, ssc, header, data, le);
    header + [|body| % 0x100] + body + [0]
  }

  /** The class byte with the secure-messaging bits set, INS, P1 and P2. */
  function Header(cla: Byte, ins: Byte, p1: Byte, p2: Byte): (h: Bytes)
    ensures |h| == 4
  {
    [Or(cla, 0x0C), ins, p1, p2]
  }

  lemma SecuredClass()
    ensures Or(0x00, 0x0C) == 0x0C
  {
  }

  datatype Protected = Protected(apdu: Option<Bytes>, ssc: Bytes)

  /** The outcome of protecting a command: what is sent and where the counter ends up. */
  function Protect(suite: Suite, ssc: Bytes, header: Bytes, data: Bytes, le: int, fault: Fault): (r: Protected)
    requires suite.Valid() && |ssc| == suite.Block()
    ensures |r.ssc| == |ssc|
    ensures r.apdu.Some? ==> r.ssc == Next(ssc)
  {
    if le > 255 || |data| > suite.MaxData() then Protected(None, ssc)
    else if data != [] && fault == CipherFault then
      Protected(None, if suite.BacSuite? then ssc else Next(ssc))
    else if fault == MacFault then Protected(None, Next(ssc))
    else Protected(Some(Command(suite, Next(ssc), header, data, le)), Next(ssc))
  }

  /* ---- responses ---- */

  datatype Verdict = Rejected | Accepted(plain: Option<Bytes>, sw: nat)

  datatype Unwrapped = Unwrapped(verdict: Verdict, ssc: Bytes)

  /** The last DO'87', DO'99' and DO'8E' of a response. */
  datatype Parts = Parts(do87: Option<Bytes>, do99: Option<Bytes>, do8e: Option<Bytes>)
  {
    /** Both mandatory objects are there and have the expected total length. */
    predicate Complete() {
      do99.Some? && |do99.value| == 4 && do8e.Some? && |do8e.value| == 10
    }

    function MacInput(): Bytes
      requires Complete()
    {
      (if do87.Some? then do87.value else []) + do99.value
    }

    function StatusWord(): (sw: nat)
      requires Complete()
      ensures sw < 0x10000
    {
      do99.value[2] as nat * 0x100 + do99.value[3]
    }
  }

  function PartsOf(ds: seq<Bytes>): Parts
    requires AllObjects(ds)
  {
    Parts(LastOf(0x87, ds), LastOf(0x99, ds), LastOf(0x8E, ds))
  }

  /** The parts of a response whose structure is accepted. */
  function ResponseParts(rapdu: Bytes): (r: Option<Parts>)
    ensures r.Some? ==> r.value.Complete() && (r.value.do87.Some? ==> IsObject(r.value.do87.value))
  {
    if |rapdu| < 2 then None
    else
      match Split(rapdu)
      case None => None
      case Some(ds) =>
        SplitSpellsInput(rapdu);
        var parts := PartsOf(ds);
        if parts.Complete() then Some(parts) else None
  }

  /** The plain text inside a DO'87', if its content is well formed. */
  function OpenDataObject(suite: Suite, ssc: Bytes, do87: Bytes, fault: Fault): Option<Bytes>
    requires suite.Valid() && |ssc| == suite.Block() && IsObject(do87)
  {
    var content := do87[TlvHeader(do87).value.header..];
    if |content| < 1 || content[0] != 0x01 then None
    else
      var ct := content[1..];
      if ct == [] || |ct| % suite.Block() != 0 || fault == CipherFault then None
      else Unpad(suite.Decrypt(ssc, ct))
  }

  /** The verdict on a response with an accepted structure, under the advanced counter. */
  function Judge(suite: Suite, ssc: Bytes, parts: Parts, fault: Fault): Verdict
    requires suite.Valid() && |ssc| == suite.Block()
    requires parts.Complete() && (parts.do87.Some? ==> IsObject(parts.do87.value))
  {
    if fault == MacFault || suite.Mac(ssc + parts.MacInput()) != parts.do8e.value[2..] then Rejected
    else if parts.do87.None? then Accepted(None, parts.StatusWord())
    else
      match OpenDataObject(suite, ssc, parts.do87.value, fault)
      case None => Rejected
      case Some(p) => Accepted(Some(p), parts.StatusWord())
  }

  function Unprotect(suite: Suite, ssc: Bytes, rapdu: Bytes, fault: Fault): (r: Unwrapped)
    requires suite.Valid() && |ssc| == suite.Block()
    ensures |r.ssc| == |ssc|
  {
    match ResponseParts(rapdu)
    case None => Unwrapped(Rejected, ssc)
    case Some(parts) => Unwrapped(Judge(suite, Next(ssc), parts, fault), Next(ssc))
  }
}
