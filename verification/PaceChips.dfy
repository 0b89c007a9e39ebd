/**
 The chip's side of PACE, written from section 4.4 of ICAO Doc 9303-11: it parses every command by
 itself, derives its own keys, and builds the token input as the data object 7F49 of the standard.
 */
module PaceChips {
  import opened BerTlv
  import opened BlockCiphers
  import opened ByteStrings
  import opened ChipCrypto
  import opened KeyDerivation
  import opened Pace
  import opened SecureMessaging

  /** What a chip brings to a run: its protocol, the shared password, its nonce and its two scalars. */
  datatype ChipSecrets = ChipSecrets(oid: Bytes, password: Bytes, nonce: Bytes, c1: nat, c2: nat) {
    predicate Valid() {
      && 0 < |nonce| <= 64 && |nonce| % 16 == 0
      && (oid == PROTOCOL_128 || oid == PROTOCOL_256)
    }

    /** The key length of the protocol, in bits. */
    function Bits(): nat {
      if oid == PROTOCOL_128 then 128 else 256
    }
  }

  /** id-PACE-ECDH-GM-AES-CBC-CMAC with keys of 128 and 256 bits, 0.4.0.127.0.7.2.2.4.2.2 and .4. */
  const PROTOCOL_128: Bytes := [4, 0, 127, 0, 7, 2, 2, 4, 2, 2]
  const PROTOCOL_256: Bytes := [4, 0, 127, 0, 7, 2, 2, 4, 2, 4]

  /** How far the chip is; the keys are those of the terminal and its own in the third round. */
  datatype ChipState<+P> =
    | Idle
    | Chosen
    | NonceSent
    | Mapped(generator: P)
    | Agreed(atChip: Bytes, ofChip: Bytes, session: SessionKeys)
    | Open(session: SessionKeys)

  datatype ChipTurn<+P> = ChipTurn(rapdu: Bytes, state: ChipState<P>)

  /* ---- commands ---- */

  /** MSE: SET AT for mutual authentication with the card access number, for exactly this protocol. */
  predicate ChoosesProtocol(apdu: Bytes, oid: Bytes)
    requires |oid| < 0x80
  {
    && |apdu| >= 5 && apdu[..4] == [0x00, 0x22, 0xC1, 0xA4] && apdu[4] == |apdu| - 5
    && Split(apdu[5..]) == Some([Encode(0x80, oid), Encode(0x83, [2])])
  }

  predicate AsksForNonce(apdu: Bytes) {
    apdu == [0x10, 0x86, 0x00, 0x00, 0x02, 0x7C, 0x00, 0x00]
  }

  /** The data object of a GENERAL AUTHENTICATE; all commands but the last are chained. */
  function Carried(apdu: Bytes, last: bool, tag: Byte): Option<Bytes> {
    if |apdu| < 10 || apdu[..4] != [if last then 0x00 else 0x10, 0x86, 0x00, 0x00] then None
    else if apdu[4] != |apdu| - 6 || apdu[|apdu| - 1] != 0 || apdu[6] >= 0x80 then None
    else if apdu[5] != 0x7C || apdu[6] != |apdu| - 8 || apdu[7] != tag || apdu[8] != |apdu| - 10 then None
    else Some(apdu[9..|apdu| - 1])
  }

  /** An answer: the data object in a 7C template, and 90 00. */
  function Template(tag: Byte, data: Bytes): Bytes
    requires |data| < 0x80
  {
    Encode(0x7C, Encode(tag, data)) + [0x90, 0x00]
  }

  const REFUSED: Bytes := [0x63, 0x00]

  /* ---- keys and tokens ---- */

  ghost predicate Fits(p: PacePrimitives, chip: ChipSecrets) {
    p.Valid() && chip.Valid() && p.keyLen == chip.Bits() / 8
  }

  function KeyFor(p: PacePrimitives, chip: ChipSecrets, secret: Bytes, purpose: Purpose): (key: Bytes)
    requires Fits(p, chip)
  {
    AesKey(p.sha1, p.sha256, chip.Bits(), secret, purpose)
  }

  /** The nonce under the key from the password, in CBC mode from a zero start value. */
  function EncryptedNonce(p: PacePrimitives, chip: ChipSecrets): (z: Bytes)
    requires Fits(p, chip)
    ensures |z| == |chip.nonce|
  {
    var key := KeyFor(p, chip, chip.password, ForPassword);
    CipherOnBlocks(p, key);
    Enciphered(b => p.aes.enc(key, b), 16, Zeros(16), chip.nonce)
  }

  lemma CipherOnBlocks(p: PacePrimitives, key: Bytes)
    requires p.Valid()
    ensures OnBlocks(b => p.aes.enc(key, b), 16)
  {
    forall b: Bytes | |b| == 16
      ensures |p.aes.enc(key, b)| == 16
    {
      assert p.aes.Inverts(key, b);
    }
  }

  /** The session: keys from the x coordinate of the shared point, the counter at zero. */
  function SessionOf(p: PacePrimitives, chip: ChipSecrets, x: Bytes): SessionKeys
    requires Fits(p, chip)
  {
    SessionKeys(KeyFor(p, chip, x, ForEncryption), KeyFor(p, chip, x, ForMac), Zeros(16))
  }

  /** The public key data object: 7F49 with the protocol under 06 and the point under 86. */
  function PublicKeyObject(oid: Bytes, point: Bytes): Bytes
    requires |oid| + |point| < 0x100
  {
    var objects := Encode(0x06, oid) + Encode(0x86, point);
    [0x7F, 0x49] + EncodeLength(|objects|) + objects
  }

  /** The first eight bytes of the MAC over the other side's key. */
  function TokenOver(p: PacePrimitives, ksMac: Bytes, oid: Bytes, point: Bytes): (token: Bytes)
    requires p.Valid() && |oid| + |point| < 0x100
    ensures |token| == 8
  {
    var mac := p.cmac(ksMac, PublicKeyObject(oid, point));
    [mac[0], mac[1], mac[2], mac[3], mac[4], mac[5], mac[6], mac[7]]
  }

  /* ---- the rounds ---- */

  function Answered<P(==, !new)>(curve: Curve<P>, p: PacePrimitives, chip: ChipSecrets, st: ChipState<P>, apdu: Bytes): ChipTurn<P>
    requires Fits(p, chip) && curve.Lawful()
  {
    if ChoosesProtocol(apdu, chip.oid) then ChipTurn([0x90, 0x00], Chosen)
    else
      match st
      case Chosen =>
        if AsksForNonce(apdu) then ChipTurn(Template(0x80, EncryptedNonce(p, chip)), NonceSent) else ChipTurn(REFUSED, Idle)
      case NonceSent => MapsGenerator(curve, chip, Carried(apdu, false, 0x81))
      case Mapped(generator) => AgreesOnKeys(curve, p, chip, generator, Carried(apdu, false, 0x83))
      case Agreed(atChip, ofChip, session) => ChecksToken(p, chip, atChip, ofChip, session, Carried(apdu, true, 0x85))
      case Idle => ChipTurn(REFUSED, Idle)
      case Open(_) => ChipTurn(REFUSED, Idle)
  }

  /** An uncompressed point of the curve. */
  function PointOf<P(!new)>(curve: Curve<P>, data: Option<Bytes>): Option<P> {
    if data.None? || |data.value| != 1 + 2 * curve.coordLen || data.value[0] != 0x04 then None else curve.decode(data.value)
  }

  /** Generic mapping: s times G, plus the chip's scalar times the terminal's point. */
  function MapsGenerator<P(==, !new)>(curve: Curve<P>, chip: ChipSecrets, data: Option<Bytes>): ChipTurn<P>
    requires curve.Lawful()
  {
    var own := curve.Times(chip.c1, curve.generator);
    match PointOf(curve, data)
    case None => ChipTurn(REFUSED, Idle)
    case Some(theirs) =>
      if own == curve.zero then ChipTurn(REFUSED, Idle)
      else
        assert curve.Encodes(own);
        ChipTurn(Template(0x82, curve.encode(own)),
                 Mapped(curve.add(curve.Times(BigEndian(chip.nonce), curve.generator), curve.Times(chip.c1, theirs))))
  }

  function AgreesOnKeys<P(==, !new)>(curve: Curve<P>, p: PacePrimitives, chip: ChipSecrets, generator: P, data: Option<Bytes>): ChipTurn<P>
    requires Fits(p, chip) && curve.Lawful()
  {
    var own := curve.Times(chip.c2, generator);
    match PointOf(curve, data)
    case None => ChipTurn(REFUSED, Idle)
    case Some(theirs) =>
      var shared := curve.Times(chip.c2, theirs);
      if own == curve.zero || shared == curve.zero then ChipTurn(REFUSED, Idle)
      else
        assert curve.Encodes(own);
        ChipTurn(Template(0x84, curve.encode(own)),
                 Agreed(data.value, curve.encode(own), SessionOf(p, chip, curve.x(shared))))
  }

  /** The terminal's token must be over the chip's key; the answer is one over the terminal's. */
  function ChecksToken<P>(p: PacePrimitives, chip: ChipSecrets, atChip: Bytes, ofChip: Bytes, session: SessionKeys,
                       token: Option<Bytes>): ChipTurn<P>
    requires Fits(p, chip)
  {
    if |atChip| > 81 || |ofChip| > 81 || token != Some(TokenOver(p, session.ksMac, chip.oid, ofChip)) then ChipTurn(REFUSED, Idle)
    else ChipTurn(Template(0x86, TokenOver(p, session.ksMac, chip.oid, atChip)), Open(session))
  }
}
