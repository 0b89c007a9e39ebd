/** A whole run of PACE between the terminal and the chip, and why both ends agree. */
module PaceTheorems {
  import opened BerTlv
  import opened BlockCiphers
  import opened ByteStrings
  import opened CardAccess
  import opened ChipCrypto
  import opened KeyDerivation
  import opened Pace
  import opened PaceChips
  import opened SecureMessaging

  /* ---- the pieces ---- */

  /** The terminal's keys are the chip's. */
  lemma KeysAgree(p: PacePrimitives, chip: ChipSecrets, secret: Bytes, purpose: Purpose)
    requires Fits(p, chip)
    ensures PaceKdf(p, secret, purpose.Number()) == KeyFor(p, chip, secret, purpose)
  {
    CounterBytes(purpose);
  }

  lemma ShortObject(tag: Byte, data: Bytes)
    requires |data| < 0x80
    ensures Encode(tag, data) == [tag, |data|] + data && IsObject(Encode(tag, data))
  {
    EncodeIsObject(tag, data);
  }

  /** The token input is the data object of the standard, which a walk takes apart into protocol and key. */
  lemma TokenInputIsPublicKeyObject(oid: Bytes, pub: Bytes)
    requires |oid| + |pub| + 4 < 0x80
    ensures TokenInput(oid, pub) == PublicKeyObject(oid, pub)
    ensures TokenInput(oid, pub)[..2] == [0x7F, 0x49] && TokenInput(oid, pub)[2] == |TokenInput(oid, pub)| - 3
    ensures Split(TokenInput(oid, pub)[3..]) == Some([Encode(0x06, oid), Encode(0x86, pub)])
  {
    TokenInputIsThree(oid, pub);
    RowOfTwo(0x06, oid, 0x86, pub);
    hide TokenInput, PublicKeyObject, Split;
    var objects := Encode(0x06, oid) + Encode(0x86, pub);
    assert ([0x7F, 0x49, |objects| as Byte] + objects)[3..] == objects;
  }

  lemma TokenInputIsThree(oid: Bytes, pub: Bytes)
    requires |oid| + |pub| + 4 < 0x80
    ensures var objects := Encode(0x06, oid) + Encode(0x86, pub);
      |objects| < 0x80 && TokenInput(oid, pub) == PublicKeyObject(oid, pub) == [0x7F, 0x49, |objects|] + objects
  {
    ShortObject(0x06, oid);
    ShortObject(0x86, pub);
  }

  lemma RowOfTwo(tag: Byte, data: Bytes, tag': Byte, data': Bytes)
    requires |data| < 0x80 && |data'| < 0x80
    ensures Split(Encode(tag, data) + Encode(tag', data')) == Some([Encode(tag, data), Encode(tag', data')])
  {
    ShortObject(tag, data);
    ShortObject(tag', data');
    hide Encode, IsObject, Split;
    var ds := [Encode(tag, data), Encode(tag', data')];
    ConcatOfOneOrTwo(ds[0], ds[1]);
    SplitAll(ds);
  }

  lemma TokensAgree(p: PacePrimitives, ksMac: Bytes, oid: Bytes, pub: Bytes)
    requires p.Valid() && |oid| + |pub| + 4 < 0x80
    ensures Token(p, ksMac, oid, pub) == TokenOver(p, ksMac, oid, pub)
  {
    hide TokenInput, PublicKeyObject;
    TokenInputIsPublicKeyObject(oid, pub);
  }

  /** The terminal finds what the chip puts into a template. */
  lemma TemplateIsFound(tag: Byte, data: Bytes)
    requires |data| <= 125
    ensures FindIn7C(Template(tag, data), tag) == Some(data)
  {
    ShortObject(tag, data);
    ShortObject(0x7C, Encode(tag, data));
    FindsWrapped(tag, data, [0x90, 0x00]);
    assert Template(tag, data) == Wrap7C(tag, data) + [0x90, 0x00];
  }

  /** And the chip what the terminal puts into a command. */
  lemma CommandIsUnderstood(last: bool, tag: Byte, data: Bytes)
    requires 0 < |data| <= 125
    ensures var apdu := GeneralAuthenticate(if last then 0x00 else 0x10, tag, data);
      Carried(apdu, last, tag) == Some(data) && |apdu| >= 2 && apdu[1] == 0x86
  {
    var apdu := GeneralAuthenticate(if last then 0x00 else 0x10, tag, data);
    assert apdu == [if last then 0x00 else 0x10, 0x86, 0x00, 0x00, (|data| + 4) as Byte, 0x7C, (|data| + 2) as Byte, tag, |data| as Byte]
                   + data + [0x00];
    assert apdu[9..|apdu| - 1] == data;
  }

  lemma SetAtIsUnderstood(oid: Bytes)
    requires |oid| < 0x70
    ensures ChoosesProtocol(SetAt(oid, true), oid)
  {
    RowOfTwo(0x80, oid, 0x83, [2]);
    SetAtBytes(oid);
    hide Split, Encode, SetAt;
    var objects := Encode(0x80, oid) + Encode(0x83, [2]);
    var apdu := SetAt(oid, true);
    assert apdu[..4] == [0x00, 0x22, 0xC1, 0xA4] && apdu[5..] == objects;
  }

  lemma SetAtBytes(oid: Bytes)
    requires |oid| < 0x70
    ensures var objects := Encode(0x80, oid) + Encode(0x83, [2]);
      |objects| == 5 + |oid| && SetAt(oid, true) == [0x00, 0x22, 0xC1, 0xA4, |objects|] + objects
  {
    ShortObject(0x80, oid);
    ShortObject(0x83, [2]);
  }

  /** Only MSE: SET AT chooses a protocol. */
  lemma NotSetAt(apdu: Bytes, oid: Bytes)
    requires |oid| < 0x80 && |apdu| >= 2 && apdu[1] == 0x86
    ensures !ChoosesProtocol(apdu, oid)
  {
    if |apdu| >= 4 {
      assert apdu[..4][1] == 0x86;
    }
  }

  /* ---- agreement ---- */

  /** The points a run passes through, and that none of them is the neutral one. */
  ghost predicate Regular<P(!new)>(curve: Curve<P>, s: nat, t1: nat, t2: nat, c1: nat, c2: nat) {
    var g := curve.generator;
    var g' := curve.Mapped(s, t1, curve.Times(c1, g));
    && curve.Times(t1, g) != curve.zero && curve.Times(c1, g) != curve.zero
    && curve.Times(t2, g') != curve.zero && curve.Times(c2, g') != curve.zero
    && curve.Times(t2, curve.Times(c2, g')) != curve.zero
  }

  lemma RegularMeans<P(!new)>(curve: Curve<P>, s: nat, t1: nat, t2: nat, c1: nat, c2: nat)
    requires Regular(curve, s, t1, t2, c1, c2)
    ensures curve.Times(t1, curve.generator) != curve.zero && curve.Times(c1, curve.generator) != curve.zero
    ensures var g' := curve.Mapped(s, t1, curve.Times(c1, curve.generator));
      && curve.Times(t2, g') != curve.zero && curve.Times(c2, g') != curve.zero
      && curve.Times(t2, curve.Times(c2, g')) != curve.zero
  {
  }

  /** Over any such curve both ends reach the same mapped generator and the same shared point. */
  lemma BothEndsAgree<P(!new)>(curve: Curve<P>, s: nat, t1: nat, t2: nat, c1: nat, c2: nat)
    requires curve.Lawful()
    ensures var g := curve.generator;
            var mine := curve.Mapped(s, t1, curve.Times(c1, g));
            var theirs := curve.add(curve.Times(s, g), curve.Times(c1, curve.Times(t1, g)));
            && mine == theirs
            && curve.Times(t2, curve.Times(c2, theirs)) == curve.Times(c2, curve.Times(t2, mine))
  {
    curve.MappingAgrees(s, t1, c1);
    curve.TimesCommutes(t2, c2, curve.Mapped(s, t1, curve.Times(c1, curve.generator)));
  }

  /** The chip that the terminal's exchange was set up for: same protocol, same password. */
  ghost predicate Matches<P(!new)>(t: PaceExchange<P>, chip: ChipSecrets) {
    t.Valid() && chip.Valid() && t.oid == chip.oid && t.kPi == PaceKdf(t.p, chip.password, 3)
  }

  lemma MatchingKeyLength<P(!new)>(t: PaceExchange<P>, chip: ChipSecrets)
    requires Matches(t, chip)
    ensures Fits(t.p, chip) && |chip.oid| == 10 && t.curve.PubLen() <= 81
  {
  }

  lemma PointsAreFound<P(!new)>(curve: Curve<P>, a: P)
    requires curve.Lawful() && a != curve.zero
    ensures PointOf(curve, Some(curve.encode(a))) == curve.decode(curve.encode(a)) == Some(a)
    ensures 0 < |curve.encode(a)| == curve.PubLen() <= 81 && curve.encode(a)[0] == 0x04
  {
    assert curve.Encodes(a);
  }

  /** The nonce comes out of the first answer. */
  lemma NonceIsDecrypted(p: PacePrimitives, chip: ChipSecrets)
    requires Fits(p, chip)
    ensures var z := EncryptedNonce(p, chip);
      && 0 < |z| <= 64 && |z| % 16 == 0
      && CbcDecrypt(p.aes, PaceKdf(p, chip.password, 3), Zeros(16), z) == chip.nonce
  {
    hide Enciphered, PaceKdf, AesKey;
    var key := KeyFor(p, chip, chip.password, ForPassword);
    KeysAgree(p, chip, chip.password, ForPassword);
    CipherOnBlocks(p, key);
    EncipheredIsCbc(p.aes, key, b => p.aes.enc(key, b), Zeros(16), chip.nonce);
    CbcDecryptInvertsEncrypt(p.aes, key, Zeros(16), chip.nonce);
  }

  /* ---- the chip's answers to the terminal ---- */

  lemma ChipAnswersMapping<P(!new)>(curve: Curve<P>, p: PacePrimitives, chip: ChipSecrets, theirs: P)
    requires Fits(p, chip) && curve.Lawful() && theirs != curve.zero && curve.Times(chip.c1, curve.generator) != curve.zero
    ensures var own := curve.Times(chip.c1, curve.generator);
      && |curve.encode(own)| <= 81
      && Answered(curve, p, chip, NonceSent, GeneralAuthenticate(0x10, 0x81, curve.encode(theirs)))
        == ChipTurn(Template(0x82, curve.encode(own)),
                    Mapped(curve.add(curve.Times(BigEndian(chip.nonce), curve.generator), curve.Times(chip.c1, theirs))))
  {
    hide GeneralAuthenticate, BigEndian, Template, Carried, ChoosesProtocol, PointOf;
    PointsAreFound(curve, theirs);
    PointsAreFound(curve, curve.Times(chip.c1, curve.generator));
    CommandIsUnderstood(false, 0x81, curve.encode(theirs));
    NotSetAt(GeneralAuthenticate(0x10, 0x81, curve.encode(theirs)), chip.oid);
  }

  lemma ChipAnswersAgreement<P(!new)>(curve: Curve<P>, p: PacePrimitives, chip: ChipSecrets, mapped: P, theirs: P)
    requires Fits(p, chip) && curve.Lawful() && theirs != curve.zero
    requires curve.Times(chip.c2, mapped) != curve.zero && curve.Times(chip.c2, theirs) != curve.zero
    ensures var own := curve.Times(chip.c2, mapped);
      && |curve.encode(own)| <= 81
      && Answered(curve, p, chip, Mapped(mapped), GeneralAuthenticate(0x10, 0x83, curve.encode(theirs)))
        == ChipTurn(Template(0x84, curve.encode(own)),
                    Agreed(curve.encode(theirs), curve.encode(own), SessionOf(p, chip, curve.x(curve.Times(chip.c2, theirs)))))
  {
    hide GeneralAuthenticate, Template, Carried, ChoosesProtocol, PointOf, SessionOf;
    PointsAreFound(curve, theirs);
    PointsAreFound(curve, curve.Times(chip.c2, mapped));
    CommandIsUnderstood(false, 0x83, curve.encode(theirs));
    NotSetAt(GeneralAuthenticate(0x10, 0x83, curve.encode(theirs)), chip.oid);
  }

  lemma ChipAnswersToken<P(!new)>(curve: Curve<P>, p: PacePrimitives, chip: ChipSecrets, atChip: Bytes, ofChip: Bytes, session: SessionKeys)
    requires Fits(p, chip) && curve.Lawful() && |atChip| <= 81 && |ofChip| <= 81 && |chip.oid| == 10
    ensures Answered(curve, p, chip, Agreed(atChip, ofChip, session),
                     GeneralAuthenticate(0x00, 0x85, Token(p, session.ksMac, chip.oid, ofChip)))
      == ChipTurn(Template(0x86, Token(p, session.ksMac, chip.oid, atChip)), Open(session))
  {
    hide GeneralAuthenticate, Template, Carried, ChoosesProtocol, Token, TokenOver;
    TokensAgree(p, session.ksMac, chip.oid, ofChip);
    TokensAgree(p, session.ksMac, chip.oid, atChip);
    CommandIsUnderstood(true, 0x85, Token(p, session.ksMac, chip.oid, ofChip));
    NotSetAt(GeneralAuthenticate(0x00, 0x85, Token(p, session.ksMac, chip.oid, ofChip)), chip.oid);
  }

  /** The session of the chip is the terminal's. */
  lemma SessionsAgree(p: PacePrimitives, chip: ChipSecrets, x: Bytes)
    requires Fits(p, chip)
    ensures SessionOf(p, chip, x) == PaceSessionKeys(p, x)
  {
    hide PaceKdf, KeyFor;
    KeysAgree(p, chip, x, ForEncryption);
    KeysAgree(p, chip, x, ForMac);
  }

  /* ---- the rounds ---- */

  /** MSE: SET AT and round 1: the chip has been told its own protocol, and both ends hold its nonce. */
  method RunNonce<P(==, !new)>(t: PaceExchange<P>, chip: ChipSecrets) returns (ghost st: ChipState<P>, ok: bool)
    requires Matches(t, chip) && Fits(t.p, chip)
    modifies t`nonce
    ensures ok && st == NonceSent && t.nonce == chip.nonce
  {
    hide FindIn7C, EncryptedNonce, CbcDecrypt, PaceKdf, Template, ChoosesProtocol;
    MatchingKeyLength(t, chip);
    var command := BuildMseSetAt(t.oid, true);
    SetAtIsUnderstood(t.oid);
    var first := Answered(t.curve, t.p, chip, Idle, command);
    NotSetAt(GET_NONCE, chip.oid);
    var second := Answered(t.curve, t.p, chip, first.state, GET_NONCE);
    NonceIsDecrypted(t.p, chip);
    TemplateIsFound(0x80, EncryptedNonce(t.p, chip));
    ok := t.ProcessNonceResponse(second.rapdu, false);
    ok := ok && first.rapdu == SW_OK;
    st := second.state;
  }

  /** Round 2: the same mapped generator. */
  method RunMapping<P(==, !new)>(t: PaceExchange<P>, chip: ChipSecrets, t1: nat) returns (ghost st: ChipState<P>, ok: bool)
    requires Matches(t, chip) && Fits(t.p, chip) && t.nonce == chip.nonce
    requires t.curve.Times(t1, t.curve.generator) != t.curve.zero
    requires t.curve.Times(chip.c1, t.curve.generator) != t.curve.zero
    modifies t`priv1, t`mapped
    ensures ok && st.Mapped? && t.mapped == Some(st.generator)
    ensures st.generator == t.curve.Mapped(BigEndian(chip.nonce), t1, t.curve.Times(chip.c1, t.curve.generator))
  {
    hide Curve.Lawful, Curve.Times, Curve.Encodes, PacePrimitives.Valid;
    hide FindIn7C, GeneralAuthenticate, BigEndian, PaceKdf, Template, Answered;
    var curve, g := t.curve, t.curve.generator;
    var pubT, pubC := curve.Times(t1, g), curve.Times(chip.c1, g);
    PointsAreFound(curve, pubC);
    var command := t.BuildMapNonce(t1, false);
    ChipAnswersMapping(curve, t.p, chip, pubT);
    var turn := Answered(curve, t.p, chip, NonceSent, command.value);
    TemplateIsFound(0x82, curve.encode(pubC));
    curve.MappingAgrees(BigEndian(chip.nonce), t1, chip.c1);
    assert t.PointFrom(curve.encode(pubC)) == Some(pubC);
    ok := t.ProcessMapNonceResponse(turn.rapdu, false);
    st := turn.state;
  }

  /** Round 3: the same session, its counter at zero. */
  method RunKeyAgreement<P(==, !new)>(t: PaceExchange<P>, chip: ChipSecrets, t2: nat, mapped: P) returns (ghost st: ChipState<P>, ok: bool)
    requires Matches(t, chip) && Fits(t.p, chip) && t.mapped == Some(mapped)
    requires t.curve.Times(t2, mapped) != t.curve.zero && t.curve.Times(chip.c2, mapped) != t.curve.zero
    requires t.curve.Times(t2, t.curve.Times(chip.c2, mapped)) != t.curve.zero
    modifies t`priv2, t`myPub2, t`chipPub2, t`session
    ensures ok && st == Agreed(t.myPub2, t.chipPub2, t.session)
    ensures t.session.ssc == Zeros(16) && |t.myPub2| == |t.chipPub2| == t.curve.PubLen()
  {
    hide Curve.Lawful, Curve.Times, Curve.Encodes, PacePrimitives.Valid;
    hide FindIn7C, GeneralAuthenticate, PaceKdf, Template, Answered, SessionOf;
    var curve := t.curve;
    var pubT, pubC := curve.Times(t2, mapped), curve.Times(chip.c2, mapped);
    PointsAreFound(curve, pubT);
    PointsAreFound(curve, pubC);
    curve.TimesCommutes(t2, chip.c2, mapped);
    var command := t.BuildKeyAgreement(t2, false);
    ChipAnswersAgreement(curve, t.p, chip, mapped, pubT);
    var turn := Answered(curve, t.p, chip, Mapped(mapped), command.value);
    TemplateIsFound(0x84, curve.encode(pubC));
    ok := t.ProcessKeyAgreementResponse(turn.rapdu, false);
    SessionsAgree(t.p, chip, curve.x(curve.Times(t2, pubC)));
    st := turn.state;
  }

  /** Round 4: each side's token verifies at the other, and the chip opens the session. */
  method RunTokens<P(==, !new)>(t: PaceExchange<P>, chip: ChipSecrets) returns (ghost st: ChipState<P>, ok: bool)
    requires Matches(t, chip) && Fits(t.p, chip) && |t.myPub2| == |t.chipPub2| == t.curve.PubLen()
    ensures ok && st == Open(t.session)
  {
    hide FindIn7C, GeneralAuthenticate, PaceKdf, Template, Token, Answered;
    MatchingKeyLength(t, chip);
    var command := t.BuildMutualAuth(false);
    ChipAnswersToken(t.curve, t.p, chip, t.myPub2, t.chipPub2, t.session);
    var turn := Answered(t.curve, t.p, chip, Agreed(t.myPub2, t.chipPub2, t.session), command.value);
    TemplateIsFound(0x86, Token(t.p, t.session.ksMac, t.oid, t.myPub2));
    ok := t.VerifyMutualAuthResponse(turn.rapdu, false);
    st := turn.state;
  }

  /**
   A whole run. With the same password and protocol, the chip accepts every command, the terminal
   every answer; the terminal decrypts the chip's nonce, both sides map to the same generator, and
   the chip opens exactly the session the terminal holds, with the counter at zero.
   */
  method Run<P(==, !new)>(t: PaceExchange<P>, chip: ChipSecrets, t1: nat, t2: nat) returns (ok: bool, ghost st: ChipState<P>)
    requires Matches(t, chip) && Regular(t.curve, BigEndian(chip.nonce), t1, t2, chip.c1, chip.c2)
    modifies t
    ensures ok && st == Open(t.session)
    ensures t.nonce == chip.nonce && t.session.ssc == Zeros(16)
  {
    hide BigEndian, PaceKdf, Curve.Lawful, Curve.Times, PacePrimitives.Valid;
    MatchingKeyLength(t, chip);
    RegularMeans(t.curve, BigEndian(chip.nonce), t1, t2, chip.c1, chip.c2);
    hide Regular;
    var nonceOk, mappingOk, keysOk, tokensOk;
    st, nonceOk := RunNonce(t, chip);
    st, mappingOk := RunMapping(t, chip, t1);
    var mapped := t.mapped.value;
    st, keysOk := RunKeyAgreement(t, chip, t2, mapped);
    st, tokensOk := RunTokens(t, chip);
    ok := nonceOk && mappingOk && keysOk && tokensOk;
  }

  /** Terminal and chip take the same strings for points. */
  lemma PointsAgree<P(!new)>(t: PaceExchange<P>, data: Bytes)
    requires t.Valid()
    ensures t.PointFrom(data) == PointOf(t.curve, Some(data))
  {
  }
}
