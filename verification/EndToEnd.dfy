/**
 Whole passport reads: from the printed zone through BAC in the clear, or from a shared password
 through PACE, and then the dialogue under secure messaging to the result.
 */
module EndToEnd {
  import B = BasicAccessControl
  import P = Pace
  import PaceChips
  import PT = PaceTheorems
  import opened BerTlv
  import opened ByteStrings
  import opened ChipCrypto
  import opened DialogueTheorems
  import opened Documents
  import opened FileRead
  import opened FileReadTheorems
  import opened HonestChip
  import opened KeyDerivation
  import opened Mrz
  import opened MrzParsing
  import opened PassportDialogues
  import opened SecureMessaging
  import opened SendSequenceCounter
  import Z = Zones
  import ZT = ZoneTheorems

  /* ---- BAC: three commands in the clear ---- */

  const SELECT_AID: Bytes := [0x00, 0xA4, 0x04, 0x0C, 0x07, 0xA0, 0x00, 0x00, 0x02, 0x47, 0x10, 0x01]
  const GET_CHALLENGE: Bytes := [0x00, 0x84, 0x00, 0x00, 0x08]

  /** A response of so many bytes of data and 90 00. */
  predicate RawOk(rapdu: Bytes, n: nat) {
    |rapdu| == n + 2 && rapdu[n..] == SW_OK
  }

  datatype ClearStage = AskedForApplication | AskedForChallenge | AskedForKeys

  /** The terminal before it has a session; the chip's challenge is empty until it has come. */
  datatype ClearTerminal = ClearTerminal(stage: ClearStage, rndIcc: Bytes)

  datatype ClearEvent = Transmit(apdu: Bytes) | Opened(session: SessionKeys) | Refused

  datatype ClearMove = ClearMove(terminal: ClearTerminal, event: ClearEvent)

  /** The callbacks up to the session; c is what the random source brings. */
  function OnClearResponse(p: B.BacPrimitives, keys: B.StaticKeys, c: B.Challenge, t: ClearTerminal, rapdu: Bytes): ClearMove
    requires p.Valid() && keys.Valid() && c.Valid() && (t.stage == AskedForKeys ==> |t.rndIcc| == 8)
  {
    match t.stage
    case AskedForApplication =>
      if !RawOk(rapdu, 0) then ClearMove(t, Refused)
      else ClearMove(t.(stage := AskedForChallenge), Transmit(GET_CHALLENGE))
    case AskedForChallenge =>
      if !RawOk(rapdu, 8) then ClearMove(t, Refused)
      else ClearMove(ClearTerminal(AskedForKeys, rapdu[..8]), Transmit(B.MutualAuthenticate(p, keys, rapdu[..8], c)))
    case AskedForKeys =>
      if !RawOk(rapdu, 40) then ClearMove(t, Refused)
      else
        match B.AcceptedKey(p, keys, t.rndIcc, c, rapdu[..40])
        case None => ClearMove(t, Refused)
        case Some(kIcc) => ClearMove(t, Opened(B.BacSessionKeys(p, c.kIfd, kIcc, t.rndIcc, c.rndIfd)))
  }

  /** A document that speaks BAC: its keys, its challenge and its key half. */
  datatype BacDocument = BacDocument(keys: B.StaticKeys, rndIcc: Bytes, kIcc: Bytes) {
    predicate Valid() {
      keys.Valid() && |rndIcc| == 8 && |kIcc| == 16
    }
  }

  datatype ClearState = ClearState(application: bool, challenged: bool, session: Option<SessionKeys>)

  datatype ClearAnswered = ClearAnswered(rapdu: Bytes, state: ClearState)

  /** SELECT by application identifier, without response data. */
  predicate SelectsApplication(apdu: Bytes) {
    |apdu| >= 5 && apdu[..4] == [0x00, 0xA4, 0x04, 0x0C] && apdu[4] == |apdu| - 5 && apdu[5..] == EMRTD_AID
  }

  /** GET CHALLENGE for eight bytes. */
  predicate AsksForChallenge(apdu: Bytes) {
    |apdu| == 5 && apdu[..4] == [0x00, 0x84, 0x00, 0x00] && apdu[4] == 8
  }

  function ProcessClear(p: B.BacPrimitives, doc: BacDocument, st: ClearState, apdu: Bytes): ClearAnswered
    requires p.Valid() && doc.Valid()
  {
    if SelectsApplication(apdu) then ClearAnswered(SW_OK, ClearState(true, false, None))
    else if !st.application then ClearAnswered([0x6D, 0x00], st)
    else if AsksForChallenge(apdu) then ClearAnswered(doc.rndIcc + SW_OK, st.(challenged := true))
    else if !st.challenged then ClearAnswered([0x69, 0x85], st)
    else
      match B.ChipAuthenticates(p, doc.keys, doc.rndIcc, doc.kIcc, apdu)
      case None => ClearAnswered([0x63, 0x00], st)
      case Some(o) => ClearAnswered(o.response + SW_OK, st.(session := Some(o.session)))
  }

  /** Both ends of BAC. */
  datatype ClearDialogue = ClearDialogue(terminal: ClearTerminal, document: ClearState, event: ClearEvent)

  ghost predicate Sane(d: ClearDialogue) {
    d.terminal.stage == AskedForKeys ==> |d.terminal.rndIcc| == 8
  }

  function AfterClear(p: B.BacPrimitives, keys: B.StaticKeys, c: B.Challenge, doc: BacDocument, n: nat): (d: ClearDialogue)
    requires p.Valid() && keys.Valid() && c.Valid() && doc.Valid()
    ensures Sane(d)
  {
    if n == 0 then
      ClearDialogue(ClearTerminal(AskedForApplication, []), ClearState(false, false, None), Transmit(SELECT_AID))
    else
      var d := AfterClear(p, keys, c, doc, n - 1);
      if !d.event.Transmit? then d
      else
        var a := ProcessClear(p, doc, d.document, d.event.apdu);
        var m := OnClearResponse(p, keys, c, d.terminal, a.rapdu);
        ClearDialogue(m.terminal, a.state, m.event)
  }

  /** With the document's own keys three exchanges open one session at both ends. */
  lemma BacOpens(p: B.BacPrimitives, c: B.Challenge, doc: BacDocument)
    requires p.Valid() && c.Valid() && doc.Valid()
    ensures var session := B.BacSessionKeys(p, c.kIfd, doc.kIcc, doc.rndIcc, c.rndIfd);
            var d := AfterClear(p, doc.keys, c, doc, 3);
            d.event == Opened(session) && d.document == ClearState(true, true, Some(session))
  {
    hide B.AcceptedKey, B.ChipAuthenticates, B.BacSessionKeys, B.MutualAuthenticate;
    var t0, t1 := ClearTerminal(AskedForApplication, []), ClearTerminal(AskedForChallenge, []);
    assert AfterClear(p, doc.keys, c, doc, 1) == ClearDialogue(t1, ClearState(true, false, None), Transmit(GET_CHALLENGE));
    assert (doc.rndIcc + SW_OK)[..8] == doc.rndIcc && (doc.rndIcc + SW_OK)[8..] == SW_OK;
    var apdu := B.MutualAuthenticate(p, doc.keys, doc.rndIcc, c);
    assert AfterClear(p, doc.keys, c, doc, 2)
        == ClearDialogue(ClearTerminal(AskedForKeys, doc.rndIcc), ClearState(true, true, None), Transmit(apdu));
    MutualAuthenticateIsNew(p, doc.keys, doc.rndIcc, c);
    B.HandshakeAgrees(p, doc.keys, doc.rndIcc, doc.kIcc, c);
    var response := B.ChipAuthenticates(p, doc.keys, doc.rndIcc, doc.kIcc, apdu).value.response;
    AcceptedResponseLength(p, doc.keys, doc.rndIcc, c, response);
    assert (response + SW_OK)[..40] == response && (response + SW_OK)[40..] == SW_OK;
  }

  lemma RawOkEnds(rapdu: Bytes, n: nat)
    ensures RawOk(rapdu, n) ==> |rapdu| == n + 2 && rapdu[|rapdu| - 2] == 0x90 && rapdu[|rapdu| - 1] == 0x00
  {
  }

  /** Any response that does not end with 90 00 ends the attempt, and so does any with another length than asked for. */
  lemma RefusalEndsBac(p: B.BacPrimitives, keys: B.StaticKeys, c: B.Challenge, t: ClearTerminal, rapdu: Bytes)
    requires p.Valid() && keys.Valid() && c.Valid() && (t.stage == AskedForKeys ==> |t.rndIcc| == 8)
    requires
      || |rapdu| < 2 || rapdu[|rapdu| - 2] != 0x90 || rapdu[|rapdu| - 1] != 0x00
      || |rapdu| != (match t.stage case AskedForApplication => 2 case AskedForChallenge => 10 case AskedForKeys => 42)
    ensures OnClearResponse(p, keys, c, t, rapdu).event == Refused
  {
    hide B.AcceptedKey, B.MutualAuthenticate;
    RawOkEnds(rapdu, 0);
    RawOkEnds(rapdu, 8);
    RawOkEnds(rapdu, 40);
  }

  lemma MutualAuthenticateIsNew(p: B.BacPrimitives, keys: B.StaticKeys, rndIcc: Bytes, c: B.Challenge)
    requires p.Valid() && keys.Valid() && |rndIcc| == 8 && c.Valid()
    ensures !SelectsApplication(B.MutualAuthenticate(p, keys, rndIcc, c)) && !AsksForChallenge(B.MutualAuthenticate(p, keys, rndIcc, c))
  {
    var apdu := B.MutualAuthenticate(p, keys, rndIcc, c);
    assert apdu[..4][1] == 0x82;
  }

  lemma AcceptedResponseLength(p: B.BacPrimitives, keys: B.StaticKeys, rndIcc: Bytes, c: B.Challenge, response: Bytes)
    requires p.Valid() && keys.Valid() && |rndIcc| == 8 && c.Valid() && B.AcceptedKey(p, keys, rndIcc, c, response).Some?
    ensures |response| == 40
  {
  }

  /* ---- BAC, from the printed zone ---- */

  /** The static keys of a document, from the information printed in its zone. */
  function DocumentKeys(p: B.BacPrimitives, information: Bytes): (keys: B.StaticKeys)
    requires p.Valid()
    ensures keys.Valid()
  {
    var seed := p.sha1(information)[..16];
    B.StaticKeys(DesKey(p.sha1, seed, ForEncryption), DesKey(p.sha1, seed, ForMac))
  }

  /** Whoever knows the information has the keys. */
  lemma TypedKeysAreTheDocuments(p: B.BacPrimitives, number: Bytes, birth: Bytes, expiry: Bytes, information: Bytes)
    requires p.Valid() && MrzInformation(number, birth, expiry) == Some(information)
    ensures StaticKeysFor(p.sha1, number, birth, expiry) == Some(DocumentKeys(p, information))
  {
    hide Kdf, DesKey, MrzInformation;
    var seed := p.sha1(information)[..16];
    DesKeyIsKdf(p.sha1, seed, ForEncryption);
    DesKeyIsKdf(p.sha1, seed, ForMac);
  }

  function BacSuiteOf(p: B.BacPrimitives, s: SessionKeys): Suite {
    BacSuite(p.des, s.ksEnc, s.ksMac)
  }

  /** EF.DG1 of a TD1 or TD3 document is readable for any first answer that holds its tag and length. */
  lemma Dg1IsReadable(zone: Bytes, first: nat)
    requires LayoutOf(zone).Some? && 2 <= first <= 4
    ensures ReadableFrom(Dg1(zone), DG1_MAX_LEN, |Dg1(zone)|, first) && |Dg1(zone)| <= 0x8000
  {
    var inner := [0x5F, 0x1F] + EncodeLength(|zone|) + zone;
    var file := Dg1(zone);
    assert file[..first][1..][0] == file[1] == |inner|;
  }

  lemma CarriesItsZone(doc: Document, zone: Bytes, readPhoto: bool, t2: nat)
    requires LayoutOf(zone).Some? && NulFree(zone)
    requires EF_DG1 in doc.files && doc.files[EF_DG1] == Dg1(zone) && First(View(doc, EF_DG1)) >= 2
    requires readPhoto ==> EF_DG2 in doc.files && Serves(doc, EF_DG2, DG2_MAX_LEN, t2) && t2 <= |doc.files[EF_DG2]|
    ensures Carries(doc, readPhoto, |Dg1(zone)|, t2, zone)
  {
    hide Dg1, MrzOfDg1, ReadableFrom, CommandsOf, Position;
    var file := Dg1(zone);
    Dg1IsReadable(zone, First(View(doc, EF_DG1)));
    ShortFileHasPlainOffsets(View(doc, EF_DG1), DG1_MAX_LEN, |file|);
    assert file[..|file|] == file && file + [] == file;
    Dg1RoundTrip(zone, []);
  }

  /** What a document holds and how it answers, for whatever session is agreed on. */
  datatype Contents = Contents(files: map<Bytes, Bytes>, others: (Bytes, int) -> Reply, grant: (nat, nat) -> nat)
  {
    function Under(suite: Suite): Document {
      Document(suite, files, others, grant)
    }

    /** EF.DG1 holds this zone, and EF.DG2 is readable if it is asked for; t2 is its declared total. */
    ghost predicate Hold(suite: Suite, zone: Bytes, readPhoto: bool, t2: nat) {
      && LayoutOf(zone).Some? && EF_DG1 in files && files[EF_DG1] == Dg1(zone) && First(View(Under(suite), EF_DG1)) >= 2
      && (readPhoto ==> EF_DG2 in files && Serves(Under(suite), EF_DG2, DG2_MAX_LEN, t2) && t2 <= |files[EF_DG2]|)
    }
  }

  /**
   With the document's own keys: three exchanges in the clear - SELECT for the application, GET CHALLENGE,
   MUTUAL AUTHENTICATE - open one session at both ends; and the dialogue over it, which selects
   EF.DG1 and then EF.DG2, ends with exactly the zone and the declared bytes of the photo's file.
   */
  lemma KeysOpenAndRead(p: B.BacPrimitives, keys: B.StaticKeys, zone: Bytes, rndIcc: Bytes, kIcc: Bytes, c: B.Challenge,
                        contents: Contents, readPhoto: bool, t2: nat)
    requires p.Valid() && keys.Valid() && LayoutOf(zone).Some? && NulFree(zone)
    requires |rndIcc| == 8 && |kIcc| == 16 && c.Valid()
    requires contents.Hold(BacSuiteOf(p, B.ChipSession(p, rndIcc, kIcc, c.rndIfd, c.kIfd)), zone, readPhoto, t2)
    ensures var session := B.ChipSession(p, rndIcc, kIcc, c.rndIfd, c.kIfd);
            var met := AfterClear(p, keys, c, BacDocument(keys, rndIcc, kIcc), 3);
            && met.event == Opened(session) && met.document.session == Some(session)
            && var doc := contents.Under(BacSuiteOf(p, session));
            && doc.suite.Valid() && |session.ssc| == doc.suite.Block()
            && AfterRounds(doc, session.ssc, false, readPhoto, Rounds(doc, false, readPhoto, |Dg1(zone)|, t2)).event
               == Success(zone, if readPhoto then Some(contents.files[EF_DG2][..t2]) else None)
  {
    hide Dg1, AfterClear, AfterRounds, Rounds, Serves, InStep, First, Carries, B.ChipSession, B.BacSessionKeys;
    var session := B.ChipSession(p, rndIcc, kIcc, c.rndIfd, c.kIfd);
    B.SessionsAgree(p, rndIcc, kIcc, c.rndIfd, c.kIfd);
    SessionShape(p, rndIcc, kIcc, c.rndIfd, c.kIfd);
    BacOpens(p, c, BacDocument(keys, rndIcc, kIcc));
    var doc := contents.Under(BacSuiteOf(p, session));
    CarriesItsZone(doc, zone, readPhoto, t2);
    WholeRead(doc, session.ssc, false, readPhoto, |Dg1(zone)|, t2, zone, Rounds(doc, false, readPhoto, |Dg1(zone)|, t2));
  }

  lemma SessionShape(p: B.BacPrimitives, rndIcc: Bytes, kIcc: Bytes, rndIfd: Bytes, kIfd: Bytes)
    requires p.Valid() && |kIfd| == |kIcc| == 16 && |rndIcc| == |rndIfd| == 8
    ensures var session := B.ChipSession(p, rndIcc, kIcc, rndIfd, kIfd);
      |session.ksEnc| == |session.ksMac| == 16 && |session.ssc| == 8
  {
  }

  /**
   Whoever types the fields of a usable zone reads the document that carries it: the keys made from
   the fields the terminal parses are the document's, and they open and read it.
   */
  lemma BacReadsItsOwnZone(p: B.BacPrimitives, zone: Bytes, l: Layout, rndIcc: Bytes, kIcc: Bytes, c: B.Challenge,
                           contents: Contents, readPhoto: bool, t2: nat)
    requires p.Valid() && LayoutOf(zone) == Some(l) && Usable(zone, l) && NulFree(zone)
    requires |rndIcc| == 8 && |kIcc| == 16 && c.Valid()
    requires contents.Hold(BacSuiteOf(p, B.ChipSession(p, rndIcc, kIcc, c.rndIfd, c.kIfd)), zone, readPhoto, t2)
    ensures var f, keys := FieldsAt(zone, l), DocumentKeys(p, PrintedInformation(zone, l));
            && FieldsOf(zone) == Some(f)
            && StaticKeysFor(p.sha1, f.documentNumber, f.dateOfBirth, f.dateOfExpiry) == Some(keys)
            && var session := B.ChipSession(p, rndIcc, kIcc, c.rndIfd, c.kIfd);
            && AfterClear(p, keys, c, BacDocument(keys, rndIcc, kIcc), 3).event == Opened(session)
            && var doc := contents.Under(BacSuiteOf(p, session));
            && doc.suite.Valid() && |session.ssc| == doc.suite.Block()
            && AfterRounds(doc, session.ssc, false, readPhoto, Rounds(doc, false, readPhoto, |Dg1(zone)|, t2)).event
               == Success(zone, if readPhoto then Some(contents.files[EF_DG2][..t2]) else None)
  {
    hide PrintedInformation, FieldsAt, Usable, Dg1, AfterClear, AfterRounds, Rounds, Contents.Hold, B.ChipSession, MrzInformation, StaticKeysFor, DocumentKeys;
    var f := FieldsAt(zone, l);
    KeysMatchZoneIff(zone, l);
    TypedKeysAreTheDocuments(p, f.documentNumber, f.dateOfBirth, f.dateOfExpiry, PrintedInformation(zone, l));
    HoldMeans(contents, BacSuiteOf(p, B.ChipSession(p, rndIcc, kIcc, c.rndIfd, c.kIfd)), zone, readPhoto, t2);
    KeysOpenAndRead(p, DocumentKeys(p, PrintedInformation(zone, l)), zone, rndIcc, kIcc, c, contents, readPhoto, t2);
  }

  lemma HoldMeans(contents: Contents, suite: Suite, zone: Bytes, readPhoto: bool, t2: nat)
    requires contents.Hold(suite, zone, readPhoto, t2)
    ensures EF_DG1 in contents.files
    ensures readPhoto ==> EF_DG2 in contents.files && t2 <= |contents.files[EF_DG2]|
  {
  }

  lemma ZoneIsPrinted(h: Z.Holder, format: Z.Format)
    requires h.Valid(format)
    ensures Z.Zone(h, format) == Z.Printed(h, format, Z.RightDigits(h))
  {
  }

  /**
   From what a document says about its holder to the read: the holder's number, birth and expiry, the
   number in small letters or large, give the keys of the document that prints them in its zone;
   the read over BAC ends with that zone; and the terminal parses it to every field the document says.
   */
  lemma HolderReadsDocument(p: B.BacPrimitives, h: Z.Holder, format: Z.Format, typed: Bytes,
                            rndIcc: Bytes, kIcc: Bytes, c: B.Challenge, contents: Contents, readPhoto: bool, t2: nat)
    requires p.Valid() && h.Valid(format) && |rndIcc| == 8 && |kIcc| == 16 && c.Valid()
    requires ZT.SameButForCase(typed, h.documentNumber)
    requires contents.Hold(BacSuiteOf(p, B.ChipSession(p, rndIcc, kIcc, c.rndIfd, c.kIfd)), Z.Zone(h, format), readPhoto, t2)
    ensures var keys, zone := DocumentKeys(p, Z.AccessInformation(h)), Z.Zone(h, format);
            && StaticKeysFor(p.sha1, typed, h.dateOfBirth, h.dateOfExpiry) == Some(keys)
            && var session := B.ChipSession(p, rndIcc, kIcc, c.rndIfd, c.kIfd);
            && AfterClear(p, keys, c, BacDocument(keys, rndIcc, kIcc), 3).event == Opened(session)
            && var doc := contents.Under(BacSuiteOf(p, session));
            && doc.suite.Valid() && |session.ssc| == doc.suite.Block()
            && AfterRounds(doc, session.ssc, false, readPhoto, Rounds(doc, false, readPhoto, |Dg1(zone)|, t2)).event
               == Success(zone, if readPhoto then Some(contents.files[EF_DG2][..t2]) else None)
            && FieldsOf(zone)
               == Some(MrzFields(h.documentType, h.issuingState, h.surname, h.givenNames, h.documentNumber, h.nationality,
                                 h.dateOfBirth, h.sex, h.dateOfExpiry, true, true, true))
  {
    hide Dg1, AfterClear, AfterRounds, Rounds, Contents.Hold, B.ChipSession, MrzInformation, StaticKeysFor, DocumentKeys;
    ZoneIsPrinted(h, format);
    hide Z.Zone, Z.AccessInformation, FieldsOf, Z.Printable, Z.IsName, ZT.SameButForCase;
    var zone := Z.Zone(h, format);
    ZT.TypedFieldsGiveAccess(h, format, typed);
    TypedKeysAreTheDocuments(p, typed, h.dateOfBirth, h.dateOfExpiry, Z.AccessInformation(h));
    ZT.ZoneHolds(h, format, Z.RightDigits(h));
    ZT.ZoneIsNulFree(h, format);
    ZT.PrintedZoneIsRead(h, format, Z.RightDigits(h));
    HoldMeans(contents, BacSuiteOf(p, B.ChipSession(p, rndIcc, kIcc, c.rndIfd, c.kIfd)), zone, readPhoto, t2);
    KeysOpenAndRead(p, DocumentKeys(p, Z.AccessInformation(h)), zone, rndIcc, kIcc, c, contents, readPhoto, t2);
  }

  /* ---- PACE ---- */

  function PaceSuiteOf(p: P.PacePrimitives, s: SessionKeys): Suite {
    PaceSuite(p.aes, p.cmac, s.ksEnc, s.ksMac)
  }

  /**
   The four rounds, then over the session they agreed on the whole dialogue: the application, EF.DG1
   and EF.DG2 are selected in turn, and the result is what the document carries.
   */
  method PaceThenRead<Pt(==, !new)>(t: P.PaceExchange<Pt>, secrets: PaceChips.ChipSecrets, a: nat, b: nat,
                                    ghost files: map<Bytes, Bytes>, ghost others: (Bytes, int) -> Reply,
                                    ghost grant: (nat, nat) -> nat, ghost readPhoto: bool,
                                    ghost t1: nat, ghost t2: nat, ghost zone: Bytes)
    returns (ok: bool, session: SessionKeys, ghost atChip: PaceChips.ChipState<Pt>)
    requires PT.Matches(t, secrets)
    requires PT.Regular(t.curve, BigEndian(secrets.nonce), a, b, secrets.c1, secrets.c2)
    requires forall suite: Suite :: Carries(Document(suite, files, others, grant), readPhoto, t1, t2, zone)
    modifies t
    ensures ok && session == t.session && session.ssc == Zeros(16)
    ensures atChip == PaceChips.Open(session)
    ensures var doc := Document(PaceSuiteOf(t.p, session), files, others, grant);
            && doc.suite.Valid() && doc.suite.Block() == 16
            && EF_DG1 in files && (readPhoto ==> EF_DG2 in files && t2 <= |files[EF_DG2]|)
            && AfterRounds(doc, session.ssc, true, readPhoto, Rounds(doc, true, readPhoto, t1, t2)).event
               == Success(zone, if readPhoto then Some(files[EF_DG2][..t2]) else None)
  {
    hide AfterRounds, Rounds, Carries, InStep, PT.Regular, BigEndian;
    ok, atChip := PT.Run(t, secrets, a, b);
    session := t.session;
    ghost var doc := Document(PaceSuiteOf(t.p, session), files, others, grant);
    CarriesMeans(doc, readPhoto, t1, t2, zone);
    WholeRead(doc, session.ssc, true, readPhoto, t1, t2, zone, Rounds(doc, true, readPhoto, t1, t2));
  }
}
