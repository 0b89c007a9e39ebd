/** Whole dialogues with an honest document: what is selected, both files, and both counters all the way. */
module DialogueTheorems {
  import opened ByteStrings
  import opened CommandTheorems
  import opened Documents
  import opened FileRead
  import opened FileReadTheorems
  import opened HonestChip
  import opened MrzParsing
  import opened PassportDialogues
  import opened ResponseTheorems
  import opened SecureMessaging
  import opened SendSequenceCounter

  lemma TwoSteps(ssc: Bytes)
    ensures Advance(ssc, 2) == Next(Next(ssc)) && |Next(ssc)| == |ssc|
  {
    hide Next;
    assert Advance(ssc, 1) == Next(Advance(ssc, 0));
  }

  lemma {:induction false} LaterAdds(doc: Document, d: Dialogue, m: nat, n: nat)
    requires Connected(doc, d)
    ensures Later(doc, d, m + n) == Later(doc, Later(doc, d, m), n)
  {
    hide Round;
    if n > 0 {
      LaterAdds(doc, d, m, n - 1);
    }
  }

  /* ---- SELECT ---- */

  lemma SelectHeaderBytes(p1: Byte)
    ensures SelectHeader(p1)[0] == 0x0C && SelectHeader(p1)[1] == 0xA4 && SelectHeader(p1)[2] == p1 && SelectHeader(p1)[3] == 0x0C
  {
  }

  lemma RespondTo(doc: Document, st: State, apdu: Bytes, request: Request)
    requires doc.suite.Valid() && |st.ssc| == doc.suite.Block()
    requires Receive(doc.suite, Next(st.ssc), apdu) == Some(request) && CarryOut(doc, st, request).reply.Fits(doc.suite)
    ensures var c := CarryOut(doc, st, request);
            Process(doc, st, apdu)
            == Answered(Respond(doc.suite, Next(Next(st.ssc)), c.reply),
                        State(Next(Next(st.ssc)), c.application, c.selected))
  {
    hide CarryOut, Receive, Respond, Next;
  }

  /** A SELECT is understood and answered, with success or not, and both counters are two further. */
  lemma SelectIsAnswered(doc: Document, t: Terminal, st: State, stage: Stage, p1: Byte, name: Bytes)
    requires Live(t) && t.suite == doc.suite && st.ssc == t.ssc && (stage == SelectingDg2 ==> t.mrz.Some?) && stage != ReadingDg2
    requires |name| <= doc.suite.MaxShortData()
    ensures var m := SendSelect(t, stage, p1, name, NoFault); var c := Select(doc, st, p1, name);
            && m.event.Say? && m.terminal == t.(ssc := Next(t.ssc), stage := stage)
            && var a := Process(doc, st, m.event.apdu);
            && a.state == State(Next(Next(t.ssc)), c.application, c.selected)
            && Unprotect(doc.suite, Next(t.ssc), a.rapdu, NoFault) == Unwrapped(Accepted(None, if c.reply == DONE then 0x9000 else 0x6A82), Next(Next(t.ssc)))
  {
    SelectReplies(doc, st, p1, name);
    hide Receive, Respond, Process, Command, Unprotect, Next, SelectHeader, Select;
    var suite, ssc, header := doc.suite, t.ssc, SelectHeader(p1);
    var apdu, request := Command(suite, Next(ssc), header, name, -1), Request(header, name, -1);
    SelectHeaderBytes(p1);
    assert SendSelect(t, stage, p1, name, NoFault).event == Say(apdu);
    ChipRecoversCommand(suite, Next(ssc), header, name, -1);
    RespondTo(doc, st, apdu, request);
    PlainResponseRoundTrip(suite, Next(ssc), Select(doc, st, p1, name).reply);
  }

  lemma SelectReplies(doc: Document, st: State, p1: Byte, name: Bytes)
    ensures Select(doc, st, p1, name).reply in {DONE, NOT_FOUND}
  {
  }

  /** After PACE the application is selected first, and from there the dialogue is the one after BAC. */
  lemma ApplicationThenLikeBac(doc: Document, ssc: Bytes, readPhoto: bool)
    requires doc.suite.Valid() && |ssc| == doc.suite.Block()
    ensures |Advance(ssc, 2)| == |ssc|
    ensures Round(doc, Opening(doc, ssc, true, readPhoto)) == Opening(doc, Advance(ssc, 2), false, readPhoto)
  {
    hide Process, Unprotect, Next, Protect;
    TwoSteps(ssc);
    SelectIsAnswered(doc, Fresh(doc.suite, ssc, readPhoto), State(ssc, false, None), SelectingApplication, 0x04, EMRTD_AID);
  }

  /* ---- reading the selected file ---- */

  /** A terminal that is reading, with its session and buffer those of a reader. */
  function Held(t: Terminal, r: Reader): Terminal {
    if t.stage == ReadingDg1 then t.(ssc := r.ssc, dg1 := r.buffer, dg1Total := r.total)
    else t.(ssc := r.ssc, dg2 := Some(r.buffer), dg2Total := r.total)
  }

  function MaxOf(stage: Stage): nat {
    if stage == ReadingDg1 then DG1_MAX_LEN else DG2_MAX_LEN
  }

  /** A run of the read loop as part of a dialogue. */
  function Embedded(t: Terminal, id: Bytes, run: Run): Dialogue
    requires run.step.Send?
  {
    Dialogue(Held(t, run.reader), State(run.chipSsc, true, Some(id)), Say(run.step.apdu))
  }

  /** Where the dialogue goes when the loop has stopped. */
  function Stopped(t: Terminal, run: Run): Move
    requires Live(Held(t, run.reader)) && t.stage in {ReadingDg1, ReadingDg2} && !run.step.Send?
  {
    var t1 := Held(t, run.reader);
    if t.stage == ReadingDg2 then Move(t1, GiveUp(t1))
    else if run.step.Done? then Dg1Complete(t1, NoFault)
    else Move(t1, Failure)
  }

  ghost predicate ReadsFrom(doc: Document, t: Terminal, id: Bytes, run: Run) {
    && id in doc.files && t.stage in {ReadingDg1, ReadingDg2} && t.suite == doc.suite
    && Linked(View(doc, id), run) && Live(Held(t, run.reader))
  }

  lemma DocumentAnswersLikeChip(doc: Document, id: Bytes, run: Run)
    requires id in doc.files && Linked(View(doc, id), run) && AsksAt(View(doc, id), run.chipSsc, run)
    ensures run.step.Send?
    ensures var a, r := Process(doc, State(run.chipSsc, true, Some(id)), run.step.apdu), Answer(View(doc, id), run.chipSsc, run.step.apdu);
            a == Answered(r.rapdu, State(r.ssc, true, Some(id)))
  {
    hide Receive, Respond, Command, ReadHeader, ReadBinary, Next;
    var pos: nat, le: ChunkSize :| run.step == Send(Command(doc.suite, Next(run.chipSsc), ReadHeader(pos), [], le));
    ReadHeaderBytes(pos);
    ChipRecoversCommand(doc.suite, Next(run.chipSsc), ReadHeader(pos), [], le);
  }

  lemma ReadHeaderBytes(pos: nat)
    ensures ReadHeader(pos)[..2] == [0x0C, 0xB0]
    ensures ReadHeader(pos)[0] == 0x0C && ReadHeader(pos)[1] == 0xB0
  {
  }

  /** The dialogue is this run of the read loop: under way with its command, or stopped and gone on from there. */
  ghost predicate Mirrors(doc: Document, t: Terminal, id: Bytes, run: Run, d: Dialogue) {
    && ReadsFrom(doc, t, id, run)
    && (run.step.Send? ==> d == Embedded(t, id, run))
    && (!run.step.Send? ==>
          var m := Stopped(t, run);
          d == Dialogue(m.terminal, State(run.chipSsc, true, Some(id)), m.event))
  }

  /** One round of the dialogue is one exchange of the read loop. */
  lemma RoundIsExchange(doc: Document, t: Terminal, id: Bytes, run: Run, d: Dialogue)
    requires Mirrors(doc, t, id, run, d) && Connected(doc, d) && AsksAt(View(doc, id), run.chipSsc, run)
    ensures Mirrors(doc, t, id, Exchange(View(doc, id), MaxOf(t.stage), run), Round(doc, d))
  {
    hide Process, Answer, RestReady, Dg1Complete, AsksAt;
    DocumentAnswersLikeChip(doc, id, run);
    assert Held(t, run.reader).stage == t.stage;
  }

  /** The document has a file that the loop can read, at plain offsets throughout. */
  ghost predicate Serves(doc: Document, id: Bytes, max: nat, total: nat) {
    id in doc.files
    && ReadableFrom(doc.files[id], max, total, First(View(doc, id))) && OffsetsPlain(View(doc, id), total)
  }

  lemma ServesMeans(doc: Document, id: Bytes, max: nat, total: nat)
    requires Serves(doc, id, max, total)
    ensures id in doc.files && View(doc, id).suite == doc.suite && View(doc, id).file == doc.files[id]
    ensures ReadableFrom(View(doc, id).file, max, total, First(View(doc, id))) && OffsetsPlain(View(doc, id), total)
    ensures total <= |doc.files[id]| && total <= max
  {
  }

  lemma MaxIsBounded(stage: Stage)
    ensures MaxOf(stage) <= DG2_MAX_LEN
  {
  }

  /** What is known of a dialogue that reads a file, j rounds on. */
  ghost predicate InReading(doc: Document, t: Terminal, id: Bytes, ssc: Bytes, total: nat, j: nat, d: Dialogue)
    requires id in doc.files && doc.suite.Valid() && |ssc| == doc.suite.Block()
  {
    var run := After(View(doc, id), MaxOf(t.stage), ssc, j);
    Mirrors(doc, t, id, run, d) && Connected(doc, d)
    && (j < CommandsOf(View(doc, id), total) ==> AsksAt(View(doc, id), run.chipSsc, run) && UnderWay(View(doc, id), ssc, run, j))
  }

  /** A dialogue that has begun to read a file is the run of the read loop on it, answer for answer. */
  lemma {:induction false} DialogueIsRun(doc: Document, t: Terminal, id: Bytes, ssc: Bytes, total: nat, d: Dialogue, j: nat)
    requires doc.suite.Valid() && |ssc| == doc.suite.Block() && Serves(doc, id, MaxOf(t.stage), total)
    requires Mirrors(doc, t, id, FileRead.Begin(View(doc, id), ssc), d) && Connected(doc, d)
    requires j <= CommandsOf(View(doc, id), total)
    ensures InReading(doc, t, id, ssc, total, j, Later(doc, d, j))
  {
    hide Begin, Exchange, Round, CommandsOf, AsksAt, UnderWay, Mirrors, Advance, Next, Connected, ReadableFrom, OffsetsPlain,
      First, Serves, MaxOf, View, Opening, Embedded, Held, ReadsFrom, Linked, Live, Ready, Later, After;
    ServesMeans(doc, id, MaxOf(t.stage), total);
    MaxIsBounded(t.stage);
    NoRounds(doc, d, View(doc, id), MaxOf(t.stage), ssc);
    var chip, max := View(doc, id), MaxOf(t.stage);
    if j > 0 {
      DialogueIsRun(doc, t, id, ssc, total, d, j - 1);
      OneMore(doc, d, chip, max, ssc, j - 1);
      RoundIsExchange(doc, t, id, After(chip, max, ssc, j - 1), Later(doc, d, j - 1));
    }
    if j < CommandsOf(chip, total) {
      Asks(chip, max, ssc, total, j);
    }
  }

  lemma NoRounds(doc: Document, d: Dialogue, chip: Chip, max: nat, ssc: Bytes)
    requires Connected(doc, d) && chip.suite.Valid() && |ssc| == chip.suite.Block()
    ensures Later(doc, d, 0) == d && After(chip, max, ssc, 0) == FileRead.Begin(chip, ssc)
  {
  }

  lemma OneMore(doc: Document, d: Dialogue, chip: Chip, max: nat, ssc: Bytes, n: nat)
    requires Connected(doc, d) && chip.suite.Valid() && |ssc| == chip.suite.Block()
    ensures Later(doc, d, n + 1) == Round(doc, Later(doc, d, n))
    ensures After(chip, max, ssc, n + 1) == Exchange(chip, max, After(chip, max, ssc, n))
  {
  }

  lemma Asks(chip: Chip, max: nat, ssc: Bytes, total: nat, j: nat)
    requires chip.suite.Valid() && |ssc| == chip.suite.Block() && max <= DG2_MAX_LEN
    requires ReadableFrom(chip.file, max, total, First(chip)) && OffsetsPlain(chip, total) && j < CommandsOf(chip, total)
    ensures var run := After(chip, max, ssc, j);
            UnderWay(chip, ssc, run, j) && AsksAt(chip, run.chipSsc, run)
  {
    hide ReadableFrom, OffsetsPlain, CommandsOf, First, AsksAt, After, Advance;
    IsUnderWay(chip, max, ssc, total, j);
  }

  /* ---- from the selection of a file to its end ---- */

  function ReadingStage(stage: Stage): Stage {
    if stage == SelectingDg1 then ReadingDg1 else ReadingDg2
  }

  /** The answer to a SELECT for a data group starts the read loop on that file. */
  lemma SelectionStartsReading(doc: Document, t: Terminal, st: State, stage: Stage, id: Bytes)
    requires Live(t) && t.suite == doc.suite && st.ssc == t.ssc && st.application
    requires stage in {SelectingDg1, SelectingDg2} && (stage == SelectingDg2 ==> t.mrz.Some?) && id in doc.files && |id| == 2
    ensures var m := SendSelect(t, stage, 0x02, id, NoFault);
            && Connected(doc, Dialogue(m.terminal, st, m.event))
            && m.event.Say? && m.terminal.ssc == Next(t.ssc)
            && |Advance(t.ssc, 2)| == |t.ssc|
            && var r, run := t.(stage := ReadingStage(stage)), FileRead.Begin(View(doc, id), Advance(t.ssc, 2));
            && run.step.Send? && Mirrors(doc, r, id, run, Round(doc, Dialogue(m.terminal, st, m.event)))
  {
    hide Process, Unprotect, Next, Command;
    TwoSteps(t.ssc);
    SelectIsAnswered(doc, t, st, stage, 0x02, id);
    hide SendSelect;
  }

  /* ---- both counters, the selection and what has arrived, after every round ---- */

  function FileOf(doc: Document, id: Bytes): Bytes {
    if id in doc.files then doc.files[id] else []
  }

  /**
   After n rounds: the document's counter is 2n on and this is what it has selected; the terminal's
   is the same, or one further while it waits for an answer; what it holds of both files are prefixes.
   */
  ghost predicate InStep(doc: Document, ssc: Bytes, d: Dialogue, n: nat, application: bool, selected: Option<Bytes>) {
    && d.document == State(Advance(ssc, 2 * n), application, selected)
    && d.terminal.ssc == Advance(ssc, if d.event.Say? then 2 * n + 1 else 2 * n)
    && d.terminal.dg1 <= FileOf(doc, EF_DG1)
    && (d.terminal.dg2.Some? ==> d.terminal.dg2.value <= FileOf(doc, EF_DG2))
  }

  lemma LaterInStep(doc: Document, ssc: Bytes, d: Dialogue, m: nat, n: nat, application: bool, selected: Option<Bytes>)
    requires InStep(doc, Advance(ssc, 2 * m), d, n, application, selected)
    ensures InStep(doc, ssc, d, m + n, application, selected)
  {
    hide Advance;
    AdvanceAdds(ssc, 2 * m, 2 * n);
    AdvanceAdds(ssc, 2 * m, 2 * n + 1);
  }

  /** The terminal at the end of a file, with all of it. */
  function Complete(t: Terminal, ssc: Bytes, data: Bytes): Terminal {
    Held(t, Reader(t.suite, ssc, data, |data|))
  }

  ghost predicate HoldsOnlyPrefixes(doc: Document, t: Terminal) {
    t.dg1 <= FileOf(doc, EF_DG1) && (t.dg2.Some? ==> t.dg2.value <= FileOf(doc, EF_DG2))
  }

  /** While a file is being read the terminal waits, and both ends are in step. */
  lemma ReadingIsInStep(doc: Document, t: Terminal, id: Bytes, ssc: Bytes, total: nat, d: Dialogue, j: nat)
    requires doc.suite.Valid() && |ssc| == doc.suite.Block() && Serves(doc, id, MaxOf(t.stage), total)
    requires Mirrors(doc, t, id, FileRead.Begin(View(doc, id), ssc), d) && Connected(doc, d)
    requires j < CommandsOf(View(doc, id), total) && HoldsOnlyPrefixes(doc, t)
    requires id == if t.stage == ReadingDg1 then EF_DG1 else EF_DG2
    ensures Later(doc, d, j).event.Say? && InStep(doc, ssc, Later(doc, d, j), j, true, Some(id))
  {
    DialogueIsRun(doc, t, id, ssc, total, d, j);
    hide Advance, CommandsOf, Serves, After, Later, AsksAt, Connected;
    var run := After(View(doc, id), MaxOf(t.stage), ssc, j);
    assert Later(doc, d, j) == Embedded(t, id, run);
  }

  /** With its last answer the file is there and the terminal goes on from it. */
  lemma ReadingEnds(doc: Document, t: Terminal, id: Bytes, ssc: Bytes, total: nat, d: Dialogue)
    requires doc.suite.Valid() && |ssc| == doc.suite.Block() && Serves(doc, id, MaxOf(t.stage), total) && t.suite == doc.suite
    requires Mirrors(doc, t, id, FileRead.Begin(View(doc, id), ssc), d) && Connected(doc, d)
    ensures total <= |doc.files[id]| && t.stage in {ReadingDg1, ReadingDg2}
    ensures var k := CommandsOf(View(doc, id), total); var now := Advance(ssc, 2 * k);
            var t1 := Complete(t, now, doc.files[id][..total]);
            && Live(t1)
            && var m := if t.stage == ReadingDg1 then Dg1Complete(t1, NoFault) else Move(t1, GiveUp(t1));
            Later(doc, d, k) == Dialogue(m.terminal, State(now, true, Some(id)), m.event)
  {
    ServesMeans(doc, id, MaxOf(t.stage), total);
    hide Serves, Advance, CommandsOf, After, Later, AsksAt, Connected, Dg1Complete, ReadableFrom, OffsetsPlain, First;
    var k := CommandsOf(View(doc, id), total);
    DialogueIsRun(doc, t, id, ssc, total, d, k);
    IsDone(View(doc, id), MaxOf(t.stage), ssc, total);
  }

  /* ---- the two halves of a read ---- */

  /** The document carries a readable EF.DG1 with this zone, and a readable EF.DG2 if one is asked for. */
  ghost predicate Carries(doc: Document, readPhoto: bool, t1: nat, t2: nat, zone: Bytes) {
    && EF_DG1 in doc.files && Serves(doc, EF_DG1, DG1_MAX_LEN, t1) && t1 <= |doc.files[EF_DG1]|
    && MrzOfDg1(doc.files[EF_DG1][..t1]) == Some(zone)
    && (readPhoto ==> EF_DG2 in doc.files && Serves(doc, EF_DG2, DG2_MAX_LEN, t2) && t2 <= |doc.files[EF_DG2]|)
  }

  /** The terminal once EF.DG1 has parsed. */
  function WithZone(doc: Document, ssc: Bytes, readPhoto: bool, dg1: Bytes, zone: Bytes): Terminal {
    Terminal(doc.suite, ssc, ReadingDg1, readPhoto, dg1, |dg1|, Some(zone), None, 0)
  }

  /** Between the halves: the photo's file is selected next, or the read is over. */
  function HalfWay(doc: Document, ssc: Bytes, readPhoto: bool, dg1: Bytes, zone: Bytes): Dialogue
    requires doc.suite.Valid() && |ssc| == doc.suite.Block()
  {
    var t := WithZone(doc, ssc, readPhoto, dg1, zone);
    var m := if readPhoto then SendSelect(t, SelectingDg2, 0x02, DG2_ID, NoFault) else Move(t, Success(zone, None));
    Dialogue(m.terminal, State(ssc, true, Some(EF_DG1)), m.event)
  }

  lemma FirstRound(doc: Document, ssc: Bytes, readPhoto: bool, t1: nat, t2: nat, zone: Bytes)
    requires doc.suite.Valid() && |ssc| == doc.suite.Block() && Carries(doc, false, t1, t2, zone)
    ensures var d := Opening(doc, ssc, false, readPhoto); var t := FirstReading(doc, ssc, readPhoto);
            && d.event.Say? && InStep(doc, ssc, d, 0, true, None)
            && |Advance(ssc, 2)| == |ssc|
            && Mirrors(doc, t, EF_DG1, FileRead.Begin(View(doc, EF_DG1), Advance(ssc, 2)), Round(doc, d))
  {
    hide Round, Mirrors, Serves;
    SelectionStartsReading(doc, Fresh(doc.suite, ssc, readPhoto), State(ssc, true, None), SelectingDg1, EF_DG1);
    AdvanceNothing(ssc);
    AdvanceOnce(ssc);
  }

  lemma AdvanceNothing(ssc: Bytes)
    ensures Advance(ssc, 0) == ssc
  {
  }

  lemma AdvanceOnce(ssc: Bytes)
    ensures Advance(ssc, 1) == Next(ssc)
  {
    hide Next;
    assert Advance(ssc, 0) == ssc;
  }

  /** A later round, counted from the second dialogue. */
  lemma OneRoundLater(doc: Document, d: Dialogue, n: nat)
    requires Connected(doc, d)
    ensures Connected(doc, Round(doc, d)) && Later(doc, d, 1 + n) == Later(doc, Round(doc, d), n)
  {
    hide Round;
    LaterAdds(doc, d, 1, n);
    assert Later(doc, d, 1) == Round(doc, Later(doc, d, 0));
  }

  lemma CarriesMeans(doc: Document, readPhoto: bool, t1: nat, t2: nat, zone: Bytes)
    requires Carries(doc, readPhoto, t1, t2, zone)
    ensures EF_DG1 in doc.files && Serves(doc, EF_DG1, MaxOf(ReadingDg1), t1) && t1 <= |doc.files[EF_DG1]|
    ensures readPhoto ==> EF_DG2 in doc.files && Serves(doc, EF_DG2, MaxOf(ReadingDg2), t2) && t2 <= |doc.files[EF_DG2]|
    ensures MrzOfDg1(doc.files[EF_DG1][..t1]) == Some(zone)
  {
    hide Serves;
  }

  lemma CarriesFirst(doc: Document, readPhoto: bool, t1: nat, t2: nat, zone: Bytes)
    requires Carries(doc, readPhoto, t1, t2, zone)
    ensures Carries(doc, false, t1, t2, zone)
  {
    hide Serves;
  }

  function FirstReading(doc: Document, ssc: Bytes, readPhoto: bool): Terminal {
    Fresh(doc.suite, ssc, readPhoto).(stage := ReadingDg1)
  }

  /** SELECT 0101 and EF.DG1, round by round. */
  lemma FirstHalf(doc: Document, ssc: Bytes, readPhoto: bool, t1: nat, t2: nat, zone: Bytes, j: nat)
    requires doc.suite.Valid() && |ssc| == doc.suite.Block() && Carries(doc, false, t1, t2, zone)
    requires EF_DG1 in doc.files && j < CommandsOf(View(doc, EF_DG1), t1)
    ensures var e := Later(doc, Opening(doc, ssc, false, readPhoto), 1 + j);
            e.event.Say? && InStep(doc, ssc, e, 1 + j, true, Some(EF_DG1))
  {
    hide *;
    var s, d, t := Advance(ssc, 2), Opening(doc, ssc, false, readPhoto), FirstReading(doc, ssc, readPhoto);
    FirstRound(doc, ssc, readPhoto, t1, t2, zone);
    CarriesMeans(doc, false, t1, t2, zone);
    FirstReadingMeans(doc, ssc, readPhoto);
    OneRoundLater(doc, d, j);
    ReadingIsInStep(doc, t, EF_DG1, s, t1, Round(doc, d), j);
    LaterInStep(doc, ssc, Later(doc, Round(doc, d), j), 1, j, true, Some(EF_DG1));
  }

  lemma FirstReadingMeans(doc: Document, ssc: Bytes, readPhoto: bool)
    ensures FirstReading(doc, ssc, readPhoto).stage == ReadingDg1 && FirstReading(doc, ssc, readPhoto).suite == doc.suite
    ensures HoldsOnlyPrefixes(doc, FirstReading(doc, ssc, readPhoto))
  {
  }

  /** And then the zone has been parsed. */
  lemma FirstHalfEnds(doc: Document, ssc: Bytes, readPhoto: bool, t1: nat, t2: nat, zone: Bytes)
    requires doc.suite.Valid() && |ssc| == doc.suite.Block() && Carries(doc, false, t1, t2, zone)
    ensures EF_DG1 in doc.files && t1 <= |doc.files[EF_DG1]|
    ensures var k := CommandsOf(View(doc, EF_DG1), t1);
            && |Advance(ssc, 2 * (1 + k))| == |ssc|
            && Later(doc, Opening(doc, ssc, false, readPhoto), 1 + k)
               == HalfWay(doc, Advance(ssc, 2 * (1 + k)), readPhoto, doc.files[EF_DG1][..t1], zone)
  {
    hide *;
    var s, d, t := Advance(ssc, 2), Opening(doc, ssc, false, readPhoto), FirstReading(doc, ssc, readPhoto);
    FirstRound(doc, ssc, readPhoto, t1, t2, zone);
    CarriesMeans(doc, false, t1, t2, zone);
    FirstReadingMeans(doc, ssc, readPhoto);
    var k := CommandsOf(View(doc, EF_DG1), t1);
    OneRoundLater(doc, d, k);
    ReadingEnds(doc, t, EF_DG1, s, t1, Round(doc, d));
    AdvanceAdds(ssc, 2, 2 * k);
    ZoneIsParsed(doc, ssc, Advance(s, 2 * k), readPhoto, doc.files[EF_DG1][..t1], zone);
  }

  lemma ZoneIsParsed(doc: Document, ssc: Bytes, now: Bytes, readPhoto: bool, dg1: Bytes, zone: Bytes)
    requires doc.suite.Valid() && |now| == doc.suite.Block() && MrzOfDg1(dg1) == Some(zone)
    ensures var t := Complete(FirstReading(doc, ssc, readPhoto), now, dg1);
            && Live(t) && t.stage == ReadingDg1
            && HalfWay(doc, now, readPhoto, dg1, zone)
               == Dialogue(Dg1Complete(t, NoFault).terminal, State(now, true, Some(EF_DG1)), Dg1Complete(t, NoFault).event)
  {
    hide MrzOfDg1, SendSelect;
  }

  function SecondReading(doc: Document, now: Bytes, dg1: Bytes, zone: Bytes): Terminal {
    WithZone(doc, now, true, dg1, zone).(stage := ReadingDg2)
  }

  lemma SecondReadingMeans(doc: Document, now: Bytes, dg1: Bytes, zone: Bytes)
    requires dg1 <= FileOf(doc, EF_DG1)
    ensures SecondReading(doc, now, dg1, zone).stage == ReadingDg2 && SecondReading(doc, now, dg1, zone).suite == doc.suite
    ensures HoldsOnlyPrefixes(doc, SecondReading(doc, now, dg1, zone))
    ensures MaxOf(ReadingDg2) == DG2_MAX_LEN
  {
  }

  lemma HalfWayIsInStep(doc: Document, now: Bytes, readPhoto: bool, dg1: Bytes, zone: Bytes)
    requires doc.suite.Valid() && |now| == doc.suite.Block() && dg1 <= FileOf(doc, EF_DG1)
    ensures var d := HalfWay(doc, now, readPhoto, dg1, zone);
            && Connected(doc, d) && InStep(doc, now, d, 0, true, Some(EF_DG1))
            && (if readPhoto then d.event.Say? else d.event == Success(zone, None))
  {
    hide Advance, Next, Command;
    AdvanceNothing(now);
    AdvanceOnce(now);
  }

  lemma PhotoRound(doc: Document, now: Bytes, dg1: Bytes, zone: Bytes)
    requires doc.suite.Valid() && |now| == doc.suite.Block() && EF_DG2 in doc.files
    ensures |Advance(now, 2)| == |now| && Connected(doc, HalfWay(doc, now, true, dg1, zone))
    ensures Mirrors(doc, SecondReading(doc, now, dg1, zone), EF_DG2, FileRead.Begin(View(doc, EF_DG2), Advance(now, 2)),
                    Round(doc, HalfWay(doc, now, true, dg1, zone)))
  {
    hide Round, Mirrors, Next;
    SelectionStartsReading(doc, WithZone(doc, now, true, dg1, zone), State(now, true, Some(EF_DG1)), SelectingDg2, EF_DG2);
  }

  /** SELECT 0102 and EF.DG2, round by round. */
  lemma SecondHalf(doc: Document, now: Bytes, dg1: Bytes, zone: Bytes, t2: nat, j: nat)
    requires doc.suite.Valid() && |now| == doc.suite.Block() && dg1 <= FileOf(doc, EF_DG1)
    requires EF_DG2 in doc.files && Serves(doc, EF_DG2, DG2_MAX_LEN, t2) && j < CommandsOf(View(doc, EF_DG2), t2)
    ensures Connected(doc, HalfWay(doc, now, true, dg1, zone))
    ensures var e := Later(doc, HalfWay(doc, now, true, dg1, zone), 1 + j);
            e.event.Say? && InStep(doc, now, e, 1 + j, true, Some(EF_DG2))
  {
    hide *;
    SecondReadingMeans(doc, now, dg1, zone);
    var s, d, t := Advance(now, 2), HalfWay(doc, now, true, dg1, zone), SecondReading(doc, now, dg1, zone);
    PhotoRound(doc, now, dg1, zone);
    OneRoundLater(doc, d, j);
    ReadingIsInStep(doc, t, EF_DG2, s, t2, Round(doc, d), j);
    LaterInStep(doc, now, Later(doc, Round(doc, d), j), 1, j, true, Some(EF_DG2));
  }

  /** And then the read is over, with both. */
  lemma SecondHalfEnds(doc: Document, now: Bytes, dg1: Bytes, zone: Bytes, t2: nat)
    requires doc.suite.Valid() && |now| == doc.suite.Block() && dg1 <= FileOf(doc, EF_DG1)
    requires EF_DG2 in doc.files && Serves(doc, EF_DG2, DG2_MAX_LEN, t2)
    ensures Connected(doc, HalfWay(doc, now, true, dg1, zone)) && t2 <= |doc.files[EF_DG2]|
    ensures var k := CommandsOf(View(doc, EF_DG2), t2); var e := Later(doc, HalfWay(doc, now, true, dg1, zone), 1 + k);
            e.event == Success(zone, Some(doc.files[EF_DG2][..t2])) && InStep(doc, now, e, 1 + k, true, Some(EF_DG2))
  {
    hide *;
    SecondReadingMeans(doc, now, dg1, zone);
    var s, d, t := Advance(now, 2), HalfWay(doc, now, true, dg1, zone), SecondReading(doc, now, dg1, zone);
    PhotoRound(doc, now, dg1, zone);
    var k := CommandsOf(View(doc, EF_DG2), t2);
    OneRoundLater(doc, d, k);
    ReadingEnds(doc, t, EF_DG2, s, t2, Round(doc, d));
    AdvanceAdds(now, 2, 2 * k);
    PhotoIsRead(doc, now, Advance(s, 2 * k), dg1, zone, doc.files[EF_DG2][..t2]);
    EndIsInStep(doc, now, k, dg1, zone, t2);
  }

  lemma PhotoIsRead(doc: Document, now: Bytes, end: Bytes, dg1: Bytes, zone: Bytes, dg2: Bytes)
    ensures var t := Complete(SecondReading(doc, now, dg1, zone), end, dg2);
            t.ssc == end && t.dg1 == dg1 && t.dg2 == Some(dg2) && GiveUp(t) == Success(zone, Some(dg2))
  {
  }

  lemma EndIsInStep(doc: Document, now: Bytes, k: nat, dg1: Bytes, zone: Bytes, t2: nat)
    requires dg1 <= FileOf(doc, EF_DG1) && EF_DG2 in doc.files && t2 <= |doc.files[EF_DG2]|
    ensures var end, dg2 := Advance(now, 2 * (1 + k)), doc.files[EF_DG2][..t2];
            var t := Complete(SecondReading(doc, now, dg1, zone), end, dg2);
            InStep(doc, now, Dialogue(t, State(end, true, Some(EF_DG2)), Success(zone, Some(dg2))), 1 + k, true, Some(EF_DG2))
  {
    hide Advance;
  }

  /* ---- whole reads ---- */

  /** The rounds of a read: SELECT for the application after PACE, SELECT and commands for each file. */
  function Rounds(doc: Document, usePace: bool, readPhoto: bool, t1: nat, t2: nat): nat
    requires EF_DG1 in doc.files && (readPhoto ==> EF_DG2 in doc.files)
  {
    (if usePace then 1 else 0) + 1 + CommandsOf(View(doc, EF_DG1), t1)
    + (if readPhoto then 1 + CommandsOf(View(doc, EF_DG2), t2) else 0)
  }

  /** What is selected after n rounds when a is the one that selects the application. */
  function SelectedAfter(doc: Document, a: nat, t1: nat, n: nat): Option<Bytes>
    requires EF_DG1 in doc.files
  {
    if n <= a then None else if n <= a + 1 + CommandsOf(View(doc, EF_DG1), t1) then Some(EF_DG1) else Some(EF_DG2)
  }

  /** A read after BAC: in step after every round, over after the last with what the document carries. */
  lemma ReadAfterBac(doc: Document, ssc: Bytes, readPhoto: bool, t1: nat, t2: nat, zone: Bytes, n: nat)
    requires doc.suite.Valid() && |ssc| == doc.suite.Block() && Carries(doc, readPhoto, t1, t2, zone)
    requires EF_DG1 in doc.files && (readPhoto ==> EF_DG2 in doc.files && t2 <= |doc.files[EF_DG2]|)
    requires n <= Rounds(doc, false, readPhoto, t1, t2)
    ensures var e := AfterRounds(doc, ssc, false, readPhoto, n);
            && InStep(doc, ssc, e, n, true, SelectedAfter(doc, 0, t1, n))
            && (n < Rounds(doc, false, readPhoto, t1, t2) ==> e.event.Say?)
            && (n == Rounds(doc, false, readPhoto, t1, t2) ==>
                  e.event == Success(zone, if readPhoto then Some(doc.files[EF_DG2][..t2]) else None))
  {
    hide InStep, CommandsOf, Serves, View, HalfWay, Opening, Round, Carries, Advance;
    CarriesFirst(doc, readPhoto, t1, t2, zone);
    CarriesMeans(doc, readPhoto, t1, t2, zone);
    var k := CommandsOf(View(doc, EF_DG1), t1);
    var d, dg1 := Opening(doc, ssc, false, readPhoto), doc.files[EF_DG1][..t1];
    if n == 0 {
      FirstRound(doc, ssc, readPhoto, t1, t2, zone);
    } else if n < 1 + k {
      FirstHalf(doc, ssc, readPhoto, t1, t2, zone, n - 1);
    } else {
      var now, m := Advance(ssc, 2 * (1 + k)), n - (1 + k);
      FirstHalfEnds(doc, ssc, readPhoto, t1, t2, zone);
      LaterAdds(doc, d, 1 + k, m);
      HalfWayIsInStep(doc, now, readPhoto, dg1, zone);
      if m > 0 {
        if m == 1 + CommandsOf(View(doc, EF_DG2), t2) {
          SecondHalfEnds(doc, now, dg1, zone, t2);
        } else {
          SecondHalf(doc, now, dg1, zone, t2, m - 1);
        }
      }
      LaterInStep(doc, ssc, Later(doc, HalfWay(doc, now, readPhoto, dg1, zone), m), 1 + k, m, true,
                  if m == 0 then Some(EF_DG1) else Some(EF_DG2));
    }
  }

  lemma PaceOpening(doc: Document, ssc: Bytes, readPhoto: bool)
    requires doc.suite.Valid() && |ssc| == doc.suite.Block()
    ensures var d := Opening(doc, ssc, true, readPhoto);
            d.event.Say? && InStep(doc, ssc, d, 0, false, None)
  {
    hide Advance, Next, Command;
    AdvanceNothing(ssc);
    AdvanceOnce(ssc);
  }

  /**
   The whole read. After every round the document's counter is two further, the terminal's is the
   same or one ahead, what the terminal holds are prefixes of the two files, and the document has
   selected what its application, the rounds so far and the terminal's own SELECTs make it: nothing,
   then EF.DG1, then EF.DG2. After the last round the result is the zone in EF.DG1 and, if asked
   for, exactly the declared bytes of EF.DG2.
   */
  lemma WholeRead(doc: Document, ssc: Bytes, usePace: bool, readPhoto: bool, t1: nat, t2: nat, zone: Bytes, n: nat)
    requires doc.suite.Valid() && |ssc| == doc.suite.Block() && Carries(doc, readPhoto, t1, t2, zone)
    requires EF_DG1 in doc.files && (readPhoto ==> EF_DG2 in doc.files && t2 <= |doc.files[EF_DG2]|)
    requires n <= Rounds(doc, usePace, readPhoto, t1, t2)
    ensures var e := AfterRounds(doc, ssc, usePace, readPhoto, n); var a := if usePace then 1 else 0;
            && InStep(doc, ssc, e, n, n >= a, SelectedAfter(doc, a, t1, n))
            && (n < Rounds(doc, usePace, readPhoto, t1, t2) ==> e.event.Say?)
            && (n == Rounds(doc, usePace, readPhoto, t1, t2) ==>
                  e.event == Success(zone, if readPhoto then Some(doc.files[EF_DG2][..t2]) else None))
  {
    hide InStep, CommandsOf, View, Opening, Round, Carries, Advance;
    if !usePace {
      ReadAfterBac(doc, ssc, readPhoto, t1, t2, zone, n);
    } else if n == 0 {
      PaceOpening(doc, ssc, readPhoto);
    } else {
      ApplicationThenLikeBac(doc, ssc, readPhoto);
      OneRoundLater(doc, Opening(doc, ssc, true, readPhoto), n - 1);
      ReadAfterBac(doc, Advance(ssc, 2), readPhoto, t1, t2, zone, n - 1);
      LaterInStep(doc, ssc, AfterRounds(doc, Advance(ssc, 2), false, readPhoto, n - 1), 1, n - 1, true,
                  SelectedAfter(doc, 0, t1, n - 1));
    }
  }

  /** A document without EF.DG1 refuses its selection, and that ends the read. */
  lemma WithoutDg1TheReadFails(doc: Document, ssc: Bytes, readPhoto: bool)
    requires doc.suite.Valid() && |ssc| == doc.suite.Block() && EF_DG1 !in doc.files
    ensures Round(doc, Opening(doc, ssc, false, readPhoto)).event == Failure
  {
    hide Process, Unprotect, Next, Protect;
    SelectIsAnswered(doc, Fresh(doc.suite, ssc, readPhoto), State(ssc, true, None), SelectingDg1, 0x02, EF_DG1);
  }

  /** So does one whose application has not been selected. */
  lemma WithoutApplicationTheReadFails(doc: Document, ssc: Bytes, readPhoto: bool)
    requires doc.suite.Valid() && |ssc| == doc.suite.Block()
    ensures var d := Opening(doc, ssc, false, readPhoto);
            Round(doc, d.(document := d.document.(application := false))).event == Failure
  {
    hide Process, Unprotect, Next, Protect;
    SelectIsAnswered(doc, Fresh(doc.suite, ssc, readPhoto), State(ssc, false, None), SelectingDg1, 0x02, EF_DG1);
  }

  /** One without EF.DG2 refuses that selection, and the read ends with the zone alone. */
  lemma WithoutDg2TheZoneRemains(doc: Document, now: Bytes, dg1: Bytes, zone: Bytes)
    requires doc.suite.Valid() && |now| == doc.suite.Block() && EF_DG2 !in doc.files
    ensures Connected(doc, HalfWay(doc, now, true, dg1, zone))
    ensures Round(doc, HalfWay(doc, now, true, dg1, zone)).event == Success(zone, None)
  {
    hide Process, Unprotect, Next, Protect;
    SelectIsAnswered(doc, WithZone(doc, now, true, dg1, zone), State(now, true, Some(EF_DG1)), SelectingDg2, 0x02, EF_DG2);
  }

  /** So a document that carries EF.DG1 only is read as far as it goes, even when the photo is asked for. */
  lemma ReadWithoutPhoto(doc: Document, ssc: Bytes, usePace: bool, t1: nat, zone: Bytes)
    requires doc.suite.Valid() && |ssc| == doc.suite.Block() && Carries(doc, false, t1, 0, zone) && EF_DG2 !in doc.files
    ensures EF_DG1 in doc.files
    ensures AfterRounds(doc, ssc, usePace, true, Rounds(doc, usePace, false, t1, 0) + 1).event == Success(zone, None)
  {
    hide CommandsOf, View, Opening, Round, Carries, Advance, HalfWay, Serves;
    CarriesMeans(doc, false, t1, 0, zone);
    if usePace {
      ApplicationThenLikeBac(doc, ssc, true);
      OneRoundLater(doc, Opening(doc, ssc, true, true), Rounds(doc, false, false, t1, 0) + 1);
      ReadWithoutPhotoAfterBac(doc, Advance(ssc, 2), t1, zone);
    } else {
      ReadWithoutPhotoAfterBac(doc, ssc, t1, zone);
    }
  }

  lemma ReadWithoutPhotoAfterBac(doc: Document, ssc: Bytes, t1: nat, zone: Bytes)
    requires doc.suite.Valid() && |ssc| == doc.suite.Block() && Carries(doc, false, t1, 0, zone) && EF_DG2 !in doc.files
    ensures EF_DG1 in doc.files
    ensures AfterRounds(doc, ssc, false, true, Rounds(doc, false, false, t1, 0) + 1).event == Success(zone, None)
  {
    hide CommandsOf, View, Opening, Round, Carries, Advance, HalfWay, Serves;
    CarriesMeans(doc, false, t1, 0, zone);
    var k, dg1 := CommandsOf(View(doc, EF_DG1), t1), doc.files[EF_DG1][..t1];
    var now := Advance(ssc, 2 * (1 + k));
    FirstHalfEnds(doc, ssc, true, t1, 0, zone);
    WithoutDg2TheZoneRemains(doc, now, dg1, zone);
    LaterAdds(doc, Opening(doc, ssc, false, true), 1 + k, 1);
    assert Later(doc, HalfWay(doc, now, true, dg1, zone), 1) == Round(doc, Later(doc, HalfWay(doc, now, true, dg1, zone), 0));
  }

  /* ---- any counterpart at all ---- */

  /**
   What a read has to show at any time: the zone is the one in the bytes of EF.DG1; it is over in
   failure only without a zone, and in success only with it and the bytes of EF.DG2 that have come.
   */
  predicate Told(t: Terminal, event: Event) {
    && (t.mrz.Some? ==> t.mrz == MrzOfDg1(t.dg1))
    && (t.dg2.Some? ==> t.mrz.Some?)
    && (event.Say? ==> (t.mrz.Some? <==> t.stage in {SelectingDg2, ReadingDg2}))
    && (event.Failure? ==> t.mrz.None?)
    && (event.Success? ==> t.mrz == Some(event.mrz) && event.dg2 == t.dg2)
  }

  /** Once the zone is known every response leads to another command or to a success with it, and no bytes are lost. */
  lemma ZoneIsKept(t: Terminal, rapdu: Bytes, faults: Faults)
    requires Live(t) && t.stage in {SelectingDg2, ReadingDg2}
    ensures var m := OnResponse(t, rapdu, faults);
      && m.terminal.mrz == t.mrz && m.terminal.dg1 == t.dg1
      && (m.event.Say? || m.event == Success(t.mrz.value, m.terminal.dg2))
      && (t.dg2.Some? && t.stage == ReadingDg2 ==> m.terminal.dg2.Some? && t.dg2.value <= m.terminal.dg2.value)
      && (t.stage == SelectingDg2 ==> m.terminal.dg2 == t.dg2 || m.terminal.dg2 == Some([]))
  {
    hide Unprotect, Protect, RestReady;
    if t.stage == ReadingDg2 {
      NoBytesAreLost(Reader(t.suite, t.ssc, t.dg2.value, t.dg2Total), DG2_MAX_LEN, rapdu, faults);
    }
  }

  lemma NoBytesAreLost(r: Reader, max: nat, rapdu: Bytes, faults: Faults)
    requires Ready(r)
    ensures r.buffer <= RestReady(r, max, rapdu, faults).reader.buffer
  {
    hide Unprotect, Protect;
  }

  /** Before that it is a command, a failure, or the end of a read without photo. */
  lemma ToldAfter(t: Terminal, rapdu: Bytes, faults: Faults)
    requires Live(t) && Told(t, Say([]))
    ensures var m := OnResponse(t, rapdu, faults); Told(m.terminal, m.event)
  {
    hide Unprotect, Protect, RestReady, MrzOfDg1;
    if t.stage in {SelectingDg2, ReadingDg2} {
      ZoneIsKept(t, rapdu, faults);
    }
  }

  /** The terminal after n responses from anybody, with any failures of the library; an ended read stays as it is. */
  function Facing(m: Move, responses: nat -> Bytes, faults: nat -> Faults, n: nat): (r: Move)
    requires Live(m.terminal)
    ensures Live(r.terminal)
  {
    if n == 0 then m
    else
      var before := Facing(m, responses, faults, n - 1);
      if !before.event.Say? then before else OnResponse(before.terminal, responses(n - 1), faults(n - 1))
  }

  lemma FirstMoveTells(suite: Suite, ssc: Bytes, usePace: bool, readPhoto: bool, fault: Fault)
    requires suite.Valid() && |ssc| == suite.Block()
    ensures var m := FirstMove(suite, ssc, usePace, readPhoto, fault); Told(m.terminal, m.event)
  {
    hide Protect;
  }

  /** Whoever answers whatever, and whatever fails: a read that is over is a success exactly if it has the zone. */
  lemma {:induction false} OutcomeIsTold(suite: Suite, ssc: Bytes, usePace: bool, readPhoto: bool, fault: Fault,
                                         responses: nat -> Bytes, faults: nat -> Faults, n: nat)
    requires suite.Valid() && |ssc| == suite.Block()
    ensures var m := Facing(FirstMove(suite, ssc, usePace, readPhoto, fault), responses, faults, n);
      && Told(m.terminal, m.event)
      && (m.event.Success? <==> !m.event.Say? && m.terminal.mrz.Some?)
  {
    hide OnResponse, FirstMove;
    if n == 0 {
      FirstMoveTells(suite, ssc, usePace, readPhoto, fault);
    } else {
      OutcomeIsTold(suite, ssc, usePace, readPhoto, fault, responses, faults, n - 1);
      var before := Facing(FirstMove(suite, ssc, usePace, readPhoto, fault), responses, faults, n - 1);
      if before.event.Say? {
        ToldAfter(before.terminal, responses(n - 1), faults(n - 1));
      }
    }
  }

  /* ---- what a status means ---- */

  /**
   Whatever the document answers to a SELECT, with any data and any status: the terminal goes on exactly
   if the status is 90 00, and otherwise the read is over with what it has.
   */
  lemma StatusDecides(t: Terminal, reply: Reply)
    requires Live(t) && t.stage in {SelectingApplication, SelectingDg1, SelectingDg2} && reply.Fits(t.suite)
    ensures var m := OnResponse(t, Respond(t.suite, Next(t.ssc), reply), NO_FAULTS);
      if reply.sw1 == 0x90 && reply.sw2 == 0x00 then m.event.Say?
      else m.event == if t.mrz.Some? then Success(t.mrz.value, t.dg2) else Failure
  {
    hide Respond, Unprotect, Next, Command, SelectHeader, ReadHeader;
    PlainResponseRoundTrip(t.suite, t.ssc, reply);
  }

  /** A chunk is taken only with the status 90 00 and with data; anything else ends the read of the file. */
  lemma ChunkNeedsStatusAndData(t: Terminal, reply: Reply)
    requires Live(t) && t.stage in {ReadingDg1, ReadingDg2} && reply.Fits(t.suite)
    requires reply.data.None? || reply.sw1 != 0x90 || reply.sw2 != 0x00
    ensures var m := OnResponse(t, Respond(t.suite, Next(t.ssc), reply), NO_FAULTS);
      && m.terminal.dg1 == t.dg1 && m.terminal.dg2 == t.dg2 && m.terminal.mrz == t.mrz
      && m.event == if t.stage == ReadingDg2 then Success(t.mrz.value, t.dg2) else Failure
  {
    hide Respond, Unprotect, Next, Absorb;
    PlainResponseRoundTrip(t.suite, t.ssc, reply);
  }
}
