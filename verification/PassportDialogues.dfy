/**
 What the terminal says to a document under secure messaging, from the selection of the application
 (after PACE) or of EF.DG1 (after BAC) to the result, and whole dialogues with a document.
 */
module PassportDialogues {
  import opened ByteStrings
  import opened Documents
  import opened FileRead
  import opened MrzParsing
  import opened SecureMessaging
  import opened SendSequenceCounter

  /** The names the terminal selects by. */
  const AID: Bytes := [0xA0, 0x00, 0x00, 0x02, 0x47, 0x10, 0x01]
  const DG1_ID: Bytes := [0x01, 0x01]
  const DG2_ID: Bytes := [0x01, 0x02]

  /** The callback the next response goes to. */
  datatype Stage = SelectingApplication | SelectingDg1 | ReadingDg1 | SelectingDg2 | ReadingDg2

  /** The state of a passport read once secure messaging is up; a total of 0 is not known yet. */
  datatype Terminal = Terminal(
    suite: Suite, ssc: Bytes, stage: Stage, readPhoto: bool,
    dg1: Bytes, dg1Total: nat, mrz: Option<Bytes>, dg2: Option<Bytes>, dg2Total: nat)

  /** Another command, or the end: the zone with what there is of EF.DG2, or failure. */
  datatype Event = Say(apdu: Bytes) | Success(mrz: Bytes, dg2: Option<Bytes>) | Failure

  datatype Move = Move(terminal: Terminal, event: Event)

  ghost predicate Live(t: Terminal) {
    t.suite.Valid() && |t.ssc| == t.suite.Block() && (t.stage in {SelectingDg2, ReadingDg2} ==> t.mrz.Some?)
    && (t.stage == ReadingDg2 ==> t.dg2.Some?)
  }

  function SelectHeader(p1: Byte): (h: Bytes)
    ensures |h| == 4
  {
    Header(0x00, 0xA4, p1, 0x0C)
  }

  /** The end of a read at this stage when a step fails: once EF.DG1 has parsed it is still a success. */
  function GiveUp(t: Terminal): Event {
    if t.mrz.Some? then Success(t.mrz.value, t.dg2) else Failure
  }

  /** Sends a SELECT and waits for its answer at the given stage. */
  function SendSelect(t: Terminal, stage: Stage, p1: Byte, name: Bytes, fault: Fault): (m: Move)
    requires Live(t) && (stage == SelectingDg2 ==> t.mrz.Some?) && stage != ReadingDg2
    ensures Live(m.terminal) && m.terminal.suite == t.suite
  {
    var p := Protect(t.suite, t.ssc, SelectHeader(p1), name, -1, fault);
    var t1 := t.(ssc := p.ssc, stage := stage);
    Move(t1, if p.apdu.None? then GiveUp(t1) else Say(p.apdu.value))
  }

  /** Begins to read the file just selected. */
  function StartReading(t: Terminal, fault: Fault): (m: Move)
    requires Live(t) && t.stage in {SelectingDg1, SelectingDg2}
    ensures Live(m.terminal) && m.terminal.suite == t.suite
  {
    var turn := ReadAt(Reader(t.suite, t.ssc, [], 0), 0, 4, fault);
    var t1 :=
      if t.stage == SelectingDg1 then t.(ssc := turn.reader.ssc, stage := ReadingDg1, dg1 := [], dg1Total := 0)
      else t.(ssc := turn.reader.ssc, stage := ReadingDg2, dg2 := Some([]), dg2Total := 0);
    Move(t1, if turn.step.Send? then Say(turn.step.apdu) else GiveUp(t1))
  }

  /** The answer to a SELECT: whatever data it carries is dropped. */
  function Selected(t: Terminal, rapdu: Bytes, faults: Faults): (m: Move)
    requires Live(t) && t.stage in {SelectingApplication, SelectingDg1, SelectingDg2}
    ensures Live(m.terminal) && m.terminal.suite == t.suite
  {
    var u := Unprotect(t.suite, t.ssc, rapdu, faults.unwrapping);
    var t1 := t.(ssc := u.ssc);
    if u.verdict.Rejected? || u.verdict.sw != 0x9000 then Move(t1, GiveUp(t1))
    else if t.stage == SelectingApplication then SendSelect(t1, SelectingDg1, 0x02, DG1_ID, faults.wrapping)
    else StartReading(t1, faults.wrapping)
  }

  /** EF.DG1 is complete: parse it, then go on to the photo or end. */
  function Dg1Complete(t: Terminal, fault: Fault): (m: Move)
    requires Live(t) && t.stage == ReadingDg1
    ensures Live(m.terminal) && m.terminal.suite == t.suite
  {
    match MrzOfDg1(t.dg1)
    case None => Move(t, Failure)
    case Some(zone) =>
      var t1 := t.(mrz := Some(zone));
      if t.readPhoto then SendSelect(t1, SelectingDg2, 0x02, DG2_ID, fault) else Move(t1, Success(zone, t.dg2))
  }

  function Dg1Chunk(t: Terminal, rapdu: Bytes, faults: Faults): (m: Move)
    requires Live(t) && t.stage == ReadingDg1
    ensures Live(m.terminal) && m.terminal.suite == t.suite
  {
    var turn := RestReady(Reader(t.suite, t.ssc, t.dg1, t.dg1Total), DG1_MAX_LEN, rapdu, faults);
    var t1 := t.(ssc := turn.reader.ssc, dg1 := turn.reader.buffer, dg1Total := turn.reader.total);
    match turn.step
    case Send(apdu) => Move(t1, Say(apdu))
    case Done(_) => Dg1Complete(t1, faults.wrapping)
    case Failed => Move(t1, Failure)
  }

  /** However reading EF.DG2 ends, what has arrived goes into the result. */
  function Dg2Chunk(t: Terminal, rapdu: Bytes, faults: Faults): (m: Move)
    requires Live(t) && t.stage == ReadingDg2
    ensures Live(m.terminal) && m.terminal.suite == t.suite
  {
    var turn := RestReady(Reader(t.suite, t.ssc, t.dg2.value, t.dg2Total), DG2_MAX_LEN, rapdu, faults);
    var t1 := t.(ssc := turn.reader.ssc, dg2 := Some(turn.reader.buffer), dg2Total := turn.reader.total);
    Move(t1, if turn.step.Send? then Say(turn.step.apdu) else GiveUp(t1))
  }

  /** The callback on a response. */
  function OnResponse(t: Terminal, rapdu: Bytes, faults: Faults): (m: Move)
    requires Live(t)
    ensures Live(m.terminal) && m.terminal.suite == t.suite
  {
    match t.stage
    case ReadingDg1 => Dg1Chunk(t, rapdu, faults)
    case ReadingDg2 => Dg2Chunk(t, rapdu, faults)
    case _ => Selected(t, rapdu, faults)
  }

  /* ---- whole dialogues ---- */

  /** Both ends, with what the terminal says next. */
  datatype Dialogue = Dialogue(terminal: Terminal, document: State, event: Event)

  ghost predicate Connected(doc: Document, d: Dialogue) {
    Live(d.terminal) && d.terminal.suite == doc.suite && |d.document.ssc| == doc.suite.Block()
  }

  function Fresh(suite: Suite, ssc: Bytes, readPhoto: bool): Terminal {
    Terminal(suite, ssc, SelectingApplication, readPhoto, [], 0, None, None, 0)
  }

  /** The first command, or a failure to protect it. */
  function FirstMove(suite: Suite, ssc: Bytes, usePace: bool, readPhoto: bool, fault: Fault): (m: Move)
    requires suite.Valid() && |ssc| == suite.Block()
    ensures Live(m.terminal)
  {
    if usePace then SendSelect(Fresh(suite, ssc, readPhoto), SelectingApplication, 0x04, AID, fault)
    else SendSelect(Fresh(suite, ssc, readPhoto), SelectingDg1, 0x02, DG1_ID, fault)
  }

  /**
   After PACE nothing is selected and the terminal begins with the application; before BAC the
   application has been selected in the clear and it begins with EF.DG1.
   */
  function Opening(doc: Document, ssc: Bytes, usePace: bool, readPhoto: bool): (d: Dialogue)
    requires doc.suite.Valid() && |ssc| == doc.suite.Block()
    ensures Connected(doc, d)
  {
    var m := FirstMove(doc.suite, ssc, usePace, readPhoto, NoFault);
    Dialogue(m.terminal, State(ssc, !usePace, None), m.event)
  }

  function Round(doc: Document, d: Dialogue): (next: Dialogue)
    requires Connected(doc, d)
    ensures Connected(doc, next)
  {
    if !d.event.Say? then d
    else
      var a := Process(doc, d.document, d.event.apdu);
      var m := OnResponse(d.terminal, a.rapdu, NO_FAULTS);
      Dialogue(m.terminal, a.state, m.event)
  }

  /** The same dialogue n exchanges later. */
  function Later(doc: Document, d: Dialogue, n: nat): (e: Dialogue)
    requires Connected(doc, d)
    ensures Connected(doc, e)
  {
    if n == 0 then d else Round(doc, Later(doc, d, n - 1))
  }

  function AfterRounds(doc: Document, ssc: Bytes, usePace: bool, readPhoto: bool, n: nat): (d: Dialogue)
    requires doc.suite.Valid() && |ssc| == doc.suite.Block()
    ensures Connected(doc, d)
  {
    Later(doc, Opening(doc, ssc, usePace, readPhoto), n)
  }
}
