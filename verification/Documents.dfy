/**
 A whole document under secure messaging: an application with files, one of them selected, and one
 counter for all commands. Written from section 4.2 of ICAO Doc 9303-10 and sections 7.1.1 and
 7.2.3 of ISO/IEC 7816-4:2005.
 */
module Documents {
  import opened ByteStrings
  import opened FileRead
  import opened HonestChip
  import opened SecureMessaging
  import opened SendSequenceCounter

  const EMRTD_AID: Bytes := [0xA0, 0x00, 0x00, 0x02, 0x47, 0x10, 0x01]
  const EF_DG1: Bytes := [0x01, 0x01]
  const EF_DG2: Bytes := [0x01, 0x02]

  /** The files of the eMRTD application by identifier, and how they are served. */
  datatype Document = Document(
    suite: Suite, files: map<Bytes, Bytes>, shortFileAnswer: (Bytes, int) -> Reply, grant: (nat, nat) -> nat)

  /** Its counter, whether the application is selected, and which file is. */
  datatype State = State(ssc: Bytes, application: bool, selected: Option<Bytes>)

  /** The document with one of its files selected. */
  function View(doc: Document, id: Bytes): Chip
    requires id in doc.files
  {
    Chip(doc.suite, doc.files[id], doc.shortFileAnswer, doc.grant)
  }

  /** A reply, and what is selected afterwards. */
  datatype Carried = Carried(reply: Reply, application: bool, selected: Option<Bytes>)

  const DONE := Reply(None, 0x90, 0x00)
  const NOT_FOUND := Reply(None, 0x6A, 0x82)

  /** SELECT by application identifier (P1 04) or by file identifier (P1 02), without response data (P2 0C); a failed one changes nothing. */
  function Select(doc: Document, st: State, p1: Byte, name: Bytes): Carried {
    if p1 == 0x04 && name == EMRTD_AID then Carried(DONE, true, None)
    else if p1 == 0x02 && st.application && name in doc.files then Carried(DONE, true, Some(name))
    else Carried(NOT_FOUND, st.application, st.selected)
  }

  function CarryOut(doc: Document, st: State, request: Request): Carried {
    var h := request.header;
    if |h| != 4 || h[0] != 0x0C then Carried(Reply(None, 0x6E, 0x00), st.application, st.selected)
    else if h[1] == 0xA4 && h[3] == 0x0C then Select(doc, st, h[2], request.data)
    else if h[1] == 0xB0 && st.selected.Some? && st.selected.value in doc.files then
      Carried(ReadBinary(View(doc, st.selected.value), h, request.le), st.application, st.selected)
    else Carried(Reply(None, 0x69, 0x86), st.application, st.selected)
  }

  datatype Answered = Answered(rapdu: Bytes, state: State)

  /** One command in, one response out, under one counter whatever the command is. */
  function Process(doc: Document, st: State, apdu: Bytes): (a: Answered)
    requires doc.suite.Valid() && |st.ssc| == doc.suite.Block()
    ensures |a.state.ssc| == |st.ssc|
  {
    match Receive(doc.suite, Next(st.ssc), apdu)
    case None => Answered([0x69, 0x88], st)
    case Some(request) =>
      var next := Next(Next(st.ssc));
      var c := CarryOut(doc, st, request);
      Answered(if c.reply.Fits(doc.suite) then Respond(doc.suite, next, c.reply) else [0x6F, 0x00],
               State(next, c.application, c.selected))
  }
}
