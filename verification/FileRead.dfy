/**
 The chunked READ BINARY loop that rebuilds EF.DG1 or EF.DG2 under secure messaging, and the
 chip it reads from. One exchange is one command, the chip's answer and the callback on it.
 */
module FileRead {
  import opened BerTlv
  import opened ByteStrings
  import opened HonestChip
  import opened SecureMessaging
  import opened SendSequenceCounter

  const DG1_MAX_LEN := 2048
  const DG2_MAX_LEN := 65536

  const GSIZE_VALUES := 0x1_0000_0000_0000_0000

  /** The terminal's side: its session, the bytes so far, and the total once it is known (else 0). */
  datatype Reader = Reader(suite: Suite, ssc: Bytes, buffer: Bytes, total: nat)

  datatype Step = Send(apdu: Bytes) | Done(file: Bytes) | Failed

  datatype Faults = Faults(unwrapping: Fault, wrapping: Fault)

  const NO_FAULTS := Faults(NoFault, NoFault)

  ghost predicate Ready(r: Reader) {
    r.suite.Valid() && |r.ssc| == r.suite.Block()
  }

  /** What a callback leaves behind: its own state and what happens next. */
  datatype Turn = Turn(reader: Reader, step: Step)

  function ReadHeader(offset: nat): (h: Bytes)
    ensures |h| == 4
  {
    Header(0x00, 0xB0, offset / 0x100 % 0x100, offset % 0x100)
  }

  /** Protects a READ BINARY at the given offset; the offset is cut to the 16 bits of P1 and P2. */
  function ReadAt(r: Reader, offset: nat, le: nat, fault: Fault): (t: Turn)
    requires Ready(r)
    ensures Ready(t.reader) && t.reader.suite == r.suite
  {
    var p := Protect(r.suite, r.ssc, ReadHeader(offset), [], le, fault);
    Turn(r.(ssc := p.ssc), if p.apdu.None? then Failed else Send(p.apdu.value))
  }

  /** The bytes still missing, in the unsigned 64-bit arithmetic of the loop. */
  function Remaining(r: Reader): nat {
    (r.total - |r.buffer|) % GSIZE_VALUES
  }

  function ReadMore(r: Reader, fault: Fault): (t: Turn)
    requires Ready(r)
    ensures Ready(t.reader) && t.reader.suite == r.suite
  {
    if Remaining(r) == 0 then Turn(r, Done(r.buffer))
    else ReadAt(r, |r.buffer|, if Remaining(r) < 255 then Remaining(r) else 255, fault)
  }

  /** Appends a chunk and learns the total from the first one. */
  function Absorb(r: Reader, max: nat, chunk: Bytes, fault: Fault): (t: Turn)
    requires Ready(r)
    ensures Ready(t.reader) && t.reader.suite == r.suite
  {
    var longer := r.(buffer := r.buffer + chunk);
    if r.total != 0 then ReadMore(longer, fault)
    else
      match TlvHeader(longer.buffer)
      case None => Turn(longer, Failed)
      case Some(l) =>
        if l.header + l.content > max then Turn(longer, Failed)
        else ReadMore(longer.(total := l.header + l.content), fault)
  }

  /** Goes on from an unwrapped response. */
  function Continue(r: Reader, max: nat, u: Unwrapped, fault: Fault): (t: Turn)
    requires Ready(r) && |u.ssc| == r.suite.Block()
    ensures Ready(t.reader) && t.reader.suite == r.suite
  {
    var r1 := r.(ssc := u.ssc);
    if u.verdict.Rejected? || u.verdict.sw != 0x9000 || u.verdict.plain.None? then Turn(r1, Failed)
    else Absorb(r1, max, u.verdict.plain.value, fault)
  }

  /** The callback on a response. */
  function RestReady(r: Reader, max: nat, rapdu: Bytes, faults: Faults): (t: Turn)
    requires Ready(r)
    ensures Ready(t.reader) && t.reader.suite == r.suite
  {
    Continue(r, max, Unprotect(r.suite, r.ssc, rapdu, faults.unwrapping), faults.wrapping)
  }

  /* ---- the chip ---- */

  /**
   A chip with one file selected. It may answer with fewer bytes than asked, at least one; how many
   is its own choice at every offset. When bit 8 of P1 is set the command does not carry a plain
   offset but names another file; what the chip answers then is left open.
   */
  datatype Chip = Chip(suite: Suite, file: Bytes, shortFileAnswer: (Bytes, int) -> Reply, grant: (nat, nat) -> nat)

  /** How many of the wanted bytes the chip answers with. */
  function Granted(chip: Chip, offset: nat, wanted: nat): (n: nat)
    requires wanted >= 1
    ensures 1 <= n <= wanted
  {
    var n := chip.grant(offset, wanted);
    if n < 1 then 1 else if n > wanted then wanted else n
  }

  /** A chip that always answers with all that was asked for. */
  ghost predicate RepliesInFull(chip: Chip) {
    forall offset: nat, wanted: nat :: wanted >= 1 ==> Granted(chip, offset, wanted) == wanted
  }

  /** READ BINARY on the selected file; reaching the end early is a warning, starting past it an error. */
  function ReadBinary(chip: Chip, header: Bytes, le: int): Reply
    requires |header| == 4
  {
    var offset := header[2] as nat * 0x100 + header[3];
    var wanted := if le == 0 then 0x100 else le;
    if header[2] >= 0x80 || le < 0 then chip.shortFileAnswer(header, le)
    else if offset >= |chip.file| then Reply(None, 0x6B, 0x00)
    else if offset + Granted(chip, offset, wanted) <= |chip.file| then
      Reply(Some(chip.file[offset..offset + Granted(chip, offset, wanted)]), 0x90, 0x00)
    else Reply(Some(chip.file[offset..]), 0x62, 0x82)
  }

  datatype Response = Response(rapdu: Bytes, ssc: Bytes)

  /** Carries out an unwrapped command. */
  function Execute(chip: Chip, request: Request): Reply {
    if |request.header| == 4 && request.header[..2] == [0x0C, 0xB0]
    then ReadBinary(chip, request.header, request.le)
    else Reply(None, 0x6D, 0x00)
  }

  /** One command in, one response out: the counter moves once for each. */
  function Answer(chip: Chip, ssc: Bytes, apdu: Bytes): (r: Response)
    requires chip.suite.Valid() && |ssc| == chip.suite.Block()
    ensures |r.ssc| == |ssc|
  {
    match Receive(chip.suite, Next(ssc), apdu)
    case None => Response([0x69, 0x88], ssc)
    case Some(request) =>
      var next := Next(Next(ssc));
      var reply := Execute(chip, request);
      Response(if reply.Fits(chip.suite) then Respond(chip.suite, next, reply) else [0x6F, 0x00], next)
  }

  /* ---- whole runs ---- */

  /** Both ends, with what the terminal wants next. */
  datatype Run = Run(reader: Reader, chipSsc: Bytes, step: Step)

  ghost predicate Linked(chip: Chip, run: Run) {
    Ready(run.reader) && run.reader.suite == chip.suite && |run.chipSsc| == chip.suite.Block()
  }

  function Begin(chip: Chip, ssc: Bytes): (run: Run)
    requires chip.suite.Valid() && |ssc| == chip.suite.Block()
    ensures Linked(chip, run)
  {
    var t := ReadAt(Reader(chip.suite, ssc, [], 0), 0, 4, NoFault);
    Run(t.reader, ssc, t.step)
  }

  function Exchange(chip: Chip, max: nat, run: Run): (next: Run)
    requires Linked(chip, run)
    ensures Linked(chip, next)
  {
    if !run.step.Send? then run
    else
      var response := Answer(chip, run.chipSsc, run.step.apdu);
      var t := RestReady(run.reader, max, response.rapdu, NO_FAULTS);
      Run(t.reader, response.ssc, t.step)
  }

  function After(chip: Chip, max: nat, ssc: Bytes, n: nat): (run: Run)
    requires chip.suite.Valid() && |ssc| == chip.suite.Block()
    ensures Linked(chip, run)
  {
    if n == 0 then Begin(chip, ssc) else Exchange(chip, max, After(chip, max, ssc, n - 1))
  }
}
