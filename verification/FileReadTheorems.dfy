/** Whole runs of the read loop against an honest chip: the file arrives intact, and exactly when. */
module FileReadTheorems {
  import opened Arithmetic
  import opened BerTlv
  import opened BlockCiphers
  import opened ByteStrings
  import opened CommandTheorems
  import opened FileRead
  import opened HonestChip
  import opened Padding
  import opened ResponseTheorems
  import opened SecureMessaging
  import opened SendSequenceCounter

  /** Past this total some command would need an offset with bit 8 of P1 set. */
  const LAST_PLAIN_TOTAL := 32899

  /** The total a file declares in its own header. */
  function Declared(file: Bytes): (t: Option<nat>)
    ensures t.Some? ==> t.value >= 2
  {
    match TlvHeader(file)
    case None => None
    case Some(l) => Some(l.header + l.content)
  }

  /** A run in which the terminal has just asked for le bytes at its current position. */
  function Asking(chip: Chip, ssc: Bytes, pos: nat, total: nat, le: nat): (run: Run)
    requires chip.suite.Valid() && |ssc| == chip.suite.Block() && pos <= |chip.file|
    ensures Linked(chip, run)
  {
    var t := ReadAt(Reader(chip.suite, ssc, chip.file[..pos], total), pos, le, NoFault);
    Run(t.reader, ssc, t.step)
  }

  /* ---- one exchange ---- */

  lemma SmallReplyFits(suite: Suite, reply: Reply)
    requires reply.data.Some? ==> |reply.data.value| <= 0x100
    ensures reply.Fits(suite)
  {
    if reply.data.Some? {
      PadIsAlignedAndMinimal(suite.Block(), reply.data.value);
    }
  }

  lemma ReadIsExecuted(chip: Chip, pos: nat, le: nat)
    requires 1 <= le <= 255
    ensures Execute(chip, Request(ReadHeader(pos), [], le)) == ReadBinary(chip, ReadHeader(pos), le)
  {
    hide ReadBinary;
  }

  /** At a plain offset the reply is the granted chunk, or tells of the end of the file. */
  lemma ReplyInsideFile(chip: Chip, pos: nat, le: nat)
    requires pos < 0x8000 && 1 <= le <= 255
    ensures var reply := ReadBinary(chip, ReadHeader(pos), le); var n := Granted(chip, pos, le);
            && (reply.data.Some? ==> |reply.data.value| <= 0x100)
            && if pos + n <= |chip.file|
               then reply == Reply(Some(chip.file[pos..pos + n]), 0x90, 0x00)
               else reply.sw1 != 0x90
  {
    hide Granted;
    var header := ReadHeader(pos);
    assert header[2] as nat * 0x100 + header[3] as nat == pos && header[2] < 0x80;
  }

  lemma AnswerTo(chip: Chip, ssc: Bytes, apdu: Bytes, request: Request)
    requires chip.suite.Valid() && |ssc| == chip.suite.Block()
    requires Receive(chip.suite, Next(ssc), apdu) == Some(request) && Execute(chip, request).Fits(chip.suite)
    ensures Answer(chip, ssc, apdu)
      == Response(Respond(chip.suite, Next(Next(ssc)), Execute(chip, request)), Next(Next(ssc)))
  {
    hide Execute, Receive, Respond, Next;
  }

  /** The chip understands the command and the terminal understands the answer. */
  lemma ExchangeCarries(chip: Chip, ssc: Bytes, pos: nat, le: nat)
    requires chip.suite.Valid() && |ssc| == chip.suite.Block() && 1 <= le <= 255
    requires var data := ReadBinary(chip, ReadHeader(pos), le).data; data.Some? ==> |data.value| <= 0x100
    ensures var reply := ReadBinary(chip, ReadHeader(pos), le);
            var r := Answer(chip, ssc, Command(chip.suite, Next(ssc), ReadHeader(pos), [], le));
            && r.ssc == Next(Next(ssc))
            && Unprotect(chip.suite, Next(ssc), r.rapdu, NoFault)
               == Unwrapped(Accepted(reply.data, reply.sw1 as nat * 0x100 + reply.sw2), r.ssc)
  {
    hide Execute, ReadBinary, ReadHeader, Command, Receive, Respond, Unprotect, Next, Answer;
    var header := ReadHeader(pos);
    var reply := ReadBinary(chip, header, le);
    ReadIsExecuted(chip, pos, le);
    ChipRecoversCommand(chip.suite, Next(ssc), header, [], le);
    SmallReplyFits(chip.suite, reply);
    AnswerTo(chip, ssc, Command(chip.suite, Next(ssc), header, [], le), Request(header, [], le));
    PlainResponseRoundTrip(chip.suite, Next(ssc), reply);
  }

  /** What the terminal makes of a reply, given that both ends understand each other. */
  lemma ExchangeContinues(chip: Chip, max: nat, ssc: Bytes, pos: nat, total: nat, le: nat)
    requires chip.suite.Valid() && |ssc| == chip.suite.Block()
    requires pos <= |chip.file| && 1 <= le <= 255
    requires var data := ReadBinary(chip, ReadHeader(pos), le).data; data.Some? ==> |data.value| <= 0x100
    ensures var reply := ReadBinary(chip, ReadHeader(pos), le);
            var r := Reader(chip.suite, Next(Next(ssc)), chip.file[..pos], total);
            var t := if reply.sw1 as nat * 0x100 + reply.sw2 != 0x9000 || reply.data.None? then Turn(r, Failed)
                     else Absorb(r, max, reply.data.value, NoFault);
            Exchange(chip, max, Asking(chip, ssc, pos, total, le)) == Run(t.reader, Next(Next(ssc)), t.step)
  {
    hide ReadHeader, ReadBinary, Command, Absorb, Answer, Unprotect;
    ExchangeCarries(chip, ssc, pos, le);
  }

  /* ---- the same loop with the messaging stripped away ---- */

  type ChunkSize = n: nat | 1 <= n <= 255 witness 1

  /** Where the loop stands: wanting le bytes at pos, holding pos bytes for good, or given up. */
  datatype Phase = Wanting(pos: nat, total: nat, le: ChunkSize) | Complete(pos: nat, total: nat) | Broken

  /** A phase and the number of commands answered so far. */
  datatype PlainRun = PlainRun(phase: Phase, answered: nat)

  function WantMore(pos: nat, total: nat): Phase {
    var remaining := (total - pos) % GSIZE_VALUES;
    if remaining == 0 then Complete(pos, total)
    else Wanting(pos, total, if remaining < 255 then remaining else 255)
  }

  function HaveRead(file: Bytes, max: nat, pos: nat, total: nat): Phase
    requires pos <= |file|
  {
    if total != 0 then WantMore(pos, total)
    else
      match Declared(file[..pos])
      case None => Broken
      case Some(t) => if t > max then Broken else WantMore(pos, t)
  }

  function PlainStep(chip: Chip, max: nat, run: PlainRun): PlainRun {
    match run.phase
    case Wanting(pos, total, le) =>
      var n := Granted(chip, pos, le);
      PlainRun(if pos + n > |chip.file| then Broken else HaveRead(chip.file, max, pos + n, total), run.answered + 1)
    case _ => run
  }

  function PlainAfter(chip: Chip, max: nat, n: nat): PlainRun {
    if n == 0 then PlainRun(Wanting(0, 0, 4), 0) else PlainStep(chip, max, PlainAfter(chip, max, n - 1))
  }

  /** A run over the secure channel is at a phase of the plain loop, with both counters at ssc. */
  ghost predicate At(chip: Chip, ssc: Bytes, phase: Phase, run: Run)
    requires chip.suite.Valid() && |ssc| == chip.suite.Block()
  {
    match phase
    case Wanting(pos, total, le) =>
      pos <= |chip.file| && 1 <= le <= 255 && run == Asking(chip, ssc, pos, total, le)
    case Complete(pos, total) =>
      && pos <= |chip.file|
      && run == Run(Reader(chip.suite, ssc, chip.file[..pos], total), ssc, Done(chip.file[..pos]))
    case Broken => run.step == Failed
  }

  lemma ReadMoreIsWantMore(chip: Chip, ssc: Bytes, pos: nat, total: nat)
    requires chip.suite.Valid() && |ssc| == chip.suite.Block() && pos <= |chip.file|
    ensures var t := ReadMore(Reader(chip.suite, ssc, chip.file[..pos], total), NoFault);
            At(chip, ssc, WantMore(pos, total), Run(t.reader, ssc, t.step))
  {
    hide ReadHeader, Command;
  }

  lemma AbsorbIsHaveRead(chip: Chip, max: nat, ssc: Bytes, pos: nat, total: nat, le: nat)
    requires chip.suite.Valid() && |ssc| == chip.suite.Block() && pos + le <= |chip.file|
    ensures var r := Reader(chip.suite, ssc, chip.file[..pos], total);
            var t := Absorb(r, max, chip.file[pos..pos + le], NoFault);
            At(chip, ssc, HaveRead(chip.file, max, pos + le, total), Run(t.reader, ssc, t.step))
  {
    hide ReadMore, WantMore, Asking, At, TlvHeader;
    assert chip.file[..pos] + chip.file[pos..pos + le] == chip.file[..pos + le];
    ReadMoreIsWantMore(chip, ssc, pos + le, total);
    var turn := Absorb(Reader(chip.suite, ssc, chip.file[..pos], total), max, chip.file[pos..pos + le], NoFault);
    AtMeans(chip, ssc, Broken, Run(turn.reader, ssc, turn.step));
    var t := Declared(chip.file[..pos + le]);
    if t.Some? {
      ReadMoreIsWantMore(chip, ssc, pos + le, t.value);
    }
  }

  /** Asking inside the file brings the granted chunk; asking past its end ends the run. */
  lemma ExchangeInOrPastFile(chip: Chip, max: nat, ssc: Bytes, pos: nat, total: nat, le: nat)
    requires chip.suite.Valid() && |ssc| == chip.suite.Block()
    requires pos < 0x8000 && pos <= |chip.file| && 1 <= le <= 255
    ensures var run, n := Exchange(chip, max, Asking(chip, ssc, pos, total, le)), Granted(chip, pos, le);
            if pos + n <= |chip.file|
            then At(chip, Next(Next(ssc)), HaveRead(chip.file, max, pos + n, total), run)
            else run.step == Failed
  {
    hide *;
    ReplyInsideFile(chip, pos, le);
    var n := Granted(chip, pos, le);
    if pos + n <= |chip.file| {
      ExchangeBringsChunk(chip, max, ssc, pos, total, le, n);
      AbsorbIsHaveRead(chip, max, Next(Next(ssc)), pos, total, n);
    } else {
      ExchangeFails(chip, max, ssc, pos, total, le);
    }
  }

  lemma ExchangeBringsChunk(chip: Chip, max: nat, ssc: Bytes, pos: nat, total: nat, le: nat, n: nat)
    requires chip.suite.Valid() && |ssc| == chip.suite.Block()
    requires pos + n <= |chip.file| && 1 <= le <= 255 && n <= 255
    requires ReadBinary(chip, ReadHeader(pos), le) == Reply(Some(chip.file[pos..pos + n]), 0x90, 0x00)
    ensures var r := Reader(chip.suite, Next(Next(ssc)), chip.file[..pos], total);
            var t := Absorb(r, max, chip.file[pos..pos + n], NoFault);
            Exchange(chip, max, Asking(chip, ssc, pos, total, le)) == Run(t.reader, Next(Next(ssc)), t.step)
  {
    hide Asking, Absorb, ReadBinary, ReadHeader, Exchange, Next;
    ExchangeContinues(chip, max, ssc, pos, total, le);
  }

  lemma ExchangeFails(chip: Chip, max: nat, ssc: Bytes, pos: nat, total: nat, le: nat)
    requires chip.suite.Valid() && |ssc| == chip.suite.Block() && pos <= |chip.file| && 1 <= le <= 255
    requires var reply := ReadBinary(chip, ReadHeader(pos), le);
             reply.sw1 != 0x90 && (reply.data.Some? ==> |reply.data.value| <= 0x100)
    ensures Exchange(chip, max, Asking(chip, ssc, pos, total, le)).step == Failed
  {
    hide Asking, Absorb, ReadBinary, ReadHeader, Exchange, Next;
    ExchangeContinues(chip, max, ssc, pos, total, le);
  }

  /** One exchange over the secure channel is one step of the plain loop. */
  lemma ExchangeRefines(chip: Chip, max: nat, ssc: Bytes, plain: PlainRun, run: Run)
    requires chip.suite.Valid() && |ssc| == chip.suite.Block()
    requires plain.phase.Wanting? && plain.phase.pos < 0x8000 && At(chip, ssc, plain.phase, run)
    ensures At(chip, Next(Next(ssc)), PlainStep(chip, max, plain).phase, Exchange(chip, max, run))
  {
    hide At, Asking, Exchange, HaveRead, Granted;
    var Wanting(pos, total, le) := plain.phase;
    AtMeans(chip, ssc, plain.phase, run);
    ExchangeInOrPastFile(chip, max, ssc, pos, total, le);
    if pos + Granted(chip, pos, le) > |chip.file| {
      AtMeans(chip, Next(Next(ssc)), Broken, Exchange(chip, max, run));
    }
  }

  lemma AtMeans(chip: Chip, ssc: Bytes, phase: Phase, run: Run)
    requires chip.suite.Valid() && |ssc| == chip.suite.Block()
    ensures At(chip, ssc, phase, run) && phase.Wanting? ==>
              && phase.pos <= |chip.file| && 1 <= phase.le <= 255
              && run == Asking(chip, ssc, phase.pos, phase.total, phase.le)
    ensures phase.Broken? ==> (At(chip, ssc, phase, run) <==> run.step == Failed)
  {
    hide Asking;
  }

  /** As long as every position fits a plain offset, a whole run over the channel is a plain run. */
  lemma {:induction false} RunRefines(chip: Chip, max: nat, ssc: Bytes, n: nat)
    requires chip.suite.Valid() && |ssc| == chip.suite.Block()
    requires PlainOffsets(chip, max, n)
    ensures var plain := PlainAfter(chip, max, n);
            At(chip, Advance(ssc, 2 * plain.answered), plain.phase, After(chip, max, ssc, n))
  {
    hide ReadAt, Exchange;
    if n == 0 {
      assert chip.file[..0] == [];
    } else {
      RunRefines(chip, max, ssc, n - 1);
      var plain, run := PlainAfter(chip, max, n - 1), After(chip, max, ssc, n - 1);
      var now := Advance(ssc, 2 * plain.answered);
      if plain.phase.Wanting? {
        ExchangeRefines(chip, max, now, plain, run);
        AdvanceStep(ssc, 2 * plain.answered);
        AdvanceStep(ssc, 2 * plain.answered + 1);
      } else {
        StoppedStays(chip, max, now, plain.phase, run);
      }
    }
  }

  /** Every command of the first n carries a plain offset. */
  ghost predicate PlainOffsets(chip: Chip, max: nat, n: nat) {
    forall i :: 0 <= i < n && PlainAfter(chip, max, i).phase.Wanting? ==> PlainAfter(chip, max, i).phase.pos < 0x8000
  }

  lemma StoppedStays(chip: Chip, max: nat, ssc: Bytes, phase: Phase, run: Run)
    requires chip.suite.Valid() && |ssc| == chip.suite.Block()
    requires !phase.Wanting? && Linked(chip, run) && At(chip, ssc, phase, run)
    ensures Exchange(chip, max, run) == run
  {
  }

  /* ---- the plain loop ---- */

  /** How many bytes the first answer brings. */
  function First(chip: Chip): (n: nat)
    ensures 1 <= n <= 4
  {
    Granted(chip, 0, 4)
  }

  /** A file the loop can read when the first answer brings so many bytes: they tell the total, and it is all there. */
  predicate ReadableFrom(file: Bytes, max: nat, total: nat, first: nat) {
    && first <= |file| && Declared(file[..first]) == Some(total)
    && first <= total <= |file| && total <= max
  }

  /** The same for four bytes: the header declares at least that many. */
  predicate Readable(file: Bytes, max: nat, total: nat) {
    Declared(file) == Some(total) && 4 <= total <= |file| && total <= max
  }

  lemma ReadableIsReadableFromFour(file: Bytes, max: nat, total: nat)
    ensures Readable(file, max, total) <==> ReadableFrom(file, max, total, 4)
  {
    if |file| >= 4 {
      FirstFourBytesDeclare(file);
    }
  }

  lemma FirstFourBytesDeclare(file: Bytes)
    requires |file| >= 4
    ensures Declared(file[..4]) == Declared(file)
  {
    assert file[..4][1..] == file[1..][..3];
  }

  function Chunk(pos: nat, total: nat): (le: nat)
    requires pos < total
    ensures 1 <= le <= 255 && le <= total - pos
  {
    if total - pos < 255 then total - pos else 255
  }

  /** How many bytes the terminal holds after j answers. */
  function Position(chip: Chip, total: nat, j: nat): (pos: nat)
    requires j >= 1
  {
    if j == 1 then First(chip)
    else
      var p := Position(chip, total, j - 1);
      if p >= total then p else p + Granted(chip, p, Chunk(p, total))
  }

  /** How many answers are still missing at a position. */
  function Needed(chip: Chip, total: nat, pos: nat): (k: nat)
    ensures k <= if pos < total then total - pos else 0
    ensures k == 0 <==> pos >= total
    decreases total - pos
  {
    if pos >= total then 0 else 1 + Needed(chip, total, pos + Granted(chip, pos, Chunk(pos, total)))
  }

  /** READ BINARY commands a run of total T needs: one for the header, then one per chunk. */
  function CommandsOf(chip: Chip, total: nat): (k: nat)
    ensures 1 <= k
    ensures First(chip) <= total ==> k <= 1 + total - First(chip)
  {
    1 + Needed(chip, total, First(chip))
  }

  /** The first answer tells the total, or breaks the run off. */
  lemma FirstPlainStep(chip: Chip, max: nat)
    ensures var n := First(chip);
            PlainAfter(chip, max, 1)
            == PlainRun(if |chip.file| < n || Declared(chip.file[..n]).None? || Declared(chip.file[..n]).value > max then Broken
                        else WantMore(n, Declared(chip.file[..n]).value), 1)
  {
    hide Declared, WantMore, Granted;
    assert PlainAfter(chip, max, 0) == PlainRun(Wanting(0, 0, 4), 0);
  }

  /** Answer for answer the terminal is where the granted chunks have brought it, until it has the total. */
  lemma {:induction false} PlainRunReads(chip: Chip, max: nat, total: nat, j: nat)
    requires max <= DG2_MAX_LEN && ReadableFrom(chip.file, max, total, First(chip)) && 1 <= j <= CommandsOf(chip, total)
    ensures PlainAfter(chip, max, j) == PlainRun(WantMore(Position(chip, total, j), total), j)
    ensures First(chip) <= Position(chip, total, j) <= total
    ensures Needed(chip, total, Position(chip, total, j)) == CommandsOf(chip, total) - j
    ensures j < CommandsOf(chip, total) <==> Position(chip, total, j) < total
  {
    hide Declared, WantMore, Granted;
    if j == 1 {
      FirstPlainStep(chip, max);
    } else {
      PlainRunReads(chip, max, total, j - 1);
      WantMoreOf(Position(chip, total, j - 1), total);
    }
  }

  lemma {:induction false} StopsForGood(chip: Chip, max: nat, i: nat, n: nat)
    requires i <= n && !PlainAfter(chip, max, i).phase.Wanting?
    ensures PlainAfter(chip, max, n) == PlainAfter(chip, max, i)
  {
    if i < n {
      StopsForGood(chip, max, i, n - 1);
    }
  }

  /** A file that is not readable breaks the run off or keeps it asking; it is never complete. */
  lemma {:induction false} PlainRunNeverReads(chip: Chip, max: nat, n: nat)
    requires max <= DG2_MAX_LEN && PlainOffsets(chip, max, n)
    requires forall total :: !ReadableFrom(chip.file, max, total, First(chip))
    ensures var phase := PlainAfter(chip, max, n).phase;
            || phase.Broken?
            || (&& phase.Wanting?
                && (n == 0 ==> phase == Wanting(0, 0, 4))
                && (n >= 1 ==> && First(chip) <= phase.pos <= |chip.file| && 0 < phase.total <= max
                               && (phase.total < First(chip) || phase.total > |chip.file|)))
  {
    hide Declared, WantMore, Granted;
    if n == 1 {
      FirstPlainStep(chip, max);
      var first := First(chip);
      if first <= |chip.file| && Declared(chip.file[..first]).Some? && Declared(chip.file[..first]).value <= max {
        var t := Declared(chip.file[..first]).value;
        assert !ReadableFrom(chip.file, max, t, first);
        NeverEnough(first, t);
      }
    } else if n > 1 {
      PlainRunNeverReads(chip, max, n - 1);
      var phase := PlainAfter(chip, max, n - 1).phase;
      if phase.Wanting? {
        var pos := phase.pos + Granted(chip, phase.pos, phase.le);
        if pos <= |chip.file| {
          NeverEnough(pos, phase.total);
        }
      }
    }
  }

  lemma NeverEnough(pos: nat, total: nat)
    requires 1 <= pos < 0x2_0000 && 0 < total < 0x2_0000 && pos != total
    ensures WantMore(pos, total).Wanting?
    ensures WantMore(pos, total).pos == pos && WantMore(pos, total).total == total
  {
  }

  lemma WantMoreOf(pos: nat, total: nat)
    requires pos <= total <= DG2_MAX_LEN
    ensures WantMore(pos, total)
            == if pos == total then Complete(pos, total)
               else Wanting(pos, total, if total - pos < 255 then total - pos else 255)
  {
  }

  /** The terminal holds a prefix and has sent command j + 1; the chip has answered j commands. */
  ghost predicate UnderWay(chip: Chip, ssc: Bytes, run: Run, j: nat) {
    && run.step.Send?
    && run.reader.buffer <= chip.file
    && run.chipSsc == Advance(ssc, 2 * j)
    && run.reader.ssc == Advance(ssc, 2 * j + 1)
  }

  lemma WantingIsUnderWay(chip: Chip, ssc: Bytes, plain: PlainRun, run: Run)
    requires chip.suite.Valid() && |ssc| == chip.suite.Block()
    requires plain.phase.Wanting? && At(chip, Advance(ssc, 2 * plain.answered), plain.phase, run)
    ensures UnderWay(chip, ssc, run, plain.answered)
  {
    hide At, Asking, Advance, Next;
    var Wanting(pos, total, le) := plain.phase;
    var now := Advance(ssc, 2 * plain.answered);
    AtMeans(chip, now, plain.phase, run);
    AskingShape(chip, now, pos, total, le);
    AdvanceStep(ssc, 2 * plain.answered);
  }

  lemma AskingShape(chip: Chip, ssc: Bytes, pos: nat, total: nat, le: nat)
    requires chip.suite.Valid() && |ssc| == chip.suite.Block() && pos <= |chip.file| && 1 <= le <= 255
    ensures var run := Asking(chip, ssc, pos, total, le);
            && run.step == Send(Command(chip.suite, Next(ssc), ReadHeader(pos), [], le))
            && run.reader.buffer == chip.file[..pos]
            && run.reader.ssc == Next(ssc) && run.chipSsc == ssc
  {
    hide Command, ReadHeader;
  }

  /* ---- the theorems ---- */

  /** Every position the terminal asks at is a plain offset. */
  ghost predicate OffsetsPlain(chip: Chip, total: nat) {
    forall j :: 1 <= j < CommandsOf(chip, total) ==> Position(chip, total, j) < 0x8000
  }

  /** A run against this chip ends with exactly these bytes. */
  ghost predicate Arrives(chip: Chip, max: nat, ssc: Bytes, total: nat)
    requires chip.suite.Valid() && |ssc| == chip.suite.Block() && total <= |chip.file|
  {
    exists n :: After(chip, max, ssc, n).step == Done(chip.file[..total])
  }

  lemma ReadableOffsetsArePlain(chip: Chip, max: nat, total: nat, n: nat)
    requires max <= DG2_MAX_LEN && ReadableFrom(chip.file, max, total, First(chip)) && OffsetsPlain(chip, total)
    ensures PlainOffsets(chip, max, n)
  {
    hide ReadableFrom, Position, PlainAfter, CommandsOf;
    forall i | 0 <= i < n && PlainAfter(chip, max, i).phase.Wanting?
      ensures PlainAfter(chip, max, i).phase.pos < 0x8000
    {
      ReadableOffsetIsPlain(chip, max, total, i);
    }
  }

  lemma ReadableOffsetIsPlain(chip: Chip, max: nat, total: nat, i: nat)
    requires max <= DG2_MAX_LEN && ReadableFrom(chip.file, max, total, First(chip)) && OffsetsPlain(chip, total)
    ensures PlainAfter(chip, max, i).phase.Wanting? ==> PlainAfter(chip, max, i).phase.pos < 0x8000
  {
    hide Declared, WantMore, Granted, First, Position, CommandsOf;
    var k := CommandsOf(chip, total);
    if i >= k {
      PlainRunReads(chip, max, total, k);
      WantMoreOf(total, total);
      StopsForGood(chip, max, k, i);
    } else if i >= 1 {
      PlainRunReads(chip, max, total, i);
      WantMoreOf(Position(chip, total, i), total);
    }
  }

  /**
   The file arrives intact. Against a chip with the same keys and counter that answers with one byte
   at least and no more than asked, the loop holds after every answer exactly the prefix the answers
   have brought, with both counters two further; it ends with exactly the first T bytes and equal
   counters, after one command for the header and at most one for each byte that is missing then.
   */
  lemma FileArrivesIntact(chip: Chip, max: nat, ssc: Bytes, total: nat)
    requires chip.suite.Valid() && |ssc| == chip.suite.Block() && max <= DG2_MAX_LEN
    requires ReadableFrom(chip.file, max, total, First(chip)) && OffsetsPlain(chip, total)
    ensures var k := CommandsOf(chip, total);
            && k <= 1 + total - First(chip)
            && After(chip, max, ssc, k).step == Done(chip.file[..total])
            && After(chip, max, ssc, k).reader.ssc == After(chip, max, ssc, k).chipSsc == Advance(ssc, 2 * k)
    ensures forall j :: 0 <= j < CommandsOf(chip, total) ==> UnderWay(chip, ssc, After(chip, max, ssc, j), j)
    ensures forall j :: 1 <= j < CommandsOf(chip, total) ==>
              |After(chip, max, ssc, j).reader.buffer| == Position(chip, total, j) < total
  {
    hide WantMore, Granted, Position, Advance, After, PlainAfter, At, Declared, CommandsOf, First;
    var k := CommandsOf(chip, total);
    forall j | 0 <= j < k
      ensures UnderWay(chip, ssc, After(chip, max, ssc, j), j)
      ensures j >= 1 ==> |After(chip, max, ssc, j).reader.buffer| == Position(chip, total, j) < total
    {
      IsUnderWay(chip, max, ssc, total, j);
    }
    IsDone(chip, max, ssc, total);
  }

  lemma IsUnderWay(chip: Chip, max: nat, ssc: Bytes, total: nat, j: nat)
    requires chip.suite.Valid() && |ssc| == chip.suite.Block() && max <= DG2_MAX_LEN
    requires ReadableFrom(chip.file, max, total, First(chip)) && OffsetsPlain(chip, total) && j < CommandsOf(chip, total)
    ensures UnderWay(chip, ssc, After(chip, max, ssc, j), j)
    ensures j >= 1 ==> |After(chip, max, ssc, j).reader.buffer| == Position(chip, total, j) < total
    ensures AsksAt(chip, Advance(ssc, 2 * j), After(chip, max, ssc, j))
  {
    hide WantMore, Granted, Position, Advance, After, At, Declared, CommandsOf, First, OffsetsPlain, Asking;
    ReadableOffsetsArePlain(chip, max, total, j);
    RunRefines(chip, max, ssc, j);
    if j >= 1 {
      hide PlainAfter;
      PlainRunReads(chip, max, total, j);
      WantMoreOf(Position(chip, total, j), total);
    }
    var plain, run := PlainAfter(chip, max, j), After(chip, max, ssc, j);
    WantingIsUnderWay(chip, ssc, plain, run);
    AtMeans(chip, Advance(ssc, 2 * j), plain.phase, run);
    AskingShape(chip, Advance(ssc, 2 * j), plain.phase.pos, plain.phase.total, plain.phase.le);
    var pos, le: ChunkSize := plain.phase.pos, plain.phase.le;
    hide Command, ReadHeader;
    assert run.step == Send(Command(chip.suite, Next(Advance(ssc, 2 * j)), ReadHeader(pos), [], le));
  }

  /** The terminal has just sent a protected READ BINARY of at most 255 bytes under the next counter. */
  ghost predicate AsksAt(chip: Chip, ssc: Bytes, run: Run)
    requires chip.suite.Valid() && |ssc| == chip.suite.Block()
  {
    exists pos: nat, le: ChunkSize ::
      pos <= |chip.file| && run.step == Send(Command(chip.suite, Next(ssc), ReadHeader(pos), [], le))
  }

  lemma IsDone(chip: Chip, max: nat, ssc: Bytes, total: nat)
    requires chip.suite.Valid() && |ssc| == chip.suite.Block() && max <= DG2_MAX_LEN
    requires ReadableFrom(chip.file, max, total, First(chip)) && OffsetsPlain(chip, total)
    ensures var k := CommandsOf(chip, total);
            && k <= 1 + total - First(chip)
            && After(chip, max, ssc, k) == Run(Reader(chip.suite, Advance(ssc, 2 * k), chip.file[..total], total),
                                               Advance(ssc, 2 * k), Done(chip.file[..total]))
  {
    hide *;
    var k := CommandsOf(chip, total);
    TotalIsBounded(chip.file, max, total, First(chip));
    ReadableOffsetsArePlain(chip, max, total, k);
    RunRefines(chip, max, ssc, k);
    PlainRunReads(chip, max, total, k);
    WantMoreOf(total, total);
    AtCompleteMeans(chip, Advance(ssc, 2 * k), total, After(chip, max, ssc, k));
  }

  lemma TotalIsBounded(file: Bytes, max: nat, total: nat, first: nat)
    requires ReadableFrom(file, max, total, first)
    ensures first <= total <= |file| && total <= max
  {
  }

  lemma AtCompleteMeans(chip: Chip, ssc: Bytes, total: nat, run: Run)
    requires chip.suite.Valid() && |ssc| == chip.suite.Block() && At(chip, ssc, Complete(total, total), run)
    ensures total <= |chip.file|
    ensures run == Run(Reader(chip.suite, ssc, chip.file[..total], total), ssc, Done(chip.file[..total]))
  {
    hide Asking;
  }

  /* ---- exactly when ---- */

  /** A chip that knows no other files: a P1 with bit 8 set is refused. */
  ghost predicate KnowsNoOtherFiles(chip: Chip) {
    forall header: Bytes, le: int :: chip.shortFileAnswer(header, le) == Reply(None, 0x6A, 0x82)
  }

  lemma OtherFileIsRefused(chip: Chip, max: nat, ssc: Bytes, pos: nat, total: nat, le: nat)
    requires chip.suite.Valid() && |ssc| == chip.suite.Block() && KnowsNoOtherFiles(chip)
    requires 0x8000 <= pos < 0x1_0000 && pos <= |chip.file| && 1 <= le <= 255
    ensures Exchange(chip, max, Asking(chip, ssc, pos, total, le)).step == Failed
  {
    hide Asking, Exchange, Granted;
    assert ReadHeader(pos)[2] >= 0x80;
    assert ReadBinary(chip, ReadHeader(pos), le) == Reply(None, 0x6A, 0x82);
    ExchangeFails(chip, max, ssc, pos, total, le);
  }

  /** Up to the first command with bit 8 of P1 set the run is a plain run; that command ends it. */
  lemma {:induction false} PlainOrRefused(chip: Chip, max: nat, ssc: Bytes, n: nat)
    requires chip.suite.Valid() && |ssc| == chip.suite.Block()
    requires KnowsNoOtherFiles(chip) || |chip.file| < 0x8000
    ensures PlainOffsets(chip, max, n) || After(chip, max, ssc, n).step == Failed
  {
    hide At, Asking, PlainAfter, Exchange, Begin, KnowsNoOtherFiles;
    if n > 0 {
      PlainOrRefused(chip, max, ssc, n - 1);
      if PlainOffsets(chip, max, n - 1) && !PlainOffsets(chip, max, n) {
        RunRefines(chip, max, ssc, n - 1);
        var plain := PlainAfter(chip, max, n - 1);
        var now := Advance(ssc, 2 * plain.answered);
        AtMeans(chip, now, plain.phase, After(chip, max, ssc, n - 1));
        PositionsRiseSlowly(chip, max, n - 1);
        OtherFileIsRefused(chip, max, now, plain.phase.pos, plain.phase.total, plain.phase.le);
      } else if !PlainOffsets(chip, max, n) {
        FailedStays(chip, max, After(chip, max, ssc, n - 1));
      }
    }
  }

  lemma FailedStays(chip: Chip, max: nat, run: Run)
    requires Linked(chip, run) && run.step == Failed
    ensures Exchange(chip, max, run).step == Failed
  {
  }

  lemma PositionsRiseSlowly(chip: Chip, max: nat, n: nat)
    requires PlainOffsets(chip, max, n)
    ensures PlainAfter(chip, max, n).phase.Wanting? ==> PlainAfter(chip, max, n).phase.pos < 0x8000 + 0x100
  {
    hide Declared, Granted;
    if n > 0 {
      assert PlainAfter(chip, max, n) == PlainStep(chip, max, PlainAfter(chip, max, n - 1));
    }
  }

  /**
   For every file and every chip that refuses what it does not know: the loop completes if and only
   if the first answer tells the total, the total is at least what has arrived by then, at most the
   limit and at most what the chip has, and every position asked at is a plain offset. With a total
   below the first answer the unsigned subtraction runs past zero and the loop never completes.
   */
  lemma ReadCompletesIff(chip: Chip, max: nat, ssc: Bytes)
    requires chip.suite.Valid() && |ssc| == chip.suite.Block() && max <= DG2_MAX_LEN
    requires KnowsNoOtherFiles(chip) || |chip.file| < 0x8000
    ensures (exists n :: After(chip, max, ssc, n).step.Done?)
            <==> exists total :: ReadableFrom(chip.file, max, total, First(chip)) && OffsetsPlain(chip, total)
  {
    hide ReadableFrom, OffsetsPlain, After, First, KnowsNoOtherFiles;
    if total: nat :| ReadableFrom(chip.file, max, total, First(chip)) && OffsetsPlain(chip, total) {
      FileArrivesIntact(chip, max, ssc, total);
      assert After(chip, max, ssc, CommandsOf(chip, total)).step.Done?;
    }
    if n: nat :| After(chip, max, ssc, n).step.Done? {
      var total := DoneIsReadable(chip, max, ssc, n);
    }
  }

  /** A run that is done has read a readable file, at plain offsets throughout. */
  lemma DoneIsReadable(chip: Chip, max: nat, ssc: Bytes, n: nat) returns (total: nat)
    requires chip.suite.Valid() && |ssc| == chip.suite.Block() && max <= DG2_MAX_LEN
    requires KnowsNoOtherFiles(chip) || |chip.file| < 0x8000
    requires After(chip, max, ssc, n).step.Done?
    ensures ReadableFrom(chip.file, max, total, First(chip)) && OffsetsPlain(chip, total)
  {
    hide ReadableFrom, After, PlainAfter, First, KnowsNoOtherFiles, Asking, CommandsOf, Position;
    PlainOrRefused(chip, max, ssc, n);
    RunRefines(chip, max, ssc, n);
    var plain := PlainAfter(chip, max, n);
    DoneMeansComplete(chip, Advance(ssc, 2 * plain.answered), plain.phase, After(chip, max, ssc, n));
    if forall t :: !ReadableFrom(chip.file, max, t, First(chip)) {
      PlainRunNeverReads(chip, max, n);
      assert false;
    }
    total :| ReadableFrom(chip.file, max, total, First(chip));
    forall j | 1 <= j < CommandsOf(chip, total)
      ensures Position(chip, total, j) < 0x8000
    {
      StillReading(chip, max, total, j, n);
    }
  }

  lemma DoneMeansComplete(chip: Chip, ssc: Bytes, phase: Phase, run: Run)
    requires chip.suite.Valid() && |ssc| == chip.suite.Block() && At(chip, ssc, phase, run) && run.step.Done?
    ensures phase.Complete?
  {
    hide Asking;
    if phase.Wanting? {
      AskingShape(chip, ssc, phase.pos, phase.total, phase.le);
    }
  }

  lemma StillReading(chip: Chip, max: nat, total: nat, j: nat, n: nat)
    requires max <= DG2_MAX_LEN && ReadableFrom(chip.file, max, total, First(chip)) && 1 <= j < CommandsOf(chip, total)
    requires PlainOffsets(chip, max, n) && PlainAfter(chip, max, n).phase.Complete?
    ensures Position(chip, total, j) < 0x8000
  {
    hide WantMore, CommandsOf, Position, PlainAfter, First;
    PlainRunReads(chip, max, total, j);
    WantMoreOf(Position(chip, total, j), total);
    if n <= j {
      StopsForGood(chip, max, n, j);
      assert false;
    }
  }

  /* ---- chips that answer in full ---- */

  /** READ BINARY commands for a total T from a chip that answers in full. */
  function Commands(total: nat): (k: nat)
    requires total >= 4
    ensures k >= 1
  {
    1 + (total - 4 + 254) / 255
  }

  /** How much has arrived from such a chip after j answers. */
  function Arrived(total: nat, j: nat): nat
    requires j >= 1
  {
    if 4 + 255 * (j - 1) < total then 4 + 255 * (j - 1) else total
  }

  lemma {:induction false} FullRepliesAdvance(chip: Chip, total: nat, j: nat)
    requires RepliesInFull(chip) && total >= 4 && j >= 1
    ensures Position(chip, total, j) == Arrived(total, j)
  {
    hide Granted;
    if j > 1 {
      FullRepliesAdvance(chip, total, j - 1);
    }
  }

  lemma {:induction false} FullRepliesNeed(chip: Chip, total: nat, pos: nat)
    requires RepliesInFull(chip) && pos <= total
    ensures Needed(chip, total, pos) == (total - pos + 254) / 255
    decreases total - pos
  {
    hide Granted;
    if pos < total {
      FullRepliesNeed(chip, total, pos + Chunk(pos, total));
    }
  }

  /** From a chip that answers in full, 1 + ceil((T - 4) / 255) commands bring 4 bytes and then 255 each. */
  lemma FullReplies(chip: Chip, total: nat)
    requires RepliesInFull(chip) && total >= 4
    ensures First(chip) == 4 && CommandsOf(chip, total) == Commands(total)
    ensures forall j :: j >= 1 ==> Position(chip, total, j) == Arrived(total, j)
  {
    hide Granted;
    FullRepliesNeed(chip, total, 4);
    forall j | j >= 1
      ensures Position(chip, total, j) == Arrived(total, j)
    {
      FullRepliesAdvance(chip, total, j);
    }
  }

  /** Up to a total of 32899 bytes such a read asks at plain offsets only, and from 32900 on it does not. */
  lemma PlainOffsetsIff(chip: Chip, total: nat)
    requires RepliesInFull(chip) && 4 <= total <= DG2_MAX_LEN
    ensures OffsetsPlain(chip, total) <==> total <= LAST_PLAIN_TOTAL
  {
    hide Position, CommandsOf, RepliesInFull;
    FullReplies(chip, total);
    if total > LAST_PLAIN_TOTAL {
      assert 130 < CommandsOf(chip, total);
      assert Position(chip, total, 130) == 0x8083;
    }
  }

  /** Whatever the chunks, a file of up to 32768 bytes is read at plain offsets only. */
  lemma ShortFileHasPlainOffsets(chip: Chip, max: nat, total: nat)
    requires max <= DG2_MAX_LEN && ReadableFrom(chip.file, max, total, First(chip)) && total <= 0x8000
    ensures OffsetsPlain(chip, total)
  {
    hide ReadableFrom, Position, CommandsOf, First;
    forall j | 1 <= j < CommandsOf(chip, total)
      ensures Position(chip, total, j) < 0x8000
    {
      PlainRunReads(chip, max, total, j);
    }
  }

  const IN_FULL: (nat, nat) -> nat := (offset, wanted) => wanted

  const REFUSE: (Bytes, int) -> Reply := (header, le) => Reply(None, 0x6A, 0x82)

  /**
   What the limit of 65536 bytes is worth: a readable file arrives from every chip that answers in
   full, whatever it makes of commands that name other files, if and only if its total is at most
   32899 bytes.
   */
  lemma ArrivesFromEveryChipIff(suite: Suite, file: Bytes, max: nat, ssc: Bytes, total: nat)
    requires suite.Valid() && |ssc| == suite.Block() && max <= DG2_MAX_LEN && Readable(file, max, total)
    ensures (forall others: (Bytes, int) -> Reply :: Arrives(Chip(suite, file, others, IN_FULL), max, ssc, total))
            <==> total <= LAST_PLAIN_TOTAL
  {
    hide After, OffsetsPlain, ReadableFrom;
    ReadableIsReadableFromFour(file, max, total);
    if total <= LAST_PLAIN_TOTAL {
      forall others: (Bytes, int) -> Reply
        ensures Arrives(Chip(suite, file, others, IN_FULL), max, ssc, total)
      {
        var chip := Chip(suite, file, others, IN_FULL);
        FullReplies(chip, total);
        PlainOffsetsIff(chip, total);
        FileArrivesIntact(chip, max, ssc, total);
      }
    } else {
      var chip := Chip(suite, file, REFUSE, IN_FULL);
      FullReplies(chip, total);
      PlainOffsetsIff(chip, total);
      if n: nat :| After(chip, max, ssc, n).step == Done(chip.file[..total]) {
        var t := DoneIsReadable(chip, max, ssc, n);
        OneTotal(file, max, total, t);
      }
      assert !Arrives(chip, max, ssc, total);
    }
  }

  lemma OneTotal(file: Bytes, max: nat, t: nat, u: nat)
    requires ReadableFrom(file, max, t, 4) && ReadableFrom(file, max, u, 4)
    ensures t == u
  {
  }

  /** A chip that stops a chunk short where the plain offsets end. */
  const STOP_AT_8000: (nat, nat) -> nat :=
    (offset, wanted) => if offset < 0x8000 < offset + wanted then 0x8000 - offset else wanted

  lemma StopsAt8000(chip: Chip, max: nat, total: nat)
    requires max <= DG2_MAX_LEN && chip.grant == STOP_AT_8000 && First(chip) == 4
    requires ReadableFrom(chip.file, max, total, 4) && total > 0x8000
    ensures !OffsetsPlain(chip, total)
  {
    hide ReadableFrom, CommandsOf;
    var k := CommandsOf(chip, total);
    PlainRunReads(chip, max, total, k);
    PlainRunReads(chip, max, total, 1);
    PlainRunReads(chip, max, total, k - 1);
    var p := Position(chip, total, k - 1);
    if p < 0x8000 {
      GrantStops(chip, p, Chunk(p, total));
      assert false;
    }
  }

  lemma GrantStops(chip: Chip, pos: nat, wanted: nat)
    requires chip.grant == STOP_AT_8000 && pos < 0x8000 && wanted >= 1
    ensures pos + Granted(chip, pos, wanted) <= 0x8000
  {
  }

  /**
   When chips may answer in pieces of any size the limit is 32768: a readable file arrives from each
   of them whose first answer tells the total if and only if no offset can reach bit 8 of P1.
   */
  lemma ArrivesInAnyPiecesIff(suite: Suite, file: Bytes, max: nat, ssc: Bytes, total: nat)
    requires suite.Valid() && |ssc| == suite.Block() && max <= DG2_MAX_LEN && Readable(file, max, total)
    ensures (forall others: (Bytes, int) -> Reply, grant: (nat, nat) -> nat ::
               ReadableFrom(file, max, total, First(Chip(suite, file, others, grant)))
               ==> Arrives(Chip(suite, file, others, grant), max, ssc, total))
            <==> total <= 0x8000
  {
    hide After, OffsetsPlain, ReadableFrom;
    ReadableIsReadableFromFour(file, max, total);
    if total <= 0x8000 {
      forall others: (Bytes, int) -> Reply, grant: (nat, nat) -> nat |
        ReadableFrom(file, max, total, First(Chip(suite, file, others, grant)))
        ensures Arrives(Chip(suite, file, others, grant), max, ssc, total)
      {
        var chip := Chip(suite, file, others, grant);
        ShortFileHasPlainOffsets(chip, max, total);
        FileArrivesIntact(chip, max, ssc, total);
      }
    } else {
      var chip := Chip(suite, file, REFUSE, STOP_AT_8000);
      StopsAt8000(chip, max, total);
      if n: nat :| After(chip, max, ssc, n).step == Done(chip.file[..total]) {
        var t := DoneIsReadable(chip, max, ssc, n);
        OneTotal(file, max, total, t);
      }
      assert !Arrives(chip, max, ssc, total);
    }
  }

  /* ---- whatever is accepted ---- */

  /** The loop fed with accepted plain texts, one for each of its commands, until it stops asking. */
  function Feed(r: Reader, max: nat, texts: seq<Bytes>): (t: Turn)
    requires Ready(r)
    ensures Ready(t.reader)
    decreases |texts|
  {
    if texts == [] then ReadMore(r, NoFault)
    else
      var t := Absorb(r, max, texts[0], NoFault);
      if t.step.Send? then Feed(t.reader, max, texts[1..]) else t
  }

  function LengthOf(texts: seq<Bytes>): nat {
    if texts == [] then 0 else |texts[0]| + LengthOf(texts[1..])
  }

  /**
   Once the total is known, and whatever the lengths of the accepted texts - empty, short or more
   than was asked for - the loop is done if and only if after some of them the bytes held are exactly
   the total, in 64-bit arithmetic. So texts that step over the total, or empty ones for ever, never end it.
   */
  lemma {:induction false} DoneIffSumHitsTotal(r: Reader, max: nat, texts: seq<Bytes>)
    requires Ready(r) && r.total != 0 && Remaining(r) != 0
    ensures Feed(r, max, texts).step.Done?
            <==> exists i :: 1 <= i <= |texts| && (r.total - |r.buffer| - LengthOf(texts[..i])) % GSIZE_VALUES == 0
    decreases |texts|
  {
    hide ReadAt;
    if texts == [] {
      AsksForMore(r);
    } else {
      var longer := r.(buffer := r.buffer + texts[0]);
      var t := Absorb(r, max, texts[0], NoFault);
      assert LengthOf(texts[..1]) == |texts[0]| by { assert texts[..1][1..] == []; }
      if Remaining(longer) != 0 {
        AsksForMore(longer);
        var rest := texts[1..];
        DoneIffSumHitsTotal(t.reader, max, rest);
        forall i | 1 <= i <= |rest|
          ensures LengthOf(texts[..i + 1]) == |texts[0]| + LengthOf(rest[..i])
        {
          assert texts[..i + 1][1..] == rest[..i];
        }
        if i :| 1 <= i <= |texts| && (r.total - |r.buffer| - LengthOf(texts[..i])) % GSIZE_VALUES == 0 {
          assert i > 1;
          assert LengthOf(texts[..(i - 1) + 1]) == |texts[0]| + LengthOf(rest[..i - 1]);
        }
      }
    }
  }

  lemma AsksForMore(r: Reader)
    requires Ready(r) && Remaining(r) != 0
    ensures var t := ReadMore(r, NoFault);
            t.step.Send? && t.reader.total == r.total && t.reader.buffer == r.buffer
  {
    hide ReadHeader, Command;
  }

  /** The largest files: a total is taken over up to 2048 bytes for EF.DG1 and 65536 for EF.DG2. */
  lemma LargestFiles(r: Reader, chunk: Bytes)
    requires Ready(r) && r.total == 0 && Declared(r.buffer + chunk).Some?
    ensures var total := Declared(r.buffer + chunk).value;
      && (Absorb(r, DG1_MAX_LEN, chunk, NoFault).reader.total == total <==> total <= 2048)
      && (Absorb(r, DG2_MAX_LEN, chunk, NoFault).reader.total == total <==> total <= 65536)
  {
    hide Protect, ReadHeader;
  }
}
