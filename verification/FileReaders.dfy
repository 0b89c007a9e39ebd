/** The read loop as the object its callbacks work on. */
module FileReaders {
  import opened BerTlv
  import opened ByteStrings
  import opened FileRead
  import opened FileReadTheorems
  import opened SecureMessaging
  import opened SendSequenceCounter
  import opened Sessions

  /** One EF being read; usePace says which of the two sessions carries the commands. */
  class FileReader {
    const usePace: bool
    const bac: BacSession
    const pace: PaceSession
    const maxLen: nat
    var buffer: Bytes
    var totalLen: nat

    constructor (usePace: bool, bac: BacSession, pace: PaceSession, maxLen: nat)
      requires bac.Valid() && pace.Valid() && bac.ssc != pace.ssc
      ensures Valid()
      ensures this.usePace == usePace && this.bac == bac && this.pace == pace && this.maxLen == maxLen
      ensures buffer == [] && totalLen == 0
    {
      this.usePace, this.bac, this.pace, this.maxLen := usePace, bac, pace, maxLen;
      buffer, totalLen := [], 0;
    }

    ghost predicate Valid()
      reads this, bac, pace, bac.ssc, pace.ssc
    {
      bac.Valid() && pace.Valid() && bac.ssc != pace.ssc
    }

    ghost function State(): Reader
      reads this, bac, pace, bac.ssc, pace.ssc
    {
      if usePace then Reader(pace.Suite(), pace.ssc[..], buffer, totalLen)
      else Reader(bac.Suite(), bac.ssc[..], buffer, totalLen)
    }

    /** Sends a READ BINARY for le bytes at an offset through the session in use. */
    method ReadAt(offset: nat, le: nat, fault: Fault) returns (step: Step)
      requires Valid()
      modifies bac.ssc, pace.ssc
      ensures Valid()
      ensures Turn(State(), step) == FileRead.ReadAt(old(State()), offset, le, fault)
    {
      hide Command;
      var apdu;
      var p1, p2 := offset / 0x100 % 0x100, offset % 0x100;
      if usePace {
        apdu := pace.Protect(0x00, 0xB0, p1, p2, [], le, fault);
      } else {
        apdu := bac.Protect(0x00, 0xB0, p1, p2, [], le, fault);
      }
      step := if apdu.None? then Failed else Send(apdu.value);
    }

    method ReadMore(fault: Fault) returns (step: Step)
      requires Valid()
      modifies bac.ssc, pace.ssc
      ensures Valid()
      ensures Turn(State(), step) == FileRead.ReadMore(old(State()), fault)
    {
      hide Command, Protect;
      var remaining := (totalLen - |buffer|) % GSIZE_VALUES;
      if remaining == 0 {
        return Done(buffer);
      }
      var chunk := if remaining < 255 then remaining else 255;
      step := ReadAt(|buffer|, chunk, fault);
    }

    method Unwrap(rapdu: Bytes, fault: Fault) returns (verdict: Verdict)
      requires Valid()
      modifies bac.ssc, pace.ssc
      ensures Valid() && State().suite == old(State().suite)
      ensures State() == old(State()).(ssc := State().ssc)
      ensures Unwrapped(verdict, State().ssc)
              == Unprotect(old(State().suite), old(State().ssc), rapdu, fault)
    {
      if usePace {
        verdict := pace.Unprotect(rapdu, fault);
      } else {
        verdict := bac.Unprotect(rapdu, fault);
      }
    }

    /** The callback on a response: unwrap it, append the chunk, learn the total, ask for more. */
    method RestReady(rapdu: Bytes, faults: Faults) returns (step: Step)
      requires Valid()
      modifies this`buffer, this`totalLen, bac.ssc, pace.ssc
      ensures Valid()
      ensures Turn(State(), step) == FileRead.RestReady(old(State()), maxLen, rapdu, faults)
    {
      hide Command, Protect, Unprotect, TlvHeader, FileRead.ReadMore;
      var verdict := Unwrap(rapdu, faults.unwrapping);
      if verdict.Rejected? || verdict.sw != 0x9000 || verdict.plain.None? {
        return Failed;
      }
      buffer := buffer + verdict.plain.value;
      if totalLen == 0 {
        var header := TlvHeader(buffer);
        if header.None? || header.value.header + header.value.content > maxLen {
          return Failed;
        }
        totalLen := header.value.header + header.value.content;
      }
      step := ReadMore(faults.wrapping);
    }

    /** A whole read: the main loop hands every command to the chip and every answer to the callback. */
    method Fetch(chip: Chip, start: Bytes, ghost total: nat) returns (file: Bytes, commands: nat)
      requires Valid() && State() == Reader(chip.suite, start, [], 0) && maxLen <= DG2_MAX_LEN
      requires ReadableFrom(chip.file, maxLen, total, First(chip)) && OffsetsPlain(chip, total)
      modifies this`buffer, this`totalLen, bac.ssc, pace.ssc
      ensures file == chip.file[..total]
      ensures commands == CommandsOf(chip, total)
      ensures Valid() && State().ssc == Advance(start, 2 * commands)
    {
      hide FileRead.ReadAt, FileRead.RestReady, Answer, CommandsOf, Advance, OffsetsPlain, ReadableFrom, First;
      FileArrivesIntact(chip, maxLen, start, total);
      var step := ReadAt(0, 4, NoFault);
      var chipSsc := start;
      commands := 0;
      while step.Send?
        invariant Valid() && commands <= CommandsOf(chip, total) && |chipSsc| == chip.suite.Block()
        invariant Run(State(), chipSsc, step) == After(chip, maxLen, start, commands)
        decreases CommandsOf(chip, total) - commands
      {
        var response := Answer(chip, chipSsc, step.apdu);
        step := RestReady(response.rapdu, NO_FAULTS);
        chipSsc := response.ssc;
        commands := commands + 1;
      }
      file := step.file;
    }
  }
}
