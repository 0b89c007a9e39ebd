/** The terminal of a dialogue as the object its callbacks work on. */
module PassportTerminals {
  import opened ByteStrings
  import opened DialogueTheorems
  import opened Documents
  import opened FileRead
  import opened FileReaders
  import opened MrzParsing
  import opened PassportDialogues
  import opened SecureMessaging
  import opened SendSequenceCounter
  import opened Sessions

  /** A passport read once secure messaging is up; both files are read over the session in use. */
  class PassportTerminal {
    const usePace: bool
    const readPhoto: bool
    const bac: BacSession
    const pace: PaceSession
    const first: FileReader
    const second: FileReader
    var stage: Stage
    var mrz: Option<Bytes>
    var hasDg2: bool

    constructor (usePace: bool, readPhoto: bool, bac: BacSession, pace: PaceSession)
      requires bac.Valid() && pace.Valid() && bac.ssc != pace.ssc
      ensures Valid() && this.usePace == usePace && this.bac == bac && this.pace == pace
      ensures State() == Fresh(State().suite, if usePace then pace.ssc[..] else bac.ssc[..], readPhoto)
      ensures fresh(first) && fresh(second)
    {
      this.usePace, this.readPhoto, this.bac, this.pace := usePace, readPhoto, bac, pace;
      first := new FileReader(usePace, bac, pace, DG1_MAX_LEN);
      second := new FileReader(usePace, bac, pace, DG2_MAX_LEN);
      stage, mrz, hasDg2 := SelectingApplication, None, false;
    }

    ghost predicate Valid()
      reads this, first, second, bac, pace, bac.ssc, pace.ssc
    {
      && first.usePace == usePace && first.bac == bac && first.pace == pace && first.maxLen == DG1_MAX_LEN
      && second.usePace == usePace && second.bac == bac && second.pace == pace && second.maxLen == DG2_MAX_LEN
      && first.Valid() && second.Valid() && first != second
    }

    ghost function State(): Terminal
      reads this, first, second, bac, pace, bac.ssc, pace.ssc
      requires Valid()
    {
      Terminal(first.State().suite, first.State().ssc, stage, readPhoto,
               first.buffer, first.totalLen, mrz, if hasDg2 then Some(second.buffer) else None, second.totalLen)
    }

    method Select(next: Stage, p1: Byte, name: Bytes, fault: Fault) returns (event: Event)
      requires Valid() && Live(State()) && (next == SelectingDg2 ==> mrz.Some?) && next != ReadingDg2
      modifies this`stage, bac.ssc, pace.ssc
      ensures Valid() && Move(State(), event) == SendSelect(old(State()), next, p1, name, fault)
    {
      hide Command;
      var apdu;
      if usePace {
        apdu := pace.Protect(0x00, 0xA4, p1, 0x0C, name, -1, fault);
      } else {
        apdu := bac.Protect(0x00, 0xA4, p1, 0x0C, name, -1, fault);
      }
      stage := next;
      event := if apdu.Some? then Say(apdu.value) else Ending();
    }

    /** What the read has come to when a step fails. */
    function Ending(): (event: Event)
      reads this, second
    {
      if mrz.Some? then Success(mrz.value, if hasDg2 then Some(second.buffer) else None) else Failure
    }

    /** Begins to read EF.DG1, just selected. */
    method BeginDg1(fault: Fault) returns (event: Event)
      requires Valid() && Live(State()) && stage == SelectingDg1
      modifies this`stage, first, bac.ssc, pace.ssc
      ensures Valid() && Move(State(), event) == StartReading(old(State()), fault)
    {
      hide Command, Protect;
      first.buffer, first.totalLen := [], 0;
      var step := first.ReadAt(0, 4, fault);
      stage := ReadingDg1;
      event := if step.Send? then Say(step.apdu) else Ending();
    }

    /** Begins to read EF.DG2, just selected. */
    method BeginDg2(fault: Fault) returns (event: Event)
      requires Valid() && Live(State()) && stage == SelectingDg2
      modifies this`stage, this`hasDg2, second, bac.ssc, pace.ssc
      ensures Valid() && Move(State(), event) == StartReading(old(State()), fault)
    {
      hide Command, Protect;
      second.buffer, second.totalLen, hasDg2 := [], 0, true;
      var step := second.ReadAt(0, 4, fault);
      stage := ReadingDg2;
      event := if step.Send? then Say(step.apdu) else Ending();
    }

    /** The answer to a SELECT. */
    method SelectReady(rapdu: Bytes, faults: Faults) returns (event: Event)
      requires Valid() && Live(State()) && stage in {SelectingApplication, SelectingDg1, SelectingDg2}
      modifies this`stage, this`hasDg2, first, second, bac.ssc, pace.ssc
      ensures Valid() && Move(State(), event) == Selected(old(State()), rapdu, faults)
    {
      hide SendSelect, StartReading, Unprotect;
      var verdict := first.Unwrap(rapdu, faults.unwrapping);
      if verdict.Rejected? || verdict.sw != 0x9000 {
        return Ending();
      }
      if stage == SelectingApplication {
        event := Select(SelectingDg1, 0x02, [0x01, 0x01], faults.wrapping);
      } else if stage == SelectingDg1 {
        event := BeginDg1(faults.wrapping);
      } else {
        event := BeginDg2(faults.wrapping);
      }
    }

    /** A chunk of EF.DG1; with the last one the zone is parsed. */
    method Dg1Ready(rapdu: Bytes, faults: Faults) returns (event: Event)
      requires Valid() && Live(State()) && stage == ReadingDg1
      modifies this`stage, this`mrz, first, bac.ssc, pace.ssc
      ensures Valid() && Move(State(), event) == Dg1Chunk(old(State()), rapdu, faults)
    {
      hide FileRead.RestReady, MrzOfDg1, SendSelect;
      var step := first.RestReady(rapdu, faults);
      match step {
        case Send(apdu) => return Say(apdu);
        case Failed => return Failure;
        case Done(_) =>
          var zone := ParseDg1(first.buffer);
          if zone.None? {
            return Failure;
          }
          mrz := zone;
          if !readPhoto {
            return Success(zone.value, if hasDg2 then Some(second.buffer) else None);
          }
          event := Select(SelectingDg2, 0x02, [0x01, 0x02], faults.wrapping);
      }
    }

    /** A chunk of EF.DG2; however this ends, what has arrived goes into the result. */
    method Dg2Ready(rapdu: Bytes, faults: Faults) returns (event: Event)
      requires Valid() && Live(State()) && stage == ReadingDg2
      modifies second, bac.ssc, pace.ssc
      ensures Valid() && Move(State(), event) == Dg2Chunk(old(State()), rapdu, faults)
    {
      hide FileRead.RestReady;
      var step := second.RestReady(rapdu, faults);
      event := if step.Send? then Say(step.apdu) else Ending();
    }

    method Ready(rapdu: Bytes, faults: Faults) returns (event: Event)
      requires Valid() && Live(State())
      modifies this`stage, this`mrz, this`hasDg2, first, second, bac.ssc, pace.ssc
      ensures Valid() && Move(State(), event) == OnResponse(old(State()), rapdu, faults)
    {
      hide Selected, Dg1Chunk, Dg2Chunk;
      match stage {
        case ReadingDg1 => event := Dg1Ready(rapdu, faults);
        case ReadingDg2 => event := Dg2Ready(rapdu, faults);
        case SelectingApplication | SelectingDg1 | SelectingDg2 => event := SelectReady(rapdu, faults);
      }
    }

    /** The first command: the application after PACE, EF.DG1 after BAC. */
    method Start(fault: Fault) returns (event: Event)
      requires Valid() && State() == Fresh(State().suite, State().ssc, readPhoto) && Live(State())
      modifies this`stage, bac.ssc, pace.ssc
      ensures Valid() && Move(State(), event) == FirstMove(old(State().suite), old(State().ssc), usePace, readPhoto, fault)
    {
      hide SendSelect;
      if usePace {
        event := Select(SelectingApplication, 0x04, [0xA0, 0x00, 0x00, 0x02, 0x47, 0x10, 0x01], fault);
      } else {
        event := Select(SelectingDg1, 0x02, [0x01, 0x01], fault);
      }
    }

    /** A whole read: every command goes to the document and every answer to its callback. */
    method ReadDocument(doc: Document, start: Bytes, ghost t1: nat, ghost t2: nat, ghost zone: Bytes)
      returns (event: Event, rounds: nat)
      requires Valid() && doc.suite.Valid() && |start| == doc.suite.Block() && State() == Fresh(doc.suite, start, readPhoto)
      requires Carries(doc, readPhoto, t1, t2, zone)
      modifies this`stage, this`mrz, this`hasDg2, first, second, bac.ssc, pace.ssc
      ensures EF_DG1 in doc.files && (readPhoto ==> EF_DG2 in doc.files && t2 <= |doc.files[EF_DG2]|)
      ensures event == Success(zone, if readPhoto then Some(doc.files[EF_DG2][..t2]) else None)
      ensures rounds == Rounds(doc, usePace, readPhoto, t1, t2)
      ensures Valid() && State().ssc == Advance(start, 2 * rounds)
    {
      hide Process, OnResponse, Rounds, Carries, Advance, SendSelect, InStep, Round;
      CarriesMeans(doc, readPhoto, t1, t2, zone);
      var st := Documents.State(start, !usePace, None);
      event := Start(NoFault);
      rounds := 0;
      ghost var last := Rounds(doc, usePace, readPhoto, t1, t2);
      WholeRead(doc, start, usePace, readPhoto, t1, t2, zone, 0);
      while event.Say?
        invariant Valid() && rounds <= last
        invariant Dialogue(State(), st, event) == AfterRounds(doc, start, usePace, readPhoto, rounds)
        decreases last - rounds
      {
        WholeRead(doc, start, usePace, readPhoto, t1, t2, zone, rounds);
        var answered := Process(doc, st, event.apdu);
        OneRound(doc, start, usePace, readPhoto, rounds);
        event := Ready(answered.rapdu, NO_FAULTS);
        st := answered.state;
        rounds := rounds + 1;
      }
      WholeRead(doc, start, usePace, readPhoto, t1, t2, zone, rounds);
      AtTheEnd(doc, start, Dialogue(State(), st, event), rounds);
    }
  }

  lemma OneRound(doc: Document, ssc: Bytes, usePace: bool, readPhoto: bool, n: nat)
    requires doc.suite.Valid() && |ssc| == doc.suite.Block() && AfterRounds(doc, ssc, usePace, readPhoto, n).event.Say?
    ensures var d := AfterRounds(doc, ssc, usePace, readPhoto, n);
            && Connected(doc, d)
            && var a := Process(doc, d.document, d.event.apdu);
            var m := OnResponse(d.terminal, a.rapdu, NO_FAULTS);
            AfterRounds(doc, ssc, usePace, readPhoto, n + 1) == Dialogue(m.terminal, a.state, m.event)
  {
    hide Process, OnResponse, Opening;
  }

  lemma AtTheEnd(doc: Document, ssc: Bytes, d: Dialogue, n: nat)
    requires exists application: bool, selected: Option<Bytes> :: InStep(doc, ssc, d, n, application, selected)
    ensures !d.event.Say? ==> d.terminal.ssc == Advance(ssc, 2 * n)
  {
    hide Advance;
  }
}
