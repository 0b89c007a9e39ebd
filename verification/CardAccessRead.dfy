/** src/nfcd_client.c:1500-1523, 1588-1658 - the unprotected READ BINARY loop that fetches EF.CardAccess. */
module CardAccessRead {
  import opened BerTlv
  import opened ByteStrings
  import opened CardAccess

  const EF_CARDACCESS_MAX_LEN := 2048
  const MAX_ENTRIES := 8

  datatype State = State(bytes: Bytes, total: nat) {
    predicate Reading() {
      total <= EF_CARDACCESS_MAX_LEN && (total != 0 ==> |bytes| < total)
    }
  }

  const START := State([], 0)

  /** SELECT EF.CardAccess by its file identifier, without response data. */
  const SELECT_CARDACCESS: Bytes := [0x00, 0xA4, 0x02, 0x0C, 0x02, 0x01, 0x1C]

  /** READ BINARY at offset 0, as much as the chip gives. */
  const FIRST_READ: Bytes := [0x00, 0xB0, 0x00, 0x00, 0x00]

  function ReadCommand(offset: nat, remaining: nat): Bytes {
    [0x00, 0xB0, offset / 0x100 % 0x100, offset % 0x100, if remaining < 255 then remaining else 255]
  }

  datatype Step = ReadNext(apdu: Bytes) | Complete | Failed

  datatype Turn = Turn(state: State, step: Step)

  /** What one response does; None is a call that failed. */
  function AfterResponse(st: State, response: Option<Bytes>): (t: Turn)
    requires st.Reading()
    ensures t.step.ReadNext? ==>
      t.state.Reading() && t.state.total != 0 && |t.state.bytes| > |st.bytes| && (st.total != 0 ==> t.state.total == st.total)
  {
    if response.None? then Turn(st, Failed)
    else
      var r := response.value;
      var n := |r|;
      if n < 3 || r[n - 2] != 0x90 || r[n - 1] != 0x00 then Turn(st, Failed)
      else
        var more := st.(bytes := st.bytes + r[..n - 2]);
        var next :=
          if more.total != 0 then Some(more)
          else
            match TlvHeader(more.bytes)
            case None => None
            case Some(l) =>
              if l.header + l.content > EF_CARDACCESS_MAX_LEN then None else Some(more.(total := l.header + l.content));
        match next
        case None => Turn(more, Failed)
        case Some(s) =>
          if |s.bytes| < s.total then Turn(s, ReadNext(ReadCommand(|s.bytes|, s.total - |s.bytes|))) else Turn(s, Complete)
  }

  class CardAccessReader {
    var cardAccess: Bytes
    var totalLen: nat

    constructor ()
      ensures Current() == START
    {
      cardAccess, totalLen := [], 0;
    }

    function Current(): State
      reads this
    {
      State(cardAccess, totalLen)
    }

    method RestReady(response: Option<Bytes>) returns (step: Step)
      requires Current().Reading()
      modifies this
      ensures Turn(Current(), step) == AfterResponse(old(Current()), response)
    {
      if response.None? {
        return Failed;
      }
      var r := response.value;
      var ok := |r| >= 2 && r[|r| - 2] == 0x90 && r[|r| - 1] == 0x00;
      if !ok || |r| < 3 {
        return Failed;
      }
      cardAccess := cardAccess + r[..|r| - 2];
      if totalLen == 0 {
        var l := TlvHeader(cardAccess);
        if l.None? || l.value.header + l.value.content > EF_CARDACCESS_MAX_LEN {
          return Failed;
        }
        totalLen := l.value.header + l.value.content;
      }
      if |cardAccess| < totalLen {
        var offset, remaining := |cardAccess|, totalLen - |cardAccess|;
        return ReadNext([0x00, 0xB0, offset / 0x100 % 0x100, offset % 0x100, if remaining < 255 then remaining else 255]);
      }
      step := Complete;
    }
  }

  /** A response without 90 00 at its end or without data ends the read, and so does a call that fails. */
  lemma RefusalEndsFetch(st: State, response: Option<Bytes>)
    requires st.Reading()
    requires response.None? || |response.value| < 3
      || response.value[|response.value| - 2] != 0x90 || response.value[|response.value| - 1] != 0x00
    ensures AfterResponse(st, response) == Turn(st, Failed)
  {
  }

  /** The largest file is one of 2048 bytes. */
  lemma LargestCardAccess(st: State, chunk: Bytes)
    requires st.Reading() && st.total == 0 && chunk != [] && TlvHeader(st.bytes + chunk).Some?
    ensures var l := TlvHeader(st.bytes + chunk).value;
      AfterResponse(st, Some(chunk + SW_OK)).step == Failed <==> l.header + l.content > 2048
  {
    hide TlvHeader, ReadCommand;
    FirstChunkTaken(st, chunk + SW_OK, chunk);
  }

  lemma FirstChunkTaken(st: State, r: Bytes, chunk: Bytes)
    requires st.Reading() && st.total == 0 && chunk != [] && r == chunk + SW_OK
    requires TlvHeader(st.bytes + chunk).Some?
    ensures var l := TlvHeader(st.bytes + chunk).value; var t := AfterResponse(st, Some(r));
      if l.header + l.content > 2048 then t == Turn(State(st.bytes + chunk, 0), Failed)
      else t.state == State(st.bytes + chunk, l.header + l.content) && t.step != Failed
  {
    hide TlvHeader, ReadCommand;
    assert |r| == |chunk| + 2 && r[|r| - 2] == 0x90 && r[|r| - 1] == 0x00 && r[..|r| - 2] == chunk;
  }

  /* ---- whole runs ---- */

  /** How a run ended: the file if it was read, the total it declared if it got that far, and the number of commands. */
  datatype Outcome = Outcome(file: Option<Bytes>, total: nat, commands: nat)

  /**
   Runs the loop against any counterpart at all: what it answers may depend on the round and on
   the command. It takes one command, or at most as many as bytes were missing from the declared total.
   */
  function Drive(answer: (nat, Bytes) -> Option<Bytes>, round: nat, st: State, apdu: Bytes): (o: Outcome)
    requires st.Reading()
    ensures 1 <= o.commands && (o.commands == 1 || o.commands <= o.total - |st.bytes|)
    ensures o.total <= EF_CARDACCESS_MAX_LEN && (st.total != 0 ==> o.total == st.total)
    ensures o.file.Some? ==> st.bytes <= o.file.value && 0 < o.total <= |o.file.value|
    decreases if st.total == 0 then EF_CARDACCESS_MAX_LEN + 1 else st.total - |st.bytes|
  {
    var t := AfterResponse(st, answer(round, apdu));
    match t.step
    case ReadNext(next) =>
      var rest := Drive(answer, round + 1, t.state, next);
      rest.(commands := rest.commands + 1)
    case Complete => Outcome(Some(t.state.bytes), t.state.total, 1)
    case Failed => Outcome(None, t.state.total, 1)
  }

  function Driven(answer: (nat, Bytes) -> Option<Bytes>): Outcome {
    Drive(answer, 0, START, FIRST_READ)
  }

  /** The callbacks of one fetch, each with the answer to the command before it. */
  method FetchFile(answer: (nat, Bytes) -> Option<Bytes>) returns (file: Option<Bytes>)
    ensures file == Driven(answer).file
  {
    hide AfterResponse;
    var reader := new CardAccessReader();
    var apdu, round := FIRST_READ, 0;
    while true
      invariant reader.Current().Reading()
      invariant Drive(answer, round, reader.Current(), apdu).file == Driven(answer).file
      decreases var st := reader.Current(); if st.total == 0 then EF_CARDACCESS_MAX_LEN + 1 else st.total - |st.bytes|
    {
      var step := reader.RestReady(answer(round, apdu));
      match step {
        case ReadNext(next) =>
          apdu, round := next, round + 1;
        case Complete =>
          return Some(reader.cardAccess);
        case Failed =>
          return None;
      }
    }
  }

  /** From the answer to SELECT to the entry that is tried; none where the file could not be selected or read. */
  method SetUpPace(selected: Option<Bytes>, answer: (nat, Bytes) -> Option<Bytes>, setUp: PaceInfo -> bool) returns (pick: Option<Pick>)
    requires Driven(answer).file.Some? ==> AllRows(Looked(Driven(answer).file.value))
    ensures pick.Some? <==> selected == Some([0x90, 0x00]) && Driven(answer).file.Some?
    ensures pick.Some? ==>
      IsPickFrom(Take(EntriesOf(Looked(Driven(answer).file.value)), MAX_ENTRIES), setUp, pick.value)
  {
    hide Drive, Driven, IsPickFrom, Looked, EntriesOf, AllRows;
    if selected.None? || |selected.value| != 2 || selected.value[0] != 0x90 || selected.value[1] != 0x00 {
      return None;
    }
    assert selected.value == [0x90, 0x00];
    var file := FetchFile(answer);
    if file.None? {
      return None;
    }
    var entries := ParseCardAccess(file.value, MAX_ENTRIES);
    var chosen := PickPaceEntry(entries, setUp);
    pick := Some(chosen);
  }

  /**
   A document before any session: SELECT by identifier under P1 02 and P2 0C, and READ BINARY on what is
   selected. EF.CardAccess is file 011C of section 3.11.3 of ICAO Doc 9303-10.
   */
  datatype PlainTurn = PlainTurn(rapdu: Option<Bytes>, selected: Option<Bytes>)

  function PlainAnswer(files: map<Bytes, Bytes>, selected: Option<Bytes>, apdu: Bytes): PlainTurn {
    if |apdu| == 7 && apdu[..5] == [0x00, 0xA4, 0x02, 0x0C, 0x02] then
      if apdu[5..] in files then PlainTurn(Some([0x90, 0x00]), Some(apdu[5..])) else PlainTurn(Some([0x6A, 0x82]), selected)
    else if selected.Some? && selected.value in files then PlainTurn(PlainFile(files[selected.value], apdu), selected)
    else PlainTurn(Some([0x69, 0x86]), selected)
  }

  const EF_CARDACCESS: Bytes := [0x01, 0x1C]

  /** READ BINARY on a plain file: what there is from the offset on, up to what was asked for. */
  function PlainFile(file: Bytes, apdu: Bytes): Option<Bytes> {
    if |apdu| != 5 || apdu[0] != 0x00 || apdu[1] != 0xB0 then None
    else
      var offset := apdu[2] as nat * 0x100 + apdu[3] as nat;
      var wanted := if apdu[4] == 0 then 0x100 else apdu[4] as nat;
      if offset >= |file| then Some([0x6B, 0x00])
      else Some((if offset + wanted <= |file| then file[offset..offset + wanted] else file[offset..]) + SW_OK)
  }

  /** The document with EF.CardAccess selected. */
  function ServedFrom(files: map<Bytes, Bytes>): (nat, Bytes) -> Option<Bytes> {
    (round, apdu) => PlainAnswer(files, Some(EF_CARDACCESS), apdu).rapdu
  }

  lemma ServesItsFile(files: map<Bytes, Bytes>, round: nat, apdu: Bytes)
    requires EF_CARDACCESS in files && |apdu| == 5
    ensures ServedFrom(files)(round, apdu) == PlainFile(files[EF_CARDACCESS], apdu)
  {
  }

  function Chunks(n: int): nat {
    if n <= 0 then 0 else (n + 254) / 255
  }

  function Least(a: nat, b: nat): nat { if a < b then a else b }

  lemma ChunkServed(file: Bytes, n: nat, left: nat)
    requires 0 < left && n + left <= |file| && n + left <= EF_CARDACCESS_MAX_LEN
    ensures PlainFile(file, ReadCommand(n, left)) == Some(file[n..n + Least(left, 255)] + SW_OK)
  {
    var apdu := ReadCommand(n, left);
    assert apdu[2] as nat * 0x100 + apdu[3] as nat == n;
  }

  lemma ChunkAppended(st: State, chunk: Bytes)
    requires st.Reading() && chunk != []
    requires st.total != 0
    ensures var s := State(st.bytes + chunk, st.total);
      AfterResponse(st, Some(chunk + SW_OK))
      == Turn(s, if |s.bytes| < s.total then ReadNext(ReadCommand(|s.bytes|, s.total - |s.bytes|)) else Complete)
  {
    hide ReadCommand;
    assert (chunk + SW_OK)[..|chunk|] == chunk;
  }

  lemma {:induction false} RestArrives(files: map<Bytes, Bytes>, file: Bytes, round: nat, st: State)
    requires EF_CARDACCESS in files && files[EF_CARDACCESS] == file
    requires st.Reading() && 0 < st.total <= |file| && st.bytes == file[..|st.bytes|]
    ensures Drive(ServedFrom(files), round, st, ReadCommand(|st.bytes|, st.total - |st.bytes|))
      == Outcome(Some(file[..st.total]), st.total, Chunks(st.total - |st.bytes|))
    decreases st.total - |st.bytes|
  {
    hide AfterResponse, ReadCommand, PlainFile, Chunks;
    var n, left := |st.bytes|, st.total - |st.bytes|;
    var chunk := file[n..n + Least(left, 255)];
    ChunkServed(file, n, left);
    ChunkAppended(st, chunk);
    var next := State(file[..n + |chunk|], st.total);
    assert st.bytes + chunk == next.bytes;
    ReadCommandIsFive(n, left);
    ServesItsFile(files, round, ReadCommand(n, left));
    OneChunkLess(left);
    if left > 255 {
      RestArrives(files, file, round + 1, next);
    }
  }

  lemma ReadCommandIsFive(n: nat, left: nat)
    ensures |ReadCommand(n, left)| == 5
  {
  }

  lemma OneChunkLess(left: nat)
    requires left > 0
    ensures Chunks(left) == 1 + if left > 255 then Chunks(left - 255) else 0
  {
  }

  lemma HeaderInPrefix(s: Bytes, n: nat)
    requires n <= |s| && TlvHeader(s).Some? && (n >= 4 || n == |s|)
    ensures TlvHeader(s[..n]) == TlvHeader(s)
  {
    if n == |s| {
      assert s[..n] == s;
    } else {
      assert s[..n][1..] == s[1..n];
    }
  }

  lemma NoMoreChunks()
    ensures forall n :: n <= 0 ==> Chunks(n) == 0
  {
  }

  predicate Holds(file: Bytes, total: nat) {
    && TlvHeader(file).Some?
    && total == TlvHeader(file).value.header + TlvHeader(file).value.content
    && total <= |file| && total <= EF_CARDACCESS_MAX_LEN
  }

  lemma FirstAnswer(file: Bytes)
    requires file != []
    ensures PlainFile(file, FIRST_READ) == Some(file[..Least(|file|, 0x100)] + SW_OK)
  {
    assert file[0..] == file == file[..|file|];
  }

  lemma FirstChunk(file: Bytes, total: nat)
    requires Holds(file, total)
    ensures var chunk := file[..Least(|file|, 0x100)]; var s := State(chunk, total);
      && total > 0
      && PlainFile(file, FIRST_READ) == Some(chunk + SW_OK)
      && AfterResponse(START, Some(chunk + SW_OK))
        == Turn(s, if |chunk| < total then ReadNext(ReadCommand(|chunk|, total - |chunk|)) else Complete)
  {
    hide ReadCommand, TlvHeader, BerLength, PlainFile;
    var chunk := file[..Least(|file|, 0x100)];
    FirstAnswer(file);
    HeaderInPrefix(file, |chunk|);
    assert (chunk + SW_OK)[..|chunk|] == chunk && [] + chunk == chunk;
  }

  /**
   From a chip that serves the file, the loop ends with a prefix that holds the whole data object,
   after one command for the first 256 bytes and one for each 255 that are still missing.
   */
  lemma FileArrives(files: map<Bytes, Bytes>, file: Bytes, total: nat)
    requires EF_CARDACCESS in files && files[EF_CARDACCESS] == file && Holds(file, total)
    ensures Driven(ServedFrom(files))
      == Outcome(Some(file[..if total <= 0x100 then Least(|file|, 0x100) else total]), total, 1 + Chunks(total - 0x100))
  {
    hide ReadCommand, TlvHeader, AfterResponse, PlainFile, Chunks;
    FirstChunk(file, total);
    NoMoreChunks();
    var chunk := file[..Least(|file|, 0x100)];
    ServesItsFile(files, 0, FIRST_READ);
    if |chunk| < total {
      RestArrives(files, file, 1, State(chunk, total));
    }
  }

  /** What arrives is the whole set of SecurityInfos, so the parser sees each of them. */
  lemma SecurityInfosArrive(files: map<Bytes, Bytes>, infos: seq<SecurityInfo>, tail: Bytes)
    requires AllInfos(infos) && |SpelledAll(infos)| + 4 <= EF_CARDACCESS_MAX_LEN
    requires EF_CARDACCESS in files && files[EF_CARDACCESS] == CardAccessFile(infos) + tail
    ensures var o := Driven(ServedFrom(files));
      o.file.Some? && CardAccessFile(infos) <= o.file.value
  {
    var all := CardAccessFile(infos);
    EncodedAtFront(SET_TAG, SpelledAll(infos), tail);
    assert |all| == 1 + |EncodeLength(|SpelledAll(infos)|)| + |SpelledAll(infos)|;
    hide Driven, TlvHeader, Encode, SpelledAll;
    FileArrives(files, all + tail, |all|);
  }

  /**
   Against a document whose EF.CardAccess is a set of SecurityInfos, and anything after it, the terminal
   selects that file, reads it and tries the first supported of the first eight entries, or says which
   it found; a ninth entry is never tried.
   */
  method SetUpFromChip(files: map<Bytes, Bytes>, infos: seq<SecurityInfo>, tail: Bytes, setUp: PaceInfo -> bool) returns (pick: Pick)
    requires AllInfos(infos) && |SpelledAll(infos)| + 4 <= EF_CARDACCESS_MAX_LEN
    requires EF_CARDACCESS in files && files[EF_CARDACCESS] == CardAccessFile(infos) + tail
    ensures forall i: nat :: i < MAX_ENTRIES && IsFirstSupported(PaceInfos(infos), i) ==>
      pick == if setUp(PaceInfos(infos)[i]) then Picked(PaceInfos(infos)[i]) else SetUpFailed(PaceInfos(infos)[i])
    ensures (forall i :: 0 <= i < Least(|PaceInfos(infos)|, MAX_ENTRIES) ==> !Supported(PaceInfos(infos)[i])) ==>
      pick == if PaceInfos(infos) == [] then NothingListed else NothingSupported(Take(PaceInfos(infos), MAX_ENTRIES))
  {
    hide Driven, Looked, EntriesOf, AllRows, PaceInfos, SpelledAll, AllInfos, Supported, IsPickFrom;
    SecurityInfosArrive(files, infos, tail);
    var got := Driven(ServedFrom(files)).file.value;
    var rest := got[|CardAccessFile(infos)|..];
    assert got == CardAccessFile(infos) + rest;
    WellFormedFile(infos, rest);
    var selection := PlainAnswer(files, None, SELECT_CARDACCESS);
    SelectionIsAnswered(files);
    var found := SetUpPace(selection.rapdu, ServedFrom(files), setUp);
    pick := found.value;
    PickAmongFirst(PaceInfos(infos), setUp, pick);
  }

  /** The terminal's SELECT is understood: afterwards the document serves EF.CardAccess. */
  lemma SelectionIsAnswered(files: map<Bytes, Bytes>)
    requires EF_CARDACCESS in files
    ensures PlainAnswer(files, None, SELECT_CARDACCESS) == PlainTurn(Some([0x90, 0x00]), Some(EF_CARDACCESS))
  {
    assert SELECT_CARDACCESS[5..] == EF_CARDACCESS && SELECT_CARDACCESS[..5] == [0x00, 0xA4, 0x02, 0x0C, 0x02];
  }

  /** What a pick from the first eight entries means for all of them. */
  lemma PickAmongFirst(all: seq<PaceInfo>, setUp: PaceInfo -> bool, pick: Pick)
    requires IsPickFrom(Take(all, MAX_ENTRIES), setUp, pick)
    ensures forall i: nat :: i < MAX_ENTRIES && IsFirstSupported(all, i) ==>
      pick == if setUp(all[i]) then Picked(all[i]) else SetUpFailed(all[i])
    ensures (forall i :: 0 <= i < Least(|all|, MAX_ENTRIES) ==> !Supported(all[i])) ==>
      pick == if all == [] then NothingListed else NothingSupported(Take(all, MAX_ENTRIES))
  {
    hide Supported;
    var first := Take(all, MAX_ENTRIES);
    assert |first| == Least(|all|, MAX_ENTRIES) && forall i :: 0 <= i < |first| ==> first[i] == all[i];
    forall i: nat | i < MAX_ENTRIES && IsFirstSupported(all, i)
      ensures IsFirstSupported(first, i)
    {
    }
  }
}
