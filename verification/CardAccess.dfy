/**
 src/pace.c:41-156, src/nfcd_client.c:1525-1585 - EF.CardAccess: the PACEInfo entries it lists and
 the one the terminal runs. Lengths inside a SecurityInfo are not checked against the SecurityInfo,
 so its objects are taken to be well formed.
 */
module CardAccess {
  import opened BerTlv
  import opened ByteStrings

  const SET_TAG: Byte := 0x31
  const SEQUENCE_TAG: Byte := 0x30
  const OID_TAG: Byte := 0x06
  const INTEGER_TAG: Byte := 0x02

  const ID_PACE: Bytes := [0x04, 0x00, 0x7F, 0x00, 0x07, 0x02, 0x02, 0x04]
  const PACE_OID_AES128: Bytes := [0x04, 0x00, 0x7F, 0x00, 0x07, 0x02, 0x02, 0x04, 0x02, 0x02]
  const PACE_OID_AES256: Bytes := [0x04, 0x00, 0x7F, 0x00, 0x07, 0x02, 0x02, 0x04, 0x02, 0x04]
  const OID_MAX_LEN := 16

  datatype PaceInfo = PaceInfo(oid: Bytes, parameter: int)

  /* ---- what a SecurityInfo says ---- */

  /** A SecurityInfo is a sequence of data objects under a tag, usually 30. */
  datatype SecurityInfo = SecurityInfo(tag: Byte, parts: seq<Bytes>) {
    predicate Valid() {
      AllObjects(parts) && |Concat(parts)| < 0x1_0000
    }
  }

  function Spelled(info: SecurityInfo): Bytes
    requires info.Valid()
  {
    Encode(info.tag, Concat(info.parts))
  }

  predicate AllInfos(infos: seq<SecurityInfo>) {
    forall i :: 0 <= i < |infos| ==> infos[i].Valid()
  }

  function SpelledAll(infos: seq<SecurityInfo>): (s: Bytes)
    requires AllInfos(infos)
    ensures infos != [] ==> s != []
  {
    if infos == [] then [] else Spelled(infos[0]) + SpelledAll(infos[1..])
  }

  function Content(d: Bytes): (c: Bytes)
    requires IsObject(d)
    ensures |c| == TlvHeader(d).value.content
  {
    d[TlvHeader(d).value.header..]
  }

  predicate StartsWith(parts: seq<Bytes>, tag: Byte)
    requires AllObjects(parts)
  {
    parts != [] && parts[0][0] == tag
  }

  /** Four bytes as a signed 32-bit number. */
  function Signed32(n: nat): int
    requires n < 0x1_0000_0000
  {
    if n < 0x8000_0000 then n else n - 0x1_0000_0000
  }

  lemma PowersOf256()
    ensures Pow256(0) == 1 && Pow256(1) == 0x100 && Pow256(2) == 0x1_0000 && Pow256(3) == 0x100_0000
    ensures Pow256(4) == 0x1_0000_0000
  {
    assert Pow256(1) == 256 * Pow256(0);
    assert Pow256(2) == 256 * Pow256(1);
    assert Pow256(3) == 256 * Pow256(2);
  }

  /** The number in the trailing INTEGER, -1 where there is none of one to four bytes. */
  function ParameterOf(parts: seq<Bytes>): int
    requires AllObjects(parts)
  {
    if StartsWith(parts, INTEGER_TAG) && 1 <= |Content(parts[0])| <= 4 then
      ParameterFits(Content(parts[0]));
      Signed32(BigEndian(Content(parts[0])))
    else -1
  }

  lemma ParameterFits(c: Bytes)
    requires |c| <= 4
    ensures BigEndian(c) < 0x1_0000_0000
    ensures |c| <= 3 ==> BigEndian(c) < 0x100_0000
  {
    hide BigEndian, Pow256;
    PowersOf256();
  }

  /** The version is skipped where there is one; the parameter follows it. */
  function AfterVersion(parts: seq<Bytes>): (rest: seq<Bytes>)
    requires AllObjects(parts)
    ensures AllObjects(rest)
  {
    if StartsWith(parts, INTEGER_TAG) then parts[1..] else parts
  }

  /** The entry a SecurityInfo makes, if it is one for PACE: protocol, version, parameter. */
  function PaceInfoOf(parts: seq<Bytes>): Option<PaceInfo>
    requires AllObjects(parts)
  {
    if !StartsWith(parts, OID_TAG) || |Content(parts[0])| > OID_MAX_LEN || !(ID_PACE <= Content(parts[0])) then None
    else Some(PaceInfo(Content(parts[0]), ParameterOf(AfterVersion(parts[1..]))))
  }

  /** The entries in file order, up to the first element that is no sequence. */
  function PaceInfos(infos: seq<SecurityInfo>): (entries: seq<PaceInfo>)
    requires AllInfos(infos)
  {
    if infos == [] || infos[0].tag != SEQUENCE_TAG then []
    else
      match PaceInfoOf(infos[0].parts)
      case None => PaceInfos(infos[1..])
      case Some(e) => [e] + PaceInfos(infos[1..])
  }

  /* ---- reading objects off a row of them ---- */

  lemma FirstOfRow(parts: seq<Bytes>, tail: Bytes)
    requires AllObjects(parts) && parts != []
    ensures IsObject(parts[0])
    ensures var s := Concat(parts) + tail; var d := parts[0]; var l := TlvHeader(d).value;
      && TlvHeader(s) == TlvHeader(d) == Some(l)
      && s[0] == d[0] && |d| == l.header + l.content <= |s|
      && s[l.header..l.header + l.content] == Content(d)
      && s[|d|..] == Concat(parts[1..]) + tail
  {
    hide *;
    var rest := Concat(parts[1..]) + tail;
    RowSplits(parts, tail);
    ObjectAtFront(parts[0], rest);
  }

  lemma RowSplits(parts: seq<Bytes>, tail: Bytes)
    requires AllObjects(parts) && parts != []
    ensures IsObject(parts[0]) && Concat(parts) + tail == parts[0] + (Concat(parts[1..]) + tail)
  {
    hide IsObject;
  }

  lemma ObjectAtFront(d: Bytes, rest: Bytes)
    requires IsObject(d)
    ensures var s := d + rest; var l := TlvHeader(d).value;
      && TlvHeader(s) == TlvHeader(d) == Some(l)
      && s[0] == d[0] && |d| == l.header + l.content <= |s|
      && s[l.header..l.header + l.content] == Content(d)
      && s[|d|..] == rest
  {
    HeaderOfPrefix(d, rest);
    hide TlvHeader;
    FirstAndRest(d, rest, TlvHeader(d).value.header);
  }

  lemma FirstAndRest(d: Bytes, rest: Bytes, header: nat)
    requires header <= |d| && d != []
    ensures var s := d + rest; s[0] == d[0] && s[header..|d|] == d[header..] && s[|d|..] == rest
  {
  }

  lemma RowOfNothing(parts: seq<Bytes>)
    requires AllObjects(parts)
    ensures Concat(parts) == [] <==> parts == []
  {
    if parts != [] {
      assert parts[0] != [];
    }
  }

  /** The bytes of a number, folded in one at a time as a signed 32-bit value. */
  method ReadParameter(content: Bytes) returns (val: int)
    requires 1 <= |content| <= 4
    ensures BigEndian(content) < 0x1_0000_0000 && val == Signed32(BigEndian(content))
  {
    hide BigEndian;
    val := 0;
    BigEndianOfNothing();
    for i := 0 to |content|
      invariant BigEndian(content[..i]) < 0x1_0000_0000 && val == Signed32(BigEndian(content[..i]))
    {
      BigEndianOfOneMore(content, i);
      ParameterFits(content[..i]);
      ParameterFits(content[..i + 1]);
      val := Signed32(val * 0x100 + content[i] as int);
    }
    assert content[..|content|] == content;
  }

  lemma BigEndianOfNothing()
    ensures forall s: Bytes :: s == [] ==> BigEndian(s) == 0
  {
  }

  lemma BigEndianOfOneMore(s: Bytes, i: nat)
    requires i < |s|
    ensures BigEndian(s[..i + 1]) == BigEndian(s[..i]) * 256 + s[i] as nat
  {
    assert s[..i + 1][..i] == s[..i];
  }

  method ReadVersionAndParameter(s: Bytes, start: nat, end: nat, ghost parts: seq<Bytes>) returns (parameter: int)
    requires AllObjects(parts) && start <= end <= |s| && s[start..end] == Concat(parts)
    ensures parameter == ParameterOf(AfterVersion(parts))
  {
    hide TlvHeader, BigEndian, IsObject, Concat, Signed32;
    ghost var rest := parts;
    var p := start;
    parameter := -1;
    AtCursor(s, p, end, rest);
    if p < end && s[p] == INTEGER_TAG {
      Cursor(s, p, end, rest);
      var version := TlvHeader(s[p..end]);
      p, rest := p + version.value.header + version.value.content, rest[1..];
    }
    AtCursor(s, p, end, rest);
    if p < end && s[p] == INTEGER_TAG {
      Cursor(s, p, end, rest);
      var i := TlvHeader(s[p..end]);
      if 1 <= i.value.content <= 4 {
        parameter := ReadParameter(s[p + i.value.header..p + i.value.header + i.value.content]);
      }
    }
  }

  /** Reads one SecurityInfo, from the cursor behind its own header. */
  method ReadInfo(s: Bytes, start: nat, end: nat, ghost parts: seq<Bytes>) returns (entry: Option<PaceInfo>)
    requires AllObjects(parts) && start <= end <= |s| && s[start..end] == Concat(parts)
    ensures entry == PaceInfoOf(parts)
  {
    hide TlvHeader, BigEndian, IsObject, Concat;
    var p := start;
    AtCursor(s, p, end, parts);
    if p < end && s[p] == OID_TAG {
      Cursor(s, p, end, parts);
      var l := TlvHeader(s[p..end]);
      PrefixOf(ID_PACE, Content(parts[0]), s, p + l.value.header);
      if l.Some? && 0 < l.value.content <= OID_MAX_LEN && l.value.content >= |ID_PACE|
         && s[p + l.value.header..p + l.value.header + |ID_PACE|] == ID_PACE {
        var oid := s[p + l.value.header..p + l.value.header + l.value.content];
        assert oid == Content(parts[0]) && ID_PACE <= oid;
        var parameter := ReadVersionAndParameter(s, p + l.value.header + l.value.content, end, parts[1..]);
        return Some(PaceInfo(oid, parameter));
      }
    }
    entry := None;
  }

  lemma AtCursor(s: Bytes, p: nat, end: nat, parts: seq<Bytes>)
    requires p <= end <= |s| && AllObjects(parts) && s[p..end] == Concat(parts)
    ensures p < end <==> parts != []
    ensures p < end ==> parts[0] != [] && s[p] == parts[0][0]
  {
    RowOfNothing(parts);
    if p < end {
      Cursor(s, p, end, parts);
    }
  }

  lemma PrefixOf(prefix: Bytes, c: Bytes, s: Bytes, at: nat)
    requires at + |c| <= |s| && s[at..at + |c|] == c
    ensures |prefix| <= |c| ==> (s[at..at + |prefix|] == prefix <==> prefix <= c)
  {
    if |prefix| <= |c| {
      assert s[at..at + |prefix|] == c[..|prefix|];
    }
  }

  lemma Cursor(s: Bytes, p: nat, end: nat, parts: seq<Bytes>)
    requires p < end <= |s| && AllObjects(parts) && s[p..end] == Concat(parts)
    ensures parts != [] && TlvHeader(s[p..end]) == TlvHeader(parts[0]) && TlvHeader(parts[0]).Some?
    ensures var l := TlvHeader(parts[0]).value; var next := p + l.header + l.content;
      && s[p] == parts[0][0] && next <= end
      && s[p + l.header..next] == Content(parts[0])
      && s[next..end] == Concat(parts[1..])
  {
    hide TlvHeader, Concat, Content;
    RowOfNothing(parts);
    FirstOfRow(parts, []);
    var row := Concat(parts);
    assert row + [] == row && Concat(parts[1..]) + [] == Concat(parts[1..]);
    var l := TlvHeader(parts[0]).value;
    SliceOfSlice(s, p, end, l.header, l.header + l.content);
    SliceOfSlice(s, p, end, l.header + l.content, |row|);
  }

  /* ---- the whole file ---- */

  /** The file: a set of SecurityInfos, and whatever the file holds after it. */
  function CardAccessFile(infos: seq<SecurityInfo>): Bytes
    requires AllInfos(infos) && |SpelledAll(infos)| < 0x1_0000
  {
    Encode(0x31, SpelledAll(infos))
  }

  /** The contents of the sequences at the front of a string, up to the first thing that is none or does not fit. */
  function Sequences(s: Bytes): (cs: seq<Bytes>)
    decreases |s|
  {
    if s == [] || s[0] != SEQUENCE_TAG then []
    else
      match TlvHeader(s)
      case None => []
      case Some(l) =>
        var n := l.header + l.content;
        if n > |s| then [] else [s[l.header..n]] + Sequences(s[n..])
  }

  /** What of a file the parser looks at: the sequences in the set at its front, if there is one. */
  function Looked(data: Bytes): seq<Bytes> {
    if |data| < 2 || data[0] != SET_TAG then []
    else
      match TlvHeader(data)
      case None => []
      case Some(l) => if l.header + l.content > |data| then [] else Sequences(data[l.header..l.header + l.content])
  }

  /** A content that is a row of data objects, whole. */
  predicate IsRow(c: Bytes) {
    Split(c).Some? && Concat(Split(c).value) == c
  }

  predicate AllRows(cs: seq<Bytes>) {
    forall i :: 0 <= i < |cs| ==> IsRow(cs[i])
  }

  function EntryOf(c: Bytes): seq<PaceInfo>
    requires IsRow(c)
  {
    SplitSpellsInput(c);
    match PaceInfoOf(Split(c).value) case None => [] case Some(e) => [e]
  }

  /** The entries of a row of sequences, in order. */
  function EntriesOf(cs: seq<Bytes>): (entries: seq<PaceInfo>)
    requires AllRows(cs)
  {
    if cs == [] then [] else EntriesOf(cs[..|cs| - 1]) + EntryOf(cs[|cs| - 1])
  }

  lemma {:induction false} EntriesOfSum(a: seq<Bytes>, b: seq<Bytes>)
    requires AllRows(a + b)
    ensures AllRows(a) && AllRows(b) && EntriesOf(a + b) == EntriesOf(a) + EntriesOf(b)
    decreases |b|
  {
    hide EntryOf, IsRow;
    RowsSplit(a, b);
    if b == [] {
      assert a + b == a;
    } else {
      var n := |b| - 1;
      assert (a + b)[..|a + b| - 1] == a + b[..n];
      EntriesOfSum(a, b[..n]);
    }
  }

  lemma RowsSplit(a: seq<Bytes>, b: seq<Bytes>)
    requires AllRows(a + b)
    ensures AllRows(a) && AllRows(b)
    ensures b != [] ==> AllRows(a + b[..|b| - 1])
  {
    hide IsRow;
    assert forall i :: 0 <= i < |a| ==> (a + b)[i] == a[i];
    assert forall i :: 0 <= i < |b| ==> (a + b)[|a| + i] == b[i];
    if b != [] {
      assert forall i :: 0 <= i < |a| + |b| - 1 ==> (a + b[..|b| - 1])[i] == (a + b)[i];
    }
  }

  lemma EncodedAtFront(tag: Byte, content: Bytes, rest: Bytes)
    requires |content| < 0x1_0000
    ensures var s := Encode(tag, content) + rest; var h := 1 + |EncodeLength(|content|)|;
      && TlvHeader(s) == Some(Length(h, |content|)) && s[0] == tag && h + |content| <= |s|
      && s[h..h + |content|] == content && s[h + |content|..] == rest
  {
    EncodeIsObject(tag, content);
    HeaderOfPrefix(Encode(tag, content), rest);
    hide TlvHeader, EncodeLength;
  }

  /** One sequence more at the cursor, or the end of them. */
  lemma SequenceAtCursor(data: Bytes, pos: nat, end: nat)
    requires pos < end <= |data|
    ensures var s := data[pos..end]; var l := TlvHeader(s);
      if data[pos] != SEQUENCE_TAG || l.None? || pos + l.value.header + l.value.content > end then Sequences(s) == []
      else var next := pos + l.value.header + l.value.content;
        Sequences(s) == [data[pos + l.value.header..next]] + Sequences(data[next..end])
  {
    hide TlvHeader;
    var s := data[pos..end];
    var l := TlvHeader(s);
    if l.Some? && l.value.header + l.value.content <= |s| {
      SliceOfSlice(data, pos, end, l.value.header, l.value.header + l.value.content);
      SliceOfSlice(data, pos, end, l.value.header + l.value.content, |s|);
    }
  }

  /** No sequence more fits at the cursor. */
  predicate AtStop(data: Bytes, pos: nat, end: nat)
    requires pos < end <= |data|
  {
    var l := TlvHeader(data[pos..end]);
    data[pos] != SEQUENCE_TAG || l.None? || pos + l.value.header + l.value.content > end
  }

  lemma RowAtCursor(data: Bytes, pos: nat, end: nat, done: seq<Bytes>)
    requires pos < end <= |data| && AllRows(done + Sequences(data[pos..end]))
    ensures AtStop(data, pos, end) ==> done + Sequences(data[pos..end]) == done
    ensures !AtStop(data, pos, end) ==>
      var l := TlvHeader(data[pos..end]).value;
      var next := pos + l.header + l.content;
      var c := data[pos + l.header..next];
      && IsRow(c) && Split(c).Some? && AllObjects(Split(c).value) && Concat(Split(c).value) == c
      && AllRows(done) && AllRows(done + [c])
      && EntriesOf(done + [c]) == EntriesOf(done) + (match PaceInfoOf(Split(c).value) case None => [] case Some(e) => [e])
      && done + [c] + Sequences(data[next..end]) == done + Sequences(data[pos..end])
  {
    hide TlvHeader, PaceInfoOf, Sequences, IsRow, EntriesOf, EntryOf, AllRows, Concat, Split;
    SequenceAtCursor(data, pos, end);
    if !AtStop(data, pos, end) {
      var l := TlvHeader(data[pos..end]).value;
      var next := pos + l.header + l.content;
      var c := data[pos + l.header..next];
      RowsSplit(done, Sequences(data[pos..end]));
      RowOfOne(done, c, Sequences(data[next..end]));
      assert done + ([c] + Sequences(data[next..end])) == done + [c] + Sequences(data[next..end]);
    }
  }

  /** Whichever way the walk ends, its entries are the first of the row. */
  lemma WalkEnds(found: seq<Bytes>, done: seq<Bytes>, rest: seq<Bytes>, maxEntries: nat)
    requires AllRows(found) && found == done + rest && AllRows(done)
    requires rest == [] || |EntriesOf(done)| == maxEntries
    requires |EntriesOf(done)| <= maxEntries
    ensures EntriesOf(done) == Take(EntriesOf(found), maxEntries)
  {
    hide EntriesOf, AllRows;
    EntriesOfSum(done, rest);
    if rest == [] {
      assert found == done;
    }
  }

  /** Reads the sequences of a set. */
  method ReadSequences(data: Bytes, start: nat, end: nat, maxEntries: nat) returns (entries: seq<PaceInfo>)
    requires start <= end <= |data| && AllRows(Sequences(data[start..end]))
    ensures entries == Take(EntriesOf(Sequences(data[start..end])), maxEntries)
  {
    hide TlvHeader, PaceInfoOf, Sequences, IsRow, EntriesOf, EntryOf, AllRows, Take, Concat, Split;
    ghost var found, done: seq<Bytes> := Sequences(data[start..end]), [];
    entries := [];
    var pos := start;
    NoEntries();
    assert [] + found == found;
    while pos < end && |entries| < maxEntries
      invariant pos <= end && found == done + Sequences(data[pos..end])
      invariant AllRows(done) && entries == EntriesOf(done) && |entries| <= maxEntries
      decreases end - pos
    {
      RowAtCursor(data, pos, end, done);
      var l := TlvHeader(data[pos..end]);
      if data[pos] != SEQUENCE_TAG || l.None? {
        WalkEnds(found, done, [], maxEntries);
        return;
      }
      var next := pos + l.value.header + l.value.content;
      if next > end {
        WalkEnds(found, done, [], maxEntries);
        return;
      }
      ghost var c := data[pos + l.value.header..next];
      var entry := ReadInfo(data, pos + l.value.header, next, Split(c).value);
      if entry.Some? {
        entries := entries + [entry.value];
      }
      pos, done := next, done + [c];
    }
    if pos >= end {
      assert data[pos..end] == [];
      NoSequences();
    }
    WalkEnds(found, done, Sequences(data[pos..end]), maxEntries);
  }

  /** src/pace.c:87-156. Of any file, the first entries of what the parser looks at. */
  method ParseCardAccess(data: Bytes, maxEntries: nat) returns (entries: seq<PaceInfo>)
    requires AllRows(Looked(data))
    ensures entries == Take(EntriesOf(Looked(data)), maxEntries)
  {
    hide TlvHeader, Sequences, EntriesOf, AllRows;
    NoEntries();
    if |data| < 2 || data[0] != SET_TAG {
      return [];
    }
    var outer := TlvHeader(data);
    if outer.None? || outer.value.header + outer.value.content > |data| {
      return [];
    }
    entries := ReadSequences(data, outer.value.header, outer.value.header + outer.value.content, maxEntries);
  }

  lemma NoEntries()
    ensures AllRows([]) && EntriesOf([]) == []
  {
  }

  lemma OneEntry(c: Bytes)
    requires IsRow(c)
    ensures EntriesOf([c]) == EntryOf(c)
  {
    var cs := [c];
    assert cs[..0] == [];
    hide EntryOf, IsRow;
  }

  lemma NoSequences()
    ensures Sequences([]) == []
  {
  }

  lemma RowOfOne(done: seq<Bytes>, c: Bytes, rest: seq<Bytes>)
    requires AllRows(done) && AllRows(done + ([c] + rest))
    ensures IsRow(c) && Split(c).Some? && AllObjects(Split(c).value) && Concat(Split(c).value) == c && AllRows(done + [c])
    ensures EntryOf(c) == match PaceInfoOf(Split(c).value) case None => [] case Some(e) => [e]
    ensures EntriesOf(done + [c]) == EntriesOf(done) + EntryOf(c)
  {
    assert (done + ([c] + rest))[|done|] == c;
    SplitSpellsInput(c);
    assert (done + [c])[..|done|] == done;
    hide PaceInfoOf, Split, Concat;
  }

  /* ---- well-formed files ---- */

  /** The contents of the SecurityInfos up to the first that is no sequence. */
  function Rows(infos: seq<SecurityInfo>): seq<Bytes>
  {
    if infos == [] || infos[0].tag != SEQUENCE_TAG then [] else [Concat(infos[0].parts)] + Rows(infos[1..])
  }

  lemma {:induction false} SequencesOfSpelled(infos: seq<SecurityInfo>)
    requires AllInfos(infos)
    ensures Sequences(SpelledAll(infos)) == Rows(infos)
  {
    hide TlvHeader, Encode, EncodeLength, Concat;
    if infos != [] {
      assert infos[0].Valid();
      var content, rest := Concat(infos[0].parts), SpelledAll(infos[1..]);
      EncodedAtFront(infos[0].tag, content, rest);
      SequencesOfSpelled(infos[1..]);
    }
  }

  lemma {:induction false} EntriesOfRows(infos: seq<SecurityInfo>)
    requires AllInfos(infos)
    ensures AllRows(Rows(infos)) && EntriesOf(Rows(infos)) == PaceInfos(infos)
  {
    hide PaceInfoOf, EntryOf, IsRow, Concat, Split;
    if infos != [] && infos[0].tag == SEQUENCE_TAG {
      EntriesOfRows(infos[1..]);
      var c := Concat(infos[0].parts);
      RowOfInfo(infos[0]);
      assert AllRows([c] + Rows(infos[1..]));
      EntriesOfSum([c], Rows(infos[1..]));
      OneEntry(c);
    }
  }

  lemma RowOfInfo(info: SecurityInfo)
    requires info.Valid()
    ensures IsRow(Concat(info.parts))
    ensures EntryOf(Concat(info.parts)) == match PaceInfoOf(info.parts) case None => [] case Some(e) => [e]
  {
    SplitAll(info.parts);
    hide PaceInfoOf, Split, Concat;
  }

  /** Of a well-formed file, and whatever follows it, the entries are those of its SecurityInfos in file order. */
  lemma WellFormedFile(infos: seq<SecurityInfo>, tail: Bytes)
    requires AllInfos(infos) && |SpelledAll(infos)| < 0x1_0000
    ensures AllRows(Looked(CardAccessFile(infos) + tail))
    ensures EntriesOf(Looked(CardAccessFile(infos) + tail)) == PaceInfos(infos)
  {
    EncodedAtFront(SET_TAG, SpelledAll(infos), tail);
    SequencesOfSpelled(infos);
    EntriesOfRows(infos);
    hide TlvHeader, Encode, Sequences, SpelledAll, Rows, IsRow, EntriesOf, PaceInfos;
  }

  /* ---- the entry that is run ---- */

  datatype NamedCurve = NistP256 | BrainpoolP256r1 | BrainpoolP320r1

  /** The session key length a protocol asks for, 0 for one the terminal does not run. */
  function KeyLenOf(oid: Bytes): nat {
    if oid == PACE_OID_AES128 then 16 else if oid == PACE_OID_AES256 then 32 else 0
  }

  function CurveOf(parameter: int): Option<NamedCurve> {
    match parameter
    case 12 => Some(NistP256)
    case 13 => Some(BrainpoolP256r1)
    case 14 => Some(BrainpoolP320r1)
    case _ => None
  }

  predicate Supported(e: PaceInfo) {
    KeyLenOf(e.oid) != 0 && CurveOf(e.parameter).Some?
  }

  datatype Pick =
    | Picked(entry: PaceInfo)
    | SetUpFailed(entry: PaceInfo)
    | NothingListed
    | NothingSupported(found: seq<PaceInfo>)

  predicate IsFirstSupported(entries: seq<PaceInfo>, i: nat) {
    i < |entries| && Supported(entries[i]) && forall k :: 0 <= k < i ==> !Supported(entries[k])
  }

  /** The outcome for these entries: the first supported one is tried, or the terminal says why there is none. */
  ghost predicate IsPickFrom(entries: seq<PaceInfo>, setUp: PaceInfo -> bool, pick: Pick) {
    && (pick == NothingListed <==> entries == [])
    && (pick.NothingSupported? <==> entries != [] && forall i :: 0 <= i < |entries| ==> !Supported(entries[i]))
    && (pick.NothingSupported? ==> pick.found == entries)
    && (forall i: nat :: IsFirstSupported(entries, i) ==>
          pick == if setUp(entries[i]) then Picked(entries[i]) else SetUpFailed(entries[i]))
  }

  /** src/nfcd_client.c:1535-1584. setUp says whether an exchange could be allocated for an entry. */
  method PickPaceEntry(entries: seq<PaceInfo>, setUp: PaceInfo -> bool) returns (pick: Pick)
    ensures IsPickFrom(entries, setUp, pick)
  {
    for i := 0 to |entries|
      invariant forall k :: 0 <= k < i ==> !Supported(entries[k])
    {
      if KeyLenOf(entries[i].oid) == 0 {
        continue;
      }
      var curve := CurveOf(entries[i].parameter);
      if curve.None? {
        continue;
      }
      if !setUp(entries[i]) {
        return SetUpFailed(entries[i]);
      }
      return Picked(entries[i]);
    }
    if |entries| == 0 {
      return NothingListed;
    }
    pick := NothingSupported(entries);
  }
}
