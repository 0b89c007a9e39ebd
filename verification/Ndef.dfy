/**
 NDEF messages, section 3.2 of NFCForum-TS-NDEF_1.0: records and their bytes, and what the
 adapter shows of them.
 */
module Ndef {
  import opened ByteStrings

  const TNF_WELL_KNOWN := 1
  const TNF_MEDIA := 2
  const TNF_ABSOLUTE_URI := 3
  const TNF_EXTERNAL := 4

  datatype NdefRecord = NdefRecord(tnf: nat, kind: Bytes, id: Bytes, payload: Bytes)

  /* The header byte: MB 80, ME 40, CF 20, SR 10, IL 08 and the type name format in the low three bits. */

  predicate MessageEnd(header: Byte) { header / 0x40 % 2 == 1 }

  predicate ShortRecord(header: Byte) { header / 0x10 % 2 == 1 }

  predicate HasIdLength(header: Byte) { header / 0x08 % 2 == 1 }

  /** What a record says before its type field, and how many bytes it takes to say it. */
  datatype Fields = Fields(header: Byte, kindLen: nat, idLen: nat, payloadLen: nat, size: nat)

  function ParseFields(s: Bytes): (r: Option<Fields>)
    ensures r.Some? ==> 3 <= r.value.size <= |s|
  {
    if |s| < 2 then None
    else
      var header, kindLen := s[0], s[1] as nat;
      var pos := if ShortRecord(header) then 3 else 6;
      if |s| < pos then None
      else
        var payloadLen := if ShortRecord(header) then s[2] as nat else BigEndian(s[2..6]);
        if !HasIdLength(header) then Some(Fields(header, kindLen, 0, payloadLen, pos))
        else if pos >= |s| then None
        else Some(Fields(header, kindLen, s[pos], payloadLen, pos + 1))
  }

  /** One parsed record, whether it ends the message, and how many bytes it took. */
  datatype Parsed = Parsed(record: NdefRecord, last: bool, size: nat)

  function ParseRecord(s: Bytes): (r: Option<Parsed>)
    ensures r.Some? ==>
      3 + |r.value.record.kind| + |r.value.record.id| + |r.value.record.payload| <= r.value.size <= |s|
  {
    match ParseFields(s)
    case None => None
    case Some(f) =>
      var id := f.size + f.kindLen;
      var payload := id + f.idLen;
      var end := payload + f.payloadLen;
      if end > |s| then None
      else Some(Parsed(NdefRecord(f.header % 8, s[f.size..id], s[id..payload], s[payload..end]), MessageEnd(f.header), end))
  }

  /** The records of a message: up to the one with the end flag, or to the end of the bytes. */
  function Decode(s: Bytes): (r: Option<seq<NdefRecord>>)
    decreases |s|
  {
    if s == [] then Some([])
    else
      match ParseRecord(s)
      case None => None
      case Some(p) => if p.last then Some([p.record]) else Prepend([p.record], Decode(s[p.size..]))
  }

  lemma {:induction false} DecodedPayloadsAreShorter(s: Bytes)
    requires Decode(s).Some?
    ensures forall r :: r in Decode(s).value ==> |r.payload| + |r.kind| + 3 <= |s|
    decreases |s|
  {
    if s != [] {
      var p := ParseRecord(s).value;
      if !p.last {
        DecodedPayloadsAreShorter(s[p.size..]);
      }
    }
  }

  /* ---- what is shown of a record ---- */

  /** What the text library does with UTF-16 and with doubtful UTF-8. */
  datatype TextLibrary = TextLibrary(utf16ToUtf8: Bytes -> Option<Bytes>, isUtf8: Bytes -> bool)

  datatype Shown =
    | Nothing
    | Uri(uri: Bytes)
    | Text(text: Bytes, language: Bytes, utf16: bool)
    | SmartPoster(records: seq<RecordJson>)
    | UnreadableSmartPoster
    | Media(mediaType: Option<Bytes>, content: Option<Bytes>)
    | External(externalType: Option<Bytes>)

  datatype RecordJson = RecordJson(record: NdefRecord, typeText: Option<Bytes>, shown: Shown)

  /** A type field that is printable ASCII throughout, as text. */
  function TypeText(kind: Bytes): Option<Bytes> {
    if kind == [] || exists i :: 0 <= i < |kind| && (kind[i] < 0x20 || kind[i] > 0x7E) then None else Some(kind)
  }

  const URI_PREFIXES: seq<string> := [
    "", "http://www.", "https://www.", "http://", "https://", "tel:", "mailto:",
    "ftp://anonymous:anonymous@", "ftp://ftp.", "ftps://", "sftp://", "smb://", "nfs://", "ftp://",
    "dav://", "news:", "telnet://", "imap:", "rtsp://", "urn:", "pop:", "sip:", "sips:", "tftp:",
    "btspp://", "btl2cap://", "btgoep://", "tcpobex://", "irdaobex://", "file://",
    "urn:epc:id:", "urn:epc:tag:", "urn:epc:pat:", "urn:epc:raw:", "urn:epc:", "urn:nfc:"]

  function UriPrefix(code: nat): Bytes {
    if code < |URI_PREFIXES| then Ascii(URI_PREFIXES[code]) else []
  }

  function DecodeUri(payload: Bytes): Option<Bytes> {
    if payload == [] then None else Some(UriPrefix(payload[0]) + CString(payload[1..]))
  }

  function DecodeText(lib: TextLibrary, payload: Bytes): (r: Option<Shown>)
    ensures r.Some? ==> r.value.Text?
  {
    if payload == [] then None
    else
      var langLen := payload[0] % 0x40;
      if |payload| < 1 + langLen then None
      else
        var language, rest := CString(payload[1..1 + langLen]), payload[1 + langLen..];
        if payload[0] >= 0x80 then
          match lib.utf16ToUtf8(rest[..|rest| / 2 * 2])
          case None => None
          case Some(text) => Some(Text(text, language, true))
        else Some(Text(CString(rest), language, false))
  }

  function ShowMedia(lib: TextLibrary, r: NdefRecord): (shown: Shown)
    ensures shown.Media?
  {
    match TypeText(r.kind)
    case None => Media(None, None)
    case Some(t) =>
      Media(Some(t), if Ascii("text/") <= t && lib.isUtf8(r.payload) then Some(CString(r.payload)) else None)
  }

  /** A record as shown; a Smart Poster is a message of its own inside the payload. */
  function RecordToJson(lib: TextLibrary, r: NdefRecord): RecordJson
    decreases |r.payload|, 3
  {
    var shown :=
      if r.tnf == TNF_WELL_KNOWN then
        if r.kind == Ascii("U") then
          match DecodeUri(r.payload) case None => Nothing case Some(u) => Uri(u)
        else if r.kind == Ascii("T") then
          match DecodeText(lib, r.payload) case None => Nothing case Some(t) => t
        else if r.kind == Ascii("Sp") then
          match MessageToJson(lib, r.payload) case None => UnreadableSmartPoster case Some(js) => SmartPoster(js)
        else Nothing
      else if r.tnf == TNF_MEDIA then ShowMedia(lib, r)
      else if r.tnf == TNF_ABSOLUTE_URI then Uri(CString(r.payload))
      else if r.tnf == TNF_EXTERNAL then External(TypeText(r.kind))
      else Nothing;
    RecordJson(r, TypeText(r.kind), shown)
  }

  function RecordsToJson(lib: TextLibrary, rs: seq<NdefRecord>, bound: nat): (js: seq<RecordJson>)
    requires forall r :: r in rs ==> |r.payload| < bound
    ensures |js| == |rs|
    decreases bound, 1, |rs|
  {
    if rs == [] then []
    else
      assert rs[|rs| - 1] in rs;
      RecordsToJson(lib, rs[..|rs| - 1], bound) + [RecordToJson(lib, rs[|rs| - 1])]
  }

  function MessageToJson(lib: TextLibrary, s: Bytes): Option<seq<RecordJson>>
    decreases |s|, 2
  {
    if s == [] then None
    else
      match Decode(s)
      case None => None
      case Some(rs) =>
        DecodedPayloadsAreShorter(s);
        Some(RecordsToJson(lib, rs, |s|))
  }

  /* ---- records as bytes ---- */

  /** A record and the two choices its printer has. */
  datatype Layout = Layout(record: NdefRecord, short: bool, withIdLength: bool) {
    predicate Valid() {
      && record.tnf < 8 && |record.kind| < 0x100 && |record.id| < 0x100 && |record.payload| < 0x1_0000_0000
      && (short ==> |record.payload| < 0x100)
      && (!withIdLength ==> record.id == [])
    }
  }

  function FourBytes(n: nat): (s: Bytes)
    requires n < 0x1_0000_0000
    ensures |s| == 4
  {
    var q1 := n / 0x100;
    var q2 := q1 / 0x100;
    [q2 / 0x100, q2 % 0x100, q1 % 0x100, n % 0x100]
  }

  lemma FourBytesSpell(n: nat)
    requires n < 0x1_0000_0000
    ensures BigEndian(FourBytes(n)) == n
  {
    hide BigEndian;
    var s := FourBytes(n);
    FourBytesValue(s[0], s[1], s[2], s[3]);
  }

  lemma FourBytesValue(a: Byte, b: Byte, c: Byte, d: Byte)
    ensures BigEndian([a, b, c, d]) == a as nat * 0x100_0000 + b as nat * 0x1_0000 + c as nat * 0x100 + d as nat
  {
    assert [a, b, c, d][..3] == [a, b, c] && [a, b, c][..2] == [a, b] && [a, b][..1] == [a] && [a][..0] == [];
    assert BigEndian([a]) == a as nat;
    assert BigEndian([a, b]) == BigEndian([a]) * 256 + b as nat;
    assert BigEndian([a, b, c]) == BigEndian([a, b]) * 256 + c as nat;
  }

  function HeaderByte(first: bool, last: bool, l: Layout): Byte
    requires l.Valid()
  {
    (if first then 0x80 else 0) + (if last then 0x40 else 0) + (if l.short then 0x10 else 0)
    + (if l.withIdLength then 0x08 else 0) + l.record.tnf
  }

  function PrintRecord(first: bool, last: bool, l: Layout): (s: Bytes)
    requires l.Valid()
    ensures |s| >= 3
  {
    [HeaderByte(first, last, l), |l.record.kind|]
    + (if l.short then [|l.record.payload|] else FourBytes(|l.record.payload|))
    + (if l.withIdLength then [|l.record.id|] else [])
    + l.record.kind + l.record.id + l.record.payload
  }

  /** A message: the first record flagged as such, the last one as the end. */
  function Print(first: bool, ls: seq<Layout>): Bytes
    requires forall l :: l in ls ==> l.Valid()
  {
    if ls == [] then [] else PrintRecord(first, |ls| == 1, ls[0]) + Print(false, ls[1..])
  }

  function Records(ls: seq<Layout>): seq<NdefRecord> {
    if ls == [] then [] else [ls[0].record] + Records(ls[1..])
  }
}
