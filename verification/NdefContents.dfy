/**
 What people put on tags, written as the NFC Forum's definitions say: NFCForum-TS-RTD_URI_1.0,
 NFCForum-TS-RTD_Text_1.0, NFCForum-SmartPoster_RTD_1.0 and section 3.2.6 of NFCForum-TS-NDEF_1.0.
 Everything written this way is shown as what it is, however deeply it is nested.
 */
module NdefContents {
  import opened ByteStrings
  import opened Ndef
  import opened NdefTheorems
  import W = NdefWriting

  datatype Content =
    | Link(code: Byte, rest: Bytes)
    | Note(language: Bytes, text: Bytes)
    | WideNote(language: Bytes, units: Bytes)
    | Poster(items: seq<Item>)
    | Attachment(mediaType: Bytes, data: Bytes)
    | Address(typeField: Bytes, uri: Bytes)
    | Foreign(name: Bytes, data: Bytes)

  /** A content in a record, with the choices its printer has. */
  datatype Item = Item(content: Content, id: Bytes, short: bool, withIdLength: bool)

  /* ---- writing ---- */

  function Written(item: Item): Layout
    decreases item
  {
    var r :=
      match item.content
      case Link(code, rest) => NdefRecord(1, [0x55], item.id, [code] + rest)
      case Note(language, text) => NdefRecord(1, [0x54], item.id, [|language| % 0x40] + language + text)
      case WideNote(language, units) => NdefRecord(1, [0x54], item.id, [0x80 + |language| % 0x40] + language + units)
      case Poster(items) =>
        var ls := seq(|items|, i requires 0 <= i < |items| => Written(items[i]));
        NdefRecord(1, [0x53, 0x70], item.id, if AllValid(ls) then Print(true, ls) else [])
      case Attachment(mediaType, data) => NdefRecord(2, mediaType, item.id, data)
      case Address(typeField, uri) => NdefRecord(3, typeField, item.id, uri)
      case Foreign(name, data) => NdefRecord(4, name, item.id, data);
    Layout(r, item.short, item.withIdLength)
  }

  /** The item fits its record, and so does everything inside it. */
  predicate Writable(item: Item)
    decreases item
  {
    && Written(item).Valid()
    && match item.content
       case Note(language, _) => |language| < 0x40
       case WideNote(language, _) => |language| < 0x40
       case Poster(items) => items != [] && forall i :: 0 <= i < |items| ==> Writable(items[i])
       case _ => true
  }

  predicate AllWritable(items: seq<Item>) {
    forall i :: 0 <= i < |items| ==> Writable(items[i])
  }

  function AllWritten(items: seq<Item>): (ls: seq<Layout>)
    ensures |ls| == |items| && forall i :: 0 <= i < |items| ==> ls[i] == Written(items[i])
  {
    seq(|items|, i requires 0 <= i < |items| => Written(items[i]))
  }

  lemma WrittenAreValid(items: seq<Item>)
    requires AllWritable(items)
    ensures AllValid(AllWritten(items))
  {
    hide Written;
    forall l | l in AllWritten(items) ensures l.Valid() {
      var i :| 0 <= i < |items| && AllWritten(items)[i] == l;
      assert Writable(items[i]);
    }
  }

  function Message(items: seq<Item>): Bytes
    requires AllWritable(items)
  {
    WrittenAreValid(items);
    Print(true, AllWritten(items))
  }

  /* ---- what there is to see ---- */

  /** Table 3 of the URI definition. */
  function Abbreviated(code: Byte): string {
    match code
    case 0x01 => "http://www."
    case 0x02 => "https://www."
    case 0x03 => "http://"
    case 0x04 => "https://"
    case 0x05 => "tel:"
    case 0x06 => "mailto:"
    case 0x07 => "ftp://anonymous:anonymous@"
    case 0x08 => "ftp://ftp."
    case 0x09 => "ftps://"
    case 0x0A => "sftp://"
    case 0x0B => "smb://"
    case 0x0C => "nfs://"
    case 0x0D => "ftp://"
    case 0x0E => "dav://"
    case 0x0F => "news:"
    case 0x10 => "telnet://"
    case 0x11 => "imap:"
    case 0x12 => "rtsp://"
    case 0x13 => "urn:"
    case 0x14 => "pop:"
    case 0x15 => "sip:"
    case 0x16 => "sips:"
    case 0x17 => "tftp:"
    case 0x18 => "btspp://"
    case 0x19 => "btl2cap://"
    case 0x1A => "btgoep://"
    case 0x1B => "tcpobex://"
    case 0x1C => "irdaobex://"
    case 0x1D => "file://"
    case 0x1E => "urn:epc:id:"
    case 0x1F => "urn:epc:tag:"
    case 0x20 => "urn:epc:pat:"
    case 0x21 => "urn:epc:raw:"
    case 0x22 => "urn:epc:"
    case 0x23 => "urn:nfc:"
    case _ => ""
  }

  predicate Graphic(s: Bytes) {
    s != [] && forall i :: 0 <= i < |s| ==> ' ' as int <= s[i] <= '~' as int
  }

  function WideShown(lib: TextLibrary, language: Bytes, units: Bytes): Shown {
    match lib.utf16ToUtf8(if |units| % 2 == 0 then units else units[..|units| - 1])
    case None => Nothing
    case Some(text) => Text(text, CString(language), true)
  }

  /** The media type if it is one, and the text of a text type. */
  function AttachmentShown(lib: TextLibrary, mediaType: Bytes, data: Bytes): Shown {
    if !Graphic(mediaType) then Media(None, None)
    else if |mediaType| >= 5 && mediaType[..5] == [0x74, 0x65, 0x78, 0x74, 0x2F] && lib.isUtf8(data) then
      Media(Some(mediaType), Some(CString(data)))
    else Media(Some(mediaType), None)
  }

  /** Beside the content every record shows itself and its type, if that is text. */
  predicate ShowsRecord(j: RecordJson, r: NdefRecord) {
    j.record == r && j.typeText == if Graphic(r.kind) then Some(r.kind) else None
  }

  /** How a content is to be shown; C strings end at a NUL, and wide text is whole units of two bytes. */
  predicate IsShown(lib: TextLibrary, item: Item, shown: Shown)
    decreases item
  {
    match item.content
    case Link(code, rest) => shown == Uri(Ascii(Abbreviated(code)) + CString(rest))
    case Note(language, text) => shown == Text(CString(text), CString(language), false)
    case WideNote(language, units) =>
      shown == WideShown(lib, language, units)
    case Poster(items) =>
      && shown.SmartPoster? && |shown.records| == |items|
      && (forall i :: 0 <= i < |items| ==>
            ShowsRecord(shown.records[i], Written(items[i]).record) && IsShown(lib, items[i], shown.records[i].shown))
    case Attachment(mediaType, data) =>
      shown == AttachmentShown(lib, mediaType, data)
    case Address(_, uri) => shown == Uri(CString(uri))
    case Foreign(name, _) => shown == External(if Graphic(name) then Some(name) else None)
  }

  /* ---- the theorems ---- */

  lemma PrefixesAgree(code: Byte)
    ensures UriPrefix(code) == Ascii(Abbreviated(code))
  {
    hide Ascii;
    if code >= |URI_PREFIXES| {
      EmptyText();
    }
  }

  lemma EmptyText()
    ensures Ascii("") == []
  {
  }

  lemma Names()
    ensures Ascii("U") == [0x55] && Ascii("T") == [0x54] && Ascii("Sp") == [0x53, 0x70]
    ensures Ascii("text/") == [0x74, 0x65, 0x78, 0x74, 0x2F]
  {
  }

  lemma GraphicTypes(s: Bytes)
    ensures TypeText(s) == if Graphic(s) then Some(s) else None
  {
  }

  lemma RecordsAt(ls: seq<Layout>, i: nat)
    requires i < |ls|
    ensures |Records(ls)| == |ls| && Records(ls)[i] == ls[i].record
  {
    if i > 0 {
      RecordsAt(ls[1..], i - 1);
    } else if |ls| > 1 {
      RecordsAt(ls[1..], 0);
    }
  }

  /** A printed message is shown record by record, whatever follows it. */
  lemma PrintedMessageIsShown(lib: TextLibrary, ls: seq<Layout>, tail: Bytes)
    requires ls != [] && AllValid(ls)
    ensures var shown := MessageToJson(lib, Print(true, ls) + tail);
      && shown.Some? && |shown.value| == |ls|
      && forall i :: 0 <= i < |ls| ==> shown.value[i] == RecordToJson(lib, ls[i].record)
  {
    hide Decode, Print, RecordToJson, RecordsToJson, Records;
    var s := Print(true, ls) + tail;
    DecodeInvertsPrint(true, ls, tail);
    RecordsAt(ls, 0);
    assert s != [] by {
      PrintedIsNotEmpty(ls);
    }
    DecodedPayloadsAreShorter(s);
    forall i | 0 <= i < |ls|
      ensures MessageToJson(lib, s).value[i] == RecordToJson(lib, ls[i].record)
    {
      RecordsAt(ls, i);
      EachRecordIsRendered(lib, Records(ls), |s|, i);
    }
  }

  lemma PrintedIsNotEmpty(ls: seq<Layout>)
    requires ls != [] && AllValid(ls)
    ensures Print(true, ls) != []
  {
    hide PrintRecord;
  }

  /** A Smart Poster shows the records of the message in its payload, each as it would be shown by itself. */
  lemma PosterShowsItsRecords(lib: TextLibrary, r: NdefRecord, ls: seq<Layout>)
    requires ls != [] && AllValid(ls) && r.tnf == 1 && r.kind == [0x53, 0x70] && r.payload == Print(true, ls)
    ensures var j := RecordToJson(lib, r);
      && j.record == r && j.shown.SmartPoster? && |j.shown.records| == |ls| == |Records(ls)|
      && forall i :: 0 <= i < |ls| ==>
           j.shown.records[i] == RecordToJson(lib, Records(ls)[i]) && j.shown.records[i].record == Records(ls)[i]
  {
    hide MessageToJson, Print, Records, TypeText, DecodeUri, DecodeText, ShowMedia;
    Names();
    PrintedMessageIsShown(lib, ls, []);
    assert Print(true, ls) + [] == Print(true, ls);
    RecordsAt(ls, 0);
    forall i | 0 <= i < |ls|
      ensures Records(ls)[i] == ls[i].record
    {
      RecordsAt(ls, i);
    }
    RecordKeepsItself(lib, ls);
  }

  lemma RecordKeepsItself(lib: TextLibrary, ls: seq<Layout>)
    ensures forall l :: l in ls ==> RecordToJson(lib, l.record).record == l.record
  {
    hide MessageToJson, TypeText, DecodeUri, DecodeText, ShowMedia;
  }

  /** Every item is shown as what it is, at any depth. */
  lemma {:induction false} ItemIsShown(lib: TextLibrary, item: Item)
    requires Writable(item)
    ensures var j := RecordToJson(lib, Written(item).record);
      ShowsRecord(j, Written(item).record) && IsShown(lib, item, j.shown)
    decreases item, 1
  {
    var r := Written(item).record;
    RecordIsShown(lib, r);
    match item.content
    case Poster(items) => PosterIsShown(lib, item);
    case Link(code, rest) => LinkIsShown(lib, r, code, rest);
    case Note(language, text) => NoteIsShown(lib, r, language, text, false);
    case WideNote(language, units) => NoteIsShown(lib, r, language, units, true);
    case Attachment(mediaType, data) => OthersAreShown(lib, r);
    case Address(_, uri) => OthersAreShown(lib, r);
    case Foreign(name, _) => OthersAreShown(lib, r);
  }

  lemma RecordIsShown(lib: TextLibrary, r: NdefRecord)
    ensures ShowsRecord(RecordToJson(lib, r), r)
  {
    hide MessageToJson, TypeText, DecodeUri, DecodeText, ShowMedia, Graphic;
    GraphicTypes(r.kind);
  }

  lemma LinkIsShown(lib: TextLibrary, r: NdefRecord, code: Byte, rest: Bytes)
    requires r.tnf == 1 && r.kind == [0x55] && r.payload == [code] + rest
    ensures RecordToJson(lib, r).record == r && RecordToJson(lib, r).shown == Uri(Ascii(Abbreviated(code)) + CString(rest))
  {
    hide MessageToJson, TypeText, DecodeText, ShowMedia, UriPrefix, Abbreviated, Ascii, CString;
    Names();
    PrefixesAgree(code);
    assert r.payload[1..] == rest;
  }

  lemma NoteIsShown(lib: TextLibrary, r: NdefRecord, language: Bytes, text: Bytes, wide: bool)
    requires |language| < 0x40 && r.tnf == 1 && r.kind == [0x54]
    requires r.payload == [if wide then 0x80 + |language| else |language|] + language + text
    ensures RecordToJson(lib, r).record == r
    ensures RecordToJson(lib, r).shown
      == if wide then WideShown(lib, language, text) else Text(CString(text), CString(language), false)
  {
    hide MessageToJson, TypeText, DecodeUri, DecodeText, ShowMedia, Ascii, CString, WideShown;
    Names();
    TextIsDecoded(lib, r.payload, language, text, wide);
  }

  lemma TextIsDecoded(lib: TextLibrary, payload: Bytes, language: Bytes, text: Bytes, wide: bool)
    requires |language| < 0x40 && payload == [if wide then 0x80 + |language| else |language|] + language + text
    ensures DecodeText(lib, payload)
      == if !wide then Some(Text(CString(text), CString(language), false))
         else if WideShown(lib, language, text) == Nothing then None else Some(WideShown(lib, language, text))
  {
    hide CString;
    assert payload[1..1 + |language|] == language && payload[1 + |language|..] == text;
    assert payload[0] % 0x40 == |language|;
    WholeUnits(text);
  }

  lemma WholeUnits(units: Bytes)
    ensures units[..|units| / 2 * 2] == if |units| % 2 == 0 then units else units[..|units| - 1]
  {
  }

  lemma OthersAreShown(lib: TextLibrary, r: NdefRecord)
    requires 2 <= r.tnf <= 4
    ensures RecordToJson(lib, r).record == r
    ensures r.tnf == 2 ==> RecordToJson(lib, r).shown == AttachmentShown(lib, r.kind, r.payload)
    ensures r.tnf == 3 ==> RecordToJson(lib, r).shown == Uri(CString(r.payload))
    ensures r.tnf == 4 ==> RecordToJson(lib, r).shown == External(if Graphic(r.kind) then Some(r.kind) else None)
  {
    hide MessageToJson, TypeText, DecodeUri, DecodeText, Ascii, CString, Graphic;
    Names();
    GraphicTypes(r.kind);
  }

  lemma {:induction false} PosterIsShown(lib: TextLibrary, item: Item)
    requires Writable(item) && item.content.Poster?
    ensures var j := RecordToJson(lib, Written(item).record);
      ShowsRecord(j, Written(item).record) && IsShown(lib, item, j.shown)
    decreases item, 0
  {
    hide MessageToJson, TypeText, DecodeUri, DecodeText, ShowMedia, Print, RecordToJson, Records;
    var items := item.content.items;
    var ls, r := AllWritten(items), Written(item).record;
    WrittenAreValid(items);
    RecordIsShown(lib, r);
    PosterShowsItsRecords(lib, r, ls);
    forall i | 0 <= i < |items|
      ensures ShowsRecord(RecordToJson(lib, r).shown.records[i], Written(items[i]).record)
      ensures IsShown(lib, items[i], RecordToJson(lib, r).shown.records[i].shown)
    {
      RecordsAt(ls, i);
      ItemIsShown(lib, items[i]);
    }
  }

  /** A whole message: one record shown for each item, in order, and each as what it is. */
  lemma MessageIsShown(lib: TextLibrary, items: seq<Item>, tail: Bytes)
    requires items != [] && AllWritable(items)
    ensures var shown := MessageToJson(lib, Message(items) + tail);
      && shown.Some? && |shown.value| == |items|
      && forall i :: 0 <= i < |items| ==>
           ShowsRecord(shown.value[i], Written(items[i]).record) && IsShown(lib, items[i], shown.value[i].shown)
  {
    hide MessageToJson, RecordToJson, Print;
    WrittenAreValid(items);
    PrintedMessageIsShown(lib, AllWritten(items), tail);
    forall i | 0 <= i < |items|
      ensures ShowsRecord(RecordToJson(lib, Written(items[i]).record), Written(items[i]).record)
      ensures IsShown(lib, items[i], RecordToJson(lib, Written(items[i]).record).shown)
    {
      ItemIsShown(lib, items[i]);
    }
  }

  /* ---- what the application writes ---- */

  /** A URI record the adapter builds is the link of the definition: abbreviation and rest spell the URI. */
  lemma BuiltUriIsLink(uri: Bytes, code: nat)
    requires W.IsLongestPrefix(code, uri)
    ensures var rest := uri[|UriPrefix(code)|..];
      && W.UriLayout(W.UriPayload(code, uri)) == Written(Item(Link(code, rest), [], true, false))
      && Ascii(Abbreviated(code)) + rest == uri
  {
    hide Abbreviated, Ascii, UriPrefix;
    Names();
    PrefixesAgree(code);
  }

  /** A text record it builds is the note of the definition. */
  lemma BuiltTextIsNote(text: Bytes, language: Bytes)
    requires |language| < 0x40
    ensures W.TextLayout(text, language) == Written(Item(Note(language, text), [], true, false))
  {
    Names();
  }
}
