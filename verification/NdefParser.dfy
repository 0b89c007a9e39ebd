/** src/ndef.c:177-359 - the cursor loop over a message and the decoder it shares with Smart Posters. */
module NdefParser {
  import opened ByteStrings
  import opened Ndef

  /** The bytes of a record before its type field, read at a cursor. */
  method ReadFields(data: Bytes, start: nat) returns (fields: Option<Fields>)
    requires start <= |data|
    ensures fields == ParseFields(data[start..])
  {
    hide BigEndian, FourBytes;
    var pos := start;
    if pos >= |data| {
      return None;
    }
    var header := data[pos];
    pos := pos + 1;
    if pos >= |data| {
      return None;
    }
    var kindLen: nat := data[pos];
    pos := pos + 1;
    var payloadLen: nat;
    if ShortRecord(header) {
      if pos >= |data| {
        return None;
      }
      payloadLen := data[pos];
      pos := pos + 1;
    } else {
      if pos + 4 > |data| {
        return None;
      }
      FourBytesValue(data[pos], data[pos + 1], data[pos + 2], data[pos + 3]);
      assert data[start..][2..6] == [data[pos], data[pos + 1], data[pos + 2], data[pos + 3]];
      payloadLen := data[pos] as nat * 0x100_0000 + data[pos + 1] as nat * 0x1_0000 + data[pos + 2] as nat * 0x100
        + data[pos + 3] as nat;
      pos := pos + 4;
    }
    var idLen: nat := 0;
    if HasIdLength(header) {
      if pos >= |data| {
        return None;
      }
      idLen := data[pos];
      pos := pos + 1;
    }
    fields := Some(Fields(header, kindLen, idLen, payloadLen, pos - start));
  }

  method TakeRecord(data: Bytes, start: nat) returns (parsed: Option<Parsed>)
    requires start <= |data|
    ensures parsed == ParseRecord(data[start..])
  {
    hide ParseFields;
    var fields := ReadFields(data, start);
    if fields.None? {
      return None;
    }
    var f := fields.value;
    var pos := start + f.size;
    forall a, b | 0 <= a <= b <= |data| - start
      ensures data[start..][a..b] == data[start + a..start + b]
    {
    }
    if pos + f.kindLen + f.idLen + f.payloadLen > |data| {
      return None;
    }
    var kind := data[pos..pos + f.kindLen];
    pos := pos + f.kindLen;
    var id := [];
    if f.idLen > 0 {
      id := data[pos..pos + f.idLen];
      pos := pos + f.idLen;
    }
    var payload := data[pos..pos + f.payloadLen];
    pos := pos + f.payloadLen;
    parsed := Some(Parsed(NdefRecord(f.header % 8, kind, id, payload), MessageEnd(f.header), pos - start));
  }

  method RecordJsonOf(lib: TextLibrary, r: NdefRecord) returns (json: RecordJson)
    ensures json == RecordToJson(lib, r)
    decreases |r.payload|, 3
  {
    hide MessageToJson, DecodeUri, DecodeText, ShowMedia, TypeText, CString;
    var shown := Nothing;
    match r.tnf {
      case 1 =>
        if r.kind == Ascii("U") {
          var uri := DecodeUri(r.payload);
          if uri.Some? {
            shown := Uri(uri.value);
          }
        } else if r.kind == Ascii("T") {
          var text := DecodeText(lib, r.payload);
          if text.Some? {
            shown := text.value;
          }
        } else if r.kind == Ascii("Sp") {
          var nested := MessageJsonOf(lib, r.payload);
          shown := if nested.Some? then SmartPoster(nested.value) else UnreadableSmartPoster;
        }
      case 2 => shown := ShowMedia(lib, r);
      case 3 => shown := Uri(CString(r.payload));
      case 4 => shown := External(TypeText(r.kind));
      case _ =>
    }
    json := RecordJson(r, TypeText(r.kind), shown);
  }

  lemma DecodeStep(s: Bytes)
    requires s != []
    ensures ParseRecord(s).None? ==> Decode(s) == None
    ensures ParseRecord(s).Some? && ParseRecord(s).value.last ==> Decode(s) == Some([ParseRecord(s).value.record])
    ensures ParseRecord(s).Some? && !ParseRecord(s).value.last ==>
      Decode(s) == Prepend([ParseRecord(s).value.record], Decode(s[ParseRecord(s).value.size..]))
  {
    hide ParseRecord;
  }

  lemma RenderOneMore(lib: TextLibrary, done: seq<NdefRecord>, r: NdefRecord, bound: nat)
    requires forall d :: d in done + [r] ==> |d.payload| < bound
    ensures (forall d :: d in done ==> |d.payload| < bound)
    ensures RecordsToJson(lib, done + [r], bound) == RecordsToJson(lib, done, bound) + [RecordToJson(lib, r)]
  {
    hide RecordToJson;
    assert (done + [r])[..|done|] == done;
    forall d | d in done ensures |d.payload| < bound {
      assert d in done + [r];
    }
  }

  /** Renders records one after another, up to the one with the end flag. */
  method MessageJsonOf(lib: TextLibrary, data: Bytes) returns (records: Option<seq<RecordJson>>)
    ensures records == MessageToJson(lib, data)
    decreases |data|, 2
  {
    hide Decode, ParseRecord, RecordToJson, RecordsToJson;
    if data == [] {
      return None;
    }
    var shown: seq<RecordJson> := [];
    ghost var done: seq<NdefRecord> := [];
    var pos := 0;
    RenderNone(lib, |data|);
    DecodeNothing();
    assert data[0..] == data;
    PrependIsConcat([], [], Decode(data));
    while pos < |data|
      invariant 0 <= pos <= |data|
      invariant forall r :: r in done ==> |r.payload| < |data|
      invariant shown == RecordsToJson(lib, done, |data|)
      invariant Decode(data) == Prepend(done, Decode(data[pos..]))
    {
      var rest := data[pos..];
      var parsed := TakeRecord(data, pos);
      DecodeStep(rest);
      if parsed.None? {
        return None;
      }
      var p := parsed.value;
      var json := RecordJsonOf(lib, p.record);
      RenderOneMore(lib, done, p.record, |data|);
      PrependIsConcat(done, [p.record], if p.last then Some([]) else Decode(rest[p.size..]));
      shown, done := shown + [json], done + [p.record];
      pos := pos + p.size;
      if p.last {
        break;
      }
      assert data[pos..] == rest[p.size..];
    }
    assert Decode(data) == Some(done) by {
      PrependIsConcat(done, [], None);
      if pos >= |data| && data[pos..] == [] {
        DecodeNothing();
      }
    }
    records := Some(shown);
  }

  lemma RenderNone(lib: TextLibrary, bound: nat)
    ensures RecordsToJson(lib, [], bound) == []
  {
  }

  lemma DecodeNothing()
    ensures Decode([]) == Some([])
  {
  }
}
