/**
 src/ndef.c:361-467, 721-751 - the messages an application can write: a single short record,
 wrapped for a Type 2 tag. Reading back what was written returns what was asked for.
 */
module NdefWriting {
  import opened ByteStrings
  import opened Ndef
  import NdefTheorems

  /** src/ndef.c:361-398: one short record with both message flags; longer payloads are refused. */
  method BuildSingleRecord(tnf: nat, kind: Bytes, payload: Bytes) returns (message: Option<Bytes>)
    requires tnf < 8 && |kind| < 0x100
    ensures message.Some? <==> |payload| <= 0xFF
    ensures message.Some? ==> message.value == PrintRecord(true, true, Layout(NdefRecord(tnf, kind, [], payload), true, false))
  {
    if |payload| > 0xFF {
      return None;
    }
    var bytes: Bytes := [0x80 + 0x40 + 0x10 + tnf];
    bytes := bytes + [|kind|];
    bytes := bytes + [|payload|];
    bytes := bytes + kind;
    if |payload| > 0 {
      bytes := bytes + payload;
    }
    message := Some(bytes);
  }

  /* ---- URI records ---- */

  /** An abbreviation that fits the URI and is no shorter than any other that does. */
  ghost predicate IsLongestPrefix(code: nat, uri: Bytes) {
    && code < |URI_PREFIXES| && UriPrefix(code) <= uri
    && forall n :: 0 <= n < |URI_PREFIXES| && UriPrefix(n) <= uri ==> |UriPrefix(n)| <= |UriPrefix(code)|
  }

  function UriPayload(code: nat, uri: Bytes): Bytes
    requires code < 0x100 && UriPrefix(code) <= uri
  {
    [code] + uri[|UriPrefix(code)|..]
  }

  lemma NoPrefix()
    ensures UriPrefix(0) == []
  {
  }

  method LongestPrefix(uri: Bytes) returns (code: nat, length: nat)
    ensures IsLongestPrefix(code, uri) && length == |UriPrefix(code)|
  {
    hide UriPrefix, Ascii;
    code, length := 0, 0;
    NoPrefix();
    for n := 1 to |URI_PREFIXES|
      invariant code < n && UriPrefix(code) <= uri && length == |UriPrefix(code)|
      invariant forall k :: 0 <= k < n && UriPrefix(k) <= uri ==> |UriPrefix(k)| <= length
    {
      var prefix := UriPrefix(n);
      if |prefix| > length && prefix <= uri {
        code, length := n, |prefix|;
      }
    }
  }

  /** src/ndef.c:400-436. */
  method BuildUri(uri: Option<Bytes>) returns (message: Option<Bytes>, code: nat)
    ensures uri.None? ==> message.None?
    ensures uri.Some? ==>
      && IsLongestPrefix(code, uri.value)
      && (message.Some? <==> |UriPayload(code, uri.value)| <= 0xFF)
      && (message.Some? ==>
          message.value == PrintRecord(true, true, UriLayout(UriPayload(code, uri.value))))
  {
    code := 0;
    if uri.None? {
      return None, code;
    }
    var length: nat;
    code, length := LongestPrefix(uri.value);
    var payload: Bytes := [code];
    payload := payload + uri.value[length..];
    message := BuildSingleRecord(TNF_WELL_KNOWN, Ascii("U"), payload);
  }

  function UriLayout(payload: Bytes): Layout {
    Layout(NdefRecord(TNF_WELL_KNOWN, Ascii("U"), [], payload), true, false)
  }

  /** Whatever abbreviation is used, the reader puts it back. */
  lemma UriPayloadDecodes(code: nat, uri: Bytes)
    requires code < |URI_PREFIXES| && UriPrefix(code) <= uri && NulFree(uri)
    ensures DecodeUri(UriPayload(code, uri)) == Some(uri)
  {
    hide UriPrefix, Ascii;
    var rest := uri[|UriPrefix(code)|..];
    CStringOfNulFree(rest);
    assert UriPayload(code, uri)[1..] == rest;
    assert UriPrefix(code) + rest == uri;
  }

  /**
   The writer's choice is the shortest payload any abbreviation gives, so it refuses a URI exactly
   when no abbreviation makes it fit.
   */
  lemma UriRefusedIffNoneFits(uri: Bytes, code: nat)
    requires IsLongestPrefix(code, uri)
    ensures forall n :: 0 <= n < |URI_PREFIXES| && UriPrefix(n) <= uri ==> |UriPayload(code, uri)| <= |UriPayload(n, uri)|
    ensures |UriPayload(code, uri)| > 0xFF
      <==> forall n :: 0 <= n < |URI_PREFIXES| && UriPrefix(n) <= uri ==> |UriPayload(n, uri)| > 0xFF
  {
    if forall n :: 0 <= n < |URI_PREFIXES| && UriPrefix(n) <= uri ==> |UriPayload(n, uri)| > 0xFF {
      assert |UriPayload(code, uri)| > 0xFF;
    }
  }

  /* ---- text records ---- */

  function LanguageOf(language: Option<Bytes>): Bytes {
    if language.None? || language.value == [] then Ascii("en") else language.value
  }

  lemma EnglishIsTheDefault()
    ensures LanguageOf(None) == LanguageOf(Some([])) == [0x65, 0x6E]
  {
  }

  function TextLayout(text: Bytes, language: Bytes): Layout
    requires |language| <= 0x3F
  {
    Layout(NdefRecord(TNF_WELL_KNOWN, Ascii("T"), [], [|language|] + language + text), true, false)
  }

  /** src/ndef.c:438-467. */
  method BuildText(text: Option<Bytes>, language: Option<Bytes>) returns (message: Option<Bytes>)
    ensures message.Some? <==>
      text.Some? && |LanguageOf(language)| <= 0x3F && 1 + |LanguageOf(language)| + |text.value| <= 0xFF
    ensures message.Some? ==> message.value == PrintRecord(true, true, TextLayout(text.value, LanguageOf(language)))
  {
    if text.None? {
      return None;
    }
    var lang := if language.None? || language.value == [] then Ascii("en") else language.value;
    if |lang| > 0x3F {
      return None;
    }
    var payload: Bytes := [|lang|];
    payload := payload + lang;
    payload := payload + text.value;
    message := BuildSingleRecord(TNF_WELL_KNOWN, Ascii("T"), payload);
  }

  lemma TextPayloadDecodes(lib: TextLibrary, text: Bytes, language: Bytes)
    requires |language| <= 0x3F && NulFree(text) && NulFree(language)
    ensures DecodeText(lib, TextLayout(text, language).record.payload) == Some(Text(text, language, false))
  {
    hide CString, UriPrefix, PrintRecord, Ascii;
    var payload := [|language| as Byte] + language + text;
    CStringOfNulFree(text);
    CStringOfNulFree(language);
    assert payload[1..1 + |language|] == language && payload[1 + |language|..] == text;
  }

  /* ---- the TLV a Type 2 tag stores a message in ---- */

  const NDEF_MESSAGE_TLV: Byte := 0x03
  const TERMINATOR_TLV: Byte := 0xFE

  /** src/ndef.c:721-751. */
  method WrapType2(message: Option<Bytes>) returns (tlv: Option<Bytes>)
    ensures message.None? ==> tlv.None?
    ensures message.Some? ==> tlv == Some(Type2(message.value))
  {
    if message.None? {
      return None;
    }
    var m := message.value;
    var bytes: Bytes := [NDEF_MESSAGE_TLV];
    if |m| < 0xFF {
      bytes := bytes + [|m|];
    } else {
      bytes := bytes + [0xFF, |m| / 0x100 % 0x100, |m| % 0x100];
    }
    bytes := bytes + m;
    bytes := bytes + [TERMINATOR_TLV];
    tlv := Some(bytes);
  }

  function Type2(m: Bytes): Bytes {
    [NDEF_MESSAGE_TLV] + (if |m| < 0xFF then [|m|] else [0xFF, |m| / 0x100 % 0x100, |m| % 0x100]) + m + [TERMINATOR_TLV]
  }

  /** How a reader of the Type 2 Tag format takes the message out again. */
  function ReadType2(s: Bytes): Option<Bytes> {
    if |s| < 2 || s[0] != 0x03 then None
    else if s[1] != 0xFF then
      (if 2 + s[1] as nat > |s| then None else Some(s[2..2 + s[1] as nat]))
    else if |s| < 4 then None
    else
      var n := s[2] as nat * 0x100 + s[3] as nat;
      if 4 + n > |s| then None else Some(s[4..4 + n])
  }

  /** Two length bytes are written without a check, so the length wraps at 65536. */
  lemma ReadType2OfType2(m: Bytes, tail: Bytes)
    ensures ReadType2(Type2(m) + tail) == Some(m[..|m| % 0x1_0000])
    ensures ReadType2(Type2(m) + tail) == Some(m) <==> |m| < 0x1_0000
    ensures (Type2(m) + tail)[|Type2(m)| - 1] == 0xFE
  {
    var s := Type2(m) + tail;
    if |m| < 0xFF {
      assert s[2..2 + |m|] == m && m[..|m|] == m;
    } else {
      var n := s[2] as nat * 0x100 + s[3] as nat;
      assert n == |m| % 0x1_0000;
      assert s[4..4 + n] == m[..n];
      if |m| < 0x1_0000 {
        assert m[..n] == m;
      }
    }
  }

  /* ---- writing and reading back ---- */

  lemma SingleRecordReadsBack(lib: TextLibrary, l: Layout, tail: Bytes)
    requires l.Valid() && l.short && |l.record.payload| <= 0xFF
    ensures var tlv := Type2(PrintRecord(true, true, l));
      && ReadType2(tlv + tail).Some?
      && MessageToJson(lib, ReadType2(tlv + tail).value) == Some([RecordToJson(lib, l.record)])
  {
    hide PrintRecord, RecordToJson, ReadType2, Type2, Decode;
    var m := PrintRecord(true, true, l);
    NdefTheorems.PrintRecordIsHeadAndBody(true, true, l);
    assert |m| < 0x1_0000;
    ReadType2OfType2(m, tail);
    assert Print(true, [l]) + [] == m;
    NdefTheorems.DecodeInvertsPrint(true, [l], []);
    assert Records([l]) == [l.record];
    DecodedPayloadsAreShorter(m);
    assert Decode(m) == Some([l.record]);
    NdefTheorems.EachRecordIsRendered(lib, [l.record], |m|, 0);
    assert RecordsToJson(lib, [l.record], |m|) == [RecordToJson(lib, l.record)];
  }

  /** A URI the builder accepts comes back from the tag unchanged. */
  lemma WrittenUriReadsBack(lib: TextLibrary, uri: Bytes, code: nat, tail: Bytes)
    requires NulFree(uri) && IsLongestPrefix(code, uri) && |UriPayload(code, uri)| <= 0xFF
    ensures var stored := ReadType2(Type2(PrintRecord(true, true, UriLayout(UriPayload(code, uri)))) + tail);
      && stored.Some? && MessageToJson(lib, stored.value).Some?
      && |MessageToJson(lib, stored.value).value| == 1
      && MessageToJson(lib, stored.value).value[0].shown == Uri(uri)
  {
    hide PrintRecord, ReadType2, Type2, MessageToJson, DecodeUri;
    var l := UriLayout(UriPayload(code, uri));
    UriPayloadDecodes(code, uri);
    SingleRecordReadsBack(lib, l, tail);
  }

  /** A text the builder accepts comes back with its language, "en" where none was given. */
  lemma WrittenTextReadsBack(lib: TextLibrary, text: Bytes, language: Option<Bytes>, tail: Bytes)
    requires NulFree(text) && (language.Some? ==> NulFree(language.value))
    requires |LanguageOf(language)| <= 0x3F && 1 + |LanguageOf(language)| + |text| <= 0xFF
    ensures var stored := ReadType2(Type2(PrintRecord(true, true, TextLayout(text, LanguageOf(language)))) + tail);
      && stored.Some? && MessageToJson(lib, stored.value).Some?
      && |MessageToJson(lib, stored.value).value| == 1
      && MessageToJson(lib, stored.value).value[0].shown == Text(text, LanguageOf(language), false)
  {
    hide PrintRecord, ReadType2, Type2, MessageToJson, DecodeText;
    var l := TextLayout(text, LanguageOf(language));
    TextPayloadDecodes(lib, text, LanguageOf(language));
    assert Ascii("T")[0] != Ascii("U")[0];
    SingleRecordReadsBack(lib, l, tail);
  }
}
