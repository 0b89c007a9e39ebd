/** The two secure-messaging sessions, as objects whose counter the calls advance in place. */
module Sessions {
  import opened BerTlv
  import opened BlockCiphers
  import opened ByteStrings
  import opened Padding
  import opened SecureMessaging
  import opened SendSequenceCounter

  /** The walk over a response that remembers the last DO'87', DO'99' and DO'8E'. */
  method CollectObjects(rapdu: Bytes) returns (parts: Option<Parts>)
    ensures parts == ResponseParts(rapdu)
  {
    hide PartsOf, Split, TlvHeader;
    SplitOfEnd(rapdu);
    if |rapdu| < 2 {
      return None;
    }
    var pos := 0;
    NoParts();
    var found := Parts(None, None, None);
    ghost var seen: seq<Bytes> := [];
    assert rapdu[0..] == rapdu;
    assert Split(rapdu).Some? ==> [] + Split(rapdu).value == Split(rapdu).value;
    while pos + 2 <= |rapdu|
      invariant pos <= |rapdu| && AllObjects(seen)
      invariant Split(rapdu) == Prepend(seen, Split(rapdu[pos..]))
      invariant PartsOf(seen) == found
      decreases |rapdu| - pos
    {
      var rest := rapdu[pos..];
      SplitOfEnd(rest);
      match TlvHeader(rest) {
        case None =>
          return None;
        case Some(l) =>
          if pos + l.header + l.content > |rapdu| {
            return None;
          }
          var n := l.header + l.content;
          var d := rapdu[pos..pos + n];
          NextObject(rest, n);
          assert d == rest[..n] && rapdu[pos + n..] == rest[n..];
          PrependIsConcat(seen, [d], Split(rest[n..]));
          PartsOfSnoc(seen, d);
          found := Remember(found, d);
          seen := seen + [d];
          pos := pos + n;
      }
    }
    SplitOfEnd(rapdu[pos..]);
    assert seen + [] == seen;
    assert Split(rapdu) == Some(seen);
    return if found.Complete() then Some(found) else None;
  }

  lemma SplitOfEnd(s: Bytes)
    ensures |s| < 2 ==> Split(s) == Some([])
    ensures |s| >= 2 && TlvHeader(s).None? ==> Split(s) == None
    ensures |s| >= 2 && TlvHeader(s).Some? && TlvHeader(s).value.header + TlvHeader(s).value.content > |s| ==> Split(s) == None
  {
    hide TlvHeader;
  }

  lemma NoParts()
    ensures PartsOf([]) == Parts(None, None, None)
  {
  }

  /** Keeps an object in its slot, in place of an earlier one; objects with other tags are skipped. */
  function Remember(found: Parts, d: Bytes): Parts
    requires d != []
  {
    if d[0] == 0x87 then found.(do87 := Some(d))
    else if d[0] == 0x99 then found.(do99 := Some(d))
    else if d[0] == 0x8E then found.(do8e := Some(d))
    else found
  }

  lemma PartsOfSnoc(seen: seq<Bytes>, d: Bytes)
    requires AllObjects(seen) && IsObject(d)
    ensures AllObjects(seen + [d])
    ensures PartsOf(seen + [d]) == Remember(PartsOf(seen), d)
  {
    LastOfSnoc(0x87, seen, d);
    LastOfSnoc(0x99, seen, d);
    LastOfSnoc(0x8E, seen, d);
  }

  lemma NextObject(rest: Bytes, n: nat)
    requires |rest| >= 2 && TlvHeader(rest).Some?
    requires n == TlvHeader(rest).value.header + TlvHeader(rest).value.content <= |rest|
    ensures IsObject(rest[..n])
    ensures Split(rest) == Prepend([rest[..n]], Split(rest[n..]))
  {
    PrefixIsObject(rest, n);
  }

  /** Appends a TLV whose length byte is the low eight bits of the length. */
  method AppendTlv(buffer: Bytes, tag: Byte, data: Bytes) returns (out: Bytes)
    ensures out == buffer + ShortTlv(tag, data)
  {
    out := buffer + [tag, |data| % 0x100];
    if |data| > 0 {
      out := out + data;
    }
    assert out == buffer + ShortTlv(tag, data);
  }

  method LeObject(le: int) returns (do97: Bytes)
    requires le <= 255
    ensures do97 == DataObject97(le)
  {
    do97 := [];
    if le >= 0 {
      do97 := AppendTlv(do97, 0x97, [le]);
    }
  }

  /** The header, Lc, the objects, DO'8E' and the closing Le, put in a row. */
  method Assemble(header: Bytes, do87: Bytes, do97: Bytes, mac: Bytes,
                  ghost suite: Suite, ghost ssc: Bytes, ghost data: Bytes, ghost le: int)
    returns (apdu: Bytes)
    requires suite.Valid() && |ssc| == suite.Block() && le <= 255
    requires do87 == DataObject87(suite, ssc, data) && do97 == DataObject97(le)
    requires mac == CommandMac(suite, ssc, header, do87 + do97)
    ensures apdu == Command(suite, ssc, header, data, le)
  {
    hide DataObject87, DataObject97, CommandMac;
    var lc := (|do87| + |do97| + 2 + 8) % 0x100;
    apdu := header + [lc] + do87 + do97;
    apdu := AppendTlv(apdu, 0x8E, mac);
    apdu := apdu + [0x00];
    ghost var body := CommandBody(suite, ssc, header, data, le);
    assert body == do87 + do97 + ShortTlv(0x8E, mac);
    assert apdu == header + [|body| % 0x100] + body + [0];
  }

  lemma NoDataNoObject(suite: Suite, ssc: Bytes)
    requires suite.Valid() && |ssc| == suite.Block()
    ensures DataObject87(suite, ssc, []) == []
  {
  }

  /** Triple DES and retail MAC, set up by BAC. */
  class BacSession {
    const des: BlockCipher
    var ksEnc: Bytes
    var ksMac: Bytes
    const ssc: array<Byte>

    constructor (des: BlockCipher, ksEnc: Bytes, ksMac: Bytes, start: Bytes)
      requires BacSuite(des, ksEnc, ksMac).Valid() && |start| == 8
      ensures Valid() && fresh(ssc)
      ensures Suite() == BacSuite(des, ksEnc, ksMac) && ssc[..] == start
    {
      this.des, this.ksEnc, this.ksMac := des, ksEnc, ksMac;
      ssc := new Byte[8](i requires 0 <= i < 8 => start[i]);
      new;
      assert ssc[..] == start;
    }

    ghost function Suite(): Suite
      reads this
    {
      BacSuite(des, ksEnc, ksMac)
    }

    ghost predicate Valid()
      reads this, ssc
    {
      ssc.Length == 8 && Suite().Valid()
    }

    method EncryptedData(data: Bytes, ghost at: Bytes) returns (do87: Bytes)
      requires Valid() && data != [] && |at| == 8
      ensures do87 == DataObject87(Suite(), at, data)
    {
      var padded := Pad(8, data);
      Ede3IsLawful(des);
      PadIsAlignedAndMinimal(8, data);
      var enc := CbcEncrypt(Ede3(des), ksEnc + ksEnc[..8], Zeros(8), padded);
      var encField := [0x01] + enc;
      do87 := AppendTlv([], 0x87, encField);
    }

    method SessionMac(input: Bytes) returns (mac: Bytes)
      requires Valid()
      ensures mac == Suite().Mac(input)
    {
      mac := RetailMac(des, ksMac, input);
    }

    method Protect(cla: Byte, ins: Byte, p1: Byte, p2: Byte, data: Bytes, le: int, fault: Fault)
      returns (apdu: Option<Bytes>)
      requires Valid()
      modifies ssc
      ensures Valid()
      ensures Protected(apdu, ssc[..])
              == SecureMessaging.Protect(Suite(), old(ssc[..]), Header(cla, ins, p1, p2), data, le, fault)
    {
      hide Command, DataObject87, DataObject97, Next;
      NoDataNoObject(Suite(), Next(ssc[..]));
      var header := [Or(cla, 0x0C), ins, p1, p2];
      var headerPadded := Pad(8, header);
      if le > 255 {
        return None;
      }
      if |data| > 223 {
        return None;
      }
      var do87: Bytes := [];
      if |data| > 0 {
        if fault == CipherFault {
          return None;
        }
        do87 := EncryptedData(data, Next(ssc[..]));
      }
      var do97 := LeObject(le);
      var m := headerPadded + do87 + do97;
      Increment(ssc);
      var n := ssc[..] + m;
      if fault == MacFault {
        return None;
      }
      assert n == ssc[..] + headerPadded + (do87 + do97);
      var mac := SessionMac(n);
      var out := Assemble(header, do87, do97, mac, Suite(), ssc[..], data, le);
      return Some(out);
    }

    method OpenObject(do87: Bytes, fault: Fault) returns (plain: Option<Bytes>)
      requires Valid() && IsObject(do87)
      ensures plain == OpenDataObject(Suite(), ssc[..], do87, fault)
    {
      var content := do87[TlvHeader(do87).value.header..];
      if |content| < 1 || content[0] != 0x01 {
        return None;
      }
      var enc := content[1..];
      if |enc| == 0 || |enc| % 8 != 0 || fault == CipherFault {
        return None;
      }
      Ede3IsLawful(des);
      var dec := CbcDecrypt(Ede3(des), ksEnc + ksEnc[..8], Zeros(8), enc);
      plain := StripPadding(dec);
    }

    /** The MAC check and what follows it, once the counter has been advanced. */
    method JudgeParts(parts: Parts, fault: Fault) returns (verdict: Verdict)
      requires Valid()
      requires parts.Complete() && (parts.do87.Some? ==> IsObject(parts.do87.value))
      ensures verdict == Judge(Suite(), ssc[..], parts, fault)
    {
      var macInput := ssc[..];
      if parts.do87.Some? {
        macInput := macInput + parts.do87.value;
      }
      macInput := macInput + parts.do99.value;
      assert macInput == ssc[..] + parts.MacInput();
      if fault == MacFault {
        return Rejected;
      }
      var mac := SessionMac(macInput);
      var same := BytesEqual(mac, parts.do8e.value[2..]);
      if !same {
        return Rejected;
      }
      var sw := parts.do99.value[2] as nat * 0x100 + parts.do99.value[3];
      if parts.do87.None? {
        return Accepted(None, sw);
      }
      var plain := OpenObject(parts.do87.value, fault);
      if plain.None? {
        return Rejected;
      }
      return Accepted(plain, sw);
    }

    method Unprotect(rapdu: Bytes, fault: Fault) returns (verdict: Verdict)
      requires Valid()
      modifies ssc
      ensures Valid()
      ensures Unwrapped(verdict, ssc[..]) == SecureMessaging.Unprotect(Suite(), old(ssc[..]), rapdu, fault)
    {
      var found := CollectObjects(rapdu);
      if found.None? {
        return Rejected;
      }
      Increment(ssc);
      verdict := JudgeParts(found.value, fault);
    }
  }

  /** AES-CBC and AES-CMAC, set up by PACE. */
  class PaceSession {
    const aes: BlockCipher
    const cmac: (Bytes, Bytes) -> Bytes
    var ksEnc: Bytes
    var ksMac: Bytes
    const ssc: array<Byte>

    constructor (aes: BlockCipher, cmac: (Bytes, Bytes) -> Bytes, ksEnc: Bytes, ksMac: Bytes, start: Bytes)
      requires PaceSuite(aes, cmac, ksEnc, ksMac).Valid() && |start| == 16
      ensures Valid() && fresh(ssc)
      ensures Suite() == PaceSuite(aes, cmac, ksEnc, ksMac) && ssc[..] == start
    {
      this.aes, this.cmac, this.ksEnc, this.ksMac := aes, cmac, ksEnc, ksMac;
      ssc := new Byte[16](i requires 0 <= i < 16 => start[i]);
      new;
      assert ssc[..] == start;
    }

    ghost function Suite(): Suite
      reads this
    {
      PaceSuite(aes, cmac, ksEnc, ksMac)
    }

    ghost predicate Valid()
      reads this, ssc
    {
      ssc.Length == 16 && Suite().Valid()
    }

    method EncryptedData(data: Bytes) returns (do87: Bytes)
      requires Valid() && data != []
      ensures do87 == DataObject87(Suite(), ssc[..], data)
    {
      var padded := Pad(16, data);
      assert aes.Inverts(ksEnc, ssc[..]);
      PadIsAlignedAndMinimal(16, data);
      var iv := aes.enc(ksEnc, ssc[..]);
      var enc := CbcEncrypt(aes, ksEnc, iv, padded);
      var encField := [0x01] + enc;
      do87 := AppendTlv([], 0x87, encField);
    }

    method SessionMac(input: Bytes) returns (mac: Bytes)
      requires Valid()
      ensures mac == Suite().Mac(input)
    {
      var padded := Pad(16, input);
      var fullMac := cmac(ksMac, padded);
      mac := fullMac[..8];
    }

    /** Unlike the BAC session, this one advances the counter before it encrypts. */
    method Protect(cla: Byte, ins: Byte, p1: Byte, p2: Byte, data: Bytes, le: int, fault: Fault)
      returns (apdu: Option<Bytes>)
      requires Valid()
      modifies ssc
      ensures Valid()
      ensures Protected(apdu, ssc[..])
              == SecureMessaging.Protect(Suite(), old(ssc[..]), Header(cla, ins, p1, p2), data, le, fault)
    {
      hide Command, DataObject87, DataObject97, Next;
      NoDataNoObject(Suite(), Next(ssc[..]));
      var header := [Or(cla, 0x0C), ins, p1, p2];
      var headerPadded := Pad(16, header);
      if le > 255 || |data| > 190 {
        return None;
      }
      Increment(ssc);
      var do87: Bytes := [];
      if |data| > 0 {
        if fault == CipherFault {
          return None;
        }
        do87 := EncryptedData(data);
      }
      var do97 := LeObject(le);
      var m := headerPadded + do87 + do97;
      var n := ssc[..] + m;
      if fault == MacFault {
        return None;
      }
      assert n == ssc[..] + headerPadded + (do87 + do97);
      var mac := SessionMac(n);
      var out := Assemble(header, do87, do97, mac, Suite(), ssc[..], data, le);
      return Some(out);
    }

    method OpenObject(do87: Bytes, fault: Fault) returns (plain: Option<Bytes>)
      requires Valid() && IsObject(do87)
      ensures plain == OpenDataObject(Suite(), ssc[..], do87, fault)
    {
      var content := do87[TlvHeader(do87).value.header..];
      if |content| < 1 || content[0] != 0x01 {
        return None;
      }
      var enc := content[1..];
      if |enc| == 0 || |enc| % 16 != 0 || fault == CipherFault {
        return None;
      }
      assert aes.Inverts(ksEnc, ssc[..]);
      var iv := aes.enc(ksEnc, ssc[..]);
      var dec := CbcDecrypt(aes, ksEnc, iv, enc);
      plain := StripPadding(dec);
    }

    /** The MAC check and what follows it, once the counter has been advanced. */
    method JudgeParts(parts: Parts, fault: Fault) returns (verdict: Verdict)
      requires Valid()
      requires parts.Complete() && (parts.do87.Some? ==> IsObject(parts.do87.value))
      ensures verdict == Judge(Suite(), ssc[..], parts, fault)
    {
      var macInput := ssc[..];
      if parts.do87.Some? {
        macInput := macInput + parts.do87.value;
      }
      macInput := macInput + parts.do99.value;
      assert macInput == ssc[..] + parts.MacInput();
      if fault == MacFault {
        return Rejected;
      }
      var mac := SessionMac(macInput);
      var same := BytesEqual(mac, parts.do8e.value[2..]);
      if !same {
        return Rejected;
      }
      var sw := parts.do99.value[2] as nat * 0x100 + parts.do99.value[3];
      if parts.do87.None? {
        return Accepted(None, sw);
      }
      var plain := OpenObject(parts.do87.value, fault);
      if plain.None? {
        return Rejected;
      }
      return Accepted(plain, sw);
    }

    method Unprotect(rapdu: Bytes, fault: Fault) returns (verdict: Verdict)
      requires Valid()
      modifies ssc
      ensures Valid()
      ensures Unwrapped(verdict, ssc[..]) == SecureMessaging.Unprotect(Suite(), old(ssc[..]), rapdu, fault)
    {
      var found := CollectObjects(rapdu);
      if found.None? {
        return Rejected;
      }
      Increment(ssc);
      verdict := JudgeParts(found.value, fault);
    }
  }
}
