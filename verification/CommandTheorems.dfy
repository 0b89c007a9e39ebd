/** Protected commands: what a TLV walker and an honest chip make of them. */
module CommandTheorems {
  import opened Arithmetic
  import opened BerTlv
  import opened BlockCiphers
  import opened ByteStrings
  import opened ChipCrypto
  import opened HonestChip
  import opened Padding
  import opened SecureMessaging
  import opened SendSequenceCounter

  /** The objects of a command body in front of its DO'8E', as a row of zero to two objects. */
  function CommandObjects(suite: Suite, ssc: Bytes, data: Bytes, le: int): seq<Bytes>
    requires suite.Valid() && |ssc| == suite.Block() && le <= 255
  {
    (if data == [] then [] else [DataObject87(suite, ssc, data)]) + (if le < 0 then [] else [DataObject97(le)])
  }

  lemma DataObject87Length(suite: Suite, ssc: Bytes, data: Bytes)
    requires suite.Valid() && |ssc| == suite.Block() && data != []
    ensures var n := |IsoPad(suite.Block(), data)|;
            && |DataObject87(suite, ssc, data)| == 3 + n
            && (n <= 120 <==> |data| <= suite.MaxShortData())
            && (|data| <= suite.MaxData() ==> n <= if suite.BacSuite? then 224 else 192)
            && DataObject87(suite, ssc, data)[1] == (1 + n) % 0x100
  {
    PadIsAlignedAndMinimal(suite.Block(), data);
  }

  lemma ShortTlvIsObject(tag: Byte, data: Bytes)
    requires |data| < 0x80
    ensures IsObject(ShortTlv(tag, data)) && ShortTlv(tag, data)[0] == tag
    ensures TlvHeader(ShortTlv(tag, data)) == Some(Length(2, |data|))
  {
    assert ShortTlv(tag, data)[1..] == [|data| as Byte] + data;
  }

  lemma CommandBodyIsConcat(suite: Suite, ssc: Bytes, header: Bytes, data: Bytes, le: int)
    requires suite.Valid() && |ssc| == suite.Block() && le <= 255
    ensures var objects := CommandObjects(suite, ssc, data, le);
            && Concat(objects) == DataObject87(suite, ssc, data) + DataObject97(le)
            && CommandBody(suite, ssc, header, data, le)
               == Concat(objects + [ShortTlv(0x8E, CommandMac(suite, ssc, header, Concat(objects)))])
  {
    var objects := CommandObjects(suite, ssc, data, le);
    var d87, d97 := DataObject87(suite, ssc, data), DataObject97(le);
    var last := ShortTlv(0x8E, CommandMac(suite, ssc, header, d87 + d97));
    assert Concat([last]) == last + Concat([]) == last;
    if data == [] {
      assert d87 + d97 == d97;
      if le >= 0 {
        assert objects == [d97] && Concat([d97]) == d97 + Concat([]) == d97;
        assert (objects + [last])[1..] == [last];
      } else {
        assert objects + [last] == [last];
      }
    } else if le >= 0 {
      assert objects == [d87, d97] && objects[1..] == [d97] && Concat([d97]) == d97 + Concat([]) == d97;
      assert (objects + [last])[1..] == [d97, last] && [d97, last][1..] == [last];
      assert d87 + (d97 + last) == d87 + d97 + last;
    } else {
      assert objects == [d87] && Concat([d87]) == d87 + Concat([]) == d87 == d87 + d97;
      assert (objects + [last])[1..] == [last];
    }
  }

  /** Lc never truncates, anywhere in the range the guards let through. */
  lemma LcIsBodyLength(suite: Suite, ssc: Bytes, header: Bytes, data: Bytes, le: int)
    requires suite.Valid() && |ssc| == suite.Block() && |header| == 4
    requires le <= 255 && |data| <= suite.MaxData()
    ensures var body, apdu := CommandBody(suite, ssc, header, data, le), Command(suite, ssc, header, data, le);
            && |body| <= 0xFF && apdu[4] == |body|
            && apdu[..4] == header && apdu[5..|apdu| - 1] == body && |apdu| == 6 + |body|
  {
    if data != [] {
      DataObject87Length(suite, ssc, data);
    }
    var body, apdu := CommandBody(suite, ssc, header, data, le), Command(suite, ssc, header, data, le);
    assert apdu == header + [|body| as Byte] + body + [0];
  }

  /**
   A TLV walker cuts the body into exactly DO'87' (if there is data), DO'97' (if there is an Le)
   and DO'8E' if and only if the data is short enough for a short-form DO'87'; beyond that, and
   still within the guard, the printed length byte no longer means what was written.
   */
  lemma CommandWalksIffShort(suite: Suite, ssc: Bytes, header: Bytes, data: Bytes, le: int)
    requires suite.Valid() && |ssc| == suite.Block()
    requires le <= 255 && |data| <= suite.MaxData()
    ensures var objects := CommandObjects(suite, ssc, data, le);
            var last := ShortTlv(0x8E, CommandMac(suite, ssc, header, Concat(objects)));
            Split(CommandBody(suite, ssc, header, data, le)) == Some(objects + [last])
            <==> |data| <= suite.MaxShortData()
  {
    var objects := CommandObjects(suite, ssc, data, le);
    var last := ShortTlv(0x8E, CommandMac(suite, ssc, header, Concat(objects)));
    var body := CommandBody(suite, ssc, header, data, le);
    CommandBodyIsConcat(suite, ssc, header, data, le);
    if data != [] {
      DataObject87Length(suite, ssc, data);
    }
    if |data| <= suite.MaxShortData() {
      CommandObjectsAreObjects(suite, ssc, data, le);
      ShortTlvIsObject(0x8E, CommandMac(suite, ssc, header, Concat(objects)));
      SplitAll(objects + [last]);
    } else {
      LongDataObject87IsMisread(suite, ssc, data);
      var d87 := DataObject87(suite, ssc, data);
      assert objects[0] == d87 && (objects + [last])[0] == d87;
      assert body == d87 + Concat((objects + [last])[1..]);
      assert body[1..][0] == d87[1] && body[1..][1] == d87[2];
      assert TlvHeader(body) == None || TlvHeader(body) == Some(Length(3, 1));
      if Split(body).Some? {
        assert |Split(body).value[0]| == 4 != |d87|;
      }
    }
  }

  lemma CommandObjectsAreObjects(suite: Suite, ssc: Bytes, data: Bytes, le: int)
    requires suite.Valid() && |ssc| == suite.Block() && le <= 255 && |data| <= suite.MaxShortData()
    ensures AllObjects(CommandObjects(suite, ssc, data, le))
  {
    if data != [] {
      DataObject87Length(suite, ssc, data);
      PadIsAlignedAndMinimal(suite.Block(), data);
      ShortTlvIsObject(0x87, [0x01] + suite.Encrypt(ssc, IsoPad(suite.Block(), data)));
    }
    if le >= 0 {
      ShortTlvIsObject(0x97, [le]);
    }
  }

  /** Past the short form the length byte is 0x81 followed by the indicator, or no length at all. */
  lemma LongDataObject87IsMisread(suite: Suite, ssc: Bytes, data: Bytes)
    requires suite.Valid() && |ssc| == suite.Block()
    requires suite.MaxShortData() < |data| <= suite.MaxData()
    ensures var d := DataObject87(suite, ssc, data);
            |d| > 4 && d[2] == 0x01 && (d[1] == 0x81 || d[1] > 0x82)
  {
    DataObject87Length(suite, ssc, data);
    PadIsAlignedAndMinimal(suite.Block(), data);
    var n := |IsoPad(suite.Block(), data)|;
    assert 128 <= n <= 224;
  }

  /** What the terminal encrypted, the same suite under the same counter decrypts. */
  lemma OpensOwnDataObject(suite: Suite, ssc: Bytes, plain: Bytes, d: Bytes)
    requires suite.Valid() && |ssc| == suite.Block() && IsObject(d)
    requires |IsoPad(suite.Block(), plain)| % suite.Block() == 0
    requires d[TlvHeader(d).value.header..] == [0x01] + suite.Encrypt(ssc, IsoPad(suite.Block(), plain))
    ensures OpenDataObject(suite, ssc, d, NoFault) == Some(plain)
  {
    var padded := IsoPad(suite.Block(), plain);
    PadIsAlignedAndMinimal(suite.Block(), plain);
    assert d[TlvHeader(d).value.header..][1..] == suite.Encrypt(ssc, padded);
    suite.DecryptInvertsEncrypt(ssc, padded);
    UnpadInvertsPad(suite.Block(), plain);
  }

  lemma DataObject87Opens(suite: Suite, ssc: Bytes, data: Bytes)
    requires suite.Valid() && |ssc| == suite.Block() && 0 < |data| <= suite.MaxShortData()
    ensures var d87 := DataObject87(suite, ssc, data);
            IsObject(d87) && d87[0] == 0x87 && OpenDataObject(suite, ssc, d87, NoFault) == Some(data)
  {
    var d87 := DataObject87(suite, ssc, data);
    DataObject87Length(suite, ssc, data);
    PadIsAlignedAndMinimal(suite.Block(), data);
    var content := [0x01] + suite.Encrypt(ssc, IsoPad(suite.Block(), data));
    ShortTlvIsObject(0x87, content);
    assert d87[2..] == content;
    OpensOwnDataObject(suite, ssc, data, d87);
  }

  /** The chip opens a leading DO'87' to the data and reads Le from what follows. */
  lemma ChipReadsCommandObjects(suite: Suite, ssc: Bytes, header: Bytes, data: Bytes, le: int)
    requires suite.Valid() && |ssc| == suite.Block()
    requires -1 <= le <= 255 && |data| <= suite.MaxShortData()
    ensures var ms := CommandObjects(suite, ssc, data, le);
            && AllObjects(ms)
            && (ms != [] && ms[0][0] == 0x87 <==> data != [])
            && (data != [] ==> Opened(suite, ssc, ms[0]) == Some(data))
            && WithLe(header, data, if data == [] then ms else ms[1..]) == Some(Request(header, data, le))
  {
    var ms := CommandObjects(suite, ssc, data, le);
    CommandObjectsAreObjects(suite, ssc, data, le);
    var rest := if le < 0 then [] else [DataObject97(le)];
    assert WithLe(header, data, rest) == Some(Request(header, data, le));
    if data == [] {
      assert ms == rest;
    } else {
      DataObject87Opens(suite, ssc, data);
      OpenedAgrees(suite, ssc, DataObject87(suite, ssc, data));
      assert ms[0] == DataObject87(suite, ssc, data) && ms[1..] == rest;
    }
  }

  /** An honest chip recovers header, data and Le from every command with short data. */
  lemma ChipRecoversCommand(suite: Suite, ssc: Bytes, header: Bytes, data: Bytes, le: int)
    requires suite.Valid() && |ssc| == suite.Block() && |header| == 4
    requires -1 <= le <= 255 && |data| <= suite.MaxShortData()
    ensures Receive(suite, ssc, Command(suite, ssc, header, data, le)) == Some(Request(header, data, le))
  {
    var objects := CommandObjects(suite, ssc, data, le);
    var mac := CommandMac(suite, ssc, header, Concat(objects));
    var ds := objects + [ShortTlv(0x8E, mac)];
    var body, apdu := CommandBody(suite, ssc, header, data, le), Command(suite, ssc, header, data, le);
    LcIsBodyLength(suite, ssc, header, data, le);
    CommandBodyIsConcat(suite, ssc, header, data, le);
    CommandWalksIffShort(suite, ssc, header, data, le);
    assert Receive(suite, ssc, apdu) == ReceiveObjects(suite, ssc, header, body, ds);
    assert ReceiveObjects(suite, ssc, header, body, ds) == Some(Request(header, data, le)) by {
      assert ds[..|objects|] == objects && ds[|objects|][2..] == mac;
      ChipReadsCommandObjects(suite, ssc, header, data, le);
      SuitesAgree(suite, ssc, ssc + IsoPad(suite.Block(), header) + Concat(objects));
    }
  }

  /** And it recovers nothing from a command with longer data: within the guard it refuses every one of them. */
  lemma ChipRecoversCommandIff(suite: Suite, ssc: Bytes, header: Bytes, data: Bytes, le: int)
    requires suite.Valid() && |ssc| == suite.Block() && |header| == 4
    requires -1 <= le <= 255 && |data| <= suite.MaxData()
    ensures Receive(suite, ssc, Command(suite, ssc, header, data, le))
            == if |data| <= suite.MaxShortData() then Some(Request(header, data, le)) else None
  {
    if |data| <= suite.MaxShortData() {
      ChipRecoversCommand(suite, ssc, header, data, le);
    } else {
      var body, apdu := CommandBody(suite, ssc, header, data, le), Command(suite, ssc, header, data, le);
      LcIsBodyLength(suite, ssc, header, data, le);
      LongBodyStartsWithRuin(suite, ssc, header, data, le);
      assert apdu[5..|apdu| - 1] == body && apdu[..4] == header;
      if Split(body).Some? {
        RuinIsRefused(suite, ssc, header, body, Split(body).value);
      }
    }
  }

  /** What the walk takes for the first object is a DO'87' of one content byte. */
  lemma LongBodyStartsWithRuin(suite: Suite, ssc: Bytes, header: Bytes, data: Bytes, le: int)
    requires suite.Valid() && |ssc| == suite.Block()
    requires le <= 255 && suite.MaxShortData() < |data| <= suite.MaxData()
    ensures var body := CommandBody(suite, ssc, header, data, le);
            Split(body).Some? ==> Split(body).value != [] && |Split(body).value[0]| == 4 && Split(body).value[0][0] == 0x87
                                  && IsObject(Split(body).value[0]) && TlvHeader(Split(body).value[0]) == Some(Length(3, 1))
  {
    var d87, body := DataObject87(suite, ssc, data), CommandBody(suite, ssc, header, data, le);
    LongDataObject87IsMisread(suite, ssc, data);
    DataObject87Length(suite, ssc, data);
    hide DataObject87, CommandMac;
    assert body[0] == d87[0] && body[1..][0] == d87[1] && body[1..][1] == d87[2];
    if Split(body).Some? {
      assert TlvHeader(body) == Some(Length(3, 1));
      assert body[..4][1..] == body[1..4];
    }
  }

  lemma RuinIsRefused(suite: Suite, ssc: Bytes, header: Bytes, body: Bytes, ds: seq<Bytes>)
    requires suite.Valid() && |ssc| == suite.Block() && Split(body) == Some(ds)
    requires ds != [] && ds[0] != [] && ds[0][0] == 0x87 && IsObject(ds[0]) && TlvHeader(ds[0]) == Some(Length(3, 1))
    ensures ReceiveObjects(suite, ssc, header, body, ds) == None
  {
    hide Split, TlvHeader;
    assert Opened(suite, ssc, ds[0]) == None;
  }

  /**
   A command that could not be built leaves the session in step with the chip, which has seen nothing,
   exactly if it was refused for its length or, after BAC, for a failed encryption.
   */
  lemma RefusedCommandKeepsStepIff(suite: Suite, ssc: Bytes, header: Bytes, data: Bytes, le: int, fault: Fault)
    requires suite.Valid() && |ssc| == suite.Block()
    requires Protect(suite, ssc, header, data, le, fault).apdu.None?
    ensures Protect(suite, ssc, header, data, le, fault).ssc == ssc
      <==> le > 255 || |data| > suite.MaxData() || (suite.BacSuite? && data != [] && fault == CipherFault)
  {
    CounterWidths();
    NeverRepeats(ssc, 0, 1);
    assert Advance(ssc, 1) == Next(Advance(ssc, 0)) == Next(ssc);
  }
}
