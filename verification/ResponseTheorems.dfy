/** Protected responses: what the terminal accepts, and that it reads back what a chip wrote. */
module ResponseTheorems {
  import opened Arithmetic
  import opened BerTlv
  import opened ByteStrings
  import opened ChipCrypto
  import opened CommandTheorems
  import opened HonestChip
  import opened Padding
  import opened SecureMessaging
  import opened SendSequenceCounter

  predicate IsKnownTag(tag: Byte) {
    tag == 0x87 || tag == 0x99 || tag == 0x8E
  }

  /** The objects whose tags the terminal knows, in their order. */
  function Known(ds: seq<Bytes>): (ks: seq<Bytes>)
    requires AllObjects(ds)
    ensures AllObjects(ks)
  {
    if ds == [] then []
    else
      var d := ds[|ds| - 1];
      Known(ds[..|ds| - 1]) + if IsKnownTag(d[0]) then [d] else []
  }

  lemma KnownSnoc(ds: seq<Bytes>, d: Bytes)
    requires AllObjects(ds) && IsObject(d)
    ensures Known(ds + [d]) == Known(ds) + if IsKnownTag(d[0]) then [d] else []
  {
    assert (ds + [d])[..|ds|] == ds;
  }

  lemma {:induction false} LastOfKnown(tag: Byte, ds: seq<Bytes>)
    requires AllObjects(ds) && IsKnownTag(tag)
    ensures LastOf(tag, Known(ds)) == LastOf(tag, ds)
  {
    assert forall i :: 0 <= i < |ds| ==> ds[i] != [];
    hide IsObject;
    if ds != [] {
      var front, d := ds[..|ds| - 1], ds[|ds| - 1];
      LastOfKnown(tag, front);
      if IsKnownTag(d[0]) {
        assert Known(ds)[..|Known(ds)| - 1] == Known(front);
      } else {
        assert Known(ds) == Known(front);
      }
    }
  }

  lemma UnknownObjectsAreSkipped(ds: seq<Bytes>)
    requires AllObjects(ds)
    ensures PartsOf(ds) == PartsOf(Known(ds))
  {
    LastOfKnown(0x87, ds);
    LastOfKnown(0x99, ds);
    LastOfKnown(0x8E, ds);
  }

  /* ---- what a chip writes ---- */

  lemma StatusObject(sw1: Byte, sw2: Byte)
    ensures Encode(0x99, [sw1, sw2]) == [0x99, 2, sw1, sw2]
    ensures IsObject([0x99, 2, sw1, sw2])
  {
    EncodeIsObject(0x99, [sw1, sw2]);
  }

  lemma MacObject(mac: Bytes)
    requires |mac| == 8
    ensures Encode(0x8E, mac) == [0x8E, 8] + mac
    ensures IsObject(Encode(0x8E, mac))
  {
    EncodeIsObject(0x8E, mac);
  }

  lemma PayloadShape(suite: Suite, ssc: Bytes, reply: Reply)
    requires suite.Valid() && |ssc| == suite.Block() && reply.Fits(suite)
    ensures var p, last := PayloadObjects(suite, ssc, reply), [0x99, 2, reply.sw1, reply.sw2];
            && AllObjects(p) && IsObject(last)
            && p == (if reply.data.Some? then [p[0]] else []) + [last]
            && (reply.data.Some? ==>
                  p[0][0] == 0x87 && OpenDataObject(suite, ssc, p[0], NoFault) == reply.data)
            && Concat(p) == (if reply.data.Some? then p[0] else []) + last
  {
    var p := PayloadObjects(suite, ssc, reply);
    StatusObject(reply.sw1, reply.sw2);
    var last := [0x99, 2, reply.sw1, reply.sw2];
    match reply.data
    case None =>
      assert p == [last];
      ConcatOfOneOrTwo(last, last);
    case Some(plain) =>
      PadIsAlignedAndMinimal(suite.Block(), plain);
      var content := [0x01] + suite.Encrypt(ssc, IsoPad(suite.Block(), plain));
      var d := Encode(0x87, content);
      EncodeIsObject(0x87, content);
      SuitesAgree(suite, ssc, IsoPad(suite.Block(), plain));
      assert d[TlvHeader(d).value.header..] == content;
      OpensOwnDataObject(suite, ssc, plain, d);
      assert p == [d, last];
      ConcatOfOneOrTwo(d, last);
  }

  lemma PartsOfPayload(p: seq<Bytes>, d87: Option<Bytes>, last: Bytes, mac: Bytes)
    requires AllObjects(p) && IsObject(last) && last[0] == 0x99 && IsObject(mac) && mac[0] == 0x8E
    requires d87.Some? ==> IsObject(d87.value) && d87.value[0] == 0x87
    requires p == (if d87.Some? then [d87.value] else []) + [last]
    ensures AllObjects(p + [mac])
    ensures PartsOf(p + [mac]) == Parts(d87, Some(last), Some(mac))
    ensures Known(p + [mac]) == p + [mac]
  {
    AllKnown(p + [mac]);
    var front := if d87.Some? then [d87.value] else [];
    forall tag: Byte
      ensures LastOf(tag, p + [mac])
              == if tag == 0x8E then Some(mac) else if tag == 0x99 then Some(last) else LastOf(tag, front)
    {
      LastOfSnoc(tag, p, mac);
      LastOfSnoc(tag, front, last);
    }
    if d87.Some? {
      LastOfSnoc(0x87, [], d87.value);
      assert [] + [d87.value] == [d87.value];
    }
  }

  lemma ReplyShape(suite: Suite, ssc: Bytes, reply: Reply)
    requires suite.Valid() && |ssc| == suite.Block() && reply.Fits(suite)
    ensures var ds, p := ReplyObjects(suite, ssc, reply), PayloadObjects(suite, ssc, reply);
            && AllObjects(ds)
            && Known(ds) == ds
            && var parts := PartsOf(ds);
            && parts == Parts(if reply.data.Some? then Some(p[0]) else None,
                              Some([0x99, 2, reply.sw1, reply.sw2]),
                              Some([0x8E, 8] + suite.Mac(ssc + Concat(p))))
  {
    PayloadShape(suite, ssc, reply);
    var p, last := PayloadObjects(suite, ssc, reply), [0x99, 2, reply.sw1, reply.sw2];
    var d87 := if reply.data.Some? then Some(p[0]) else None;
    var mac := suite.Mac(ssc + Concat(p));
    SuitesAgree(suite, ssc, ssc + Concat(p));
    MacObject(mac);
    PartsOfPayload(p, d87, last, [0x8E, 8] + mac);
  }

  lemma TrailingStatusIsAnEmptyObject(s1: Byte)
    ensures IsObject([s1, 0]) && Split([s1, 0]) == Some([[s1, 0]])
  {
    var t := [s1, 0];
    assert t[1..] == [0];
    assert IsObject(t);
    assert Concat([t]) == t + Concat([]) == t;
    SplitAll([t]);
  }

  /** Around a chip's own objects, objects with other tags leave the parts as they are. */
  lemma InterleavedParts(ds: seq<Bytes>, tail: Bytes)
    requires AllObjects(ds) && ds != [] && PartsOf(Known(ds)).Complete()
    requires IsObject(tail) && !IsKnownTag(tail[0])
    ensures ResponseParts(Concat(ds) + tail) == Some(PartsOf(Known(ds)))
  {
    hide *;
    SplitWithTail(ds, tail);
    KnownPlusUnknown(ds, tail);
    PartsOfSplit(Concat(ds) + tail, ds + [tail]);
  }

  lemma KnownPlusUnknown(ds: seq<Bytes>, tail: Bytes)
    requires AllObjects(ds) && IsObject(tail) && !IsKnownTag(tail[0])
    ensures AllObjects(ds + [tail]) && PartsOf(ds + [tail]) == PartsOf(Known(ds))
    ensures |Concat(ds) + tail| >= 2
  {
    assert |tail| >= 2;
    hide Known, PartsOf, Concat, IsObject, IsKnownTag;
    KnownSnoc(ds, tail);
    assert Known(ds) + [] == Known(ds);
    UnknownObjectsAreSkipped(ds + [tail]);
  }

  lemma PartsOfSplit(rapdu: Bytes, ds: seq<Bytes>)
    requires |rapdu| >= 2 && Split(rapdu) == Some(ds) && AllObjects(ds) && PartsOf(ds).Complete()
    ensures ResponseParts(rapdu) == Some(PartsOf(ds))
  {
  }

  lemma SplitWithTail(ds: seq<Bytes>, tail: Bytes)
    requires AllObjects(ds) && IsObject(tail)
    ensures Split(Concat(ds) + tail) == Some(ds + [tail])
  {
    ConcatOfOneOrTwo(tail, tail);
    SplitAll([tail]);
    SplitConcat(ds, tail);
  }

  lemma ReplyIsAccepted(suite: Suite, ssc: Bytes, reply: Reply)
    requires suite.Valid() && |ssc| == suite.Block() && reply.Fits(suite)
    ensures AllObjects(ReplyObjects(suite, ssc, reply))
    ensures var parts := PartsOf(ReplyObjects(suite, ssc, reply));
            && parts.Complete()
            && (parts.do87.Some? ==> IsObject(parts.do87.value))
            && Judge(suite, ssc, parts, NoFault) == Accepted(reply.data, reply.sw1 as nat * 0x100 + reply.sw2)
  {
    ReplyShape(suite, ssc, reply);
    PayloadShape(suite, ssc, reply);
    var parts := PartsOf(ReplyObjects(suite, ssc, reply));
    var mac := suite.Mac(ssc + parts.MacInput());
    assert ([0x8E, 8] + mac)[2..] == mac;
  }

  lemma UnprotectIsJudge(suite: Suite, ssc: Bytes, rapdu: Bytes, parts: Parts)
    requires suite.Valid() && |ssc| == suite.Block() && ResponseParts(rapdu) == Some(parts)
    ensures Unprotect(suite, ssc, rapdu, NoFault) == Unwrapped(Judge(suite, Next(ssc), parts, NoFault), Next(ssc))
  {
  }

  /**
   The round trip. Whatever a chip answers - any data that fits, any status - and whatever
   well-formed objects with other tags stand between, before and after its own, the terminal
   gets exactly that data and status, and its counter has moved once.
   */
  lemma ResponseRoundTrip(suite: Suite, ssc: Bytes, reply: Reply, ds: seq<Bytes>)
    requires suite.Valid() && |ssc| == suite.Block() && reply.Fits(suite)
    requires AllObjects(ds) && Known(ds) == ReplyObjects(suite, Next(ssc), reply)
    ensures Unprotect(suite, ssc, Concat(ds) + [0x90, 0x00], NoFault)
            == Unwrapped(Accepted(reply.data, reply.sw1 as nat * 0x100 + reply.sw2), Next(ssc))
  {
    ReplyIsAccepted(suite, Next(ssc), reply);
    TrailingStatusIsAnEmptyObject(0x90);
    InterleavedParts(ds, [0x90, 0x00]);
    UnprotectIsJudge(suite, ssc, Concat(ds) + [0x90, 0x00], PartsOf(Known(ds)));
  }

  /** The plain case: just the chip's own objects. */
  lemma PlainResponseRoundTrip(suite: Suite, ssc: Bytes, reply: Reply)
    requires suite.Valid() && |ssc| == suite.Block() && reply.Fits(suite)
    ensures Unprotect(suite, ssc, Respond(suite, Next(ssc), reply), NoFault)
            == Unwrapped(Accepted(reply.data, reply.sw1 as nat * 0x100 + reply.sw2), Next(ssc))
  {
    ReplyShape(suite, Next(ssc), reply);
    ResponseRoundTrip(suite, ssc, reply, ReplyObjects(suite, Next(ssc), reply));
  }

  lemma {:induction false} AllKnown(ds: seq<Bytes>)
    requires AllObjects(ds) && forall i :: 0 <= i < |ds| ==> IsKnownTag(ds[i][0])
    ensures Known(ds) == ds
  {
    hide IsObject, IsKnownTag;
    if ds != [] {
      AllKnown(ds[..|ds| - 1]);
    }
  }

  /* ---- what the terminal accepts ---- */

  /**
   The counter moves exactly when the structure of the response was accepted, whatever the
   crypto library does afterwards - so not always, and never by more than one.
   */
  lemma CounterMovesIffStructureAccepted(suite: Suite, ssc: Bytes, rapdu: Bytes, fault: Fault)
    requires suite.Valid() && |ssc| == suite.Block()
    ensures Unprotect(suite, ssc, rapdu, fault).ssc == if ResponseParts(rapdu).Some? then Next(ssc) else ssc
    ensures Next(ssc) != ssc
  {
    CounterWidths();
    NeverRepeats(ssc, 0, 1);
    assert Advance(ssc, 1) == Next(Advance(ssc, 0)) == Next(ssc);
  }

  /** The two bytes after the objects pass for a data object only as an empty one. */
  lemma TrailingStatusAccepted(ds: seq<Bytes>, s1: Byte, s2: Byte)
    requires AllObjects(ds) && PartsOf(ds).Complete()
    ensures ResponseParts(Concat(ds) + [s1, s2]).Some? <==> s2 == 0 && s1 != 0x99 && s1 != 0x8E
  {
    var tail := [s1, s2];
    assert tail[1..] == [s2];
    SplitConcat(ds, tail);
    assert ds != [];
    if s2 == 0 {
      TrailingStatusIsAnEmptyObject(s1);
      var all := ds + [tail];
      assert all[..|all| - 1] == ds;
      assert |Concat(ds) + tail| >= 2;
    } else {
      assert Split(tail).None?;
    }
  }

  /**
   Acceptance is sound and complete. A response is accepted with this plain text and status exactly
   when somebody with the session keys and the counter's successor made it: DO'87' holds 0x01 and
   the encryption of the text, 0x80 and zeros up to some block; the status is the one in DO'99'; and
   DO'8E' ends with the MAC over that counter and these two objects.
   */
  lemma AcceptedIffSealed(suite: Suite, ssc: Bytes, rapdu: Bytes, plain: Option<Bytes>, sw: nat)
    requires suite.Valid() && |ssc| == suite.Block()
    ensures Unprotect(suite, ssc, rapdu, NoFault).verdict == Accepted(plain, sw)
            <==> (&& ResponseParts(rapdu).Some?
                  && var parts := ResponseParts(rapdu).value;
                  && parts.do8e.value[2..] == suite.Mac(Next(ssc) + parts.MacInput())
                  && sw == parts.StatusWord()
                  && plain.Some? == parts.do87.Some?
                  && (plain.Some? ==> SealedFrom(suite, Next(ssc), parts.do87.value, plain.value)))
  {
    hide SealedFrom, OpenDataObject;
    if ResponseParts(rapdu).Some? && ResponseParts(rapdu).value.do87.Some? {
      var do87 := ResponseParts(rapdu).value.do87.value;
      if plain.Some? {
        OpensIffSealed(suite, Next(ssc), do87, plain.value);
      }
    }
  }

  /** A DO'87' whose content is 0x01 and the encryption of the text, 0x80 and zeros that complete a block. */
  ghost predicate SealedFrom(suite: Suite, ssc: Bytes, do87: Bytes, plain: Bytes)
    requires suite.Valid() && |ssc| == suite.Block()
  {
    && IsObject(do87)
    && exists n: nat ::
        && |plain + [0x80] + Zeros(n)| % suite.Block() == 0
        && do87[TlvHeader(do87).value.header..] == [0x01] + suite.Encrypt(ssc, plain + [0x80] + Zeros(n))
  }

  lemma OpensIffSealed(suite: Suite, ssc: Bytes, do87: Bytes, plain: Bytes)
    requires suite.Valid() && |ssc| == suite.Block() && IsObject(do87)
    ensures OpenDataObject(suite, ssc, do87, NoFault) == Some(plain) <==> SealedFrom(suite, ssc, do87, plain)
  {
    var content := do87[TlvHeader(do87).value.header..];
    hide TlvHeader, Unpad;
    if OpenDataObject(suite, ssc, do87, NoFault) == Some(plain) {
      var ct := content[1..];
      UnpadAccepts(suite.Decrypt(ssc, ct), plain);
      suite.EncryptInvertsDecrypt(ssc, ct);
      var n: nat :| suite.Decrypt(ssc, ct) == plain + [0x80] + Zeros(n);
      assert content == [0x01] + suite.Encrypt(ssc, plain + [0x80] + Zeros(n));
    }
    if SealedFrom(suite, ssc, do87, plain) {
      var n: nat :| |plain + [0x80] + Zeros(n)| % suite.Block() == 0
                    && content == [0x01] + suite.Encrypt(ssc, plain + [0x80] + Zeros(n));
      var padded := plain + [0x80] + Zeros(n);
      assert content[1..] == suite.Encrypt(ssc, padded);
      suite.DecryptInvertsEncrypt(ssc, padded);
      assert IsPadded(padded, plain);
      UnpadAccepts(padded, plain);
    }
  }

  /** The MAC input fixes the objects it was made from: no two splits of it are both complete. */
  lemma MacInputDeterminesParts(a: Bytes, b: Bytes)
    requires ResponseParts(a).Some? && ResponseParts(b).Some?
    requires ResponseParts(a).value.MacInput() == ResponseParts(b).value.MacInput()
    ensures ResponseParts(a).value.do87 == ResponseParts(b).value.do87
    ensures ResponseParts(a).value.do99 == ResponseParts(b).value.do99
  {
    MacInputSplits(a);
    MacInputSplits(b);
    var m := ResponseParts(a).value.MacInput();
    var ds := Split(m).value;
    assert ResponseParts(a).value.do87.Some? <==> m[0] == 0x87;
    assert ResponseParts(a).value.do87.Some? ==> ds[0] == ResponseParts(a).value.do87.value;
    assert ResponseParts(b).value.do87.Some? ==> ds[0] == ResponseParts(b).value.do87.value;
    assert ds[|ds| - 1] == ResponseParts(a).value.do99.value;
    assert ds[|ds| - 1] == ResponseParts(b).value.do99.value;
  }

  lemma MacInputSplits(a: Bytes)
    requires ResponseParts(a).Some?
    ensures var p := ResponseParts(a).value;
            && p.MacInput() != []
            && p.MacInput()[0] == (if p.do87.Some? then 0x87 else 0x99)
            && Split(p.MacInput()) == Some((if p.do87.Some? then [p.do87.value] else []) + [p.do99.value])
  {
    var p := ResponseParts(a).value;
    SplitSpellsInput(a);
    var ds := (if p.do87.Some? then [p.do87.value] else []) + [p.do99.value];
    ConcatOfOneOrTwo(p.do99.value, []);
    if p.do87.Some? {
      ConcatOfOneOrTwo(p.do87.value, p.do99.value);
      assert ds == [p.do87.value, p.do99.value];
    } else {
      assert ds == [p.do99.value] && p.MacInput() == p.do99.value;
    }
    assert AllObjects(ds) && Concat(ds) == p.MacInput();
    SplitAll(ds);
  }
}
