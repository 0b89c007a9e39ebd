/** Parsing undoes printing, whatever follows the message and wherever it is cut off. */
module NdefTheorems {
  import opened ByteStrings
  import opened Ndef

  lemma HeaderFlags(first: bool, last: bool, l: Layout)
    requires l.Valid()
    ensures var h := HeaderByte(first, last, l);
      MessageEnd(h) == last && ShortRecord(h) == l.short && HasIdLength(h) == l.withIdLength && h % 8 == l.record.tnf
  {
    var h := HeaderByte(first, last, l);
    var m, e, s, i := if first then 1 else 0, if last then 1 else 0, if l.short then 1 else 0, if l.withIdLength then 1 else 0;
    assert h == 8 * (16 * m + 8 * e + 2 * s + i) + l.record.tnf;
    assert h / 0x08 == 16 * m + 8 * e + 2 * s + i;
    assert h / 0x10 == 8 * m + 4 * e + s;
    assert h / 0x40 == 2 * m + e;
  }

  lemma SliceAfter(head: Bytes, rest: Bytes, lo: nat, hi: nat)
    requires lo <= hi <= |rest|
    ensures (head + rest)[|head| + lo..|head| + hi] == rest[lo..hi]
  {
  }

  /** Everything of a printed record before its type field. */
  function Head(first: bool, last: bool, l: Layout): (s: Bytes)
    requires l.Valid()
    ensures 3 <= |s| <= 7
  {
    [HeaderByte(first, last, l), |l.record.kind|]
    + (if l.short then [|l.record.payload|] else FourBytes(|l.record.payload|))
    + (if l.withIdLength then [|l.record.id|] else [])
  }

  function Body(r: NdefRecord): Bytes { r.kind + r.id + r.payload }

  lemma PrintRecordIsHeadAndBody(first: bool, last: bool, l: Layout)
    requires l.Valid()
    ensures PrintRecord(first, last, l) == Head(first, last, l) + Body(l.record)
  {
    hide HeaderByte, FourBytes;
  }

  lemma FieldsOfHead(first: bool, last: bool, l: Layout, rest: Bytes)
    requires l.Valid()
    ensures ParseFields(Head(first, last, l) + rest)
      == Some(Fields(HeaderByte(first, last, l), |l.record.kind|, |l.record.id|, |l.record.payload|, |Head(first, last, l)|))
  {
    hide HeaderByte, FourBytes, BigEndian;
    HeaderFlags(first, last, l);
    hide MessageEnd, ShortRecord, HasIdLength;
    FourBytesSpell(|l.record.payload|);
    var s := Head(first, last, l) + rest;
    assert s[0] == HeaderByte(first, last, l) && s[1] == |l.record.kind|;
    if !l.short {
      assert s[2..6] == FourBytes(|l.record.payload|);
    }
  }

  /** What the parser makes of a head, with whatever bytes after it. */
  lemma ParseOfHead(first: bool, last: bool, l: Layout, rest: Bytes)
    requires l.Valid()
    ensures var r := l.record; var head := Head(first, last, l); var k, i, p := |r.kind|, |r.id|, |r.payload|;
      ParseRecord(head + rest) ==
      if k + i + p > |rest| then None
      else Some(Parsed(NdefRecord(r.tnf, rest[..k], rest[k..k + i], rest[k + i..k + i + p]), last, |head| + k + i + p))
  {
    hide HeaderByte, Head, ParseFields;
    HeaderFlags(first, last, l);
    hide MessageEnd, ShortRecord, HasIdLength;
    FieldsOfHead(first, last, l, rest);
    var head := Head(first, last, l);
    var s := head + rest;
    var b, k, i, p := |head|, |l.record.kind|, |l.record.id|, |l.record.payload|;
    if k + i + p <= |rest| {
      SliceAfter(head, rest, 0, k);
      SliceAfter(head, rest, k, k + i);
      SliceAfter(head, rest, k + i, k + i + p);
    }
  }

  lemma ParseInvertsPrint(first: bool, last: bool, l: Layout, tail: Bytes)
    requires l.Valid()
    ensures var s := PrintRecord(first, last, l);
      ParseRecord(s + tail) == Some(Parsed(l.record, last, |s|))
  {
    hide Head, PrintRecord, ParseRecord;
    PrintRecordIsHeadAndBody(first, last, l);
    var r := l.record;
    var rest := Body(r) + tail;
    ParseOfHead(first, last, l, rest);
    assert PrintRecord(first, last, l) + tail == Head(first, last, l) + rest;
    var k, i, p := |r.kind|, |r.id|, |r.payload|;
    assert rest[..k] == r.kind && rest[k..k + i] == r.id && rest[k + i..k + i + p] == r.payload;
  }

  /** Cut off anywhere, a printed record is refused. */
  lemma CutRecordIsRefused(first: bool, last: bool, l: Layout, n: nat)
    requires l.Valid() && n < |PrintRecord(first, last, l)|
    ensures ParseRecord(PrintRecord(first, last, l)[..n]) == None
  {
    PrintRecordIsHeadAndBody(first, last, l);
    var head, s := Head(first, last, l), PrintRecord(first, last, l)[..n];
    if |head| <= n {
      hide Head, PrintRecord, ParseRecord;
      var rest := Body(l.record)[..n - |head|];
      assert s == head + rest;
      ParseOfHead(first, last, l, rest);
    } else {
      CutHeadIsRefused(first, last, l, n);
      assert s == head[..n];
    }
  }

  lemma CutHeadIsRefused(first: bool, last: bool, l: Layout, n: nat)
    requires l.Valid() && n < |Head(first, last, l)|
    ensures ParseRecord(Head(first, last, l)[..n]) == None
  {
    hide HeaderByte, FourBytes, BigEndian;
    HeaderFlags(first, last, l);
    hide MessageEnd, ShortRecord, HasIdLength;
    if n >= 2 {
      assert Head(first, last, l)[..n][0] == HeaderByte(first, last, l);
    }
  }

  predicate AllValid(ls: seq<Layout>) {
    forall l :: l in ls ==> l.Valid()
  }

  /** Parsing undoes printing; what follows the record with the end flag is not looked at. */
  lemma {:induction false} DecodeInvertsPrint(first: bool, ls: seq<Layout>, tail: Bytes)
    requires ls != [] && AllValid(ls)
    ensures Decode(Print(first, ls) + tail) == Some(Records(ls))
    decreases |ls|
  {
    hide ParseRecord, PrintRecord;
    var s := PrintRecord(first, |ls| == 1, ls[0]);
    var rest := Print(false, ls[1..]) + tail;
    assert Print(first, ls) + tail == s + rest;
    ParseInvertsPrint(first, |ls| == 1, ls[0], rest);
    assert (s + rest)[|s|..] == rest;
    if |ls| == 1 {
      assert Records(ls) == [ls[0].record];
    } else {
      DecodeInvertsPrint(false, ls[1..], tail);
    }
  }

  /** The bytes of the first k records of a longer message. */
  function SizeOf(first: bool, ls: seq<Layout>, k: nat): nat
    requires AllValid(ls) && k <= |ls|
  {
    if k == 0 then 0 else |PrintRecord(first, |ls| == 1, ls[0])| + SizeOf(false, ls[1..], k - 1)
  }

  /**
   A message cut off before its end is refused unless the cut falls between two records, and then
   exactly the records before the cut are returned.
   */
  lemma {:induction false} CutMessage(first: bool, ls: seq<Layout>, n: nat)
    requires AllValid(ls) && n < |Print(first, ls)|
    ensures forall k :: 0 <= k <= |ls| && n == SizeOf(first, ls, k) ==> Decode(Print(first, ls)[..n]) == Some(Records(ls[..k]))
    ensures (forall k :: 0 <= k <= |ls| ==> n != SizeOf(first, ls, k)) ==> Decode(Print(first, ls)[..n]) == None
    decreases |ls|
  {
    hide ParseRecord, PrintRecord, Decode;
    var one, more := PrintRecord(first, |ls| == 1, ls[0]), Print(false, ls[1..]);
    if n < |one| {
      assert Print(first, ls)[..n] == one[..n];
      CutInFirstRecord(first, ls, n);
    } else {
      var m := n - |one|;
      assert Print(first, ls)[..n] == one + more[..m];
      CutMessage(false, ls[1..], m);
      DecodeFirst(first, ls[0], more[..m]);
      assert SizeOf(first, ls, 0) < n;
      if cut: nat :| cut < |ls| && m == SizeOf(false, ls[1..], cut) {
        assert SizeOf(first, ls, cut + 1) == n;
      }
      forall k | 0 <= k <= |ls| && n == SizeOf(first, ls, k)
        ensures Decode(one + more[..m]) == Some(Records(ls[..k]))
      {
        assert m == SizeOf(false, ls[1..], k - 1);
        assert ls[..k][0] == ls[0] && ls[..k][1..] == ls[1..][..k - 1];
      }
    }
  }

  lemma DecodeFirst(first: bool, l: Layout, tail: Bytes)
    requires l.Valid()
    ensures Decode(PrintRecord(first, false, l) + tail) == Prepend([l.record], Decode(tail))
  {
    hide ParseRecord, PrintRecord;
    ParseInvertsPrint(first, false, l, tail);
    var s := PrintRecord(first, false, l);
    assert (s + tail)[|s|..] == tail;
  }

  lemma CutInFirstRecord(first: bool, ls: seq<Layout>, n: nat)
    requires ls != [] && AllValid(ls) && n < |PrintRecord(first, |ls| == 1, ls[0])|
    ensures Decode(PrintRecord(first, |ls| == 1, ls[0])[..n]) == if n == 0 then Some([]) else None
    ensures forall k :: 0 < k <= |ls| ==> SizeOf(first, ls, k) > n
  {
    hide ParseRecord, PrintRecord;
    CutRecordIsRefused(first, |ls| == 1, ls[0], n);
  }

  /* ---- nesting ---- */

  /** How many Smart Posters are inside one another in this record. */
  function Depth(j: RecordJson): nat
    decreases j, 1, 0
  {
    match j.shown
    case SmartPoster(nested) => 1 + DepthBelow(j, |nested|)
    case UnreadableSmartPoster => 1
    case _ => 0
  }

  function DepthBelow(j: RecordJson, i: nat): nat
    requires j.shown.SmartPoster? && i <= |j.shown.records|
    decreases j, 0, i
  {
    if i == 0 then 0
    else
      var rest, here := DepthBelow(j, i - 1), Depth(j.shown.records[i - 1]);
      if here > rest then here else rest
  }

  lemma {:induction false} EachRecordIsRendered(lib: TextLibrary, rs: seq<NdefRecord>, bound: nat, i: nat)
    requires (forall r :: r in rs ==> |r.payload| < bound) && i < |rs|
    ensures RecordsToJson(lib, rs, bound)[i] == RecordToJson(lib, rs[i])
    decreases |rs|
  {
    hide RecordToJson;
    if i < |rs| - 1 {
      EachRecordIsRendered(lib, rs[..|rs| - 1], bound, i);
    }
  }

  /** Every level of nesting costs five bytes of the message. */
  lemma {:induction false} NestingIsBounded(lib: TextLibrary, s: Bytes)
    requires MessageToJson(lib, s).Some?
    ensures forall j :: j in MessageToJson(lib, s).value ==> 5 * Depth(j) <= |s|
    decreases |s|
  {
    hide RecordToJson, Decode, Depth;
    DecodedPayloadsAreShorter(s);
    var rs := Decode(s).value;
    forall j | j in MessageToJson(lib, s).value
      ensures 5 * Depth(j) <= |s|
    {
      var i :| 0 <= i < |rs| && MessageToJson(lib, s).value[i] == j;
      EachRecordIsRendered(lib, rs, |s|, i);
      RecordNestingIsBounded(lib, rs[i]);
    }
  }

  lemma {:induction false} RecordNestingIsBounded(lib: TextLibrary, r: NdefRecord)
    ensures 5 * Depth(RecordToJson(lib, r)) <= |r.payload| + |r.kind| + 3
    decreases |r.payload| + 1
  {
    hide MessageToJson, DecodeText, DecodeUri, ShowMedia, TypeText, CString;
    var j := RecordToJson(lib, r);
    if j.shown.SmartPoster? {
      assert r.kind == Ascii("Sp");
      NestingIsBounded(lib, r.payload);
      DepthBelowIsBounded(j, |j.shown.records|, |r.payload|);
    }
  }

  lemma {:induction false} DepthBelowIsBounded(j: RecordJson, i: nat, n: nat)
    requires j.shown.SmartPoster? && i <= |j.shown.records|
    requires forall k :: k in j.shown.records ==> 5 * Depth(k) <= n
    ensures 5 * DepthBelow(j, i) <= n
    decreases i
  {
    hide Depth;
    if i > 0 {
      DepthBelowIsBounded(j, i - 1, n);
    }
  }
}
