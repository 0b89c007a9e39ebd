/** BER-TLV data objects with one-byte tags, and the walk over a string of them. */
module BerTlv {
  import opened ByteStrings

  /** How many bytes a length field takes, and the content length it declares. */
  datatype Length = Length(header: nat, content: nat)

  /** The length forms that occur in an eMRTD: short, 0x81 and 0x82. */
  function BerLength(p: Bytes): (r: Option<Length>)
    ensures r.Some? ==> 1 <= r.value.header <= 3 && r.value.header <= |p| && r.value.content < 0x10000
  {
    if |p| < 1 then None
    else if p[0] < 0x80 then Some(Length(1, p[0]))
    else if p[0] == 0x81 then
      if |p| < 2 then None else Some(Length(2, p[1]))
    else if p[0] == 0x82 then
      if |p| < 3 then None else Some(Length(3, p[1] as nat * 0x100 + p[2]))
    else None
  }

  /** The same with the one-byte tag counted into the header. */
  function TlvHeader(data: Bytes): (r: Option<Length>)
    ensures r.Some? ==> 2 <= r.value.header <= 4 && r.value.header <= |data| && r.value.content < 0x10000
  {
    if |data| < 2 then None
    else
      match BerLength(data[1..])
      case None => None
      case Some(l) => Some(Length(1 + l.header, l.content))
  }

  /** The shortest length field, section 8.1.3 of X.690. */
  function EncodeLength(n: nat): (p: Bytes)
    requires n < 0x10000
    ensures 1 <= |p| <= 3
  {
    if n < 0x80 then [n] else if n < 0x100 then [0x81, n] else [0x82, n / 0x100, n % 0x100]
  }

  function Encode(tag: Byte, content: Bytes): (d: Bytes)
    requires |content| < 0x10000
    ensures d != [] && d[0] == tag
  {
    [tag] + EncodeLength(|content|) + content
  }

  /** A byte string that is one data object, header and content, and nothing more. */
  predicate IsObject(d: Bytes) {
    match TlvHeader(d)
    case None => false
    case Some(l) => |d| == l.header + l.content
  }

  lemma HeaderOfPrefix(d: Bytes, s: Bytes)
    requires TlvHeader(d).Some?
    ensures TlvHeader(d + s) == TlvHeader(d)
  {
    assert (d + s)[1..] == d[1..] + s;
  }

  /** One byte below 0x80, or one or two bytes after 81 or 82, shortest or not; nothing else is a length. */
  lemma LengthForms(s: Bytes)
    ensures s != [] && s[0] < 0x80 ==> BerLength(s) == Some(Length(1, s[0]))
    ensures |s| >= 2 && s[0] == 0x81 ==> BerLength(s) == Some(Length(2, s[1]))
    ensures |s| >= 3 && s[0] == 0x82 ==> BerLength(s) == Some(Length(3, s[1] as nat * 256 + s[2]))
    ensures BerLength(s).Some? ==> s != [] && (s[0] < 0x80 || (s[0] == 0x81 && |s| >= 2) || (s[0] == 0x82 && |s| >= 3))
  {
  }

  lemma EncodeIsObject(tag: Byte, content: Bytes)
    requires |content| < 0x10000
    ensures IsObject(Encode(tag, content))
    ensures TlvHeader(Encode(tag, content)) == Some(Length(1 + |EncodeLength(|content|)|, |content|))
  {
    var f := EncodeLength(|content|);
    assert Encode(tag, content)[1..] == f + content;
    assert BerLength(f) == Some(Length(|f|, |content|));
    assert BerLength(f + content) == BerLength(f);
  }

  function Concat(ds: seq<Bytes>): Bytes {
    if ds == [] then [] else ds[0] + Concat(ds[1..])
  }

  lemma ConcatOfOneOrTwo(a: Bytes, b: Bytes)
    ensures Concat([a]) == a
    ensures Concat([a, b]) == a + b
  {
    assert Concat([]) == [];
    assert [a][1..] == [] && [b][1..] == [] && [a, b][1..] == [b];
  }

  /**
   Cuts a string into data objects. Fails on a length field that is cut off or overruns;
   one byte left over at the end is dropped.
   */
  function Split(s: Bytes): (r: Option<seq<Bytes>>)
    decreases |s|
  {
    if |s| < 2 then Some([])
    else
      match TlvHeader(s)
      case None => None
      case Some(l) =>
        if l.header + l.content > |s| then None
        else
          var n := l.header + l.content;
          match Split(s[n..])
          case None => None
          case Some(rest) => Some([s[..n]] + rest)
  }

  lemma SplitStep(d: Bytes, s: Bytes)
    requires IsObject(d)
    ensures Split(d + s) == Prepend([d], Split(s))
  {
    HeaderOfPrefix(d, s);
    assert (d + s)[..|d|] == d && (d + s)[|d|..] == s;
  }

  predicate AllObjects(ds: seq<Bytes>) {
    forall i :: 0 <= i < |ds| ==> IsObject(ds[i])
  }

  lemma {:induction false} SplitConcat(ds: seq<Bytes>, s: Bytes)
    requires AllObjects(ds)
    ensures Split(Concat(ds) + s) == Prepend(ds, Split(s))
  {
    if ds == [] {
      assert Concat(ds) + s == s;
      assert Split(s).Some? ==> ds + Split(s).value == Split(s).value;
    } else {
      var rest := Concat(ds[1..]) + s;
      assert Split(rest) == Prepend(ds[1..], Split(s)) by {
        SplitConcat(ds[1..], s);
      }
      assert Concat(ds) + s == ds[0] + rest;
      SplitStep(ds[0], rest);
      PrependIsConcat([ds[0]], ds[1..], Split(s));
      assert ds == [ds[0]] + ds[1..];
    }
  }

  lemma SplitAll(ds: seq<Bytes>)
    requires AllObjects(ds)
    ensures Split(Concat(ds)) == Some(ds)
  {
    SplitConcat(ds, []);
    assert Concat(ds) + [] == Concat(ds) && ds + [] == ds;
  }

  /** What the walk returns is a row of objects that spells the input, up to one stray byte. */
  lemma {:induction false} SplitSpellsInput(s: Bytes)
    requires Split(s).Some?
    ensures var ds := Split(s).value;
            && AllObjects(ds)
            && Concat(ds) <= s && |s| <= |Concat(ds)| + 1
    decreases |s|
  {
    if |s| >= 2 {
      var l := TlvHeader(s).value;
      var n := l.header + l.content;
      var d, rest := s[..n], s[n..];
      assert Split(rest).Some?;
      SplitSpellsInput(rest);
      PrefixIsObject(s, n);
      ConcatCons(d, Split(rest).value);
    }
  }

  lemma PrefixIsObject(s: Bytes, n: nat)
    requires TlvHeader(s).Some? && n == TlvHeader(s).value.header + TlvHeader(s).value.content <= |s|
    ensures IsObject(s[..n])
  {
    assert s[..n][1..] == s[1..][..n - 1];
  }

  lemma ConcatCons(d: Bytes, ds: seq<Bytes>)
    ensures Concat([d] + ds) == d + Concat(ds)
  {
    assert ([d] + ds)[1..] == ds;
  }

  /** The last object with the given tag, as the parsers keep it. */
  function LastOf(tag: Byte, ds: seq<Bytes>): (r: Option<Bytes>)
    requires forall i :: 0 <= i < |ds| ==> ds[i] != []
    ensures r.Some? ==> r.value in ds && r.value[0] == tag
  {
    if ds == [] then None
    else if ds[|ds| - 1][0] == tag then Some(ds[|ds| - 1])
    else LastOf(tag, ds[..|ds| - 1])
  }

  lemma LastOfSnoc(tag: Byte, ds: seq<Bytes>, d: Bytes)
    requires AllObjects(ds) && IsObject(d)
    ensures LastOf(tag, ds + [d]) == if d[0] == tag then Some(d) else LastOf(tag, ds)
  {
    assert (ds + [d])[..|ds|] == ds;
  }
}
