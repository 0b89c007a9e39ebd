/**
 How a document announces PACE: PACEInfo of section 9.2.1 of ICAO Doc 9303-11, a sequence of the
 protocol, the version 2 and the standardised domain parameters of its table 6.
 */
module PaceAnnouncements {
  import opened BerTlv
  import opened ByteStrings
  import opened CardAccess
  import opened CardAccessRead

  /** id-PACE is 0.4.0.127.0.7.2.2.4; the rest names key agreement, mapping and cipher. */
  datatype Announcement = Announcement(variant: Bytes, domain: nat) {
    predicate Valid() {
      |variant| <= 8 && domain < 0x80
    }

    function Protocol(): Bytes {
      [4, 0, 127, 0, 7, 2, 2, 4] + variant
    }
  }

  function Announced(a: Announcement): (info: SecurityInfo)
    requires a.Valid()
    ensures info.Valid()
  {
    ShortObject(0x06, a.Protocol());
    ShortObject(0x02, [2]);
    ShortObject(0x02, [a.domain]);
    ConcatOfThree(Encode(0x06, a.Protocol()), Encode(0x02, [2]), Encode(0x02, [a.domain]));
    SecurityInfo(0x30, [Encode(0x06, a.Protocol()), Encode(0x02, [2]), Encode(0x02, [a.domain])])
  }

  predicate AllAnnouncements(s: seq<Announcement>) {
    forall i :: 0 <= i < |s| ==> s[i].Valid()
  }

  function AllAnnounced(s: seq<Announcement>): (infos: seq<SecurityInfo>)
    requires AllAnnouncements(s)
    ensures |infos| == |s| && AllInfos(infos)
  {
    if s == [] then [] else [Announced(s[0])] + AllAnnounced(s[1..])
  }

  function Entries(s: seq<Announcement>): (entries: seq<PaceInfo>)
    ensures |entries| == |s| && forall i :: 0 <= i < |s| ==> entries[i] == PaceInfo(s[i].Protocol(), s[i].domain)
  {
    seq(|s|, i requires 0 <= i < |s| => PaceInfo(s[i].Protocol(), s[i].domain))
  }

  lemma ShortObject(tag: Byte, data: Bytes)
    requires |data| < 0x80
    ensures Encode(tag, data) == [tag, |data|] + data && IsObject(Encode(tag, data))
    ensures TlvHeader(Encode(tag, data)) == Some(Length(2, |data|)) && Content(Encode(tag, data)) == data
  {
    EncodeIsObject(tag, data);
  }

  lemma OneByteNumber(n: Byte)
    requires n < 0x80
    ensures BigEndian([n]) == n
  {
    assert [n][..0] == [];
  }

  /** The terminal reads an announcement as its protocol and its domain. */
  lemma AnnouncementIsRead(a: Announcement)
    requires a.Valid()
    ensures PaceInfoOf(Announced(a).parts) == Some(PaceInfo(a.Protocol(), a.domain))
  {
    hide BigEndian, Encode, IsObject, TlvHeader, Content;
    var p, v, d := Encode(0x06, a.Protocol()), Encode(0x02, [2]), Encode(0x02, [a.domain]);
    ShortObject(0x06, a.Protocol());
    ShortObject(0x02, [2]);
    ShortObject(0x02, [a.domain]);
    OneByteNumber(a.domain);
    var parts := Announced(a).parts;
    assert parts[1..] == [v, d] && [v, d][1..] == [d];
  }

  lemma ConcatOfThree(a: Bytes, b: Bytes, c: Bytes)
    ensures |Concat([a, b, c])| == |a| + |b| + |c|
  {
    assert [a, b, c][1..] == [b, c];
    ConcatOfOneOrTwo(b, c);
  }

  lemma {:induction false} AnnouncementsAreRead(s: seq<Announcement>)
    requires AllAnnouncements(s)
    ensures PaceInfos(AllAnnounced(s)) == Entries(s)
  {
    hide PaceInfoOf, Announced;
    if s != [] {
      AnnouncementIsRead(s[0]);
      AnnouncedIsSequence(s[0]);
      AnnouncementsAreRead(s[1..]);
      assert Entries(s) == [Entries(s)[0]] + Entries(s[1..]);
    }
  }

  lemma AnnouncedIsSequence(a: Announcement)
    requires a.Valid()
    ensures Announced(a).tag == SEQUENCE_TAG
  {
  }

  /** What the terminal runs: ECDH with generic mapping and AES of 128 or 256 bits, on three of the curves. */
  lemma SupportedIff(a: Announcement)
    requires a.Valid()
    ensures Supported(PaceInfo(a.Protocol(), a.domain))
      <==> (a.variant == [2, 2] || a.variant == [2, 4]) && a.domain in {12, 13, 14}
    ensures a.variant == [2, 2] ==> KeyLenOf(a.Protocol()) * 8 == 128
    ensures a.variant == [2, 4] ==> KeyLenOf(a.Protocol()) * 8 == 256
    ensures CurveOf(12) == Some(NistP256) && CurveOf(13) == Some(BrainpoolP256r1) && CurveOf(14) == Some(BrainpoolP320r1)
  {
    var p := a.Protocol();
    assert p[8..] == a.variant;
    assert PACE_OID_AES128[8..] == [2, 2] && PACE_OID_AES256[8..] == [2, 4];
  }

  predicate Runnable(a: Announcement) {
    (a.variant == [2, 2] || a.variant == [2, 4]) && a.domain in {12, 13, 14}
  }

  /**
   A document that announces these protocols and domains is set up with the first runnable one of the
   first eight, and not at all if none of them is.
   */
  method SetUpFromDocument(files: map<Bytes, Bytes>, s: seq<Announcement>, tail: Bytes, setUp: PaceInfo -> bool) returns (pick: Pick)
    requires AllAnnouncements(s) && |SpelledAll(AllAnnounced(s))| + 4 <= EF_CARDACCESS_MAX_LEN
    requires EF_CARDACCESS in files && files[EF_CARDACCESS] == CardAccessFile(AllAnnounced(s)) + tail
    ensures forall i: nat :: i < 8 && i < |s| && Runnable(s[i]) && (forall k :: 0 <= k < i ==> !Runnable(s[k])) ==>
      pick == if setUp(Entries(s)[i]) then Picked(Entries(s)[i]) else SetUpFailed(Entries(s)[i])
    ensures (forall i :: 0 <= i < |s| && i < 8 ==> !Runnable(s[i])) ==> pick.NothingListed? || pick.NothingSupported?
  {
    hide PaceInfos, AllAnnounced, SpelledAll, AllInfos, Supported;
    AnnouncementsAreRead(s);
    forall i | 0 <= i < |s|
      ensures Supported(Entries(s)[i]) <==> Runnable(s[i])
    {
      SupportedIff(s[i]);
    }
    pick := SetUpFromChip(files, AllAnnounced(s), tail, setUp);
  }
}
