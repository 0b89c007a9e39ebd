/** The key cache is transparent: it saves transceives and never changes what a sweep reads. */
module MifareCache {
  import opened ByteStrings
  import opened Mifare
  import opened MifareTheorems

  /* ---- only default keys are ever remembered ---- */

  ghost predicate HoldsDefaults(cache: Cache) {
    forall uid: Option<string>, k: nat :: Lookup(cache, uid, k).Some? ==> Lookup(cache, uid, k).value in DEFAULT_KEYS
  }

  /** In a sweep over such a cache the key in use is a default one too. */
  ghost predicate UsesDefaults(s: Sweep) {
    HoldsDefaults(s.cache) && (s.await != Finished ==> s.key in DEFAULT_KEYS)
  }

  lemma NextSectorUsesDefaults(s: Sweep)
    requires HoldsDefaults(s.cache)
    ensures UsesDefaults(NextSector(s))
  {
  }

  lemma KeyFailedUsesDefaults(s: Sweep)
    requires UsesDefaults(s)
    ensures UsesDefaults(KeyFailed(s))
  {
    if !s.cachedAttempt && s.keyIndex + 1 >= |DEFAULT_KEYS| {
      NextSectorUsesDefaults(s.(keyIndex := s.keyIndex + 1, sector := s.sector + 1));
    } else if s.cachedAttempt && s.keyIndex >= |DEFAULT_KEYS| {
      NextSectorUsesDefaults(s.(cachedAttempt := false, sector := s.sector + 1));
    }
  }

  lemma SectorDoneUsesDefaults(s: Sweep)
    requires UsesDefaults(s) && s.key in DEFAULT_KEYS
    ensures UsesDefaults(SectorDone(s))
  {
    hide NextSector;
    forall uid: Option<string>, k: nat | Lookup(Recorded(s).cache, uid, k).Some?
      ensures Lookup(Recorded(s).cache, uid, k).value in DEFAULT_KEYS
    {
      StoreThenLookup(s.cache, s.uid, s.sector, s.key, k);
      if uid != s.uid {
        assert Lookup(Recorded(s).cache, uid, k) == Lookup(s.cache, uid, k);
      }
    }
    NextSectorUsesDefaults(Recorded(s));
  }

  lemma StepUsesDefaults(s: Sweep, reply: Reply)
    requires UsesDefaults(s)
    ensures UsesDefaults(Step(s, reply))
  {
    hide SectorDone, KeyFailed, HoldsDefaults;
    if s.await == Auth && reply.Error? {
      KeyFailedUsesDefaults(s);
    } else if s.await == Block {
      if reply.Data? && |reply.bytes| == 16 {
        SectorDoneUsesDefaults(s.(blocks := s.blocks + [reply.bytes], blockOffset := s.blockOffset + 1));
      } else if s.blockOffset == 0 {
        KeyFailedUsesDefaults(s.(blocks := []));
      } else {
        SectorDoneUsesDefaults(s);
      }
    }
  }

  /** From any cache of default keys, after any replies whatever, the cache still holds only default keys. */
  lemma {:induction false} CacheHoldsDefaults(s: Sweep, replies: seq<Reply>)
    requires UsesDefaults(s)
    ensures UsesDefaults(Run(s, replies))
    decreases |replies|
  {
    if replies != [] {
      StepUsesDefaults(s, replies[0]);
      CacheHoldsDefaults(Step(s, replies[0]), replies[1..]);
    }
  }

  /** One tap of a tag: its UID, and what it answered until the sweep ended or was cut short. */
  datatype Tap = Tap(uid: Option<string>, replies: seq<Reply>)

  /** What a series of taps leaves in the cache. */
  function CacheAfter(taps: seq<Tap>): Cache {
    if taps == [] then map[]
    else
      var before, last := CacheAfter(taps[..|taps| - 1]), taps[|taps| - 1];
      Run(Start(before, last.uid), last.replies).cache
  }

  lemma {:induction false} ReachableCachesHoldDefaults(taps: seq<Tap>)
    ensures HoldsDefaults(CacheAfter(taps))
  {
    if taps != [] {
      var before, last := CacheAfter(taps[..|taps| - 1]), taps[|taps| - 1];
      ReachableCachesHoldDefaults(taps[..|taps| - 1]);
      NextSectorUsesDefaults(Sweep(last.uid, before, 0, 0, false, [], 0, [], [], [], Finished));
      CacheHoldsDefaults(Start(before, last.uid), last.replies);
    }
  }

  /* ---- sweeping one tag ---- */

  /**
   A tag whose answers depend only on what is asked: whether an authentication comes back clean,
   whether the key really opens the sector, and what a block holds.
   */
  datatype Tag = Tag(clean: (nat, Key) -> bool, opens: (nat, Key) -> bool, data: nat -> Reply)

  function Answer(tag: Tag, s: Sweep): Reply {
    match s.await
    case Auth => if tag.clean(s.sector, s.key) then Data([]) else Error
    case Block => if tag.opens(s.sector, s.key) then tag.data(FirstBlock(s.sector) + s.blockOffset) else Error
    case Finished => Error
  }

  predicate IsBlock(r: Reply) {
    r.Data? && |r.bytes| == 16
  }

  /** A sweep of the tag, to its end. */
  function Complete(tag: Tag, s: Sweep): Sweep
    requires Valid(s)
    decreases Budget(s, true)
  {
    if s.await == Finished then s
    else
      StepSpends(s, Answer(tag, s), true);
      Complete(tag, Step(s, Answer(tag, s)))
  }

  /* ---- what a sweep should report, sector by sector ---- */

  /** The readable blocks of a sector from an offset on, up to the first that cannot be read. */
  function Blocks(tag: Tag, sector: nat, offset: nat): seq<Bytes>
    decreases BlockCount(sector) - offset
  {
    if offset >= BlockCount(sector) || !IsBlock(tag.data(FirstBlock(sector) + offset)) then []
    else [tag.data(FirstBlock(sector) + offset).bytes] + Blocks(tag, sector, offset + 1)
  }

  /** A key works if it authenticates, opens the sector, and the first block can be read. */
  predicate Works(tag: Tag, sector: nat, key: Key) {
    tag.clean(sector, key) && tag.opens(sector, key) && IsBlock(tag.data(FirstBlock(sector)))
  }

  /** The first default key from index i on that works. */
  function FirstWorking(tag: Tag, sector: nat, i: nat): (k: Option<Key>)
    decreases |DEFAULT_KEYS| - i
    ensures k.Some? ==> Works(tag, sector, k.value) && k.value in DEFAULT_KEYS
  {
    if i >= |DEFAULT_KEYS| then None
    else if Works(tag, sector, DEFAULT_KEYS[i]) then Some(DEFAULT_KEYS[i])
    else FirstWorking(tag, sector, i + 1)
  }

  /** The key a sweep reports for a sector: the remembered one if it works, else the first default. */
  function KeyFor(tag: Tag, cache: Cache, uid: Option<string>, sector: nat): (k: Option<Key>)
    ensures k.Some? ==> Works(tag, sector, k.value)
  {
    var known := Lookup(cache, uid, sector);
    if known.Some? && Works(tag, sector, known.value) then known else FirstWorking(tag, sector, 0)
  }

  function Filed(tag: Tag, sector: nat, key: Option<Key>): seq<Report> {
    if key.None? then [] else [Report(sector, key.value, Blocks(tag, sector, 0))]
  }

  function Expected(tag: Tag, cache: Cache, uid: Option<string>, sector: nat): seq<Report>
    decreases Left(sector)
  {
    if sector >= NUM_SECTORS then []
    else Filed(tag, sector, KeyFor(tag, cache, uid, sector)) + Expected(tag, cache, uid, sector + 1)
  }

  /** The cache at the end: every reported sector remembers the reported key. */
  function ExpectedCache(tag: Tag, cache: Cache, uid: Option<string>, sector: nat): Cache
    decreases Left(sector)
  {
    if sector >= NUM_SECTORS then cache
    else
      var key := KeyFor(tag, cache, uid, sector);
      ExpectedCache(tag, if key.None? then cache else Store(cache, uid, sector, key.value), uid, sector + 1)
  }

  /* ---- the machine does that ---- */

  /** The two things a completed sweep leaves: its reports and the cache. */
  ghost predicate Yields(s: Sweep, reports: seq<Report>, cache: Cache) {
    s.reports == reports && s.cache == cache
  }

  ghost predicate YieldsFrom(tag: Tag, s: Sweep, reports: seq<Report>, cache: Cache, uid: Option<string>, sector: nat)
    requires Valid(s)
  {
    Yields(Complete(tag, s), reports + Expected(tag, cache, uid, sector), ExpectedCache(tag, cache, uid, sector))
  }

  /** What a completed sweep comes to when the current sector ends with this key, or with none. */
  ghost predicate EndsSector(tag: Tag, s: Sweep, key: Option<Key>)
    requires Valid(s)
  {
    YieldsFrom(tag, s, s.reports + Filed(tag, s.sector, key),
               if key.None? then s.cache else Store(s.cache, s.uid, s.sector, key.value), s.uid, s.sector + 1)
  }

  lemma CompleteStep(tag: Tag, s: Sweep)
    requires Valid(s) && s.await != Finished
    ensures Valid(Step(s, Answer(tag, s)))
    ensures Complete(tag, s) == Complete(tag, Step(s, Answer(tag, s)))
    ensures Budget(Step(s, Answer(tag, s)), true) < Budget(s, true)
  {
    StepSpends(s, Answer(tag, s), true);
  }

  /** Keys of earlier sectors do not bear on later ones. */
  lemma {:induction false} ExpectedAfterStore(tag: Tag, cache: Cache, uid: Option<string>, k: nat, key: Key, sector: nat)
    requires k < sector
    ensures Expected(tag, Store(cache, uid, k, key), uid, sector) == Expected(tag, cache, uid, sector)
    decreases Left(sector)
  {
    if sector < NUM_SECTORS {
      StoreThenLookup(cache, uid, k, key, sector);
      ExpectedAfterStore(tag, cache, uid, k, key, sector + 1);
    }
  }

  predicate Between(s: Sweep) {
    |s.reports| <= s.sector && Shaped(s.reports, s.sector) && forall b :: b in s.blocks ==> |b| == 16
  }

  /** One sector's outcome followed by the outcome of the rest is the outcome from this sector on. */
  lemma EndsSectorMeans(tag: Tag, s: Sweep, key: Option<Key>)
    requires Valid(s) && s.sector < NUM_SECTORS && EndsSector(tag, s, key)
    requires key == KeyFor(tag, s.cache, s.uid, s.sector)
    ensures YieldsFrom(tag, s, s.reports, s.cache, s.uid, s.sector)
  {
    hide Complete, KeyFor, Filed, Valid;
    var rest := Expected(tag, s.cache, s.uid, s.sector + 1);
    if key.Some? {
      ExpectedAfterStore(tag, s.cache, s.uid, s.sector, key.value, s.sector + 1);
    }
    assert s.reports + (Filed(tag, s.sector, key) + rest) == s.reports + Filed(tag, s.sector, key) + rest;
  }

  /** A key that does not work costs one or two answers and then counts as failed. */
  function Rejected(tag: Tag, s: Sweep): Sweep {
    if !tag.clean(s.sector, s.key) then KeyFailed(s) else KeyFailed(s.(blockOffset := 0, blocks := [], await := Block))
  }

  lemma RejectedKey(tag: Tag, s: Sweep)
    requires Valid(s) && s.await == Auth && !Works(tag, s.sector, s.key)
    ensures Valid(Rejected(tag, s)) && Complete(tag, s) == Complete(tag, Rejected(tag, s))
  {
    hide Complete, KeyFailed, Budget;
    CompleteStep(tag, s);
    if tag.clean(s.sector, s.key) {
      var t := s.(blockOffset := 0, blocks := [], await := Block);
      assert Step(s, Answer(tag, s)) == t;
      CompleteStep(tag, t);
      assert Step(t, Answer(tag, t)) == KeyFailed(t.(blocks := [])) == KeyFailed(t);
    }
  }

  lemma {:induction false} DoneSectorIsFiled(tag: Tag, s: Sweep)
    requires s.sector < NUM_SECTORS && |s.reports| <= s.sector && Shaped(s.reports, s.sector)
    requires 1 <= |s.blocks| <= BlockCount(s.sector) && forall b :: b in s.blocks ==> |b| == 16
    ensures Valid(SectorDone(s))
    ensures YieldsFrom(tag, SectorDone(s), s.reports + [Report(s.sector, s.key, s.blocks)],
                       Store(s.cache, s.uid, s.sector, s.key), s.uid, s.sector + 1)
    decreases Left(s.sector), 0
  {
    hide Complete, NextSector, Expected, ExpectedCache, Store, YieldsFrom;
    RecordedIsShaped(s);
    SweepFromSector(tag, Recorded(s));
  }

  /** From the first block that reads, the sector is read up to the first block that does not. */
  lemma {:induction false} BlocksAreRead(tag: Tag, s: Sweep)
    requires Valid(s) && s.await == Block && tag.opens(s.sector, s.key)
    requires s.blockOffset > 0 || IsBlock(tag.data(FirstBlock(s.sector)))
    ensures YieldsFrom(tag, s,
                       s.reports + [Report(s.sector, s.key, s.blocks + Blocks(tag, s.sector, s.blockOffset))],
                       Store(s.cache, s.uid, s.sector, s.key), s.uid, s.sector + 1)
    decreases Left(s.sector), 1, BlockCount(s.sector) - s.blockOffset
  {
    hide Complete, SectorDone, KeyFailed, Store, Budget, YieldsFrom, Shaped, FirstBlock, Step, BlockCount;
    var next, t := Step(s, Answer(tag, s)), WithBlock(s, Answer(tag, s));
    BlockAnswered(tag, s);
    BlocksFrom(tag, s);
    var all := s.blocks + Blocks(tag, s.sector, s.blockOffset);
    hide Blocks;
    if IsBlock(Answer(tag, s)) {
      if t.blockOffset < BlockCount(s.sector) {
        BlocksAreRead(tag, t);
      } else {
        DoneSectorIsFiled(tag, t);
      }
    } else {
      DoneSectorIsFiled(tag, s);
    }
    SameYield(tag, s, next, s.reports + [Report(s.sector, s.key, all)],
              Store(s.cache, s.uid, s.sector, s.key), s.uid, s.sector + 1);
  }

  function WithBlock(s: Sweep, reply: Reply): Sweep {
    s.(blocks := s.blocks + (if IsBlock(reply) then [reply.bytes] else []), blockOffset := s.blockOffset + 1)
  }

  lemma BlocksFrom(tag: Tag, s: Sweep)
    requires Valid(s) && s.await == Block && tag.opens(s.sector, s.key)
    ensures var t := WithBlock(s, Answer(tag, s)); var all := s.blocks + Blocks(tag, s.sector, s.blockOffset);
      if !IsBlock(Answer(tag, s)) then all == s.blocks
      else all == t.blocks + Blocks(tag, s.sector, t.blockOffset) && (t.blockOffset >= BlockCount(s.sector) ==> all == t.blocks)
  {
    hide Shaped, FirstBlock;
    var t := WithBlock(s, Answer(tag, s));
    assert s.blocks + [] == s.blocks && t.blocks + [] == t.blocks;
    if IsBlock(Answer(tag, s)) {
      var rest := Blocks(tag, s.sector, t.blockOffset);
      assert s.blocks + ([Answer(tag, s).bytes] + rest) == t.blocks + rest;
    }
  }

  lemma BlockAnswered(tag: Tag, s: Sweep)
    requires Valid(s) && s.await == Block
    requires s.blockOffset > 0 || IsBlock(Answer(tag, s))
    ensures var next, t := Step(s, Answer(tag, s)), WithBlock(s, Answer(tag, s));
            && Valid(next) && Complete(tag, s) == Complete(tag, next)
            && next == (if !IsBlock(Answer(tag, s)) then SectorDone(s)
                        else if t.blockOffset >= BlockCount(s.sector) then SectorDone(t) else t)
  {
    hide Complete, SectorDone, Budget;
    CompleteStep(tag, s);
  }

  lemma SameYield(tag: Tag, s: Sweep, t: Sweep, reports: seq<Report>, cache: Cache, uid: Option<string>, sector: nat)
    requires Valid(s) && Valid(t) && Complete(tag, s) == Complete(tag, t)
    requires YieldsFrom(tag, t, reports, cache, uid, sector)
    ensures YieldsFrom(tag, s, reports, cache, uid, sector)
  {
  }

  lemma {:induction false} WorkingKeyEndsSector(tag: Tag, s: Sweep)
    requires Valid(s) && s.await == Auth && Works(tag, s.sector, s.key)
    ensures EndsSector(tag, s, Some(s.key))
    decreases Left(s.sector), 2
  {
    hide Complete, NextSector, Expected, ExpectedCache, Store, Budget;
    CompleteStep(tag, s);
    var t := s.(blockOffset := 0, blocks := [], await := Block);
    BlocksAreRead(tag, t);
    assert [] + Blocks(tag, s.sector, 0) == Blocks(tag, s.sector, 0);
  }

  /** Where a sweep stands when the last default key has been rejected. */
  function OutOfKeys(tag: Tag, s: Sweep): Sweep {
    (if !tag.clean(s.sector, s.key) then s else s.(blockOffset := 0, blocks := [], await := Block))
    .(keyIndex := s.keyIndex + 1, sector := s.sector + 1)
  }

  lemma LastDefaultRejected(tag: Tag, s: Sweep)
    requires Valid(s) && s.await == Auth && !s.cachedAttempt && s.keyIndex + 1 >= |DEFAULT_KEYS|
    ensures Rejected(tag, s) == NextSector(OutOfKeys(tag, s))
    ensures |OutOfKeys(tag, s).reports| <= s.sector + 1 && Shaped(OutOfKeys(tag, s).reports, s.sector + 1)
    ensures forall b :: b in OutOfKeys(tag, s).blocks ==> |b| == 16
  {
    hide NextSector;
    ShapedBelow(s.reports, s.sector, s.sector + 1);
  }

  /** The default keys are tried in order; the first that works ends the sector. */
  lemma {:induction false} DefaultsEndSector(tag: Tag, s: Sweep)
    requires Valid(s) && s.await == Auth && !s.cachedAttempt && s.key == DEFAULT_KEYS[s.keyIndex]
    ensures EndsSector(tag, s, FirstWorking(tag, s.sector, s.keyIndex))
    decreases Left(s.sector), 3, |DEFAULT_KEYS| - s.keyIndex
  {
    hide Complete, NextSector, Expected, ExpectedCache, Store, Budget, Shaped, Blocks;
    if Works(tag, s.sector, s.key) {
      WorkingKeyEndsSector(tag, s);
    } else {
      RejectedKey(tag, s);
      var t := Rejected(tag, s);
      if s.keyIndex + 1 < |DEFAULT_KEYS| {
        DefaultsEndSector(tag, t);
      } else {
        NoKeyEndsSector(tag, s);
      }
    }
  }

  /** With no key left the sweep goes on to the next sector without filing a report. */
  lemma {:induction false} NoKeyEndsSector(tag: Tag, s: Sweep)
    requires Valid(s) && s.await == Auth && !s.cachedAttempt && s.keyIndex + 1 == |DEFAULT_KEYS|
    requires Valid(Rejected(tag, s)) && Complete(tag, s) == Complete(tag, Rejected(tag, s))
    ensures EndsSector(tag, s, None)
    decreases Left(s.sector), 2
  {
    hide Complete, NextSector, Expected, ExpectedCache, Store, Budget, Shaped, Blocks;
    LastDefaultRejected(tag, s);
    SweepFromSector(tag, OutOfKeys(tag, s));
    assert s.reports + [] == s.reports;
  }

  lemma NextSectorTries(s: Sweep)
    requires s.sector < NUM_SECTORS
    ensures var n, known := NextSector(s), Lookup(s.cache, s.uid, s.sector);
            && n.await == Auth && n.keyIndex == 0 && n.cachedAttempt == known.Some?
            && n.key == (if known.Some? then known.value else DEFAULT_KEYS[0])
            && n.sector == s.sector && n.reports == s.reports && n.cache == s.cache && n.uid == s.uid
  {
  }

  /** After a remembered key that does not work the defaults are tried from the first. */
  lemma RejectedCachedKey(tag: Tag, n: Sweep)
    requires Valid(n) && n.await == Auth && n.cachedAttempt
    ensures var t := Rejected(tag, n);
            && t.await == Auth && t.keyIndex == 0 && !t.cachedAttempt && t.key == DEFAULT_KEYS[0]
            && t.sector == n.sector && t.reports == n.reports && t.cache == n.cache && t.uid == n.uid
  {
  }

  lemma {:induction false} SweepFromSector(tag: Tag, s: Sweep)
    requires Between(s)
    ensures Valid(NextSector(s))
    ensures YieldsFrom(tag, NextSector(s), s.reports, s.cache, s.uid, s.sector)
    decreases Left(s.sector), 4
  {
    NextSectorIsValid(s);
    var n := NextSector(s);
    if s.sector >= NUM_SECTORS {
      assert s.reports + [] == s.reports;
      FinishedIsComplete(tag, n);
    } else {
      hide NextSector, Rejected, YieldsFrom;
      NextSectorTries(s);
      if !n.cachedAttempt {
        DefaultsEndSector(tag, n);
      } else if Works(tag, s.sector, n.key) {
        WorkingKeyEndsSector(tag, n);
      } else {
        RejectedKey(tag, n);
        RejectedCachedKey(tag, n);
        DefaultsEndSector(tag, Rejected(tag, n));
        SameCompletion(tag, n, Rejected(tag, n), FirstWorking(tag, s.sector, 0));
      }
      EndsSectorMeans(tag, n, KeyFor(tag, s.cache, s.uid, s.sector));
    }
  }

  lemma SameCompletion(tag: Tag, s: Sweep, t: Sweep, key: Option<Key>)
    requires Valid(s) && Valid(t) && Complete(tag, s) == Complete(tag, t) && EndsSector(tag, t, key)
    requires s.sector == t.sector && s.reports == t.reports && s.cache == t.cache && s.uid == t.uid
    ensures EndsSector(tag, s, key)
  {
    hide Complete, Valid, Filed, Expected, ExpectedCache, Store, Yields;
  }

  lemma FinishedIsComplete(tag: Tag, s: Sweep)
    requires Valid(s) && s.await == Finished
    ensures Complete(tag, s) == s
  {
  }

  /* ---- the theorems ---- */

  /** A completed sweep of a tag reports, for every sector in order, exactly what the key for it reads. */
  lemma SweepReportsTag(tag: Tag, cache: Cache, uid: Option<string>)
    ensures Valid(Start(cache, uid))
    ensures Complete(tag, Start(cache, uid)).reports == Expected(tag, cache, uid, 0)
    ensures Complete(tag, Start(cache, uid)).cache == ExpectedCache(tag, cache, uid, 0)
  {
    hide Complete, NextSector, Expected, ExpectedCache;
    SweepFromSector(tag, Sweep(uid, cache, 0, 0, false, [], 0, [], [], [], Finished));
    assert [] + Expected(tag, cache, uid, 0) == Expected(tag, cache, uid, 0);
  }

  /** A report without its key: what was read, and where. */
  function Contents(reports: seq<Report>): seq<(nat, seq<Bytes>)> {
    if reports == [] then []
    else Contents(reports[..|reports| - 1]) + [(reports[|reports| - 1].sector, reports[|reports| - 1].blocks)]
  }

  lemma {:induction false} ContentsOfSum(a: seq<Report>, b: seq<Report>)
    ensures Contents(a + b) == Contents(a) + Contents(b)
  {
    if b == [] {
      assert a + b == a;
    } else {
      var n := |b| - 1;
      assert (a + b)[..|a + b| - 1] == a + b[..n];
      ContentsOfSum(a, b[..n]);
    }
  }

  lemma {:induction false} FirstWorkingIsFirst(tag: Tag, sector: nat, i: nat, j: nat)
    requires i <= j < |DEFAULT_KEYS| && Works(tag, sector, DEFAULT_KEYS[j])
    ensures FirstWorking(tag, sector, i).Some?
    decreases j - i
  {
    if i < j {
      FirstWorkingIsFirst(tag, sector, i + 1, j);
    }
  }

  /** Some key works for a sector whatever is remembered. */
  lemma SameKeyExists(tag: Tag, cache: Cache, uid: Option<string>, sector: nat)
    requires HoldsDefaults(cache)
    ensures KeyFor(tag, cache, uid, sector).Some? == KeyFor(tag, map[], None, sector).Some?
  {
    hide Works;
    var known := Lookup(cache, uid, sector);
    if known.Some? && Works(tag, sector, known.value) {
      var j :| 0 <= j < |DEFAULT_KEYS| && DEFAULT_KEYS[j] == known.value;
      FirstWorkingIsFirst(tag, sector, 0, j);
    }
  }

  lemma ContentsOfFiled(tag: Tag, sector: nat, a: Option<Key>, b: Option<Key>)
    requires a.Some? == b.Some?
    ensures Contents(Filed(tag, sector, a)) == Contents(Filed(tag, sector, b))
  {
    hide Blocks;
  }

  lemma {:induction false} SameContentsFrom(tag: Tag, cache: Cache, uid: Option<string>, sector: nat)
    requires HoldsDefaults(cache)
    ensures Contents(Expected(tag, cache, uid, sector)) == Contents(Expected(tag, map[], None, sector))
    decreases Left(sector)
  {
    hide KeyFor, Blocks, HoldsDefaults, Filed, Contents;
    if sector < NUM_SECTORS {
      SameContentsFrom(tag, cache, uid, sector + 1);
      var with, without := KeyFor(tag, cache, uid, sector), KeyFor(tag, map[], None, sector);
      SameKeyExists(tag, cache, uid, sector);
      ContentsOfSum(Filed(tag, sector, with), Expected(tag, cache, uid, sector + 1));
      ContentsOfSum(Filed(tag, sector, without), Expected(tag, map[], None, sector + 1));
      ContentsOfFiled(tag, sector, with, without);
    }
  }

  /**
   Transparency. From any cache that any series of sweeps of any tags, cut short anywhere, has
   left behind, a sweep reports the same sectors with the same blocks as from an empty cache.
   */
  lemma CacheIsTransparent(tag: Tag, taps: seq<Tap>, uid: Option<string>)
    ensures Valid(Start(CacheAfter(taps), uid)) && Valid(Start(map[], None))
    ensures Contents(Complete(tag, Start(CacheAfter(taps), uid)).reports)
            == Contents(Complete(tag, Start(map[], None)).reports)
  {
    hide Complete, Start, Expected, Contents;
    SweepReportsTag(tag, CacheAfter(taps), uid);
    SweepReportsTag(tag, map[], None);
    ReachableCachesHoldDefaults(taps);
    SameContentsFrom(tag, CacheAfter(taps), uid, 0);
  }

  lemma {:induction false} LookupAfterSweep(tag: Tag, cache: Cache, uid: Option<string>, from: nat, k: nat)
    requires uid.Some? && k < NUM_SECTORS
    ensures Lookup(ExpectedCache(tag, cache, uid, from), uid, k)
            == if k >= from && KeyFor(tag, cache, uid, k).Some? then KeyFor(tag, cache, uid, k)
               else Lookup(cache, uid, k)
    decreases Left(from)
  {
    if from < NUM_SECTORS {
      var key := KeyFor(tag, cache, uid, from);
      var next := if key.None? then cache else Store(cache, uid, from, key.value);
      LookupAfterSweep(tag, next, uid, from + 1, k);
      if key.Some? {
        StoreThenLookup(cache, uid, from, key.value, k);
      }
    }
  }

  lemma {:induction false} SameLookupsSameReports(tag: Tag, a: Cache, b: Cache, uid: Option<string>, sector: nat)
    requires forall k :: sector <= k < NUM_SECTORS ==> KeyFor(tag, a, uid, k) == KeyFor(tag, b, uid, k)
    ensures Expected(tag, a, uid, sector) == Expected(tag, b, uid, sector)
    decreases Left(sector)
  {
    if sector < NUM_SECTORS {
      SameLookupsSameReports(tag, a, b, uid, sector + 1);
    }
  }

  /** Tapping the same tag again reports exactly the same, keys included. */
  lemma SecondSweepIsIdentical(tag: Tag, cache: Cache, uid: Option<string>)
    requires uid.Some?
    ensures Valid(Start(cache, uid)) && Valid(Start(Complete(tag, Start(cache, uid)).cache, uid))
    ensures Complete(tag, Start(Complete(tag, Start(cache, uid)).cache, uid)).reports
            == Complete(tag, Start(cache, uid)).reports
  {
    hide Complete, Start, Expected, ExpectedCache;
    SweepReportsTag(tag, cache, uid);
    var later := ExpectedCache(tag, cache, uid, 0);
    SweepReportsTag(tag, later, uid);
    forall k | 0 <= k < NUM_SECTORS
      ensures KeyFor(tag, later, uid, k) == KeyFor(tag, cache, uid, k)
    {
      LookupAfterSweep(tag, cache, uid, 0, k);
    }
    SameLookupsSameReports(tag, later, cache, uid, 0);
  }
}
