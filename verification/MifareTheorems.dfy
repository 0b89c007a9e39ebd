/** The sweep ends, what it reports has the right shape, and its key cache never changes what is read. */
module MifareTheorems {
  import opened ByteStrings
  import opened Mifare

  /* ---- geometry ---- */

  /** The sectors lie back to back and cover blocks 0 to 255. */
  lemma SectorsPartitionBlocks(b: nat)
    ensures FirstBlock(0) == 0 && FirstBlock(NUM_SECTORS) == 256
    ensures forall s :: 0 <= s < NUM_SECTORS ==> FirstBlock(s + 1) == FirstBlock(s) + BlockCount(s)
    ensures b < 256 <==> exists s :: 0 <= s < NUM_SECTORS && FirstBlock(s) <= b < FirstBlock(s) + BlockCount(s)
    ensures forall s, t :: 0 <= s < t < NUM_SECTORS ==> FirstBlock(s) + BlockCount(s) <= FirstBlock(t)
  {
    if b < 256 {
      var s := if b < 128 then b / 4 else 32 + (b - 128) / 16;
      assert 0 <= s < NUM_SECTORS && FirstBlock(s) <= b < FirstBlock(s) + BlockCount(s);
    }
  }

  /* ---- every state the sweep can be in ---- */

  /** What holds of the machine between two callbacks. */
  predicate Valid(s: Sweep) {
    && |s.reports| <= s.sector
    && (s.await != Finished ==> s.sector < NUM_SECTORS && s.keyIndex < |DEFAULT_KEYS|)
    && (s.await != Finished && s.cachedAttempt ==> s.keyIndex == 0)
    && (s.await == Block ==> s.blockOffset == |s.blocks| < BlockCount(s.sector))
    && (forall b :: b in s.blocks ==> |b| == 16)
    && Shaped(s.reports, s.sector)
    && s.published == s.reports
  }

  /** Rising sector numbers below a bound, each with one block at least and its sector's blocks at most. */
  predicate Shaped(reports: seq<Report>, bound: nat) {
    && (forall i :: 0 <= i < |reports| ==>
          && reports[i].sector < bound && reports[i].sector < NUM_SECTORS
          && 1 <= |reports[i].blocks| <= BlockCount(reports[i].sector)
          && forall b :: b in reports[i].blocks ==> |b| == 16)
    && forall i, j :: 0 <= i < j < |reports| ==> reports[i].sector < reports[j].sector
  }

  lemma ShapedBelow(reports: seq<Report>, bound: nat, higher: nat)
    requires Shaped(reports, bound) && bound <= higher
    ensures Shaped(reports, higher)
  {
  }

  lemma {:induction false} NextSectorIsValid(s: Sweep)
    requires |s.reports| <= s.sector && Shaped(s.reports, s.sector) && forall b :: b in s.blocks ==> |b| == 16
    ensures Valid(NextSector(s))
  {
  }

  lemma KeyFailedIsValid(s: Sweep)
    requires Valid(s) && s.await != Finished
    ensures Valid(KeyFailed(s))
  {
    if !s.cachedAttempt && s.keyIndex == |DEFAULT_KEYS| - 1 {
      NextSectorIsValid(s.(keyIndex := s.keyIndex + 1, sector := s.sector + 1));
    }
  }

  lemma StepIsValid(s: Sweep, reply: Reply)
    requires Valid(s)
    ensures Valid(Step(s, reply))
  {
    hide SectorDone, KeyFailed, Shaped;
    if s.await == Auth {
      if reply.Error? {
        KeyFailedIsValid(s);
      }
    } else if s.await == Block {
      if reply.Data? && |reply.bytes| == 16 {
        var t := s.(blocks := s.blocks + [reply.bytes], blockOffset := s.blockOffset + 1);
        if t.blockOffset >= BlockCount(t.sector) {
          SectorDoneIsValid(t);
        }
      } else if s.blockOffset == 0 {
        KeyFailedIsValid(s.(blocks := []));
      } else {
        SectorDoneIsValid(s);
      }
    }
  }

  lemma SectorDoneIsValid(s: Sweep)
    requires s.sector < NUM_SECTORS && |s.reports| <= s.sector && Shaped(s.reports, s.sector)
    requires 1 <= |s.blocks| <= BlockCount(s.sector) && forall b :: b in s.blocks ==> |b| == 16
    ensures Valid(SectorDone(s))
  {
    hide NextSector;
    RecordedIsShaped(s);
    NextSectorIsValid(Recorded(s));
  }

  lemma RecordedIsShaped(s: Sweep)
    requires s.sector < NUM_SECTORS && |s.reports| <= s.sector && Shaped(s.reports, s.sector)
    requires 1 <= |s.blocks| <= BlockCount(s.sector) && forall b :: b in s.blocks ==> |b| == 16
    ensures Shaped(Recorded(s).reports, s.sector + 1)
  {
  }

  /** Storing a key changes what is remembered for that sector of that tag and nothing else. */
  lemma StoreThenLookup(cache: Cache, uid: Option<string>, sector: nat, key: Key, k: nat)
    ensures Lookup(Store(cache, uid, sector, key), uid, k)
            == if uid.Some? && k == sector then Some(key) else Lookup(cache, uid, k)
    ensures forall other: Option<string> :: other != uid ==>
              Lookup(Store(cache, uid, sector, key), other, k) == Lookup(cache, other, k)
  {
  }

  /** Whatever the tag answers, reports keep their shape and every snapshot is a prefix of the result. */
  lemma {:induction false} SweepKeepsShape(cache: Cache, uid: Option<string>, replies: seq<Reply>)
    ensures Valid(Run(Start(cache, uid), replies))
  {
    NextSectorIsValid(Sweep(uid, cache, 0, 0, false, [], 0, [], [], [], Finished));
    RunIsValid(Start(cache, uid), replies);
  }

  lemma {:induction false} RunIsValid(s: Sweep, replies: seq<Reply>)
    requires Valid(s)
    ensures Valid(Run(s, replies))
    decreases |replies|
  {
    if replies != [] {
      StepIsValid(s, replies[0]);
      RunIsValid(Step(s, replies[0]), replies[1..]);
    }
  }

  /* ---- how long it can take ---- */

  /** The most transceives sectors k.. can cost; a remembered key costs two more when it fails late. */
  function RestBudget(k: nat, warm: bool): nat
    decreases Left(k)
  {
    if k >= NUM_SECTORS then 0 else (if warm then 9 else 7) + BlockCount(k) + RestBudget(k + 1, warm)
  }

  /** The most transceives still to come, the outstanding one included. */
  function Budget(s: Sweep, warm: bool): nat
    requires Valid(s)
  {
    if s.await == Finished then 0
    else
      var count, rest := BlockCount(s.sector), RestBudget(s.sector + 1, warm);
      var keys := 2 * (|DEFAULT_KEYS| - 1 - s.keyIndex);
      match s.await
      case Auth => (if s.cachedAttempt then 9 else 1 + keys) + count + rest
      case Block =>
        if s.blockOffset > 0 then count - s.blockOffset + rest
        else (if s.cachedAttempt then 8 else keys) + count + rest
  }

  /** Neither depends on what is cached. */
  lemma CacheDoesNotMatter(s: Sweep, cache: Cache)
    ensures Valid(s.(cache := cache)) <==> Valid(s)
    ensures Valid(s) ==> Budget(s.(cache := cache), true) == Budget(s, true)
  {
    hide Shaped;
  }

  /** In a cold sweep no sector still to come has a remembered key. */
  ghost predicate Cold(s: Sweep) {
    !s.cachedAttempt && forall k :: s.sector < k < NUM_SECTORS ==> Lookup(s.cache, s.uid, k).None?
  }

  lemma NextSectorBudget(s: Sweep, warm: bool)
    requires |s.reports| <= s.sector && Shaped(s.reports, s.sector) && forall b :: b in s.blocks ==> |b| == 16
    requires !warm ==> forall k :: s.sector <= k < NUM_SECTORS ==> Lookup(s.cache, s.uid, k).None?
    ensures Valid(NextSector(s)) && Budget(NextSector(s), warm) <= RestBudget(s.sector, warm)
    ensures !warm && s.sector < NUM_SECTORS ==> Cold(NextSector(s))
    ensures s.sector >= NUM_SECTORS ==> NextSector(s).await == Finished
    ensures s.sector < NUM_SECTORS && Lookup(s.cache, s.uid, s.sector).Some? ==>
              Budget(NextSector(s), true) == RestBudget(s.sector, true)
  {
    NextSectorIsValid(s);
    hide Shaped, RestBudget, BlockCount, Lookup;
    if s.sector < NUM_SECTORS {
      RestBudgetStep(s.sector, warm);
      RestBudgetStep(s.sector, true);
    }
  }

  lemma RestBudgetStep(k: nat, warm: bool)
    requires k < NUM_SECTORS
    ensures RestBudget(k, warm) == (if warm then 9 else 7) + BlockCount(k) + RestBudget(k + 1, warm)
  {
  }

  lemma KeyFailedSpends(s: Sweep, warm: bool)
    requires Valid(s) && s.await != Finished && (!warm ==> Cold(s))
    requires s.await == Block ==> s.blockOffset == 0
    ensures Valid(KeyFailed(s)) && Budget(KeyFailed(s), warm) < Budget(s, warm)
    ensures !warm && KeyFailed(s).await != Finished ==> Cold(KeyFailed(s))
  {
    hide NextSector, Shaped, RestBudget;
    KeyFailedIsValid(s);
    if !s.cachedAttempt && s.keyIndex == |DEFAULT_KEYS| - 1 {
      ShapedBelow(s.reports, s.sector, s.sector + 1);
      NextSectorBudget(s.(keyIndex := s.keyIndex + 1, sector := s.sector + 1), warm);
    }
  }

  lemma SectorDoneSpends(s: Sweep, warm: bool)
    requires s.sector < NUM_SECTORS && |s.reports| <= s.sector && Shaped(s.reports, s.sector)
    requires 1 <= |s.blocks| <= BlockCount(s.sector) && forall b :: b in s.blocks ==> |b| == 16
    requires !warm ==> forall k :: s.sector < k < NUM_SECTORS ==> Lookup(s.cache, s.uid, k).None?
    ensures Valid(SectorDone(s)) && Budget(SectorDone(s), warm) <= RestBudget(s.sector + 1, warm)
    ensures !warm && SectorDone(s).await != Finished ==> Cold(SectorDone(s))
    ensures s.sector + 1 < NUM_SECTORS && Lookup(s.cache, s.uid, s.sector + 1).Some? ==>
              Budget(SectorDone(s), true) == RestBudget(s.sector + 1, true)
  {
    hide NextSector, Budget, RestBudget;
    RecordedIsShaped(s);
    forall k | k != s.sector
      ensures Lookup(Recorded(s).cache, s.uid, k) == Lookup(s.cache, s.uid, k)
    {
      StoreThenLookup(s.cache, s.uid, s.sector, s.key, k);
    }
    NextSectorBudget(Recorded(s), warm);
  }

  /** Every answered transceive, good or bad, uses up at least one unit of the budget. */
  lemma StepSpends(s: Sweep, reply: Reply, warm: bool)
    requires Valid(s) && s.await != Finished && (!warm ==> Cold(s))
    ensures Valid(Step(s, reply)) && Budget(Step(s, reply), warm) < Budget(s, warm)
    ensures !warm && Step(s, reply).await != Finished ==> Cold(Step(s, reply))
  {
    hide RestBudget, SectorDone, KeyFailed;
    StepIsValid(s, reply);
    if s.await == Auth {
      if reply.Error? {
        KeyFailedSpends(s, warm);
      }
    } else if reply.Data? && |reply.bytes| == 16 {
      var t := s.(blocks := s.blocks + [reply.bytes], blockOffset := s.blockOffset + 1);
      if t.blockOffset >= BlockCount(t.sector) {
        SectorDoneSpends(t, warm);
      }
    } else if s.blockOffset == 0 {
      KeyFailedSpends(s.(blocks := []), warm);
    } else {
      SectorDoneSpends(s, warm);
    }
  }

  lemma {:induction false} RunSpends(s: Sweep, replies: seq<Reply>, warm: bool)
    requires Valid(s) && (!warm && s.await != Finished ==> Cold(s))
    requires |replies| >= Budget(s, warm)
    ensures Run(s, replies).await == Finished
    decreases |replies|
  {
    if replies != [] {
      if s.await != Finished {
        StepSpends(s, replies[0], warm);
      }
      RunSpends(Step(s, replies[0]), replies[1..], warm);
    }
  }

  lemma {:induction false} RestBudgetIs(k: nat, warm: bool)
    requires k <= NUM_SECTORS
    ensures RestBudget(k, warm)
            == if k < 32 then (32 - k) * (if warm then 13 else 11) + 8 * (if warm then 25 else 23)
               else (NUM_SECTORS - k) * (if warm then 25 else 23)
    decreases NUM_SECTORS - k
  {
    if k < NUM_SECTORS {
      RestBudgetIs(k + 1, warm);
    }
  }

  /** Under any answers at all the sweep ends within 616 transceives, 536 if nothing is remembered. */
  lemma SweepEnds(cache: Cache, uid: Option<string>, replies: seq<Reply>)
    ensures |replies| >= 616 ==> Run(Start(cache, uid), replies).await == Finished
    ensures |replies| >= 536 && (uid.None? || uid.value !in cache) ==> Run(Start(cache, uid), replies).await == Finished
  {
    var s := Sweep(uid, cache, 0, 0, false, [], 0, [], [], [], Finished);
    var warm := |replies| >= 616;
    RestBudgetIs(0, warm);
    if warm || uid.None? || uid.value !in cache {
      NextSectorBudget(s, warm);
      if |replies| >= 536 {
        RunSpends(Start(cache, uid), replies, warm);
      }
    }
  }

  lemma BudgetIsPositive(s: Sweep)
    requires Valid(s) && s.await != Finished
    ensures Budget(s, true) >= 1
  {
    hide Shaped, RestBudget;
  }

  lemma StartIsWithinBound(cache: Cache, uid: Option<string>)
    ensures var s := Start(cache, uid);
            Valid(s) && s.await == Auth && Budget(s, true) <= 616
  {
    RestBudgetIs(0, true);
    NextSectorBudget(Sweep(uid, cache, 0, 0, false, [], 0, [], [], [], Finished), true);
  }

  /* ---- the bound is attained ---- */

  /** Every key passes the authentication, and only the last default key then reads. */
  function WorstReply(s: Sweep): Reply {
    if s.await == Block && s.blockOffset == 0 && (s.cachedAttempt || s.keyIndex < |DEFAULT_KEYS| - 1) then Error
    else Data(Zeros(16))
  }

  /** A cache that remembers some key for every sector of the tag. */
  ghost predicate Full(s: Sweep) {
    forall k :: 0 <= k < NUM_SECTORS ==> Lookup(s.cache, s.uid, k).Some?
  }

  lemma WorstStepSpendsOne(s: Sweep)
    requires Valid(s) && s.await != Finished && Full(s)
    ensures Valid(Step(s, WorstReply(s))) && Full(Step(s, WorstReply(s)))
    ensures Budget(Step(s, WorstReply(s)), true) == Budget(s, true) - 1
  {
    hide RestBudget, SectorDone, NextSector;
    StepIsValid(s, WorstReply(s));
    if s.await == Block && WorstReply(s).Data? {
      var t := s.(blocks := s.blocks + [Zeros(16)], blockOffset := s.blockOffset + 1);
      if t.blockOffset >= BlockCount(t.sector) {
        SectorDoneSpends(t, true);
        SectorDoneStaysFull(t);
        NoBudgetAtTheEnd(t);
      }
    }
  }

  lemma NoBudgetAtTheEnd(s: Sweep)
    ensures s.sector + 1 >= NUM_SECTORS ==>
              RestBudget(s.sector + 1, true) == 0 && SectorDone(s).await == Finished
  {
  }

  lemma SectorDoneStaysFull(s: Sweep)
    requires Full(s)
    ensures Full(SectorDone(s))
  {
    forall k | 0 <= k < NUM_SECTORS
      ensures Lookup(Recorded(s).cache, s.uid, k).Some?
    {
      StoreThenLookup(s.cache, s.uid, s.sector, s.key, k);
    }
  }

  lemma {:induction false} WorstRun(s: Sweep, n: nat) returns (replies: seq<Reply>)
    requires Valid(s) && Full(s) && n < Budget(s, true)
    ensures |replies| == n && Run(s, replies).await != Finished
    decreases n
  {
    if n == 0 {
      replies := [];
    } else {
      WorstStepSpendsOne(s);
      var rest := WorstRun(Step(s, WorstReply(s)), n - 1);
      replies := [WorstReply(s)] + rest;
    }
  }

  /** With a full cache some answers do keep the sweep going for all of 616 transceives. */
  lemma BoundIsAttained(cache: Cache, uid: Option<string>)
    requires forall k :: 0 <= k < NUM_SECTORS ==> Lookup(cache, uid, k).Some?
    ensures exists replies: seq<Reply> :: |replies| == 615 && Run(Start(cache, uid), replies).await != Finished
  {
    RestBudgetIs(0, true);
    NextSectorBudget(Sweep(uid, cache, 0, 0, false, [], 0, [], [], [], Finished), true);
    var replies := WorstRun(Start(cache, uid), 615);
  }
}
