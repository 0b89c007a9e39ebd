/**
 The life of a passport read: from dispatch through the BAC or PACE handshake and the file reads to
 its one callback, while the tag may leave and the client may be torn down. What each step computes
 is left open; which handshake state it touches, and when, is not.
 */
module PassportReads {
  import opened ByteStrings

  /** The call a read is waiting for, named after the step whose callback will run. */
  datatype Stage =
    | TagProxy | Acquire
    | SelectAid | GetChallenge | MutualAuth
    | SelectCardAccess | CardAccessRest | MseSetAt | GetNonce | MapNonce | KeyAgreement | PaceMutualAuth | PaceSelectAid
    | SelectDg1 | Dg1Rest | SelectDg2 | Dg2Rest

  /** Pieces of state a step may leave for later steps. */
  datatype Fact =
    | BacKeys | RndIcc | Challenge | BacSession
    | PacePassword | CardAccess | Exchange | Nonce | MappingKey | MappedGroup | AgreementKey | ChipKey | PaceSession
    | Dg1 | Mrz | Dg2

  /** The ephemeral part of PACE, freed together once secure messaging is up. */
  const EXCHANGE_FACTS := {Exchange, Nonce, MappingKey, MappedGroup, AgreementKey, ChipKey}

  function Session(usePace: bool): Fact {
    if usePace then PaceSession else BacSession
  }

  /** What the callback of a stage relies on. */
  function Needs(stage: Stage, usePace: bool): set<Fact> {
    match stage
    case TagProxy => if usePace then {PacePassword} else {BacKeys}
    case Acquire => if usePace then {PacePassword} else {BacKeys}
    case SelectAid => {BacKeys}
    case GetChallenge => {BacKeys}
    case MutualAuth => {BacKeys, RndIcc, Challenge}
    case SelectCardAccess => {PacePassword}
    case CardAccessRest => {PacePassword, CardAccess}
    case MseSetAt => {Exchange}
    case GetNonce => {Exchange}
    case MapNonce => {Exchange, Nonce, MappingKey}
    case KeyAgreement => {Exchange, MappedGroup, AgreementKey}
    case PaceMutualAuth => {Exchange, AgreementKey, ChipKey, PaceSession}
    case PaceSelectAid => {PaceSession}
    case SelectDg1 => {Session(usePace)}
    case Dg1Rest => {Session(usePace), Dg1}
    case SelectDg2 => {Session(usePace), Mrz}
    case Dg2Rest => {Session(usePace), Mrz, Dg2}
  }

  /** How many calls a read that waits at this stage still makes at most, extra chunks of a file aside. */
  function Rank(stage: Stage): (n: nat)
    ensures 1 <= n <= 14
  {
    match stage
    case TagProxy => 14
    case Acquire => 13
    case SelectCardAccess => 12
    case CardAccessRest => 11
    case MseSetAt => 10
    case GetNonce => 9
    case MapNonce => 8
    case KeyAgreement => 7
    case PaceMutualAuth => 6
    case PaceSelectAid => 5
    case SelectAid => 7
    case GetChallenge => 6
    case MutualAuth => 5
    case SelectDg1 => 4
    case Dg1Rest => 3
    case SelectDg2 => 2
    case Dg2Rest => 1
  }

  predicate AfterDg1(stage: Stage) { stage == SelectDg2 || stage == Dg2Rest }

  const BAC_STAGES := {SelectAid, GetChallenge, MutualAuth}
  const PACE_SETUP_STAGES := {SelectCardAccess, CardAccessRest, MseSetAt}
  const PACE_ROUND_STAGES := {GetNonce, MapNonce, KeyAgreement}
  const PACE_FINAL_STAGES := {PaceMutualAuth, PaceSelectAid}

  predicate OnPath(stage: Stage, usePace: bool) {
    && (stage in BAC_STAGES ==> !usePace)
    && (stage in PACE_SETUP_STAGES + PACE_ROUND_STAGES + PACE_FINAL_STAGES ==> usePace)
  }

  /**
   How a step came out: whether the call itself succeeded, whether the response was acceptable,
   whether the next command could be built, and whether the file at hand wants another chunk.
   */
  datatype Result = Result(arrived: bool, accepted: bool, built: bool, more: bool) {
    predicate Good() { arrived && accepted && built }
  }

  class PassportRead {
    var client: PassportClient?
    const usePace: bool
    const readPhoto: bool
    var cancelled: bool
    var hasTag: bool
    var acquired: bool
    var pending: Option<Stage>
    var have: set<Fact>
    var callbacks: nat
    var succeeded: bool
    var releases: nat

    constructor (client: PassportClient, usePace: bool, readPhoto: bool)
      ensures this.client == client && this.usePace == usePace && this.readPhoto == readPhoto
      ensures !cancelled && !hasTag && !acquired && pending.None?
      ensures have == {if usePace then PacePassword else BacKeys}
      ensures callbacks == 0 && releases == 0
    {
      this.client, this.usePace, this.readPhoto := client, usePace, readPhoto;
      cancelled, hasTag, acquired, pending := false, false, false, None;
      have := {if usePace then PacePassword else BacKeys};
      callbacks, succeeded, releases := 0, false, 0;
    }

    /** In flight: no callback yet, nothing released, and everything the next step needs in place. */
    ghost predicate Waiting()
      reads this
    {
      && pending.Some?
      && callbacks == 0 && releases == 0
      && Prepared(pending.value)
    }

    ghost predicate Prepared(stage: Stage)
      reads this
    {
      && OnPath(stage, usePace)
      && Needs(stage, usePace) <= have
      && (hasTag <==> stage != TagProxy)
      && (acquired <==> stage != TagProxy && stage != Acquire)
      && (Mrz in have <==> AfterDg1(stage))
    }

    /** Done with: called back once, the tag given back if it was acquired, successful iff DG1 parsed. */
    ghost predicate Settled()
      reads this
    {
      && callbacks == 1
      && releases == (if acquired then 1 else 0)
      && (succeeded <==> Mrz in have)
    }
  }

  class PassportClient {
    var tagPath: Option<string>
    var isoDep: bool
    var reading: PassportRead?
    var alive: bool
    var live: set<PassportRead>
    ghost var freed: set<PassportRead>

    constructor ()
      ensures Valid() && alive && live == {} && freed == {}
    {
      tagPath, isoDep, reading, alive, live, freed := None, false, null, true, {}, {};
    }

    ghost predicate Valid()
      reads this, live, freed
    {
      ValidExcept(null)
    }

    /** At most one read has a client, the one the client points at; busy is the read whose callback runs. */
    ghost predicate ValidExcept(busy: PassportRead?)
      reads this, live, freed
    {
      && live !! freed
      && (reading != null ==> reading in live && alive && tagPath.Some?)
      && (forall r :: r in live ==> if r == reading then r.client == this && !r.cancelled else r.client == null && r.cancelled)
      && (forall r :: r in live && r != busy ==> r.Waiting())
      && (forall r :: r in freed ==> r.Settled())
    }

    /** A callback on r concerns r and the client alone; r goes on or is settled and given back. */
    twostate predicate OneStepOf(r: PassportRead)
      requires old(r in live)
      reads *
    {
      && (live == old(live) || live == old(live) - {r})
      && freed == old(freed) + (old(live) - live)
      && (forall o :: o in old(live) + old(freed) && o != r ==> unchanged(o))
      && tagPath == old(tagPath) && isoDep == old(isoDep) && alive == old(alive)
      && (reading == old(reading) || (old(reading) == r && reading == null && r !in live))
    }

    /** A read goes on to a later stage, or asks for one more chunk where it is, or leaves. */
    twostate predicate MovesOn(r: PassportRead, more: bool)
      reads this, r
    {
      r in live ==>
        && r.pending.Some? && old(r.pending).Some?
        && (Rank(r.pending.value) < Rank(old(r.pending).value) || (more && r.pending == old(r.pending)))
    }

    /** A response in order leads to the next stage, with some state given up and some taken on. */
    twostate predicate GoesOn(r: PassportRead, next: Stage, lost: set<Fact>, gained: set<Fact>)
      reads this, r
    {
      r in live && r.pending == Some(next) && r.have == old(r.have) - lost + gained
    }

    /* ---- starting ---- */

    /** Either refuses at once, with the one callback that takes, or dispatches a read. */
    method ReadPassport(usePace: bool, readPhoto: bool, secretOk: bool) returns (r: PassportRead?)
      requires Valid() && alive
      modifies this`reading, this`live
      ensures Valid() && freed == old(freed)
      ensures r == null <==> old(reading) != null || tagPath.None? || !isoDep || !secretOk
      ensures r == null ==> reading == old(reading) && live == old(live)
      ensures r != null ==> fresh(r) && reading == r && live == old(live) + {r}
      ensures r != null ==> r.usePace == usePace && r.readPhoto == readPhoto && r.pending == Some(TagProxy)
    {
      if reading != null || tagPath.None? || !isoDep || !secretOk {
        return null;
      }
      r := new PassportRead(this, usePace, readPhoto);
      live := live + {r};
      reading := r;
      StartCall(r, TagProxy);
    }

    method StartCall(r: PassportRead, stage: Stage)
      requires ValidExcept(r) && r in live && r.pending.None?
      requires r.callbacks == 0 && r.releases == 0 && r.Prepared(stage)
      modifies r`pending
      ensures Valid() && r.pending == Some(stage)
    {
      r.pending := Some(stage);
    }

    /** A different tag, or none: the read in progress loses its client but still has to finish. */
    method SetCurrentTag(path: Option<string>)
      requires Valid() && alive
      modifies this`tagPath, this`isoDep, this`reading, live
      ensures Valid() && live == old(live) && freed == old(freed) && tagPath == path
      ensures path != old(tagPath) ==> reading == null && !isoDep
      ensures path != old(tagPath) && old(reading) != null ==> old(reading).client == null
      ensures path == old(tagPath) ==> reading == old(reading) && isoDep == old(isoDep)
    {
      if tagPath == path {
        return;
      }
      Abort();
      tagPath, isoDep := path, false;
    }

    method ProtocolKnown(isIsoDep: bool)
      requires Valid() && alive
      modifies this`isoDep
      ensures Valid() && isoDep == isIsoDep
    {
      isoDep := isIsoDep;
    }

    method Abort()
      requires Valid()
      modifies this`reading, live
      ensures Valid() && reading == null && live == old(live)
    {
      if reading != null {
        reading.client := null;
        reading.cancelled := true;
        reading := null;
      }
    }

    method Free()
      requires Valid() && alive
      modifies this`reading, this`alive, this`tagPath, live
      ensures Valid() && !alive && live == old(live) && freed == old(freed)
      ensures forall r :: r in live ==> r.client == null
    {
      Abort();
      alive, tagPath := false, None;
    }

    /* ---- finishing ---- */

    method CallCompleted(r: PassportRead)
      requires Valid() && r in live
      modifies r`pending
      ensures ValidExcept(r) && r.pending.None? && r.Prepared(old(r.pending).value)
      ensures r.callbacks == 0 && r.releases == 0
    {
      r.pending := None;
    }

    /** The only place that calls back. */
    method Finish(r: PassportRead, success: bool)
      requires ValidExcept(r) && r in live && r.pending.None?
      requires r.callbacks == 0 && r.releases == 0 && (r.acquired ==> r.hasTag)
      requires success <==> Mrz in r.have
      modifies this`reading, this`live, this`freed, r`callbacks, r`succeeded, r`releases
      ensures Valid() && OneStepOf(r) && r !in live && r.Settled() && r.succeeded == success
    {
      if r.client != null && r.client == this && reading == r {
        reading := null;
      }
      if r.acquired && r.hasTag {
        r.releases := r.releases + 1;
      }
      live := live - {r};
      freed := freed + {r};
      r.callbacks := r.callbacks + 1;
      r.succeeded := success;
    }

    /* ---- the steps: each asserts the state it reads before it goes on ---- */

    method TagProxyReady(r: PassportRead, ok: bool)
      requires Valid() && r in live && r.pending == Some(TagProxy)
      modifies this`reading, this`live, this`freed, r
      ensures Valid() && OneStepOf(r)
      ensures MovesOn(r, false)
      ensures ok ==> GoesOn(r, Acquire, {}, {}) && r.hasTag
      ensures !ok ==> r !in live && !r.succeeded
    {
      CallCompleted(r);
      if !ok {
        Finish(r, false);
        return;
      }
      r.hasTag := true;
      StartCall(r, Acquire);
    }

    method AcquireReady(r: PassportRead, ok: bool)
      requires Valid() && r in live && r.pending == Some(Acquire)
      modifies this`reading, this`live, this`freed, r
      ensures Valid() && OneStepOf(r)
      ensures MovesOn(r, false)
      ensures r.acquired <==> ok
      ensures ok ==> GoesOn(r, if r.usePace then SelectCardAccess else SelectAid, {}, {})
      ensures !ok ==> r !in live && !r.succeeded
    {
      CallCompleted(r);
      if !ok {
        Finish(r, false);
        return;
      }
      r.acquired := true;
      StartCall(r, if r.usePace then SelectCardAccess else SelectAid);
    }

    /**
     The common shape of the later callbacks: a failure finishes the read, otherwise state is given
     up and taken on and the next call starts. What the next step needs must come from what this one
     could rely on.
     */
    method Answered(r: PassportRead, ok: bool, success: bool, lost: set<Fact>, gained: set<Fact>, next: Stage)
      requires Valid() && r in live && r.pending.value != TagProxy && r.pending.value != Acquire
      requires next != TagProxy && next != Acquire && OnPath(next, r.usePace)
      requires Needs(next, r.usePace) <= Needs(r.pending.value, r.usePace) - lost + gained
      requires Mrz !in lost && (AfterDg1(next) <==> AfterDg1(r.pending.value) || Mrz in gained)
      requires success <==> AfterDg1(r.pending.value)
      modifies this`reading, this`live, this`freed, r
      ensures Valid() && OneStepOf(r)
      ensures !ok ==> r !in live && r.succeeded == success && r.have == old(r.have)
      ensures ok ==> r in live && r.pending == Some(next) && r.have == old(r.have) - lost + gained
    {
      CallCompleted(r);
      if !ok {
        Finish(r, success);
        return;
      }
      r.have := r.have - lost + gained;
      StartCall(r, next);
    }

    /** BAC: select the application, get a challenge, authenticate. */
    method BacReady(r: PassportRead, res: Result)
      requires Valid() && r in live && r.pending.Some? && r.pending.value in BAC_STAGES
      modifies this`reading, this`live, this`freed, r
      ensures Valid() && OneStepOf(r)
      ensures MovesOn(r, res.more)
      ensures !res.Good() ==> r !in live && !r.succeeded
      ensures res.Good() && old(r.pending) == Some(SelectAid) ==> GoesOn(r, GetChallenge, {}, {})
      ensures res.Good() && old(r.pending) == Some(GetChallenge) ==> GoesOn(r, MutualAuth, {}, {RndIcc, Challenge})
      ensures res.Good() && old(r.pending) == Some(MutualAuth) ==> GoesOn(r, SelectDg1, {}, {BacSession})
    {
      hide OneStepOf;
      match r.pending.value {
        case SelectAid =>
          Answered(r, res.Good(), false, {}, {}, GetChallenge);
        case GetChallenge =>
          assert {BacKeys} <= r.have;
          Answered(r, res.Good(), false, {}, {RndIcc, Challenge}, MutualAuth);
        case MutualAuth =>
          assert {BacKeys, RndIcc, Challenge} <= r.have;
          Answered(r, res.Good(), false, {}, {BacSession}, SelectDg1);
      }
    }

    /** PACE before its rounds: read EF.CardAccess, pick an entry, select the protocol. */
    method PaceSetupReady(r: PassportRead, res: Result)
      requires Valid() && r in live && r.pending.Some? && r.pending.value in PACE_SETUP_STAGES
      modifies this`reading, this`live, this`freed, r
      ensures Valid() && OneStepOf(r)
      ensures MovesOn(r, res.more)
      ensures !res.Good() ==> r !in live && !r.succeeded
      ensures res.Good() && old(r.pending) == Some(SelectCardAccess) ==> GoesOn(r, CardAccessRest, {}, {CardAccess})
      ensures res.Good() && old(r.pending) == Some(CardAccessRest) && res.more ==> GoesOn(r, CardAccessRest, {}, {})
      ensures res.Good() && old(r.pending) == Some(CardAccessRest) && !res.more ==>
                GoesOn(r, MseSetAt, {PacePassword}, {Exchange})
      ensures res.Good() && old(r.pending) == Some(MseSetAt) ==> GoesOn(r, GetNonce, {}, {})
    {
      hide OneStepOf;
      match r.pending.value {
        case SelectCardAccess =>
          Answered(r, res.Good(), false, {}, {CardAccess}, CardAccessRest);
        case CardAccessRest =>
          assert {CardAccess} <= r.have;
          if res.more {
            Answered(r, res.Good(), false, {}, {}, CardAccessRest);
          } else {
            assert {PacePassword} <= r.have;
            Answered(r, res.Good(), false, {PacePassword}, {Exchange}, MseSetAt);
          }
        case MseSetAt =>
          Answered(r, res.Good(), false, {}, {}, GetNonce);
      }
    }

    /** The nonce, the mapping and the key agreement. */
    method PaceRoundReady(r: PassportRead, res: Result)
      requires Valid() && r in live && r.pending.Some? && r.pending.value in PACE_ROUND_STAGES
      modifies this`reading, this`live, this`freed, r
      ensures Valid() && OneStepOf(r)
      ensures MovesOn(r, res.more)
      ensures !res.Good() ==> r !in live && !r.succeeded
      ensures res.Good() && old(r.pending) == Some(GetNonce) ==> GoesOn(r, MapNonce, {}, {Nonce, MappingKey})
      ensures res.Good() && old(r.pending) == Some(MapNonce) ==> GoesOn(r, KeyAgreement, {}, {MappedGroup, AgreementKey})
      ensures res.Good() && old(r.pending) == Some(KeyAgreement) ==> GoesOn(r, PaceMutualAuth, {}, {ChipKey, PaceSession})
    {
      hide OneStepOf;
      match r.pending.value {
        case GetNonce =>
          assert {Exchange} <= r.have;
          Answered(r, res.Good(), false, {}, {Nonce, MappingKey}, MapNonce);
        case MapNonce =>
          assert {Exchange, Nonce, MappingKey} <= r.have;
          Answered(r, res.Good(), false, {}, {MappedGroup, AgreementKey}, KeyAgreement);
        case KeyAgreement =>
          assert {Exchange, MappedGroup, AgreementKey} <= r.have;
          Answered(r, res.Good(), false, {}, {ChipKey, PaceSession}, PaceMutualAuth);
      }
    }

    /** The tokens checked and the exchange freed, then the application selected under the session. */
    method PaceFinalReady(r: PassportRead, res: Result)
      requires Valid() && r in live && r.pending.Some? && r.pending.value in PACE_FINAL_STAGES
      modifies this`reading, this`live, this`freed, r
      ensures Valid() && OneStepOf(r)
      ensures MovesOn(r, res.more)
      ensures !res.Good() ==> r !in live && !r.succeeded
      ensures res.Good() && old(r.pending) == Some(PaceMutualAuth) ==> GoesOn(r, PaceSelectAid, EXCHANGE_FACTS, {})
      ensures res.Good() && old(r.pending) == Some(PaceSelectAid) ==> GoesOn(r, SelectDg1, {}, {})
    {
      hide OneStepOf;
      match r.pending.value {
        case PaceMutualAuth =>
          assert {Exchange, AgreementKey, ChipKey, PaceSession} <= r.have;
          Answered(r, res.Good(), false, EXCHANGE_FACTS, {}, PaceSelectAid);
        case PaceSelectAid =>
          assert {PaceSession} <= r.have;
          Answered(r, res.Good(), false, {}, {}, SelectDg1);
      }
    }

    method SelectDg1Ready(r: PassportRead, res: Result)
      requires Valid() && r in live && r.pending == Some(SelectDg1)
      modifies this`reading, this`live, this`freed, r
      ensures Valid() && OneStepOf(r)
      ensures MovesOn(r, res.more)
      ensures !res.Good() ==> r !in live && !r.succeeded
      ensures res.Good() ==> GoesOn(r, Dg1Rest, {}, {Dg1})
    {
      hide OneStepOf;
      assert {Session(r.usePace)} <= r.have;
      Answered(r, res.Good(), false, {}, {Dg1}, Dg1Rest);
    }

    /** Until DG1 has parsed every failure fails the read; from then on nothing does. */
    method Dg1Ready(r: PassportRead, res: Result, parses: bool)
      requires Valid() && r in live && r.pending == Some(Dg1Rest)
      modifies this`reading, this`live, this`freed, r
      ensures Valid() && OneStepOf(r)
      ensures MovesOn(r, res.more)
      ensures Mrz in r.have <==> res.arrived && res.accepted && !res.more && parses
      ensures Mrz in r.have && r !in live ==> r.succeeded
      ensures res.Good() && res.more ==> GoesOn(r, Dg1Rest, {}, {})
      ensures res.Good() && !res.more && parses && r.readPhoto ==> GoesOn(r, SelectDg2, {}, {Mrz})
      ensures r in live ==> r.pending == Some(Dg1Rest) || r.pending == Some(SelectDg2)
      ensures r in live <==> res.Good() && (res.more || (parses && r.readPhoto))
    {
      hide OneStepOf;
      assert {Session(r.usePace), Dg1} <= r.have;
      if !res.arrived || !res.accepted || res.more {
        Answered(r, res.Good(), false, {}, {}, Dg1Rest);
      } else {
        Dg1Complete(r, res.built, parses);
      }
    }

    /** All of DG1 is here: parse it, then either go on to the photo or finish. */
    method Dg1Complete(r: PassportRead, built: bool, parses: bool)
      requires Valid() && r in live && r.pending == Some(Dg1Rest)
      modifies this`reading, this`live, this`freed, r
      ensures Valid() && OneStepOf(r)
      ensures MovesOn(r, false)
      ensures Mrz in r.have <==> parses
      ensures Mrz in r.have && r !in live ==> r.succeeded
      ensures parses && r.readPhoto && built ==> GoesOn(r, SelectDg2, {}, {Mrz})
      ensures !(parses && r.readPhoto && built) ==> r !in live
    {
      hide OneStepOf;
      if !parses || (r.readPhoto && built) {
        Answered(r, parses, false, {}, {Mrz}, SelectDg2);
      } else {
        FinishWithMrz(r);
      }
    }

    method FinishWithMrz(r: PassportRead)
      requires Valid() && r in live && r.pending == Some(Dg1Rest)
      modifies this`reading, this`live, this`freed, r
      ensures Valid() && OneStepOf(r) && Mrz in r.have && r !in live && r.succeeded
    {
      CallCompleted(r);
      r.have := r.have + {Mrz};
      Finish(r, true);
    }

    method SelectDg2Ready(r: PassportRead, res: Result)
      requires Valid() && r in live && r.pending == Some(SelectDg2)
      modifies this`reading, this`live, this`freed, r
      ensures Valid() && OneStepOf(r)
      ensures MovesOn(r, res.more)
      ensures r !in live ==> r.succeeded
      ensures if res.Good() then GoesOn(r, Dg2Rest, {}, {Dg2}) else r !in live
    {
      hide OneStepOf;
      assert {Session(r.usePace)} <= r.have;
      Answered(r, res.Good(), true, {}, {Dg2}, Dg2Rest);
    }

    method Dg2Ready(r: PassportRead, res: Result)
      requires Valid() && r in live && r.pending == Some(Dg2Rest)
      modifies this`reading, this`live, this`freed, r
      ensures Valid() && OneStepOf(r)
      ensures MovesOn(r, res.more)
      ensures r !in live ==> r.succeeded
      ensures if res.Good() && res.more then GoesOn(r, Dg2Rest, {}, {}) else r !in live
    {
      hide OneStepOf;
      assert {Session(r.usePace), Dg2} <= r.have;
      Answered(r, res.Good() && res.more, true, {}, {}, Dg2Rest);
    }
  }

  /** Hands a completed call to its callback. */
  method Complete(c: PassportClient, r: PassportRead, res: Result, parses: bool)
    requires c.Valid() && r in c.live
    modifies c`reading, c`live, c`freed, r
    ensures c.Valid() && c.OneStepOf(r) && c.MovesOn(r, res.more)
  {
    match r.pending.value {
      case TagProxy => c.TagProxyReady(r, res.arrived);
      case Acquire => c.AcquireReady(r, res.arrived);
      case SelectDg1 => c.SelectDg1Ready(r, res);
      case Dg1Rest => c.Dg1Ready(r, res, parses);
      case SelectDg2 => c.SelectDg2Ready(r, res);
      case Dg2Rest => c.Dg2Ready(r, res);
      case SelectAid | GetChallenge | MutualAuth => c.BacReady(r, res);
      case SelectCardAccess | CardAccessRest | MseSetAt => c.PaceSetupReady(r, res);
      case GetNonce | MapNonce | KeyAgreement => c.PaceRoundReady(r, res);
      case PaceMutualAuth | PaceSelectAid => c.PaceFinalReady(r, res);
    }
  }

  /**
   A read whose calls all complete is settled after at most fourteen of them, and one more for each
   chunk beyond the first of a file, whatever the calls bring.
   */
  method Settle(c: PassportClient, r: PassportRead, chunks: nat) returns (completed: nat)
    requires c.Valid() && r in c.live
    modifies c`reading, c`live, c`freed, r
    ensures c.Valid() && r !in c.live && r in c.freed && r.Settled()
    ensures completed <= old(Rank(r.pending.value)) + chunks <= 14 + chunks
  {
    completed := 0;
    var left: nat := chunks;
    hide PassportClient.OneStepOf, PassportClient.ValidExcept;
    while r in c.live
      invariant c.Valid() && (r in c.live || r in c.freed)
      invariant completed + left + (if r in c.live then Rank(r.pending.value) else 0) <= old(Rank(r.pending.value)) + chunks
      decreases left + if r in c.live then 1 + Rank(r.pending.value) else 0
    {
      var res: Result, parses: bool := *, *;
      if left == 0 {
        res := res.(more := false);
      }
      var stage := r.pending;
      Complete(c, r, res, parses);
      completed := completed + 1;
      if r in c.live && r.pending == stage {
        left := left - 1;
      }
    }
  }

  /**
   Any interleaving of requests, tag changes, teardown and completed calls. Every read ever
   dispatched is either still waiting for exactly one call or settled: called back once, the tag
   released once if it was acquired and not otherwise, successful if and only if DG1 parsed.
   */
  method AnyInterleaving(steps: nat) returns (c: PassportClient, ghost dispatched: set<PassportRead>)
    ensures c.Valid()
    ensures dispatched == c.live + c.freed && c.live !! c.freed
    ensures forall r :: r in c.live ==> r.Waiting()
    ensures forall r :: r in dispatched - c.live ==> r.Settled()
  {
    c := new PassportClient();
    dispatched := {};
    for i := 0 to steps
      invariant c.Valid() && fresh(c) && fresh(c.live) && fresh(c.freed)
      invariant dispatched == c.live + c.freed
    {
      var choice: nat := *;
      if choice == 0 && c.alive {
        var path: Option<string> := *;
        c.SetCurrentTag(path);
      } else if choice == 1 && c.alive {
        c.Free();
      } else if choice == 2 && c.alive {
        var usePace: bool, readPhoto: bool, secretOk: bool := *, *, *;
        var r := c.ReadPassport(usePace, readPhoto, secretOk);
        if r != null {
          dispatched := dispatched + {r};
        }
      } else if choice == 3 && c.alive {
        var isIsoDep: bool := *;
        c.ProtocolKnown(isIsoDep);
      } else if c.live != {} {
        var r :| r in c.live;
        var res: Result, parses: bool := *, *;
        Complete(c, r, res, parses);
      }
    }
  }
}
