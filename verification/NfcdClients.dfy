/**
 The client's asynchronous side: tag reads and passport reads whose calls complete at any time,
 while tags come and go and the client itself may be torn down. Every callback is one method;
 what the library calls return is left open.
 */
module NfcdClients {
  import opened ByteStrings
  import opened Mifare
  import opened MifareSweeps
  import Theorems = MifareTheorems

  /** What a tag read is waiting for; there is one outstanding call per read, or none. */
  datatype Call = TagProxy | GetAll | NdefProxy | NdefRecord | RawProxy | RawData | MifareAuth | MifareBlock

  type Record = Bytes

  /** The decoded tag as published. */
  datatype TagJson = TagJson(
    path: string, records: Option<seq<Record>>, rawData: Option<Bytes>,
    sectors: Option<seq<Report>>, scanning: Option<bool>)

  /** The answer to GetAll3: the protocol, what kind of tag it is, and the paths of its records. */
  datatype TagInfo = TagInfo(protocol: nat, isType2: bool, isMifare: bool, uid: Option<string>, recordPaths: seq<string>)

  class TagRead {
    var client: NfcdClient?
    const path: string
    var cancelled: bool
    var pending: Option<Call>
    var tagObj: Option<TagJson>
    var records: seq<Record>
    var recordPaths: seq<string>
    var recordIndex: nat
    var isType2: bool
    var sweep: SectorSweep?

    constructor (client: NfcdClient, path: string)
      ensures this.client == client && this.path == path && !cancelled && pending.None?
      ensures tagObj.None? && records == [] && recordPaths == [] && recordIndex == 0 && sweep == null
    {
      this.client, this.path := client, path;
      cancelled, pending, tagObj, records := false, None, None, [];
      recordPaths, recordIndex, isType2, sweep := [], 0, false, null;
    }
  }

  class NfcdClient {
    var tagPath: Option<string>
    var tagJson: Option<TagJson>
    var tagIsType2: bool
    var tagProtocol: nat
    var reading: TagRead?
    const keyCache: KeyCache
    var alive: bool
    var notified: nat
    /** Reads that some outstanding call will come back to. */
    var live: set<TagRead>
    /** Reads whose memory has been given back. */
    ghost var freed: set<TagRead>

    constructor ()
      ensures Valid() && alive && live == {} && freed == {}
      ensures fresh(keyCache)
    {
      tagPath, tagJson, tagIsType2, tagProtocol := None, None, false, 0;
      reading, alive, notified, live, freed := null, true, 0, {}, {};
      keyCache := new KeyCache();
    }

    /**
     The read the client points at, and no other, points back; it has not been cancelled and is for
     the tag in the field. Published contents are those of the tag in the field.
     */
    ghost predicate Valid()
      reads this, live, set r | r in live && r.sweep != null :: r.sweep
    {
      ValidExcept(null)
    }

    /** The same while one read's callback is running: its call has completed and it has no new one yet. */
    ghost predicate ValidExcept(busy: TagRead?)
      reads this, live, set r | r in live && r.sweep != null :: r.sweep
    {
      && live !! freed
      && (reading != null ==> reading in live && alive)
      && (forall r :: r in live && r != busy ==> r.pending.Some?)
      && (forall r :: r in live ==> if r == reading then r.client == this && !r.cancelled else r.client == null)
      && (reading != null ==> tagPath == Some(reading.path) && (reading != busy ==> Consistent(reading)))
      && (tagJson.Some? ==> tagPath == Some(tagJson.value.path) && alive)
    }

    /** A read's own fields agree with the call it waits for. */
    ghost predicate Consistent(r: TagRead)
      reads r, r.sweep
    {
      && r.pending.Some?
      && (r.pending.value in {TagProxy, GetAll} ==> r.sweep == null && r.tagObj.None?)
      && (r.pending.value !in {TagProxy, GetAll} ==> r.tagObj.Some? && r.tagObj.value.path == r.path)
      && (r.pending.value in {NdefProxy, NdefRecord} ==> r.recordIndex < |r.recordPaths|)
      && (r.pending.value in {MifareAuth, MifareBlock} ==>
            && r.sweep != null && r.sweep.cache == keyCache && Theorems.Valid(r.sweep.Shape())
            && r.sweep.await == (if r.pending.value == MifareAuth then Auth else Block))
    }

    /** Before its data are there a read is one or two calls away from them. */
    static ghost function Rank(r: TagRead): nat
      reads r
    {
      if r.pending == Some(TagProxy) then 2 else if r.pending == Some(GetAll) then 1 else 0
    }

    /** With its data there, the calls it still makes at most, the outstanding one included. */
    static ghost function Steps(r: TagRead): nat
      reads r, r.sweep
    {
      var missing := if r.recordIndex < |r.recordPaths| then |r.recordPaths| - r.recordIndex else 0;
      match r.pending
      case Some(NdefProxy) => 2 * missing + 2
      case Some(NdefRecord) => 2 * missing + 1
      case Some(RawProxy) => 2
      case Some(RawData) => 1
      case Some(MifareAuth) => SweepSteps(r.sweep)
      case Some(MifareBlock) => SweepSteps(r.sweep)
      case _ => 0
    }

    static ghost function SweepSteps(w: SectorSweep?): nat
      reads w
    {
      if w != null && Theorems.Valid(w.Shape()) then Theorems.Budget(w.Shape(), true) else 0
    }

    /** The most calls a read makes once its data are there: the sweep's, or two a record and two for the raw contents. */
    static ghost function Bound(r: TagRead): nat
      reads r
    {
      if r.sweep != null then 616 else 2 * |r.recordPaths| + 2
    }

    /** A callback that does not end the read brings it nearer to its end. */
    twostate predicate Nearer(r: TagRead)
      reads this, r, r.sweep
    {
      r in live ==>
        || (Rank(r) == 1 && old(Rank(r)) == 2 && tagJson == old(tagJson))
        || (Rank(r) == 0 && old(Rank(r)) == 1 && 1 <= Steps(r) <= Bound(r))
        || (&& Rank(r) == 0 && old(Rank(r)) == 0 && 1 <= Steps(r) < old(Steps(r))
            && r.sweep == old(r.sweep) && r.recordPaths == old(r.recordPaths))
    }

    /** A callback that ends the read in progress publishes its final contents, or it never had any. */
    twostate predicate Ends(r: TagRead)
      reads this, r
    {
      old(r.client) != null && r !in live ==>
        && reading == null
        && (old(Rank(r)) == 0 ==> r.sweep == old(r.sweep) && r.recordPaths == old(r.recordPaths))
        && if r.tagObj.None? then old(Rank(r)) >= 1 && tagJson == old(tagJson)
           else tagJson == Some(r.tagObj.value.(records := Some(r.records)))
    }

    /** What every callback on r leaves alone, and how it accounts for r. */
    twostate predicate OneStepOf(r: TagRead)
      requires old(r in live)
      reads *
    {
      && (live == old(live) || live == old(live) - {r})
      && freed == old(freed) + (old(live) - live)
      && (forall o :: o in old(live) && o != r ==> unchanged(o))
      && tagPath == old(tagPath) && alive == old(alive)
      && (reading == old(reading) || (old(reading) == r && reading == null && r !in live))
    }

    /** The client's fields as everybody else sees them. */
    twostate predicate ClientUntouched()
      reads this
    {
      && tagPath == old(tagPath) && tagJson == old(tagJson) && tagIsType2 == old(tagIsType2)
      && tagProtocol == old(tagProtocol) && reading == old(reading) && alive == old(alive)
      && notified == old(notified)
    }

    /* ---- allocation, calls, memory ---- */

    /** Starting a call: the read must be live and idle, so no read ever has two calls outstanding. */
    method StartCall(r: TagRead, call: Call)
      requires r in live && r.pending.None?
      modifies r`pending
      ensures r.pending == Some(call)
    {
      r.pending := Some(call);
    }

    /** Giving back a read: it must be live, so no read is ever given back twice. */
    method TagReadFree(r: TagRead)
      requires r in live && live !! freed
      modifies this`live, this`freed
      ensures live == old(live) - {r} && freed == old(freed) + {r}
    {
      live := live - {r};
      freed := freed + {r};
    }

    method NotifyTag()
      modifies this`notified
      ensures notified == old(notified) + 1
    {
      notified := notified + 1;
    }

    /* ---- the tag in the field ---- */

    method TagReadStart(path: string) returns (r: TagRead)
      requires Valid() && alive && reading == null && tagPath == Some(path)
      modifies this`live, this`reading
      ensures Valid() && fresh(r) && reading == r && r.path == path
      ensures live == old(live) + {r} && r.pending == Some(TagProxy) && r.sweep == null
    {
      r := new TagRead(this, path);
      live := live + {r};
      reading := r;
      StartCall(r, TagProxy);
    }

    /** The read stays live: its outstanding call will come back and clean up. */
    method TagReadAbort(r: TagRead)
      modifies r`client, r`cancelled
      ensures r.client == null && r.cancelled
    {
      r.client := null;
      r.cancelled := true;
    }

    method SetCurrentTag(path: Option<string>)
      requires Valid() && alive
      modifies this, live
      ensures Valid() && alive && tagPath == path
      ensures path == old(tagPath) ==> ClientUntouched() && live == old(live)
      ensures path != old(tagPath) ==> tagJson.None? && tagProtocol == 0 && (reading == null <==> path.None?)
      ensures path != old(tagPath) ==> notified == old(notified) + 1 && !tagIsType2
      ensures path != old(tagPath) && old(reading) != null ==> old(reading).client == null && old(reading).cancelled
      ensures path != old(tagPath) && path.None? ==> live == old(live)
      ensures path != old(tagPath) && path.Some? ==>
                fresh(reading) && live == old(live) + {reading} && reading.path == path.value && reading.pending == Some(TagProxy)
      ensures freed == old(freed) && old(live) <= live && fresh(live - old(live))
      ensures forall r :: r in old(live) && r != old(reading) ==> unchanged(r)
      ensures forall r :: r in old(live) ==> r.pending == old(r.pending) && r.sweep == old(r.sweep)
      ensures forall r :: r in live - old(live) ==> r.sweep == null
    {
      if tagPath == path {
        return;
      }
      if reading != null {
        TagReadAbort(reading);
        reading := null;
      }
      tagPath, tagIsType2, tagProtocol, tagJson := path, false, 0, None;
      NotifyTag();
      if path.Some? {
        var r := TagReadStart(path.value);
      }
    }

    /** Teardown: whatever is still outstanding is orphaned, and the client is never touched again. */
    method Free()
      requires Valid() && alive
      modifies this, live
      ensures Valid() && !alive && reading == null && live == old(live) && freed == old(freed)
      ensures forall r :: r in live ==> r.client == null
      ensures forall r :: r in live ==> r.pending == old(r.pending) && r.sweep == old(r.sweep)
    {
      if reading != null {
        TagReadAbort(reading);
        reading := null;
      }
      tagJson, tagPath, alive := None, None, false;
    }

    /* ---- callbacks of a tag read ---- */

    /** Every callback starts here: the call it belongs to is no longer outstanding. */
    method CallCompleted(r: TagRead)
      requires Valid() && r in live
      modifies r`pending
      ensures ValidExcept(r) && r.pending.None?
      ensures r == reading ==> old(Consistent(r))
    {
      r.pending := None;
    }

    /** The ending of a read that found nothing to publish. */
    method GiveUp(r: TagRead)
      requires ValidExcept(r) && r in live
      modifies this`reading, this`live, this`freed
      ensures Valid() && OneStepOf(r) && r !in live
      ensures r.client == null ==> ClientUntouched()
      ensures r.client != null ==> reading == null
    {
      if r.client != null {
        reading := null;
      }
      TagReadFree(r);
    }

    method TagReadFinish(r: TagRead)
      requires ValidExcept(r) && r in live && r.tagObj.Some?
      requires r.tagObj.value.path == r.path
      modifies this`tagJson, this`tagIsType2, this`reading, this`live, this`freed, this`notified
      ensures Valid() && OneStepOf(r) && r !in live
      ensures if r.client == null then ClientUntouched()
              else reading == null && notified == old(notified) + 1 && tagIsType2 == r.isType2
                   && tagJson == Some(r.tagObj.value.(records := Some(r.records)))
    {
      if r.client == null {
        TagReadFree(r);
        return;
      }
      tagJson := Some(r.tagObj.value.(records := Some(r.records)));
      tagIsType2 := r.isType2;
      reading := null;
      TagReadFree(r);
      NotifyTag();
    }

    method TagProxyReady(r: TagRead, ok: bool)
      requires Valid() && r in live && r.pending == Some(TagProxy)
      modifies this`reading, this`live, this`freed, r
      ensures Valid() && OneStepOf(r)
      ensures Nearer(r) && Ends(r)
      ensures r in live <==> ok && old(r.client) != null
      ensures r in live ==> r.pending == Some(GetAll)
      ensures old(r.client) == null ==> ClientUntouched()
    {
      CallCompleted(r);
      if !ok || r.client == null {
        GiveUp(r);
        return;
      }
      StartCall(r, GetAll);
    }

    method GetAllReady(r: TagRead, info: Option<TagInfo>)
      requires Valid() && r in live && r.pending == Some(GetAll)
      modifies this`reading, this`live, this`freed, this`tagProtocol, this`tagJson, this`tagIsType2, this`notified, r
      ensures Valid() && OneStepOf(r)
      ensures Nearer(r) && Ends(r)
      ensures old(r.client) == null ==> ClientUntouched() && r !in live
      ensures info.None? ==> r !in live
      ensures old(r.client) != null && info.Some? ==> TakenOver(r, info.value)
      ensures r in live ==> r.sweep != null ==> fresh(r.sweep)
    {
      if info.None? || r.client == null {
        CallCompleted(r);
        GiveUp(r);
      } else if info.value.isMifare {
        TakeOverMifare(r, info.value);
      } else {
        TakeOverRecords(r, info.value);
      }
    }

    /** The tag's data are the read's, and the next call is the one for its kind of tag. */
    twostate predicate TakenOver(r: TagRead, info: TagInfo)
      reads this, r, r.sweep, keyCache
    {
      && tagProtocol == info.protocol && r.isType2 == info.isType2
      && r.tagObj.Some? && r.recordPaths == info.recordPaths && r.recordIndex == 0 && r.records == []
      && (info.isMifare ==>
            && r in live && r.pending == Some(MifareAuth)
            && r.sweep != null && r.sweep.cache == keyCache && r.sweep.State() == Start(keyCache.entries, info.uid))
      && (!info.isMifare ==> r.sweep == old(r.sweep) && NextRecordAsked(r))
    }

    /** The record at the index is asked for next; after the last one the raw contents of a Type 2 tag, or the read is over. */
    ghost predicate NextRecordAsked(r: TagRead)
      reads this, r
    {
      if r.recordIndex < |r.recordPaths| then r in live && r.pending == Some(NdefProxy)
      else if r.isType2 then r in live && r.pending == Some(RawProxy)
      else r !in live && r.tagObj.Some? && tagJson == Some(r.tagObj.value.(records := Some(r.records)))
    }

    method TakeOver(r: TagRead, info: TagInfo)
      requires Valid() && r in live && r.pending == Some(GetAll) && r.client != null
      modifies this`tagProtocol, r
      ensures ValidExcept(r) && r.pending.None? && r.client == old(r.client) && r.sweep == null
      ensures tagProtocol == info.protocol && r.isType2 == info.isType2
      ensures r.tagObj == Some(TagJson(r.path, None, None, None, None))
      ensures r.recordPaths == info.recordPaths && r.recordIndex == 0 && r.records == []
    {
      CallCompleted(r);
      r.tagObj := Some(TagJson(r.path, None, None, None, None));
      tagProtocol := info.protocol;
      r.isType2 := info.isType2;
      r.records, r.recordPaths, r.recordIndex := [], info.recordPaths, 0;
    }

    method TakeOverMifare(r: TagRead, info: TagInfo)
      requires Valid() && r in live && r.pending == Some(GetAll) && r.client != null && info.isMifare
      modifies this`reading, this`live, this`freed, this`tagProtocol, this`tagJson, this`tagIsType2, this`notified, r
      ensures Valid() && OneStepOf(r) && Nearer(r) && Ends(r) && TakenOver(r, info) && fresh(r.sweep)
    {
      hide Theorems.Valid, Theorems.Budget, Start;
      TakeOver(r, info);
      TagReadMifareStart(r, info.uid);
    }

    method TakeOverRecords(r: TagRead, info: TagInfo)
      requires Valid() && r in live && r.pending == Some(GetAll) && r.client != null && !info.isMifare
      modifies this`reading, this`live, this`freed, this`tagProtocol, this`tagJson, this`tagIsType2, this`notified, r
      ensures Valid() && OneStepOf(r) && Nearer(r) && Ends(r) && TakenOver(r, info)
    {
      TakeOver(r, info);
      TagReadNextRecord(r);
    }

    /* ---- NDEF records, one after the other ---- */

    method TagReadNextRecord(r: TagRead)
      requires ValidExcept(r) && r in live && r.pending.None? && r.client != null
      requires r.tagObj.Some? && r.tagObj.value.path == r.path
      modifies this`tagJson, this`tagIsType2, this`reading, this`live, this`freed, this`notified, r`pending
      ensures Valid() && OneStepOf(r) && NextRecordAsked(r)
      ensures r !in live ==> reading == null
    {
      if r.recordIndex >= |r.recordPaths| {
        TagReadRawData(r);
        return;
      }
      StartCall(r, NdefProxy);
    }

    method TagReadRawData(r: TagRead)
      requires ValidExcept(r) && r in live && r.pending.None? && r.client != null
      requires r.tagObj.Some? && r.tagObj.value.path == r.path
      modifies this`tagJson, this`tagIsType2, this`reading, this`live, this`freed, this`notified, r`pending
      ensures Valid() && OneStepOf(r)
      ensures if r.isType2 then r in live && r.pending == Some(RawProxy)
              else r !in live && reading == null && tagJson == Some(r.tagObj.value.(records := Some(r.records)))
    {
      if !r.isType2 {
        TagReadFinish(r);
        return;
      }
      StartCall(r, RawProxy);
    }

    method NdefProxyReady(r: TagRead, ok: bool)
      requires Valid() && r in live && r.pending == Some(NdefProxy)
      modifies this`tagJson, this`tagIsType2, this`reading, this`live, this`freed, this`notified, r`pending, r`recordIndex
      ensures Valid() && OneStepOf(r)
      ensures Nearer(r) && Ends(r)
      ensures old(r.client) == null ==> ClientUntouched() && r !in live
      ensures r.records == old(r.records)
      ensures old(r.client) != null && ok ==> r in live && r.pending == Some(NdefRecord) && r.recordIndex == old(r.recordIndex)
      ensures old(r.client) != null && !ok ==> r.recordIndex == old(r.recordIndex) + 1 && NextRecordAsked(r)
    {
      CallCompleted(r);
      if r.client == null {
        TagReadFree(r);
        return;
      }
      if !ok {
        r.recordIndex := r.recordIndex + 1;
        TagReadNextRecord(r);
        return;
      }
      StartCall(r, NdefRecord);
    }

    /** A record that cannot be read is skipped; what has been read so far is kept. */
    method NdefRecordReady(r: TagRead, record: Option<Record>)
      requires Valid() && r in live && r.pending == Some(NdefRecord)
      modifies this`tagJson, this`tagIsType2, this`reading, this`live, this`freed, this`notified, r`pending, r`recordIndex, r`records
      ensures Valid() && OneStepOf(r)
      ensures Nearer(r) && Ends(r)
      ensures old(r.client) == null ==> ClientUntouched() && r !in live
      ensures old(r.client) != null ==>
                && r.records == old(r.records) + (if record.Some? then [record.value] else [])
                && r.recordIndex == old(r.recordIndex) + 1
                && NextRecordAsked(r)
    {
      hide SweepSteps, Theorems.Valid, Theorems.Budget;
      CallCompleted(r);
      if record.Some? && r.client != null {
        r.records := r.records + [record.value];
      }
      if r.client == null {
        TagReadFree(r);
        return;
      }
      r.recordIndex := r.recordIndex + 1;
      TagReadNextRecord(r);
    }

    /* ---- the raw data area of Type 2 tags ---- */

    method RawProxyReady(r: TagRead, ok: bool)
      requires Valid() && r in live && r.pending == Some(RawProxy)
      modifies this`tagJson, this`tagIsType2, this`reading, this`live, this`freed, this`notified, r`pending
      ensures Valid() && OneStepOf(r)
      ensures Nearer(r) && Ends(r)
      ensures old(r.client) == null ==> ClientUntouched() && r !in live
      ensures r in live <==> ok && old(r.client) != null
      ensures r in live ==> r.pending == Some(RawData)
    {
      CallCompleted(r);
      if r.client == null {
        TagReadFree(r);
        return;
      }
      if !ok {
        TagReadFinish(r);
        return;
      }
      StartCall(r, RawData);
    }

    method RawDataReady(r: TagRead, data: Option<Bytes>)
      requires Valid() && r in live && r.pending == Some(RawData)
      modifies this`tagJson, this`tagIsType2, this`reading, this`live, this`freed, this`notified, r`pending, r`tagObj
      ensures Valid() && OneStepOf(r) && r !in live
      ensures Nearer(r) && Ends(r)
      ensures if old(r.client) == null then ClientUntouched()
              else tagJson == Some(TagJson(r.path, Some(r.records),
                                           if data.Some? then data else old(r.tagObj).value.rawData,
                                           old(r.tagObj).value.sectors, old(r.tagObj).value.scanning))
    {
      CallCompleted(r);
      if data.Some? && r.client != null {
        r.tagObj := Some(r.tagObj.value.(rawData := data));
      }
      if r.client == null {
        TagReadFree(r);
        return;
      }
      TagReadFinish(r);
    }

    /* ---- MIFARE Classic ---- */

    /** After the sweep has moved: publish what is new, then wait for its next call or finish. */
    method SweepGoesOn(r: TagRead, nextSector: bool)
      requires ValidExcept(r) && r in live && r.pending.None? && r.client != null
      requires r.tagObj.Some? && r.tagObj.value.path == r.path
      requires r.sweep != null && r.sweep.cache == keyCache && Theorems.Valid(r.sweep.Shape())
      modifies this`tagJson, this`tagIsType2, this`reading, this`live, this`freed, this`notified, r`pending, r`tagObj
      ensures Valid() && OneStepOf(r)
      ensures r in live <==> r.sweep.await != Finished
      ensures r in live ==> r.pending == Some(if r.sweep.await == Auth then MifareAuth else MifareBlock)
      ensures r !in live ==> reading == null && r.tagObj.Some? && tagJson == Some(r.tagObj.value.(records := Some(r.records)))
      ensures r !in live ==> tagJson.Some? && tagJson.value.sectors == Some(r.sweep.reports)
                             && tagJson.value.scanning == Some(false)
      ensures r in live && nextSector ==> tagJson.Some? && tagJson.value.sectors == Some(r.sweep.reports)
                                          && tagJson.value.scanning == Some(true)
      ensures r in live && !nextSector ==> tagJson == old(tagJson) && notified == old(notified)
    {
      hide Theorems.Valid;
      if r.sweep.await == Finished {
        r.tagObj := Some(r.tagObj.value.(sectors := Some(r.sweep.reports), scanning := Some(false)));
        TagReadFinish(r);
        return;
      }
      if nextSector {
        tagJson := Some(r.tagObj.value.(sectors := Some(r.sweep.reports), scanning := Some(true)));
        NotifyTag();
      }
      StartCall(r, if r.sweep.await == Auth then MifareAuth else MifareBlock);
    }

    method TagReadMifareStart(r: TagRead, uid: Option<string>)
      requires ValidExcept(r) && r in live && r.pending.None? && r.client != null
      requires r.tagObj.Some? && r.tagObj.value.path == r.path
      modifies this`tagJson, this`tagIsType2, this`reading, this`live, this`freed, this`notified
      modifies r`pending, r`tagObj, r`sweep
      ensures Valid() && OneStepOf(r) && r.sweep != null && fresh(r.sweep)
      ensures r.sweep.State() == Start(keyCache.entries, uid) && r.sweep.cache == keyCache
      ensures r in live && r.pending == Some(MifareAuth) && 1 <= SweepSteps(r.sweep) <= 616
      ensures tagJson.Some? && tagJson.value.sectors == Some(r.sweep.reports) && tagJson.value.scanning == Some(true)
    {
      hide Theorems.Valid, Theorems.Budget, Start;
      r.sweep := new SectorSweep(keyCache, uid);
      FreshSweep(keyCache.entries, uid, r.sweep.State());
      SweepGoesOn(r, true);
    }

    /** With every new sector the sectors so far are shown as still being read, and at the end as read. */
    twostate predicate ShowsProgress(r: TagRead)
      reads this, r, r.sweep
    {
      && r.sweep != null && old(r.sweep) == r.sweep
      && (r !in live ==>
            tagJson.Some? && tagJson.value.sectors == Some(r.sweep.reports) && tagJson.value.scanning == Some(false))
      && (r in live && r.sweep.sector != old(r.sweep.sector) ==>
            tagJson.Some? && tagJson.value.sectors == Some(r.sweep.reports) && tagJson.value.scanning == Some(true))
      && (r in live && r.sweep.sector == old(r.sweep.sector) ==> tagJson == old(tagJson) && notified == old(notified))
    }

    /** A cancelled result comes only to a cancelled read, and that one has no client any more. */
    method MifareAuthReady(r: TagRead, reply: Reply, wasCancelled: bool)
      requires Valid() && r in live && r.pending == Some(MifareAuth)
      requires wasCancelled ==> reply.Error? && r.cancelled
      modifies this`tagJson, this`tagIsType2, this`reading, this`live, this`freed, this`notified, r, r.sweep
      ensures Valid() && OneStepOf(r)
      ensures Nearer(r) && Ends(r)
      ensures old(r.client) == null ==> ClientUntouched() && r !in live
      ensures old(r.client) == null && old(r.sweep) != null ==> unchanged(old(r.sweep))
      ensures r in live ==> r.sweep == old(r.sweep)
      ensures old(r.client) != null ==>
                r.sweep != null && r.sweep.State() == AuthReady(old(r.sweep.State()), reply) && ShowsProgress(r)
    {
      if r.client == null {
        CallCompleted(r);
        TagReadFree(r);
      } else {
        if reply.Error? && wasCancelled {
          assert false;
        }
        SweepAuthenticates(r, reply);
      }
    }

    method SweepAuthenticates(r: TagRead, reply: Reply)
      requires Valid() && r in live && r.pending == Some(MifareAuth) && r.client != null
      modifies this`tagJson, this`tagIsType2, this`reading, this`live, this`freed, this`notified, r, r.sweep
      ensures Valid() && OneStepOf(r) && Nearer(r) && Ends(r)
      ensures r.sweep == old(r.sweep) && r.sweep.State() == AuthReady(old(r.sweep.State()), reply)
      ensures ShowsProgress(r)
    {
      hide Theorems.Valid, Theorems.Budget, AuthReady;
      CallCompleted(r);
      var before := r.sweep.sector;
      ghost var was := r.sweep.State();
      r.sweep.AuthReady(reply);
      SweepMoves(was, r.sweep.State(), reply);
      SweepGoesOn(r, r.sweep.sector != before);
    }

    method MifareBlockReady(r: TagRead, reply: Reply)
      requires Valid() && r in live && r.pending == Some(MifareBlock)
      modifies this`tagJson, this`tagIsType2, this`reading, this`live, this`freed, this`notified, r, r.sweep, keyCache
      ensures Valid() && OneStepOf(r)
      ensures Nearer(r) && Ends(r)
      ensures old(r.client) == null ==> ClientUntouched() && r !in live && unchanged(keyCache)
      ensures old(r.client) == null && old(r.sweep) != null ==> unchanged(old(r.sweep))
      ensures r in live ==> r.sweep == old(r.sweep)
      ensures old(r.client) != null ==>
                r.sweep != null && r.sweep.State() == BlockReady(old(r.sweep.State()), reply) && ShowsProgress(r)
    {
      if r.client == null {
        CallCompleted(r);
        TagReadFree(r);
      } else {
        SweepReads(r, reply);
      }
    }

    method SweepReads(r: TagRead, reply: Reply)
      requires Valid() && r in live && r.pending == Some(MifareBlock) && r.client != null
      modifies this`tagJson, this`tagIsType2, this`reading, this`live, this`freed, this`notified, r, r.sweep, keyCache
      ensures Valid() && OneStepOf(r) && Nearer(r) && Ends(r)
      ensures r.sweep == old(r.sweep) && r.sweep.State() == BlockReady(old(r.sweep.State()), reply)
      ensures ShowsProgress(r)
    {
      hide Theorems.Valid, Theorems.Budget, BlockReady;
      CallCompleted(r);
      var before := r.sweep.sector;
      ghost var was := r.sweep.State();
      r.sweep.BlockReady(reply);
      SweepMoves(was, r.sweep.State(), reply);
      SweepGoesOn(r, r.sweep.sector != before);
    }
  }

  /** One answer: the sweep stays valid and is nearer to its end. */
  lemma SweepMoves(s: Sweep, t: Sweep, reply: Reply)
    requires Theorems.Valid(s.(cache := map[]))
    requires (s.await == Auth && t == AuthReady(s, reply)) || (s.await == Block && t == BlockReady(s, reply))
    ensures Theorems.Valid(t.(cache := map[]))
    ensures t.await != Finished ==> Theorems.Budget(t.(cache := map[]), true) >= 1
    ensures Theorems.Budget(t.(cache := map[]), true) < Theorems.Budget(s.(cache := map[]), true)
  {
    assert t == Step(s, reply);
    hide Step, AuthReady, BlockReady, Theorems.Budget, Theorems.Valid;
    Theorems.CacheDoesNotMatter(s.(cache := map[]), s.cache);
    assert s.(cache := map[]).(cache := s.cache) == s;
    Theorems.StepSpends(s, reply, true);
    Theorems.CacheDoesNotMatter(t, map[]);
    if t.await != Finished {
      Theorems.BudgetIsPositive(t.(cache := map[]));
    }
  }

  /** A new sweep has at most 616 calls before it and waits for its first authentication. */
  lemma FreshSweep(cache: Cache, uid: Option<string>, s: Sweep)
    requires s == Start(cache, uid)
    ensures Theorems.Valid(s.(cache := map[])) && 1 <= Theorems.Budget(s.(cache := map[]), true) <= 616 && s.await == Auth
  {
    Theorems.StartIsWithinBound(cache, uid);
    hide Start, Theorems.Budget, Theorems.Valid;
    Theorems.CacheDoesNotMatter(s, map[]);
    Theorems.BudgetIsPositive(s.(cache := map[]));
  }

  /** How a completed call came out. */
  datatype Outcome = Outcome(
    ok: bool, info: Option<TagInfo>, record: Option<Record>, data: Option<Bytes>, reply: Reply, wasCancelled: bool)

  /** Hands a completed call to its callback. */
  method Complete(c: NfcdClient, r: TagRead, o: Outcome)
    requires c.Valid() && r in c.live
    requires o.wasCancelled ==> o.reply.Error? && r.cancelled
    modifies c, r, r.sweep, c.keyCache
    ensures c.Valid() && c.OneStepOf(r) && c.Nearer(r) && c.Ends(r)
    ensures r in c.live ==> r.sweep == old(r.sweep) || (r.sweep != null && fresh(r.sweep))
    ensures old(r.client) == null ==> r !in c.live && c.ClientUntouched()
    ensures old(r.client) == null && old(r.sweep) != null ==> unchanged(old(r.sweep))
  {
    match r.pending.value {
      case TagProxy => c.TagProxyReady(r, o.ok);
      case GetAll => c.GetAllReady(r, o.info);
      case NdefProxy => c.NdefProxyReady(r, o.ok);
      case NdefRecord => c.NdefRecordReady(r, o.record);
      case RawProxy => c.RawProxyReady(r, o.ok);
      case RawData => c.RawDataReady(r, o.data);
      case MifareAuth => c.MifareAuthReady(r, o.reply, o.wasCancelled);
      case MifareBlock => c.MifareBlockReady(r, o.reply);
    }
  }

  /**
   Any interleaving at all: tags change, calls complete in any order and with any result, and the
   client may be torn down in the middle. The client's invariant holds throughout, and every read
   ever started is either still live or has been freed, never both: once nothing is outstanding,
   each has been freed exactly once.
   */
  method AnyInterleaving(steps: nat) returns (c: NfcdClient, ghost started: set<TagRead>)
    ensures c.Valid()
    ensures started == c.live + c.freed && c.live !! c.freed
    ensures c.live == {} ==> c.freed == started
  {
    c := new NfcdClient();
    started := {};
    for i := 0 to steps
      invariant c.Valid() && fresh(c) && fresh(c.keyCache) && fresh(c.live)
      invariant forall r :: r in c.live && r.sweep != null ==> fresh(r.sweep)
      invariant started == c.live + c.freed
    {
      var tagsChange: bool, teardown: bool := *, *;
      if tagsChange && c.alive {
        var path: Option<string> := *;
        ghost var before := c.live;
        c.SetCurrentTag(path);
        started := started + (c.live - before);
      } else if teardown && c.alive {
        c.Free();
      } else if c.live != {} {
        var r :| r in c.live;
        var outcome: Outcome := *;
        if outcome.wasCancelled ==> outcome.reply.Error? && r.cancelled {
          ghost var before := c.live;
          Complete(c, r, outcome);
          assert forall o :: o in c.live ==> o in before;
        }
      }
    }
  }

  /** A read waiting for its records, raw contents or sweep has a call to make. */
  lemma StepsArePositive(c: NfcdClient)
    requires c.Valid() && c.reading != null && NfcdClient.Rank(c.reading) == 0
    ensures NfcdClient.Steps(c.reading) >= 1
  {
    hide Theorems.Valid, Theorems.Budget;
    var r := c.reading;
    if r.pending.value in {MifareAuth, MifareBlock} {
      Theorems.BudgetIsPositive(r.sweep.Shape());
    }
  }

  /** An orphan's call completes, with any outcome: the orphan is freed and nothing else happens. */
  method CompleteOrphan(c: NfcdClient, r: TagRead)
    requires c.Valid() && c.reading != r && r in c.live
    modifies c, r, r.sweep, c.keyCache
    ensures c.Valid() && c.reading == old(c.reading)
    ensures c.live == old(c.live) - {r} && c.freed == old(c.freed) + {r}
    ensures c.notified == old(c.notified) && c.tagJson == old(c.tagJson)
    ensures forall o :: o in c.live ==> unchanged(o)
    ensures forall o :: o in c.live ==> NfcdClient.Rank(o) == old(NfcdClient.Rank(o)) && NfcdClient.Steps(o) == old(NfcdClient.Steps(o))
  {
    var outcome: Outcome := *;
    if outcome.wasCancelled && (!outcome.reply.Error? || !r.cancelled) {
      outcome := outcome.(wasCancelled := false);
    }
    Complete(c, r, outcome);
  }

  /** The call of the read in progress completes, with any outcome: it comes nearer to its end or has reached it. */
  method CompleteReading(c: NfcdClient, r: TagRead)
    requires c.Valid() && c.reading == r
    modifies c, r, r.sweep, c.keyCache
    ensures c.Valid() && c.Nearer(r) && c.Ends(r)
    ensures r in c.live ==> c.reading == r && c.live == old(c.live) && c.freed == old(c.freed)
    ensures r !in c.live ==> c.reading == null && c.live == old(c.live) - {r} && c.freed == old(c.freed) + {r}
    ensures r in c.live ==> r.sweep == old(r.sweep) || (r.sweep != null && fresh(r.sweep))
    ensures forall o :: o in c.live && o != r ==> unchanged(o)
  {
    var outcome: Outcome := *;
    outcome := outcome.(wasCancelled := false);
    Complete(c, r, outcome);
  }

  /** Where the read in progress stands after so many of its own completions. */
  ghost predicate Underway(c: NfcdClient, r: TagRead, own: nat, rank: nat, steps: nat, before: Option<TagJson>)
    reads c, r, r.sweep
  {
    if NfcdClient.Rank(r) > 0 then own + NfcdClient.Rank(r) <= rank && c.tagJson == before
    else own + NfcdClient.Steps(r) <= if rank == 0 then steps else rank + NfcdClient.Bound(r)
  }

  /** And what is left of it when it is over. */
  ghost predicate Over(c: NfcdClient, r: TagRead, own: nat, rank: nat, steps: nat, before: Option<TagJson>)
    reads c, r
  {
    && own <= (if rank == 0 then steps else rank + NfcdClient.Bound(r))
    && c.tagJson == if r.tagObj.None? then before else Some(r.tagObj.value.(records := Some(r.records)))
  }

  /** One more of its completions. */
  method CompleteCounted(c: NfcdClient, r: TagRead, ghost own: nat, ghost rank: nat, ghost steps: nat, ghost before: Option<TagJson>)
    requires c.Valid() && c.reading == r && r in c.live && Underway(c, r, own, rank, steps, before)
    modifies c, r, r.sweep, c.keyCache
    ensures c.Valid()
    ensures r in c.live ==> c.reading == r && c.live == old(c.live) && c.freed == old(c.freed)
    ensures r !in c.live ==> c.reading == null && c.live == old(c.live) - {r} && c.freed == old(c.freed) + {r}
    ensures r in c.live ==> r.sweep == old(r.sweep) || (r.sweep != null && fresh(r.sweep))
    ensures forall o :: o in c.live && o != r ==> unchanged(o)
    ensures r in c.live ==> Underway(c, r, own + 1, rank, steps, before)
    ensures r !in c.live ==> Over(c, r, own + 1, rank, steps, before)
    ensures r in c.live ==> NfcdClient.Rank(r) < old(NfcdClient.Rank(r))
                            || (NfcdClient.Rank(r) == old(NfcdClient.Rank(r)) && NfcdClient.Steps(r) < old(NfcdClient.Steps(r)))
  {
    hide NfcdClient.ValidExcept, NfcdClient.Steps;
    if NfcdClient.Rank(r) == 0 {
      StepsArePositive(c);
    }
    ClientOfReading(c);
    CompleteReading(c, r);
  }

  lemma ClientOfReading(c: NfcdClient)
    requires c.Valid() && c.reading != null
    ensures c.reading.client == c
  {
  }

  /**
   The read in progress ends. Whatever its calls bring, if no other tag comes it is freed after at
   most two completions and 616 more for a MIFARE tag, or two for each of its records and two for
   the raw contents; and then its final contents are published, or it never had any.
   */
  method Settle(c: NfcdClient, r: TagRead) returns (completed: nat)
    requires c.Valid() && c.reading == r
    modifies c, r, r.sweep, c.keyCache
    ensures c.Valid() && c.reading == null && c.live == old(c.live) - {r} && c.freed == old(c.freed) + {r}
    ensures completed <= if old(NfcdClient.Rank(r)) == 0 then old(NfcdClient.Steps(r))
                         else old(NfcdClient.Rank(r)) + NfcdClient.Bound(r)
    ensures if r.tagObj.None? then c.tagJson == old(c.tagJson)
            else c.tagJson == Some(r.tagObj.value.(records := Some(r.records)))
  {
    hide NfcdClient.ValidExcept, NfcdClient.Steps, NfcdClient.Rank, Underway, Over;
    ReadingIsKnown(c);
    completed := 0;
    ghost var rank, steps, before := NfcdClient.Rank(r), NfcdClient.Steps(r), c.tagJson;
    UnderwayAtFirst(c, r);
    while r in c.live
      invariant c.Valid()
      invariant r in c.live ==> c.reading == r && c.live == old(c.live) && c.freed == old(c.freed)
      invariant r !in c.live ==> c.reading == null && c.live == old(c.live) - {r} && c.freed == old(c.freed) + {r}
      invariant r in c.live ==> r.sweep == old(r.sweep) || (r.sweep != null && fresh(r.sweep))
      invariant r in c.live ==> Underway(c, r, completed, rank, steps, before)
      invariant r !in c.live ==> Over(c, r, completed, rank, steps, before)
      decreases if r in c.live then 1 else 0, NfcdClient.Rank(r), NfcdClient.Steps(r)
    {
      CompleteCounted(c, r, completed, rank, steps, before);
      completed := completed + 1;
    }
    OverMeans(c, r, completed, rank, steps, before);
  }

  lemma UnderwayAtFirst(c: NfcdClient, r: TagRead)
    ensures Underway(c, r, 0, NfcdClient.Rank(r), NfcdClient.Steps(r), c.tagJson)
  {
    hide NfcdClient.Steps;
  }

  lemma OverMeans(c: NfcdClient, r: TagRead, own: nat, rank: nat, steps: nat, before: Option<TagJson>)
    requires Over(c, r, own, rank, steps, before)
    ensures own <= if rank == 0 then steps else rank + NfcdClient.Bound(r)
    ensures if r.tagObj.None? then c.tagJson == before else c.tagJson == Some(r.tagObj.value.(records := Some(r.records)))
  {
  }

  /**
   Everything ends. From every state the client can be in, with a read in progress or not, the
   outstanding calls complete in any order and with any outcomes while no tag comes or goes: after
   one completion for each orphan and those of the read in progress every read has been freed, each
   once, and what is published is what the read in progress left.
   */
  method Drain(c: NfcdClient) returns (completed: nat)
    requires c.Valid()
    modifies c, c.live, set r | r in c.live && r.sweep != null :: r.sweep
    modifies c.keyCache
    ensures c.Valid() && c.reading == null && c.live == {} && c.freed == old(c.freed) + old(c.live)
    ensures completed <= old(|c.live|) +
      var r := old(c.reading);
      if r == null then 0
      else if old(NfcdClient.Rank(r)) == 0 then old(NfcdClient.Steps(r))
      else old(NfcdClient.Rank(r)) + NfcdClient.Bound(r)
    ensures old(c.reading) == null ==> c.notified == old(c.notified) && c.tagJson == old(c.tagJson)
    ensures old(c.reading) != null ==>
      var r := old(c.reading);
      if r.tagObj.None? then c.tagJson == old(c.tagJson) else c.tagJson == Some(r.tagObj.value.(records := Some(r.records)))
  {
    hide NfcdClient.ValidExcept, NfcdClient.Valid, NfcdClient.Steps, NfcdClient.Rank, NfcdClient.Bound, Underway, Over;
    completed := 0;
    ghost var own, first, before := 0, c.reading, c.tagJson;
    ghost var rank := if first == null then 0 else NfcdClient.Rank(first);
    ghost var steps := if first == null then 0 else NfcdClient.Steps(first);
    ReadingIsKnown(c);
    if first != null {
      UnderwayAtFirst(c, first);
    }
    while c.live != {}
      invariant c.Valid() && c.live <= old(c.live) && c.freed == old(c.freed) + (old(c.live) - c.live)
      invariant if first != null && first in c.live then c.reading == first else c.reading == null
      invariant forall o :: o in c.live ==> o.sweep == old(o.sweep) || (o == first && o.sweep != null && fresh(o.sweep))
      invariant completed + |c.live| <= own + old(|c.live|)
      invariant first == null ==> own == 0 && c.notified == old(c.notified) && c.tagJson == before
      invariant first != null && first in c.live ==> Underway(c, first, own, rank, steps, before)
      invariant first != null && first !in c.live ==> Over(c, first, own, rank, steps, before)
      decreases |c.live|, if first != null && first in c.live then NfcdClient.Rank(first) else 0,
                if first != null && first in c.live then NfcdClient.Steps(first) else 0
    {
      var r :| r in c.live;
      ghost var live, freed := c.live, c.freed;
      OneFreed(old(c.live), live, old(c.freed), freed, r);
      if r == c.reading {
        CompleteCounted(c, r, own, rank, steps, before);
        own := own + 1;
      } else {
        CompleteUncounted(c, r, first, own, rank, steps, before);
      }
      completed := completed + 1;
    }
    if first != null {
      OverMeans(c, first, own, rank, steps, before);
    }
  }

  lemma OneFreed(all: set<TagRead>, live: set<TagRead>, before: set<TagRead>, freed: set<TagRead>, r: TagRead)
    requires live <= all && freed == before + (all - live) && r in live
    ensures freed + {r} == before + (all - (live - {r})) && |live - {r}| == |live| - 1
  {
  }

  /** An orphan's completion leaves the account as it is. */
  method CompleteUncounted(c: NfcdClient, r: TagRead, ghost first: TagRead?, ghost own: nat, ghost rank: nat, ghost steps: nat, ghost before: Option<TagJson>)
    requires c.Valid() && c.reading != r && r in c.live && r != first
    requires first != null && first in c.live ==> Underway(c, first, own, rank, steps, before)
    requires first != null && first !in c.live ==> Over(c, first, own, rank, steps, before)
    modifies c, r, r.sweep, c.keyCache
    ensures c.Valid() && c.reading == old(c.reading)
    ensures c.live == old(c.live) - {r} && c.freed == old(c.freed) + {r}
    ensures c.notified == old(c.notified) && c.tagJson == old(c.tagJson)
    ensures forall o :: o in c.live ==> unchanged(o)
    ensures first != null && first in c.live ==> Underway(c, first, own, rank, steps, before)
    ensures first != null && first !in c.live ==> Over(c, first, own, rank, steps, before)
  {
    hide NfcdClient.ValidExcept, NfcdClient.Rank, NfcdClient.Steps, NfcdClient.Valid;
    CompleteOrphan(c, r);
  }

  lemma ReadingIsKnown(c: NfcdClient)
    requires c.Valid()
    ensures c.reading != null ==> c.reading in c.live
  {
  }
}
