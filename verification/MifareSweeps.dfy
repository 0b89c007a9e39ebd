/** The sweep as the object its callbacks work on. */
module MifareSweeps {
  import opened ByteStrings
  import opened Mifare

  /** The client's hash table of keys. */
  class KeyCache {
    var entries: Cache

    constructor ()
      ensures entries == map[]
    {
      entries := map[];
    }
  }

  class SectorSweep {
    const cache: KeyCache
    const uid: Option<string>
    var sector: nat
    var keyIndex: nat
    var cachedAttempt: bool
    var key: Key
    var blockOffset: nat
    var blocks: seq<Bytes>
    var reports: seq<Report>
    var published: seq<Report>
    var await: Await

    constructor (cache: KeyCache, uid: Option<string>)
      ensures this.cache == cache && this.uid == uid
      ensures State() == Mifare.Start(cache.entries, uid)
    {
      this.cache, this.uid := cache, uid;
      sector, keyIndex, cachedAttempt, key := 0, 0, false, [];
      blockOffset, blocks, reports, published := 0, [], [], [];
      await := Finished;
      new;
      NextSector();
    }

    ghost function State(): Sweep
      reads this, cache
    {
      Sweep(uid, cache.entries, sector, keyIndex, cachedAttempt, key, blockOffset, blocks, reports, published, await)
    }

    /** The same without the cache, which is shared. */
    ghost function Shape(): Sweep
      reads this
    {
      Sweep(uid, map[], sector, keyIndex, cachedAttempt, key, blockOffset, blocks, reports, published, await)
    }

    method NextSector()
      modifies this
      ensures State() == Mifare.NextSector(old(State()))
      decreases Left(sector), 1
    {
      published := reports;
      if sector >= NUM_SECTORS {
        await := Finished;
        return;
      }
      keyIndex, cachedAttempt := 0, false;
      var tried := TryCachedKey();
      if !tried {
        TryKey();
      }
    }

    method TryCachedKey() returns (tried: bool)
      modifies this
      ensures tried <==> Lookup(cache.entries, uid, sector).Some?
      ensures State() == if tried then old(State()).(cachedAttempt := true, await := Auth,
                                                     key := Lookup(cache.entries, uid, sector).value)
                         else old(State())
    {
      var found := Lookup(cache.entries, uid, sector);
      if found.None? {
        return false;
      }
      cachedAttempt := true;
      SendAuth(found.value);
      return true;
    }

    method SendAuth(k: Key)
      modifies this
      ensures State() == old(State()).(key := k, await := Auth)
    {
      key, await := k, Auth;
    }

    /** The bytes the outstanding call sends. */
    method Command() returns (cmd: Bytes)
      ensures cmd == Mifare.Command(State())
    {
      if await == Auth {
        var head: Bytes := [0x60, FirstBlock(sector) % 0x100];
        cmd := head + Zeros(4) + key;
      } else {
        cmd := [0x30, (FirstBlock(sector) + blockOffset) % 0x100];
      }
    }

    method TryKey()
      modifies this
      ensures State() == Mifare.TryKey(old(State()))
      decreases Left(sector), if keyIndex < |DEFAULT_KEYS| then 0 else 2
    {
      if keyIndex >= |DEFAULT_KEYS| {
        sector := sector + 1;
        NextSector();
        return;
      }
      SendAuth(DEFAULT_KEYS[keyIndex]);
    }

    method AuthReady(reply: Reply)
      modifies this
      ensures State() == Mifare.AuthReady(old(State()), reply)
    {
      if reply.Error? {
        if cachedAttempt {
          cachedAttempt := false;
        } else {
          keyIndex := keyIndex + 1;
        }
        TryKey();
        return;
      }
      blockOffset, blocks, await := 0, [], Block;
    }

    method BlockReady(reply: Reply)
      modifies this, cache
      ensures State() == Mifare.BlockReady(old(State()), reply)
    {
      if reply.Data? && |reply.bytes| == 16 {
        blocks := blocks + [reply.bytes];
        blockOffset := blockOffset + 1;
        if blockOffset >= BlockCount(sector) {
          SectorDone();
        }
        return;
      }
      if blockOffset == 0 {
        blocks := [];
        if cachedAttempt {
          cachedAttempt := false;
        } else {
          keyIndex := keyIndex + 1;
        }
        TryKey();
      } else {
        SectorDone();
      }
    }

    method SectorDone()
      modifies this, cache
      ensures State() == Mifare.SectorDone(old(State()))
    {
      reports := reports + [Report(sector, key, blocks)];
      blocks := [];
      cache.entries := Store(cache.entries, uid, sector, key);
      sector := sector + 1;
      NextSector();
    }
  }
}
