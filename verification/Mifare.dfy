/** The MIFARE Classic sector sweep: keys tried sector by sector, blocks read, keys remembered per tag. */
module Mifare {
  import opened ByteStrings

  const NUM_SECTORS := 40

  type Key = Bytes

  /** Factory default, application directory, NDEF, blank. */
  const DEFAULT_KEYS: seq<Key> := [
    [0xFF, 0xFF, 0xFF, 0xFF, 0xFF, 0xFF],
    [0xA0, 0xA1, 0xA2, 0xA3, 0xA4, 0xA5],
    [0xD3, 0xF7, 0xD3, 0xF7, 0xD3, 0xF7],
    [0x00, 0x00, 0x00, 0x00, 0x00, 0x00]]

  function FirstBlock(sector: nat): nat {
    if sector < 32 then sector * 4 else 128 + (sector - 32) * 16
  }

  function BlockCount(sector: nat): (n: nat)
    ensures n >= 1
  {
    if sector < 32 then 4 else 16
  }

  function Left(sector: nat): nat {
    if sector < NUM_SECTORS then NUM_SECTORS - sector else 0
  }

  /** Keys that worked before, by tag UID and sector. */
  type Cache = map<string, map<nat, Key>>

  function Lookup(cache: Cache, uid: Option<string>, sector: nat): Option<Key> {
    if uid.None? || uid.value !in cache || sector !in cache[uid.value] then None
    else Some(cache[uid.value][sector])
  }

  function Store(cache: Cache, uid: Option<string>, sector: nat, key: Key): Cache {
    if uid.None? then cache
    else
      var entry: map<nat, Key> := if uid.value in cache then cache[uid.value] else map[];
      cache[uid.value := entry[sector := key]]
  }

  datatype Report = Report(sector: nat, key: Key, blocks: seq<Bytes>)

  /** The call the sweep is waiting for. */
  datatype Await = Auth | Block | Finished

  datatype Sweep = Sweep(
    uid: Option<string>, cache: Cache,
    sector: nat, keyIndex: nat, cachedAttempt: bool, key: Key,
    blockOffset: nat, blocks: seq<Bytes>,
    reports: seq<Report>, published: seq<Report>,
    await: Await)

  /** What a transceive brings back: an error or some bytes. */
  datatype Reply = Error | Data(bytes: Bytes)

  function Start(cache: Cache, uid: Option<string>): Sweep {
    NextSector(Sweep(uid, cache, 0, 0, false, [], 0, [], [], [], Finished))
  }

  function NextSector(s: Sweep): Sweep
    decreases Left(s.sector), 1
  {
    var s := s.(published := s.reports);
    if s.sector >= NUM_SECTORS then s.(await := Finished)
    else
      match Lookup(s.cache, s.uid, s.sector)
      case Some(k) => s.(keyIndex := 0, cachedAttempt := true, key := k, await := Auth)
      case None => TryKey(s.(keyIndex := 0, cachedAttempt := false))
  }

  function TryKey(s: Sweep): Sweep
    decreases Left(s.sector), if s.keyIndex < |DEFAULT_KEYS| then 0 else 2
  {
    if s.keyIndex < |DEFAULT_KEYS| then s.(key := DEFAULT_KEYS[s.keyIndex], await := Auth)
    else NextSector(s.(sector := s.sector + 1))
  }

  /** A failed attempt: after a cached key start over with the defaults, else go to the next one. */
  function KeyFailed(s: Sweep): Sweep {
    if s.cachedAttempt then TryKey(s.(cachedAttempt := false)) else TryKey(s.(keyIndex := s.keyIndex + 1))
  }

  /** The sector's report is filed, its key remembered, and the sweep moves on to the next number. */
  function Recorded(s: Sweep): Sweep {
    s.(reports := s.reports + [Report(s.sector, s.key, s.blocks)], blocks := [],
       cache := Store(s.cache, s.uid, s.sector, s.key), sector := s.sector + 1)
  }

  function SectorDone(s: Sweep): Sweep {
    NextSector(Recorded(s))
  }

  function AuthReady(s: Sweep, reply: Reply): Sweep {
    if reply.Error? then KeyFailed(s) else s.(blockOffset := 0, blocks := [], await := Block)
  }

  function BlockReady(s: Sweep, reply: Reply): Sweep {
    if reply.Data? && |reply.bytes| == 16 then
      var s := s.(blocks := s.blocks + [reply.bytes], blockOffset := s.blockOffset + 1);
      if s.blockOffset >= BlockCount(s.sector) then SectorDone(s) else s
    else if s.blockOffset == 0 then KeyFailed(s.(blocks := []))
    else SectorDone(s)
  }

  /** The bytes of the outstanding call: authentication with key A in its fixed places, or a plain READ. */
  function Command(s: Sweep): Bytes {
    if s.await == Auth then [0x60, FirstBlock(s.sector) % 0x100, 0, 0, 0, 0] + s.key
    else [0x30, (FirstBlock(s.sector) + s.blockOffset) % 0x100]
  }

  function Step(s: Sweep, reply: Reply): Sweep {
    match s.await
    case Auth => AuthReady(s, reply)
    case Block => BlockReady(s, reply)
    case Finished => s
  }

  function Run(s: Sweep, replies: seq<Reply>): Sweep
    decreases |replies|
  {
    if replies == [] then s else Run(Step(s, replies[0]), replies[1..])
  }
}
