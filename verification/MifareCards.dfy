/** A card that is spoken to in bytes: what the sweep sends is what it means, and the card reports what it holds. */
module MifareCards {
  import opened ByteStrings
  import opened Mifare
  import opened MifareCache
  import opened MifareTheorems

  /** Which sector a block belongs to: thirty-two of four blocks, then eight of sixteen. */
  function SectorOf(block: nat): nat {
    if block < 32 * 4 then block / 4 else 32 + (block - 32 * 4) / 16
  }

  /** What the card remembers: the sector last authenticated, and with which key. */
  datatype Login = Nobody | As(sector: nat, key: Key)

  datatype Response = Response(reply: Reply, login: Login)

  /**
   Twelve bytes are an authentication with key A, the key in the last six; two are a READ, which is
   answered inside the sector that is logged in, if its key really opens it.
   */
  function Respond(tag: Tag, login: Login, cmd: Bytes): Response {
    if |cmd| == 12 && cmd[0] == 0x60 then
      var sector, key := SectorOf(cmd[1]), cmd[6..];
      if tag.clean(sector, key) then Response(Data([]), As(sector, key)) else Response(Error, Nobody)
    else if |cmd| == 2 && cmd[0] == 0x30 then
      if login.As? && login.sector == SectorOf(cmd[1]) && tag.opens(login.sector, login.key)
      then Response(tag.data(cmd[1]), login) else Response(Error, login)
    else Response(Error, login)
  }

  /** The sweep and the card, between two exchanges: while blocks are read the card is logged in for them. */
  ghost predicate Together(s: Sweep, login: Login) {
    && Valid(s) && UsesDefaults(s)
    && (s.await == Block ==> login == As(s.sector, s.key))
  }

  lemma BlockIsInSector(sector: nat, offset: nat)
    requires sector < NUM_SECTORS
    ensures 0 < BlockCount(sector)
    ensures offset < BlockCount(sector) ==> FirstBlock(sector) + offset < 0x100 && SectorOf(FirstBlock(sector) + offset) == sector
  {
  }

  lemma DefaultsAreSixBytes(key: Key)
    requires key in DEFAULT_KEYS
    ensures |key| == 6
  {
  }

  lemma TogetherFacts(s: Sweep, login: Login)
    requires Together(s, login)
    ensures Valid(s) && UsesDefaults(s)
    ensures s.await != Finished ==> s.sector < NUM_SECTORS && |s.key| == 6
    ensures s.await == Block ==> s.blockOffset < BlockCount(s.sector) && login == As(s.sector, s.key)
  {
    hide Shaped, HoldsDefaults;
    if s.await != Finished {
      DefaultsAreSixBytes(s.key);
    }
  }

  lemma LoginIsUnderstood(tag: Tag, s: Sweep, login: Login)
    requires s.sector < NUM_SECTORS && |s.key| == 6 && s.await == Auth
    ensures var r := Respond(tag, login, Command(s));
      r.reply == Answer(tag, s) && (r.reply.Data? ==> r.login == As(s.sector, s.key))
  {
    hide FirstBlock, SectorOf, BlockCount;
    BlockIsInSector(s.sector, 0);
    var cmd := [0x60, FirstBlock(s.sector) as Byte, 0, 0, 0, 0] + s.key;
    assert cmd == Command(s) && cmd[6..] == s.key;
  }

  lemma ReadIsUnderstood(tag: Tag, s: Sweep)
    requires s.sector < NUM_SECTORS && s.blockOffset < BlockCount(s.sector) && s.await == Block
    ensures var r := Respond(tag, As(s.sector, s.key), Command(s));
      r.reply == Answer(tag, s) && r.login == As(s.sector, s.key)
  {
    hide FirstBlock, SectorOf, BlockCount;
    BlockIsInSector(s.sector, s.blockOffset);
  }

  /** The card takes every command for what the sweep means by it. */
  lemma CommandIsUnderstood(tag: Tag, s: Sweep, login: Login)
    requires Together(s, login) && s.await != Finished
    ensures var r := Respond(tag, login, Command(s));
      r.reply == Answer(tag, s) && (r.reply.Data? ==> r.login == As(s.sector, s.key))
  {
    hide Together, Respond, Command, Answer;
    TogetherFacts(s, login);
    if s.await == Auth {
      LoginIsUnderstood(tag, s, login);
    } else {
      ReadIsUnderstood(tag, s);
    }
  }

  /** Only a clean authentication or another block of the same sector makes the sweep wait for a block. */
  lemma WaitsForBlock(s: Sweep, reply: Reply)
    requires Valid(s) && s.await != Finished && Step(s, reply).await == Block
    ensures reply.Data? && Step(s, reply).sector == s.sector && Step(s, reply).key == s.key
  {
    hide NextSector;
    NeverABlockNext(s);
    NeverABlockNext(Recorded(s));
    NeverABlockNext(s.(sector := s.sector + 1, keyIndex := s.keyIndex + 1));
    if s.await == Block {
      NeverABlock(s.(blocks := []));
      if reply.Data? {
        NeverABlockNext(Recorded(s.(blocks := s.blocks + [reply.bytes], blockOffset := s.blockOffset + 1)));
      }
    } else {
      NeverABlock(s);
    }
  }

  lemma NeverABlockNext(s: Sweep)
    ensures NextSector(s).await != Block
  {
  }

  lemma NeverABlock(s: Sweep)
    ensures KeyFailed(s).await != Block
  {
    NeverABlockNext(s.(cachedAttempt := false, sector := s.sector + 1));
    NeverABlockNext(s.(keyIndex := s.keyIndex + 1, sector := s.sector + 1));
    hide NextSector;
  }

  /** One exchange in bytes is one step of the sweep with the tag's answer, and both stay together. */
  lemma ExchangeIsStep(tag: Tag, s: Sweep, login: Login)
    requires Together(s, login) && s.await != Finished
    ensures var r := Respond(tag, login, Command(s));
      r.reply == Answer(tag, s) && Together(Step(s, r.reply), r.login)
  {
    hide Valid, UsesDefaults, Step, Respond;
    CommandIsUnderstood(tag, s, login);
    var r := Respond(tag, login, Command(s));
    StepIsValid(s, r.reply);
    StepUsesDefaults(s, r.reply);
    if Step(s, r.reply).await == Block {
      WaitsForBlock(s, r.reply);
    }
  }

  /** A sweep of the card to its end, command by command. */
  function Swept(tag: Tag, s: Sweep, login: Login): Sweep
    requires Together(s, login)
    decreases Budget(s, true)
  {
    if s.await == Finished then s
    else
      ExchangeIsStep(tag, s, login);
      StepSpends(s, Answer(tag, s), true);
      var r := Respond(tag, login, Command(s));
      Swept(tag, Step(s, r.reply), r.login)
  }

  lemma {:induction false} SweptIsComplete(tag: Tag, s: Sweep, login: Login)
    requires Together(s, login)
    ensures Swept(tag, s, login) == Complete(tag, s)
    decreases Budget(s, true)
  {
    hide Step, Together, Respond, Command, Answer, Budget, Valid;
    TogetherFacts(s, login);
    if s.await != Finished {
      ExchangeIsStep(tag, s, login);
      StepSpends(s, Answer(tag, s), true);
      var r := Respond(tag, login, Command(s));
      SweptIsComplete(tag, Step(s, r.reply), r.login);
    }
  }

  /** From every reachable cache a card that is spoken to in bytes is reported as it is: sector by sector, key and blocks. */
  lemma CardIsReported(tag: Tag, taps: seq<Tap>, uid: Option<string>)
    ensures var s := Start(CacheAfter(taps), uid);
      Together(s, Nobody) && Swept(tag, s, Nobody).reports == Expected(tag, CacheAfter(taps), uid, 0)
  {
    hide Complete, Expected, Valid, UsesDefaults;
    var cache := CacheAfter(taps);
    var blank := Sweep(uid, cache, 0, 0, false, [], 0, [], [], [], Finished);
    ReachableCachesHoldDefaults(taps);
    NextSectorUsesDefaults(blank);
    NeverABlockNext(blank);
    SweepReportsTag(tag, cache, uid);
    SweptIsComplete(tag, Start(cache, uid), Nobody);
  }
}
