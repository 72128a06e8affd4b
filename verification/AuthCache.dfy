/** The cache of verified `Authorization` headers. Requests, the cleanup task and the clock
    interleave between the sections that hold the cache's lock; each section is one atomic step.
    The cache is exact when no run of it can tell it from plain validation. Times are
    nanoseconds. */
module AuthCache {
  import opened Prelude
  import opened Credentials

  /** Hash of a header value. */
  type Key = nat

  /** Header hash to the instant the entry expires. */
  type Cache = map<Key, nat>

  const SECOND: nat := 1_000_000_000

  // ---- The sections that hold the cache's lock --------------------------------------------

  /** The cache is in use only with a lifetime of at least one whole second. */
  predicate CacheEnabled(ttl: nat) {
    ttl / SECOND > 0
  }

  /** A poisoned lock reads as a miss. */
  predicate IsHit(cache: Cache, poisoned: bool, key: Key, now: nat) {
    !poisoned && key in cache && cache[key] > now
  }

  /** `entry().and_modify()`: an entry that was evicted in the meantime does not come back. */
  function Refreshed(cache: Cache, poisoned: bool, key: Key, expiry: nat): Cache {
    if !poisoned && key in cache then cache[key := expiry] else cache
  }

  function Inserted(cache: Cache, poisoned: bool, key: Key, expiry: nat): Cache {
    if poisoned then cache else cache[key := expiry]
  }

  function Cleaned(cache: Cache, poisoned: bool, now: nat): Cache {
    if poisoned then cache else map k | k in cache && cache[k] > now :: cache[k]
  }

  /** Eviction at one instant changes no lookup from then on. */
  lemma CleanupKeepsHits(cache: Cache, poisoned: bool, key: Key, now: nat, later: nat)
    requires now <= later
    ensures IsHit(Cleaned(cache, poisoned, now), poisoned, key, later) == IsHit(cache, poisoned, key, later)
  {
  }

  /** What `ValidateCached` answers and leaves behind when nothing interrupts it. */
  function Uninterrupted(users: Users, verify: Verifier, ttl: nat, cache: Cache, poisoned: bool,
                         username: string, password: string, key: Key, now: nat, taskFails: bool)
    : (bool, Cache)
  {
    if username !in users then (false, cache)
    else
      match users[username]
      case Plaintext(expected) => (expected == password, cache)
      case Sha512Crypt(hash) =>
        if CacheEnabled(ttl) && IsHit(cache, poisoned, key, now) then
          (true, Refreshed(cache, poisoned, key, now + ttl))
        else
          var ok := !taskFails && verify(password, hash);
          (ok, if ok && CacheEnabled(ttl) then Inserted(cache, poisoned, key, now + ttl) else cache)
  }

  class AuthState {
    const users: Users
    const verify: Verifier
    const ttl: nat
    var cache: Cache
    var poisoned: bool

    constructor (users: Users, verify: Verifier, ttl: nat)
      ensures this.users == users && this.verify == verify && this.ttl == ttl
      ensures cache == map[] && !poisoned
    {
      this.users, this.verify, this.ttl := users, verify, ttl;
      cache, poisoned := map[], false;
    }

    method Lookup(key: Key, now: nat) returns (hit: bool)
      ensures hit == IsHit(cache, poisoned, key, now)
      ensures hit <==> !poisoned && key in cache && now < cache[key]
    {
      if poisoned {
        return false;
      }
      hit := key in cache && cache[key] > now;
    }

    method Refresh(key: Key, expiry: nat)
      modifies `cache
      ensures cache == Refreshed(old(cache), poisoned, key, expiry)
      ensures cache == if poisoned || key !in old(cache) then old(cache) else old(cache)[key := expiry]
    {
      if !poisoned && key in cache {
        cache := cache[key := expiry];
      }
    }

    method Insert(key: Key, expiry: nat)
      modifies `cache
      ensures cache == Inserted(old(cache), poisoned, key, expiry)
      ensures cache == if poisoned then old(cache) else old(cache)[key := expiry]
    {
      if !poisoned {
        cache := cache[key := expiry];
      }
    }

    /** One pass of the cleanup task over the cache: `retain` visits the entries in any order. */
    method Cleanup(now: nat)
      modifies `cache
      ensures cache == Cleaned(old(cache), poisoned, now)
      ensures forall k :: k in cache <==> k in old(cache) && (poisoned || now < old(cache)[k])
      ensures forall k :: k in cache ==> cache[k] == old(cache)[k]
    {
      if poisoned {
        return;
      }
      var left := cache.Keys;
      while left != {}
        invariant left <= cache.Keys <= old(cache.Keys)
        invariant forall k :: k in cache ==> cache[k] == old(cache[k])
        invariant forall k :: k in old(cache) && k !in left ==> (k in cache <==> old(cache[k]) > now)
        decreases |left|
      {
        var k :| k in left;
        left := left - {k};
        if cache[k] <= now {
          cache := cache - {k};
        }
      }
    }

    /** `taskFails` says that the blocking task was cancelled or panicked. */
    method ValidateCached(username: string, password: string, key: Key, now: nat, taskFails: bool)
      returns (ok: bool)
      modifies `cache
      ensures (ok, cache) ==
              Uninterrupted(users, verify, ttl, old(cache), poisoned, username, password, key, now, taskFails)
    {
      if username !in users {
        return false;
      }
      match users[username]
      case Plaintext(expected) =>
        ok := expected == password;
      case Sha512Crypt(hash) =>
        var cacheEnabled := ttl / SECOND > 0;
        var hit := Lookup(key, now);
        if cacheEnabled && hit {
          Refresh(key, now + ttl);
          return true;
        }
        ok := !taskFails && verify(password, hash);
        if ok && cacheEnabled {
          Insert(key, now + ttl);
        }
    }
  }

  // ---- Every interleaving -------------------------------------------------------------------

  /** What is fixed while the server runs. `decode` reads user and password from a header value,
      and `presented` holds the header values that clients send. */
  datatype Config = Config(
    users: Users,
    verify: Verifier,
    key: string -> Key,
    decode: string -> Option<(string, string)>,
    ttl: nat,
    presented: iset<string>
  )

  /** Where a request stands between two sections. `taskFailed` remembers a failed task. */
  datatype Stage =
    | Hit
    | Miss
    | Verified(ok: bool, taskFailed: bool)
    | Answered(ok: bool, taskFailed: bool)

  datatype Session = Session(header: string, stage: Stage)

  datatype State = State(cache: Cache, now: nat, poisoned: bool, sessions: map<nat, Session>)

  /** `at` is the instant from which a request computed the expiry it writes; by the time it has
      the lock that instant may have passed. */
  datatype Event =
    | Tick(elapsed: nat)
    | Poison
    | Cleanup
    | Begin(id: nat, header: string)
    | Refresh(id: nat, at: nat)
    | Verify(id: nat, fails: bool)
    | Store(id: nat, at: nat)

  const INITIAL := State(map[], 0, false, map[])

  /** What the server should answer: with no users configured everyone is let in. */
  predicate Admissible(cfg: Config, header: string) {
    cfg.users == map[] || match cfg.decode(header)
    case None => false
    case Some((username, password)) => Validate(cfg.users, cfg.verify, username, password)
  }

  /** The header names a user whose password is stored as a hash. */
  predicate Hashed(cfg: Config, header: string) {
    match cfg.decode(header)
    case None => false
    case Some((username, _)) => username in cfg.users && cfg.users[username].Sha512Crypt?
  }

  predicate StageIs(s: State, id: nat, stage: Stage) {
    id in s.sessions && s.sessions[id].stage == stage
  }

  ghost predicate Enabled(cfg: Config, s: State, e: Event) {
    match e
    case Begin(id, header) => id !in s.sessions && header in cfg.presented
    case Refresh(id, at) => StageIs(s, id, Hit) && at <= s.now
    case Verify(id, _) => StageIs(s, id, Miss)
    case Store(id, at) => id in s.sessions && s.sessions[id].stage.Verified? && at <= s.now
    case _ => true
  }

  /** The first section of a request: everything up to the end of the cache lookup. */
  function FirstStage(cfg: Config, s: State, header: string): Stage {
    if cfg.users == map[] then Answered(true, false)
    else
      match cfg.decode(header)
      case None => Answered(false, false)
      case Some((username, password)) =>
        if username !in cfg.users then Answered(false, false)
        else
          match cfg.users[username]
          case Plaintext(expected) => Answered(expected == password, false)
          case Sha512Crypt(_) =>
            if CacheEnabled(cfg.ttl) && IsHit(s.cache, s.poisoned, cfg.key(header), s.now) then Hit else Miss
  }

  function VerifyHeader(cfg: Config, header: string): bool
    requires Hashed(cfg, header)
  {
    var (username, password) := cfg.decode(header).value;
    cfg.verify(password, cfg.users[username].hash)
  }

  ghost function Step(cfg: Config, s: State, e: Event): State
    requires Enabled(cfg, s, e)
  {
    match e
    case Tick(elapsed) => s.(now := s.now + elapsed)
    case Poison => s.(poisoned := true)
    case Cleanup => s.(cache := Cleaned(s.cache, s.poisoned, s.now))
    case Begin(id, header) => s.(sessions := s.sessions[id := Session(header, FirstStage(cfg, s, header))])
    case Refresh(id, at) =>
      var header := s.sessions[id].header;
      s.(cache := Refreshed(s.cache, s.poisoned, cfg.key(header), at + cfg.ttl),
         sessions := s.sessions[id := Session(header, Answered(true, false))])
    case Verify(id, fails) =>
      var header := s.sessions[id].header;
      var ok := !fails && Hashed(cfg, header) && VerifyHeader(cfg, header);
      s.(sessions := s.sessions[id := Session(header, Verified(ok, fails))])
    case Store(id, at) =>
      var Session(header, Verified(ok, failed)) := s.sessions[id];
      s.(cache := if ok && CacheEnabled(cfg.ttl)
                  then Inserted(s.cache, s.poisoned, cfg.key(header), at + cfg.ttl) else s.cache,
         sessions := s.sessions[id := Session(header, Answered(ok, failed))])
  }

  ghost predicate Run(cfg: Config, s: State, events: seq<Event>, s': State)
    decreases |events|
  {
    if events == [] then s' == s
    else Enabled(cfg, s, events[0]) && Run(cfg, Step(cfg, s, events[0]), events[1..], s')
  }

  /** An answer is what plain validation gives, except that a failed task refuses. */
  predicate RightAnswer(cfg: Config, header: string, ok: bool, taskFailed: bool) {
    ok == (!taskFailed && Admissible(cfg, header))
  }

  /** No run from the empty cache answers wrongly: every answer is what plain validation gives, or a
      refusal of a request whose own blocking task has failed. */
  ghost predicate AlwaysRight(cfg: Config) {
    forall events, s, id :: Run(cfg, INITIAL, events, s) && id in s.sessions && s.sessions[id].stage.Answered? ==>
      || s.sessions[id].stage.ok == Admissible(cfg, s.sessions[id].header)
      || (!s.sessions[id].stage.ok && Verify(id, true) in events)
  }

  /** `wrong` would be refused by verification, and shares its cache key with `right`. */
  ghost predicate Collides(cfg: Config, right: string, wrong: string) {
    && right in cfg.presented && wrong in cfg.presented && cfg.key(right) == cfg.key(wrong)
    && Hashed(cfg, right) && Admissible(cfg, right)
    && Hashed(cfg, wrong) && !Admissible(cfg, wrong)
  }

  ghost predicate CollisionFree(cfg: Config) {
    forall right, wrong :: !Collides(cfg, right, wrong)
  }

  // ---- The invariant --------------------------------------------------------------------------

  /** The key was put in the cache for this header. */
  ghost predicate CachedFor(cfg: Config, key: Key, header: string) {
    header in cfg.presented && cfg.key(header) == key && Hashed(cfg, header) && Admissible(cfg, header)
  }

  /** Only a lifetime that enables the cache fills it, and only with headers that pass verification. */
  ghost predicate CacheOk(cfg: Config, s: State) {
    forall k :: k in s.cache ==> CacheEnabled(cfg.ttl) && exists h :: CachedFor(cfg, k, h)
  }

  ghost predicate SessionOk(cfg: Config, session: Session) {
    && session.header in cfg.presented
    && match session.stage
       case Hit => Hashed(cfg, session.header) && Admissible(cfg, session.header)
       case Miss => Hashed(cfg, session.header)
       case Verified(ok, failed) => Hashed(cfg, session.header) && RightAnswer(cfg, session.header, ok, failed)
       case Answered(ok, failed) => RightAnswer(cfg, session.header, ok, failed)
  }

  ghost predicate Inv(cfg: Config, s: State) {
    CacheOk(cfg, s) && forall id :: id in s.sessions ==> SessionOk(cfg, s.sessions[id])
  }

  lemma FirstStageOk(cfg: Config, s: State, header: string)
    requires Inv(cfg, s) && header in cfg.presented
    requires CacheEnabled(cfg.ttl) ==> CollisionFree(cfg)
    ensures SessionOk(cfg, Session(header, FirstStage(cfg, s, header)))
  {
    if FirstStage(cfg, s, header).Hit? {
      var right :| CachedFor(cfg, cfg.key(header), right);
      assert !Collides(cfg, right, header);
    }
  }

  lemma StepKeepsInv(cfg: Config, s: State, e: Event)
    requires Inv(cfg, s) && Enabled(cfg, s, e)
    requires CacheEnabled(cfg.ttl) ==> CollisionFree(cfg)
    ensures Inv(cfg, Step(cfg, s, e))
  {
    var next := Step(cfg, s, e);
    match e
    case Begin(_, header) => FirstStageOk(cfg, s, header);
    case Refresh(id, _) =>
      assert SessionOk(cfg, s.sessions[id]);
    case Verify(id, _) =>
      assert SessionOk(cfg, s.sessions[id]);
    case Store(id, _) =>
      var session := s.sessions[id];
      assert SessionOk(cfg, session);
      if session.stage.ok {
        assert CachedFor(cfg, cfg.key(session.header), session.header);
      }
    case _ =>
  }

  lemma {:induction false} RunKeepsInv(cfg: Config, s: State, events: seq<Event>, s': State)
    requires Inv(cfg, s) && Run(cfg, s, events, s')
    requires CacheEnabled(cfg.ttl) ==> CollisionFree(cfg)
    ensures Inv(cfg, s')
    decreases |events|
  {
    if events != [] {
      StepKeepsInv(cfg, s, events[0]);
      RunKeepsInv(cfg, Step(cfg, s, events[0]), events[1..], s');
    }
  }

  /** A collision is reachable: `right` logs in, and `wrong` is let in on its cache entry. */
  lemma CollisionAdmits(cfg: Config, right: string, wrong: string)
    requires CacheEnabled(cfg.ttl) && Collides(cfg, right, wrong)
    ensures !AlwaysRight(cfg)
  {
    var s1 := Step(cfg, INITIAL, Begin(0, right));
    var s2 := Step(cfg, s1, Verify(0, false));
    var s3 := Step(cfg, s2, Store(0, 0));
    assert IsHit(s3.cache, false, cfg.key(wrong), 0);
    var s4 := Step(cfg, s3, Begin(1, wrong));
    var s5 := Step(cfg, s4, Refresh(1, 0));
    assert s5.sessions[1] == Session(wrong, Answered(true, false));
    var last := [Refresh(1, 0)];
    assert Run(cfg, s4, last, s5);
    var fourth := [Begin(1, wrong)] + last;
    assert Run(cfg, s3, fourth, s5);
    var third := [Store(0, 0)] + fourth;
    assert Run(cfg, s2, third, s5);
    var second := [Verify(0, false)] + third;
    assert Run(cfg, s1, second, s5);
    var all := [Begin(0, right)] + second;
    assert Run(cfg, INITIAL, all, s5);
    assert s5.sessions[1].stage.ok && !Admissible(cfg, wrong);
  }

  predicate Failed(s: State, id: nat) {
    id in s.sessions && (s.sessions[id].stage.Verified? || s.sessions[id].stage.Answered?) && s.sessions[id].stage.taskFailed
  }

  /** Only the failure of its own task makes a request count as failed. */
  lemma {:induction false} FailureHasCause(cfg: Config, s: State, events: seq<Event>, s': State, id: nat)
    requires Run(cfg, s, events, s') && Failed(s', id)
    ensures Failed(s, id) || Verify(id, true) in events
    decreases |events|
  {
    if events != [] {
      FailureHasCause(cfg, Step(cfg, s, events[0]), events[1..], s', id);
      if Verify(id, true) !in events[1..] { StepFails(cfg, s, events[0], id); }
    }
  }

  lemma StepFails(cfg: Config, s: State, e: Event, id: nat)
    requires Enabled(cfg, s, e) && Failed(Step(cfg, s, e), id)
    ensures Failed(s, id) || e == Verify(id, true)
  {
  }

  /** The cache refines plain validation, over every interleaving, exactly when its lifetime is less
      than a second or no header that verification refuses shares its key with one that it accepts. */
  lemma CacheIsExactIff(cfg: Config)
    ensures AlwaysRight(cfg) <==> cfg.ttl < 1_000_000_000 || CollisionFree(cfg)
  {
    if !CacheEnabled(cfg.ttl) || CollisionFree(cfg) {
      forall events, s, id | Run(cfg, INITIAL, events, s) && id in s.sessions && s.sessions[id].stage.Answered?
        ensures s.sessions[id].stage.ok == Admissible(cfg, s.sessions[id].header)
                || (!s.sessions[id].stage.ok && Verify(id, true) in events)
      {
        RunKeepsInv(cfg, INITIAL, events, s);
        assert SessionOk(cfg, s.sessions[id]);
        if s.sessions[id].stage.taskFailed { FailureHasCause(cfg, INITIAL, events, s, id); }
      }
    } else {
      var right, wrong :| Collides(cfg, right, wrong);
      CollisionAdmits(cfg, right, wrong);
    }
  }

  /** An injective key has no collision, so the cache is exact whatever its lifetime. */
  lemma InjectiveKeyIsExact(cfg: Config)
    requires forall g, h :: g in cfg.presented && h in cfg.presented && cfg.key(g) == cfg.key(h) ==> g == h
    ensures AlwaysRight(cfg)
  {
    CacheIsExactIff(cfg);
  }

  // ---- Idle entries run out ---------------------------------------------------------------------

  /** The event writes a cache entry under this key. */
  predicate Touches(cfg: Config, s: State, e: Event, key: Key) {
    (e.Refresh? || e.Store?) && e.id in s.sessions && cfg.key(s.sessions[e.id].header) == key
  }

  ghost predicate RunIdle(cfg: Config, s: State, events: seq<Event>, s': State, key: Key)
    decreases |events|
  {
    if events == [] then s' == s
    else
      && Enabled(cfg, s, events[0]) && !Touches(cfg, s, events[0], key)
      && RunIdle(cfg, Step(cfg, s, events[0]), events[1..], s', key)
  }

  predicate ExpiryBounded(cfg: Config, s: State, key: Key) {
    key in s.cache ==> s.cache[key] <= s.now + cfg.ttl
  }

  lemma {:induction false} RunBoundsExpiry(cfg: Config, s: State, events: seq<Event>, s': State, key: Key)
    requires ExpiryBounded(cfg, s, key) && Run(cfg, s, events, s')
    ensures ExpiryBounded(cfg, s', key)
    decreases |events|
  {
    if events != [] {
      RunBoundsExpiry(cfg, Step(cfg, s, events[0]), events[1..], s', key);
    }
  }

  lemma {:induction false} IdleKeepsExpiry(cfg: Config, s: State, events: seq<Event>, s': State, key: Key)
    requires RunIdle(cfg, s, events, s', key)
    ensures key in s'.cache ==> key in s.cache && s'.cache[key] == s.cache[key]
    decreases |events|
  {
    if events != [] {
      var next := Step(cfg, s, events[0]);
      IdleKeepsExpiry(cfg, next, events[1..], s', key);
      assert key in next.cache ==> key in s.cache && next.cache[key] == s.cache[key];
    }
  }

  /** A key that no request has written for a whole lifetime is not hit: it is verified again. */
  lemma IdleKeyMisses(cfg: Config, before: seq<Event>, s: State, idle: seq<Event>, s': State, key: Key)
    requires Run(cfg, INITIAL, before, s) && RunIdle(cfg, s, idle, s', key)
    requires s.now + cfg.ttl <= s'.now
    ensures !IsHit(s'.cache, s'.poisoned, key, s'.now)
  {
    RunBoundsExpiry(cfg, INITIAL, before, s, key);
    IdleKeepsExpiry(cfg, s, idle, s', key);
  }

  /** The event writes this key with the expiry `at + ttl`. */
  ghost predicate Writes(cfg: Config, s: State, e: Event, key: Key) {
    && Enabled(cfg, s, e) && Touches(cfg, s, e, key) && !s.poisoned
    && if e.Refresh? then key in s.cache else s.sessions[e.id].stage.ok && CacheEnabled(cfg.ttl)
  }

  lemma {:induction false} IdleKeepsEntry(cfg: Config, s: State, events: seq<Event>, s': State, key: Key)
    requires RunIdle(cfg, s, events, s', key)
    requires key in s.cache && s.cache[key] > s'.now
    ensures s.now <= s'.now && key in s'.cache
    decreases |events|
  {
    IdleRunsForward(cfg, s, events, s', key);
    if events != [] {
      IdleRunsForward(cfg, Step(cfg, s, events[0]), events[1..], s', key);
      IdleKeepsEntry(cfg, Step(cfg, s, events[0]), events[1..], s', key);
    }
  }

  lemma {:induction false} IdleRunsForward(cfg: Config, s: State, events: seq<Event>, s': State, key: Key)
    requires RunIdle(cfg, s, events, s', key)
    ensures s.now <= s'.now
    decreases |events|
  {
    if events != [] {
      IdleRunsForward(cfg, Step(cfg, s, events[0]), events[1..], s', key);
    }
  }

  /** The lifetime is exact: after a login or a hit writes a key, and until another request does,
      the key hits for exactly the configured lifetime. */
  lemma IdleKeyHitsIff(cfg: Config, s: State, e: Event, idle: seq<Event>, s': State, key: Key)
    requires Writes(cfg, s, e, key) && RunIdle(cfg, Step(cfg, s, e), idle, s', key) && !s'.poisoned
    ensures IsHit(s'.cache, s'.poisoned, key, s'.now) <==> s'.now < e.at + cfg.ttl
    ensures forall h :: Hashed(cfg, h) && cfg.key(h) == key && 1_000_000_000 <= cfg.ttl ==>
              FirstStage(cfg, s', h) == if s'.now < e.at + cfg.ttl then Hit else Miss
  {
    var written := Step(cfg, s, e);
    assert key in written.cache && written.cache[key] == e.at + cfg.ttl;
    IdleKeepsExpiry(cfg, written, idle, s', key);
    if s'.now < e.at + cfg.ttl {
      IdleKeepsEntry(cfg, written, idle, s', key);
    }
  }

  /** Once the cache's lock is poisoned, nothing is hit and nothing is written. */
  lemma PoisonedCacheIsOff(cfg: Config, s: State, header: string, e: Event)
    requires s.poisoned && Hashed(cfg, header) && Enabled(cfg, s, e)
    ensures FirstStage(cfg, s, header) == Miss
    ensures Step(cfg, s, e).cache == s.cache && Step(cfg, s, e).poisoned
  {
  }

  /** For instance: a client logs in and comes back after `elapsed`; it is let in without verification
      exactly within the lifetime. */
  lemma SecondRequest(cfg: Config, header: string, elapsed: nat) returns (events: seq<Event>, s: State)
    requires Hashed(cfg, header) && Admissible(cfg, header) && header in cfg.presented && 1_000_000_000 <= cfg.ttl
    ensures Run(cfg, INITIAL, events, s) && s.now == elapsed && 1 in s.sessions
    ensures s.sessions[1] == Session(header, if elapsed < cfg.ttl then Hit else Miss)
  {
    var s1 := Step(cfg, INITIAL, Begin(0, header));
    var s2 := Step(cfg, s1, Verify(0, false));
    var s3 := Step(cfg, s2, Store(0, 0));
    var s4 := Step(cfg, s3, Tick(elapsed));
    s := Step(cfg, s4, Begin(1, header));
    RunOne(cfg, s4, Begin(1, header));
    RunFirst(cfg, s3, Tick(elapsed), [Begin(1, header)], s);
    RunFirst(cfg, s2, Store(0, 0), [Tick(elapsed)] + [Begin(1, header)], s);
    RunFirst(cfg, s1, Verify(0, false), [Store(0, 0)] + ([Tick(elapsed)] + [Begin(1, header)]), s);
    events := [Begin(0, header)] + ([Verify(0, false)] + ([Store(0, 0)] + ([Tick(elapsed)] + [Begin(1, header)])));
    RunFirst(cfg, INITIAL, Begin(0, header), [Verify(0, false)] + ([Store(0, 0)] + ([Tick(elapsed)] + [Begin(1, header)])), s);
  }

  lemma RunOne(cfg: Config, s: State, e: Event)
    requires Enabled(cfg, s, e)
    ensures Run(cfg, s, [e], Step(cfg, s, e))
  {
    assert [e][1..] == [];
  }

  lemma RunFirst(cfg: Config, s: State, e: Event, rest: seq<Event>, s': State)
    requires Enabled(cfg, s, e) && Run(cfg, Step(cfg, s, e), rest, s')
    ensures Run(cfg, s, [e] + rest, s')
  {
    assert ([e] + rest)[1..] == rest;
  }

  /** The events of one request that nothing interrupts. */
  function OwnEvents(cfg: Config, s: State, id: nat, header: string, fails: bool): seq<Event> {
    match FirstStage(cfg, s, header)
    case Hit => [Begin(id, header)] + [Refresh(id, s.now)]
    case Miss => [Begin(id, header)] + ([Verify(id, fails)] + [Store(id, s.now)])
    case _ => [Begin(id, header)]
  }

  /** The state after them. */
  ghost predicate Finished(cfg: Config, s: State, id: nat, header: string, fails: bool, s': State)
    requires cfg.decode(header).Some?
  {
    && s'.now == s.now && s'.poisoned == s.poisoned
    && id in s'.sessions && s'.sessions[id].stage.Answered?
    && var (username, password) := cfg.decode(header).value;
       (s'.sessions[id].stage.ok, s'.cache) ==
       Uninterrupted(cfg.users, cfg.verify, cfg.ttl, s.cache, s.poisoned, username, password,
                     cfg.key(header), s.now, fails)
  }

  /** The steps of one request, taken back to back, are the method. */
  lemma UninterruptedRun(cfg: Config, s: State, id: nat, header: string, fails: bool) returns (s': State)
    requires id !in s.sessions && header in cfg.presented
    requires cfg.decode(header).Some? && cfg.users != map[]
    ensures Run(cfg, s, OwnEvents(cfg, s, id, header, fails), s')
    ensures Finished(cfg, s, id, header, fails, s')
  {
    var s1 := Step(cfg, s, Begin(id, header));
    match FirstStage(cfg, s, header)
    case Hit =>
      s' := Step(cfg, s1, Refresh(id, s.now));
      RunOne(cfg, s1, Refresh(id, s.now));
      RunFirst(cfg, s, Begin(id, header), [Refresh(id, s.now)], s');
    case Miss =>
      var s2 := Step(cfg, s1, Verify(id, fails));
      s' := Step(cfg, s2, Store(id, s.now));
      RunOne(cfg, s2, Store(id, s.now));
      RunFirst(cfg, s1, Verify(id, fails), [Store(id, s.now)], s');
      RunFirst(cfg, s, Begin(id, header), [Verify(id, fails)] + [Store(id, s.now)], s');
    case _ =>
      s' := s1;
      RunOne(cfg, s, Begin(id, header));
  }
}
