/** The critical sections of LOCK and UNLOCK (sections 9.10 and 9.11 of RFC 4918) and of the
    periodic cleanup. Each function is what one section does to the store while the write
    guard is held; class `LockTable` runs the same sections in place. */
module LockHandlers {
  import opened Prelude
  import opened Paths
  import opened Locks

  /** What a LOCK request asks for, after its headers and body have been read. */
  datatype LockRequest = LockRequest(
    target: Path,
    scope: LockScope,
    owner: Option<string>,
    timeout: Option<nat>,
    depth: Depth,
    tokens: seq<Token>
  )

  function NewLock(req: LockRequest, token: Token, now: nat): LockInfo {
    LockInfo(req.scope, token, req.owner, now, req.timeout, req.depth)
  }

  // ---- Refreshing an ancestor's lock --------------------------------------------------

  predicate Refreshable(l: LockInfo, tokens: seq<Token>, now: nat) {
    l.depth.Infinity? && !l.IsExpired(now) && l.token in tokens
  }

  /** The first refreshable lock of a proper ancestor `at.0` of the target. */
  predicate IsHit(store: LockStore, target: Path, tokens: seq<Token>, now: nat, at: (Path, nat)) {
    && at.0 in store && at.0 < target
    && at.1 < |store[at.0]| && Refreshable(store[at.0][at.1], tokens, now)
    && forall j :: 0 <= j < at.1 ==> !Refreshable(store[at.0][j], tokens, now)
  }

  predicate NoneRefreshable(store: LockStore, p: Path, tokens: seq<Token>, now: nat) {
    p in store ==> forall l :: l in store[p] ==> !Refreshable(l, tokens, now)
  }

  /** What the search over the store may find. The store is a hash map without an order, so
      any ancestor that has a hit may be the one found; it reports none only if there is none. */
  ghost predicate IsSearchResult(store: LockStore, target: Path, tokens: seq<Token>, now: nat, hit: Option<(Path, nat)>) {
    match hit
    case Some(at) => IsHit(store, target, tokens, now, at)
    case None =>
      forall p :: p in store && p < target ==>
        NoneRefreshable(store, p, tokens, now)
  }

  function RefreshedLock(store: LockStore, at: (Path, nat), now: nat): LockInfo
    requires at.0 in store && at.1 < |store[at.0]|
  {
    store[at.0][at.1].(created := now)
  }

  function Refreshed(store: LockStore, at: (Path, nat), now: nat): LockStore
    requires at.0 in store && at.1 < |store[at.0]|
  {
    store[at.0 := store[at.0][at.1 := RefreshedLock(store, at, now)]]
  }

  // ---- The first section of LOCK ------------------------------------------------------

  /** `check_existing_exclusive`. */
  function CheckExistingExclusive(entry: seq<LockInfo>, tokens: seq<Token>, now: nat): (r: Result<Option<Token>, StatusCode>)
    ensures r == Success(None) <==> forall l :: l in entry && l.IsExclusive() ==> l.IsExpired(now)
    ensures r.Failure? ==> r.error == LOCKED
    ensures r.Success? && r.value.Some? ==> r.value.value in tokens
    ensures r.Success? && r.value.Some? ==>
              exists l :: l in entry && l.IsExclusive() && !l.IsExpired(now) && l.token == r.value.value
    ensures r.Failure? ==>
              exists l :: l in entry && l.IsExclusive() && !l.IsExpired(now) && l.token !in tokens
  {
    if entry == [] then Success(None)
    else if entry[0].IsExclusive() && !entry[0].IsExpired(now) then
      if entry[0].token in tokens then Success(Some(entry[0].token)) else Failure(LOCKED)
    else
      var rest := CheckExistingExclusive(entry[1..], tokens, now);
      assert entry == [entry[0]] + entry[1..];
      rest
  }

  datatype TryAcquire =
    | Acquired(entry: seq<LockInfo>, token: Token)
    | NeedsLockNull

  /** `try_new_exclusive`. */
  function TryNewExclusive(entry: seq<LockInfo>, tokens: seq<Token>, newToken: Token): Result<TryAcquire, StatusCode> {
    if entry == [] then Success(NeedsLockNull)
    else if forall l :: l in entry ==> l.token in tokens then Success(Acquired([], newToken))
    else Failure(LOCKED)
  }

  /** The first lock whose token is presented. */
  function FindPresented(entry: seq<LockInfo>, tokens: seq<Token>): (r: Option<LockInfo>)
    ensures r.Some? ==> r.value in entry && r.value.token in tokens
    ensures r.None? ==> forall l :: l in entry ==> l.token !in tokens
  {
    if entry == [] then None
    else if entry[0].token in tokens then Some(entry[0])
    else FindPresented(entry[1..], tokens)
  }

  function WithoutToken(entry: seq<LockInfo>, token: Token): (r: seq<LockInfo>)
    ensures forall l :: l in r <==> l in entry && l.token != token
    ensures |r| <= |entry|
  {
    Filter(entry, (l: LockInfo) => l.token != token)
  }

  /** `try_new_shared`. */
  function TryNewShared(entry: seq<LockInfo>, tokens: seq<Token>, newToken: Token): Result<TryAcquire, StatusCode> {
    match FindPresented(entry, tokens)
    case Some(existing) => Success(Acquired(WithoutToken(entry, existing.token), existing.token))
    case None =>
      if entry == [] then Success(NeedsLockNull) else Success(Acquired(entry, newToken))
  }

  function WithoutExclusive(entry: seq<LockInfo>): (r: seq<LockInfo>)
    ensures forall l :: l in r <==> l in entry && !l.IsExclusive()
  {
    Filter(entry, (l: LockInfo) => !l.IsExclusive())
  }

  /** The decision at the target itself: which locks stay and under which token the new lock
      is pushed. */
  function Decide(entry: seq<LockInfo>, req: LockRequest, now: nat, newToken: Token): Result<TryAcquire, StatusCode> {
    match CheckExistingExclusive(entry, req.tokens, now)
    case Failure(status) => Failure(status)
    case Success(Some(token)) =>
      Success(Acquired(WithoutExclusive(entry), if req.scope.Exclusive? then token else newToken))
    case Success(None) =>
      if req.scope.Exclusive? then TryNewExclusive(entry, req.tokens, newToken)
      else TryNewShared(entry, req.tokens, newToken)
  }

  datatype LockOutcome =
    | Granted(lock: LockInfo)
    | Refused(status: StatusCode)
    | CreateLockNull

  /** Everything LOCK does under its first write guard. */
  function LockSection(store: LockStore, req: LockRequest, hit: Option<(Path, nat)>, now: nat, newToken: Token): (LockStore, LockOutcome)
    requires hit.Some? ==> IsHit(store, req.target, req.tokens, now, hit.value)
  {
    match hit
    case Some(at) => (Refreshed(store, at, now), Granted(RefreshedLock(store, at, now)))
    case None =>
      var entry := LocksAt(store, req.target);
      match Decide(entry, req, now, newToken)
      case Failure(status) => (store[req.target := entry], Refused(status))
      case Success(NeedsLockNull) => (store[req.target := entry], CreateLockNull)
      case Success(Acquired(kept, token)) =>
        var lock := NewLock(req, token, now);
        (store[req.target := kept + [lock]], Granted(lock))
  }

  /** The second section of LOCK, after the lock-null file has been created. */
  function CommitSection(store: LockStore, req: LockRequest, now: nat, newToken: Token): (LockStore, LockOutcome) {
    var entry := LocksAt(store, req.target);
    if entry != [] then (store[req.target := entry], Refused(LOCKED))
    else
      var lock := NewLock(req, newToken, now);
      (store[req.target := [lock]], Granted(lock))
  }

  /** UNLOCK. */
  function UnlockSection(store: LockStore, path: Path, token: Token): (LockStore, StatusCode) {
    if path !in store then (store, FORBIDDEN)
    else
      var kept := WithoutToken(store[path], token);
      (store[path := kept], if |kept| < |store[path]| then NO_CONTENT else FORBIDDEN)
  }

  /** The cleanup task's pass over the store: expired locks go, and entries left empty go. */
  function CleanupSection(store: LockStore, now: nat): (r: LockStore)
    ensures forall p :: p in r <==> p in store && exists l :: l in store[p] && !l.IsExpired(now)
    ensures forall p :: p in r ==> r[p] == Active(store[p], now)
  {
    var r := map p | p in store && Active(store[p], now) != [] :: Active(store[p], now);
    assert forall p :: p in store ==> (Active(store[p], now) != [] <==> exists l :: l in store[p] && !l.IsExpired(now)) by {
      forall p | p in store
        ensures Active(store[p], now) != [] <==> exists l :: l in store[p] && !l.IsExpired(now)
      {
        NoneActive(store[p], now);
      }
    }
    r
  }

  predicate CanonicalKeys(store: LockStore) {
    forall p :: p in store ==> Canonical(p)
  }

  predicate HoldsActiveInfinity(entry: seq<LockInfo>, now: nat) {
    exists l :: l in entry && l.depth.Infinity? && !l.IsExpired(now)
  }

  /** The first pass of `find_and_refresh_ancestor_lock`: the ancestors of the target that hold
      an active infinity lock. `order` is the hash map's iteration order. */
  method Candidates(store: LockStore, order: seq<Path>, target: Path, now: nat) returns (r: seq<Path>)
    requires CanonicalKeys(store) && Canonical(target)
    ensures forall p :: p in r <==>
              p in order && p in store && HoldsActiveInfinity(store[p], now) && p < target
  {
    r := [];
    for k := 0 to |order|
      invariant forall p :: p in r <==>
                  p in order[..k] && p in store && HoldsActiveInfinity(store[p], now) && p < target
    {
      if order[k] in store && HoldsActiveInfinity(store[order[k]], now) {
        var above := TestAncestor(order[k], target);
        if above { r := r + [order[k]]; }
      }
    }
  }

  /** The second pass, over the locks of one candidate. */
  method FirstRefreshable(entry: seq<LockInfo>, tokens: seq<Token>, now: nat) returns (r: Option<nat>)
    ensures r.Some? ==> r.value < |entry| && Refreshable(entry[r.value], tokens, now)
    ensures r.Some? ==> forall j :: 0 <= j < r.value ==> !Refreshable(entry[j], tokens, now)
    ensures r.None? ==> forall l :: l in entry ==> !Refreshable(l, tokens, now)
  {
    for i := 0 to |entry|
      invariant forall j :: 0 <= j < i ==> !Refreshable(entry[j], tokens, now)
    {
      var lock := entry[i];
      if lock.depth.Infinity? && !lock.IsExpired(now) && lock.token in tokens { return Some(i); }
    }
    return None;
  }

  /** The search of `find_and_refresh_ancestor_lock`, candidate by candidate. */
  method SearchAncestors(store: LockStore, order: seq<Path>, target: Path, tokens: seq<Token>, now: nat)
    returns (hit: Option<(Path, nat)>)
    requires forall p :: p in store <==> p in order
    requires CanonicalKeys(store) && Canonical(target)
    ensures IsSearchResult(store, target, tokens, now, hit)
  {
    var candidates := Candidates(store, order, target, now);
    for k := 0 to |candidates|
      invariant forall m :: 0 <= m < k ==> NoneRefreshable(store, candidates[m], tokens, now)
    {
      var path := candidates[k];
      assert path in candidates;
      var found := FirstRefreshable(store[path], tokens, now);
      if found.Some? {
        return Some((path, found.value));
      }
    }
    forall p | p in store && p < target
      ensures NoneRefreshable(store, p, tokens, now)
    {
      if p in candidates {
        var m :| 0 <= m < |candidates| && candidates[m] == p;
        assert NoneRefreshable(store, candidates[m], tokens, now);
      }
    }
    return None;
  }

  // ---- The sections in place ----------------------------------------------------------

  class LockTable {
    var locks: LockStore

    constructor ()
      ensures locks == map[]
    {
      locks := map[];
    }

    /** `find_and_refresh_ancestor_lock`: `order` is the hash map's iteration order. */
    method FindAndRefreshAncestorLock(order: seq<Path>, target: Path, tokens: seq<Token>, now: nat)
      returns (refreshed: Option<LockInfo>, ghost hit: Option<(Path, nat)>)
      requires forall p :: p in locks <==> p in order
      requires CanonicalKeys(locks) && Canonical(target)
      modifies this
      ensures IsSearchResult(old(locks), target, tokens, now, hit)
      ensures hit.None? ==> refreshed.None? && locks == old(locks)
      ensures hit.Some? ==> refreshed == Some(RefreshedLock(old(locks), hit.value, now))
      ensures hit.Some? ==> locks == Refreshed(old(locks), hit.value, now)
    {
      var at := SearchAncestors(locks, order, target, tokens, now);
      hit := at;
      if at.None? { return None, hit; }
      var (path, i) := at.value;
      var lock := locks[path][i].(created := now);
      locks := locks[path := locks[path][i := lock]];
      return Some(lock), hit;
    }

    /** `handle_lock` under its first write guard. */
    method Lock(order: seq<Path>, req: LockRequest, now: nat, newToken: Token)
      returns (outcome: LockOutcome, ghost hit: Option<(Path, nat)>)
      requires forall p :: p in locks <==> p in order
      requires CanonicalKeys(locks) && Canonical(req.target)
      modifies this
      ensures IsSearchResult(old(locks), req.target, req.tokens, now, hit)
      ensures (locks, outcome) == LockSection(old(locks), req, hit, now, newToken)
    {
      var refreshed;
      refreshed, hit := FindAndRefreshAncestorLock(order, req.target, req.tokens, now);
      if refreshed.Some? {
        return Granted(refreshed.value), hit;
      }
      var entry := if req.target in locks then locks[req.target] else [];
      locks := locks[req.target := entry];
      var existing := CheckExistingExclusive(entry, req.tokens, now);
      if existing.Failure? { return Refused(existing.error), hit; }
      var token;
      if existing.value.Some? {
        entry := WithoutExclusive(entry);
        token := if req.scope.Exclusive? then existing.value.value else newToken;
      } else {
        var decision := if req.scope.Exclusive?
                        then TryNewExclusive(entry, req.tokens, newToken)
                        else TryNewShared(entry, req.tokens, newToken);
        if decision.Failure? { return Refused(decision.error), hit; }
        if decision.value.NeedsLockNull? { return CreateLockNull, hit; }
        entry, token := decision.value.entry, decision.value.token;
      }
      var lock := NewLock(req, token, now);
      locks := locks[req.target := entry + [lock]];
      assert locks == old(locks)[req.target := entry + [lock]];
      return Granted(lock), hit;
    }

    /** `handle_lock` under its second write guard. */
    method CommitLockNull(req: LockRequest, now: nat, newToken: Token) returns (outcome: LockOutcome)
      modifies this
      ensures (locks, outcome) == CommitSection(old(locks), req, now, newToken)
    {
      var entry := if req.target in locks then locks[req.target] else [];
      locks := locks[req.target := entry];
      if entry != [] { return Refused(LOCKED); }
      var lock := NewLock(req, newToken, now);
      locks := locks[req.target := entry + [lock]];
      assert entry + [lock] == [lock];
      assert locks == old(locks)[req.target := [lock]];
      return Granted(lock);
    }

    /** `handle_unlock` under its write guard. */
    method Unlock(path: Path, token: Token) returns (status: StatusCode)
      modifies this
      ensures (locks, status) == UnlockSection(old(locks), path, token)
    {
      if path in locks {
        var before := |locks[path]|;
        locks := locks[path := WithoutToken(locks[path], token)];
        if |locks[path]| < before { return NO_CONTENT; }
      }
      return FORBIDDEN;
    }

    /** One wake-up of `cleanup_task`. */
    method Cleanup(now: nat)
      modifies this
      ensures locks == CleanupSection(old(locks), now)
    {
      locks := map p | p in locks :: Active(locks[p], now);
      locks := map p | p in locks && locks[p] != [] :: locks[p];
    }
  }
}
