/** The lock system as a transition system. Concurrent requests, the cleanup task and the clock
    interleave between guard-protected sections; each section is one atomic step. The theorems
    are about every state of every run. */
module LockRuns {
  import opened Prelude
  import opened Paths
  import opened Locks
  import opened LockHandlers

  /** `pending` holds the LOCK requests that dropped the write guard to create a lock-null file
      and have not taken it again; `issued` holds every token handed out so far. */
  datatype State = State(
    root: Path,
    store: LockStore,
    now: nat,
    issued: set<Token>,
    pending: map<nat, LockRequest>
  )

  datatype Event =
    | Tick(elapsed: nat)
    | Lock(id: nat, req: LockRequest, hit: Option<(Path, nat)>, newToken: Token)
    | LockNullFailed(id: nat)
    | LockNullCommit(id: nat, newToken: Token)
    | Unlock(path: Path, token: Token)
    | Cleanup

  predicate StrictlyBelow(root: Path, p: Path) {
    root < p && Canonical(p)
  }

  ghost predicate Init(s: State) {
    s.store == map[] && s.pending == map[] && Canonical(s.root)
  }

  /** Tokens are fresh; targets come out of path resolution strictly below the root. */
  ghost predicate Enabled(s: State, e: Event) {
    match e
    case Tick(_) => true
    case Lock(id, req, hit, newToken) =>
      && newToken !in s.issued && id !in s.pending && StrictlyBelow(s.root, req.target)
      && IsSearchResult(s.store, req.target, req.tokens, s.now, hit)
    case LockNullFailed(id) => id in s.pending
    case LockNullCommit(id, newToken) => id in s.pending && newToken !in s.issued
    case Unlock(_, _) => true
    case Cleanup => true
  }

  ghost function Outcome(s: State, e: Event): (LockStore, LockOutcome)
    requires Enabled(s, e) && (e.Lock? || e.LockNullCommit?)
  {
    if e.Lock? then LockSection(s.store, e.req, e.hit, s.now, e.newToken)
    else CommitSection(s.store, s.pending[e.id], s.now, e.newToken)
  }

  ghost function Step(s: State, e: Event): State
    requires Enabled(s, e)
  {
    match e
    case Tick(elapsed) => s.(now := s.now + elapsed)
    case Lock(id, req, _, newToken) =>
      var (store, outcome) := Outcome(s, e);
      s.(store := store, issued := s.issued + {newToken},
         pending := if outcome.CreateLockNull? then s.pending[id := req] else s.pending)
    case LockNullFailed(id) => s.(pending := s.pending - {id})
    case LockNullCommit(id, newToken) =>
      s.(store := Outcome(s, e).0, issued := s.issued + {newToken}, pending := s.pending - {id})
    case Unlock(path, token) => s.(store := UnlockSection(s.store, path, token).0)
    case Cleanup => s.(store := CleanupSection(s.store, s.now))
  }

  /** `s'` is reached from `s` by the events, each enabled when it happens. */
  ghost predicate Run(s: State, events: seq<Event>, s': State)
    decreases |events|
  {
    if events == [] then s' == s
    else Enabled(s, events[0]) && Run(Step(s, events[0]), events[1..], s')
  }

  ghost predicate Reachable(s: State) {
    exists s0, events :: Init(s0) && Run(s0, events, s)
  }

  // ---- The invariant ------------------------------------------------------------------

  /** Two locks of one resource have different tokens, and if both are active both are shared. */
  predicate Compatible(l: LockInfo, m: LockInfo, now: nat) {
    && l.token != m.token
    && (!l.IsExpired(now) && !m.IsExpired(now) ==> !l.IsExclusive() && !m.IsExclusive())
  }

  predicate EntryOk(entry: seq<LockInfo>, now: nat) {
    forall i, j :: 0 <= i < |entry| && 0 <= j < |entry| && i != j ==> Compatible(entry[i], entry[j], now)
  }

  ghost predicate TokensApart(store: LockStore) {
    forall p, q, l, m :: p in store && q in store && p != q && l in store[p] && m in store[q] ==>
      l.token != m.token
  }

  ghost predicate TokensIssued(store: LockStore, issued: set<Token>) {
    forall p, l :: p in store && l in store[p] ==> l.token in issued
  }

  ghost predicate Inv(s: State) {
    && (forall p :: p in s.store ==> EntryOk(s.store[p], s.now))
    && TokensApart(s.store)
    && TokensIssued(s.store, s.issued)
    && (forall p :: p in s.store ==> StrictlyBelow(s.root, p))
    && (forall id :: id in s.pending ==> StrictlyBelow(s.root, s.pending[id].target))
  }

  lemma {:induction false} FilterEntryOk(entry: seq<LockInfo>, keep: LockInfo -> bool, now: nat)
    requires EntryOk(entry, now)
    ensures EntryOk(Filter(entry, keep), now)
  {
    if entry != [] {
      var rest := entry[1..];
      var kept := Filter(rest, keep);
      FilterEntryOk(rest, keep, now);
      forall l | l in kept ensures Compatible(entry[0], l, now) {
        var k :| 0 <= k < |rest| && rest[k] == l;
        CompatibleAt(entry, 0, k + 1, now);
      }
      forall i, j | 0 <= i < |kept| && j == 0 ensures Compatible(kept[i], entry[j], now) {
        assert Compatible(entry[0], kept[i], now) by { assert kept[i] in kept; }
      }
    }
  }

  lemma CompatibleAt(entry: seq<LockInfo>, i: nat, j: nat, now: nat)
    requires EntryOk(entry, now) && i < |entry| && j < |entry|
    ensures i != j ==> Compatible(entry[i], entry[j], now)
  {
  }

  /** Distinct positions hold distinct locks, so a lock found at one is not compatible with an
      active exclusive one at another. */
  lemma ActiveExclusiveIsAlone(entry: seq<LockInfo>, e: LockInfo, now: nat)
    requires EntryOk(entry, now)
    requires e in entry && e.IsExclusive() && !e.IsExpired(now)
    ensures forall l :: l in entry && !l.IsExpired(now) ==> l == e
  {
    forall l | l in entry && !l.IsExpired(now) ensures l == e {
      var i :| 0 <= i < |entry| && entry[i] == e;
      var j :| 0 <= j < |entry| && entry[j] == l;
      CompatibleAt(entry, i, j, now);
    }
  }

  /** What every section leaves at the one path it changes: locks that were there, and at most
      one lock appended that is compatible with all of them. */
  lemma PushKeepsEntryOk(kept: seq<LockInfo>, lock: LockInfo, now: nat)
    requires EntryOk(kept, now)
    requires forall l :: l in kept ==> Compatible(l, lock, now)
    ensures EntryOk(kept + [lock], now)
  {
    forall l | l in kept ensures Compatible(lock, l, now) { assert Compatible(l, lock, now); }
  }

  lemma DecideKeepsEntryOk(entry: seq<LockInfo>, req: LockRequest, now: nat, newToken: Token)
    requires EntryOk(entry, now)
    requires forall l :: l in entry ==> l.token != newToken
    requires Decide(entry, req, now, newToken).Success?
    requires Decide(entry, req, now, newToken).value.Acquired?
    ensures var d := Decide(entry, req, now, newToken).value;
            && EntryOk(d.entry + [NewLock(req, d.token, now)], now)
            && (forall l :: l in d.entry ==> l in entry)
            && (d.token == newToken || exists l :: l in entry && l.token == d.token)
  {
    var d := Decide(entry, req, now, newToken).value;
    var lock := NewLock(req, d.token, now);
    var check := CheckExistingExclusive(entry, req.tokens, now);
    if check.value.Some? {
      var e :| e in entry && e.IsExclusive() && !e.IsExpired(now) && e.token == check.value.value;
      ActiveExclusiveIsAlone(entry, e, now);
      FilterEntryOk(entry, (l: LockInfo) => !l.IsExclusive(), now);
      TokensDistinct(entry, e, now);
    } else if req.scope.Shared? && FindPresented(entry, req.tokens).Some? {
      FilterEntryOk(entry, (l: LockInfo) => l.token != d.token, now);
    }
    PushKeepsEntryOk(d.entry, lock, now);
  }

  lemma TokensDistinct(entry: seq<LockInfo>, e: LockInfo, now: nat)
    requires EntryOk(entry, now) && e in entry
    ensures forall l :: l in entry && l.token == e.token ==> l == e
  {
    forall l | l in entry && l.token == e.token ensures l == e {
      var i :| 0 <= i < |entry| && entry[i] == e;
      var j :| 0 <= j < |entry| && entry[j] == l;
      CompatibleAt(entry, i, j, now);
    }
  }

  /** Replacing the entry of one path keeps the invariant when the new entry is sound and its
      tokens are the path's own or newly issued. */
  lemma UpdateKeepsInv(s: State, p: Path, entry: seq<LockInfo>, issued: set<Token>)
    requires Inv(s) && StrictlyBelow(s.root, p) && s.issued <= issued
    requires EntryOk(entry, s.now)
    requires forall l :: l in entry ==>
               || (exists m :: m in LocksAt(s.store, p) && m.token == l.token)
               || (l.token in issued && l.token !in s.issued)
    ensures Inv(s.(store := s.store[p := entry], issued := issued))
  {
    var store := s.store[p := entry];
    forall q, r, l: LockInfo, m: LockInfo | q in store && r in store && q != r && l in store[q] && m in store[r]
      ensures l.token != m.token
    {
      if q == p {
        assert r in s.store;
      } else if r == p {
        assert q in s.store;
      }
    }
  }

  lemma LockStepKeepsInv(s: State, e: Event)
    requires Inv(s) && Enabled(s, e) && e.Lock?
    ensures Inv(Step(s, e))
  {
    var issued := s.issued + {e.newToken};
    if e.hit.Some? {
      RefreshKeepsInv(s, e.hit.value, issued);
    } else {
      DecisionKeepsInv(s, e.req, e.newToken);
    }
    var next := s.(store := Outcome(s, e).0, issued := issued);
    assert Inv(next);
    assert next.store == Step(s, e).store && next.issued == Step(s, e).issued;
  }

  lemma DecisionKeepsInv(s: State, req: LockRequest, newToken: Token)
    requires Inv(s) && newToken !in s.issued && StrictlyBelow(s.root, req.target)
    ensures Inv(s.(store := LockSection(s.store, req, None, s.now, newToken).0, issued := s.issued + {newToken}))
  {
    var entry := LocksAt(s.store, req.target);
    var issued := s.issued + {newToken};
    var decision := Decide(entry, req, s.now, newToken);
    if decision.Success? && decision.value.Acquired? {
      var d := decision.value;
      DecideKeepsEntryOk(entry, req, s.now, newToken);
      UpdateKeepsInv(s, req.target, d.entry + [NewLock(req, d.token, s.now)], issued);
    } else {
      UpdateKeepsInv(s, req.target, entry, issued);
    }
  }

  lemma RefreshKeepsInv(s: State, at: (Path, nat), issued: set<Token>)
    requires Inv(s) && s.issued <= issued
    requires at.0 in s.store && at.1 < |s.store[at.0]| && !s.store[at.0][at.1].IsExpired(s.now)
    ensures Inv(s.(store := Refreshed(s.store, at, s.now), issued := issued))
  {
    var old' := s.store[at.0];
    var entry := old'[at.1 := RefreshedLock(s.store, at, s.now)];
    assert EntryOk(entry, s.now) by {
      forall i, j | 0 <= i < |entry| && 0 <= j < |entry| && i != j ensures Compatible(entry[i], entry[j], s.now) {
        assert Compatible(old'[i], old'[j], s.now);
      }
    }
    forall l | l in entry ensures exists m :: m in old' && m.token == l.token {
      var k :| 0 <= k < |entry| && entry[k] == l;
      assert old'[k] in old';
    }
    UpdateKeepsInv(s, at.0, entry, issued);
  }

  lemma CommitStepKeepsInv(s: State, e: Event)
    requires Inv(s) && Enabled(s, e) && e.LockNullCommit?
    ensures Inv(Step(s, e))
  {
    var req := s.pending[e.id];
    var issued := s.issued + {e.newToken};
    var entry := LocksAt(s.store, req.target);
    UpdateKeepsInv(s, req.target, if entry != [] then entry else [NewLock(req, e.newToken, s.now)], issued);
  }

  lemma UnlockStepKeepsInv(s: State, e: Event)
    requires Inv(s) && Enabled(s, e) && e.Unlock?
    ensures Inv(Step(s, e))
  {
    if e.path in s.store {
      FilterEntryOk(s.store[e.path], (l: LockInfo) => l.token != e.token, s.now);
      UpdateKeepsInv(s, e.path, WithoutToken(s.store[e.path], e.token), s.issued);
    }
  }

  lemma CleanupStepKeepsInv(s: State, e: Event)
    requires Inv(s) && e.Cleanup?
    ensures Inv(Step(s, e))
  {
    var store := CleanupSection(s.store, s.now);
    forall p | p in store ensures EntryOk(store[p], s.now) {
      FilterEntryOk(s.store[p], (l: LockInfo) => !l.IsExpired(s.now), s.now);
    }
  }

  lemma EntryOkLater(entry: seq<LockInfo>, now: nat, later: nat)
    requires EntryOk(entry, now) && now <= later
    ensures EntryOk(entry, later)
  {
    forall i, j | 0 <= i < |entry| && 0 <= j < |entry| && i != j ensures Compatible(entry[i], entry[j], later) {
      assert Compatible(entry[i], entry[j], now);
    }
  }

  lemma EntriesOkLater(store: LockStore, now: nat, later: nat)
    requires now <= later && forall p :: p in store ==> EntryOk(store[p], now)
    ensures forall p :: p in store ==> EntryOk(store[p], later)
  {
    forall p | p in store ensures EntryOk(store[p], later) {
      EntryOkLater(store[p], now, later);
    }
  }

  lemma TickStepKeepsInv(s: State, e: Event)
    requires Inv(s) && e.Tick?
    ensures Inv(Step(s, e))
  {
    EntriesOkLater(s.store, s.now, s.now + e.elapsed);
  }

  /** Every step keeps the invariant. */
  lemma StepKeepsInv(s: State, e: Event)
    requires Inv(s) && Enabled(s, e)
    ensures Inv(Step(s, e)) && s.now <= Step(s, e).now
  {
    match e
    case Tick(_) => TickStepKeepsInv(s, e);
    case Lock(_, _, _, _) => LockStepKeepsInv(s, e);
    case LockNullFailed(_) =>
    case LockNullCommit(_, _) => CommitStepKeepsInv(s, e);
    case Unlock(_, _) => UnlockStepKeepsInv(s, e);
    case Cleanup => CleanupStepKeepsInv(s, e);
  }

  lemma {:induction false} RunKeepsInv(s: State, events: seq<Event>, s': State)
    requires Inv(s) && Run(s, events, s')
    ensures Inv(s') && s.now <= s'.now && s'.root == s.root
    decreases |events|
  {
    if events != [] {
      StepKeepsInv(s, events[0]);
      RunKeepsInv(Step(s, events[0]), events[1..], s');
    }
  }

  lemma ReachableInv(s: State)
    requires Reachable(s)
    ensures Inv(s)
  {
    var s0, events :| Init(s0) && Run(s0, events, s);
    RunKeepsInv(s0, events, s);
  }

  // ---- What holds in every reachable state ----------------------------------------------

  /** The active locks of a resource are all shared, or there is exactly one and it is exclusive. */
  predicate ExclusiveOrShared(entry: seq<LockInfo>, now: nat) {
    var active := Active(entry, now);
    (forall l :: l in active ==> l.scope == Shared) || (|active| == 1 && active[0].scope == Exclusive)
  }

  /** Mutual exclusion, under every interleaving. */
  lemma MutualExclusion(s: State, p: Path)
    requires Reachable(s) && p in s.store
    ensures ExclusiveOrShared(s.store[p], s.now)
  {
    ReachableInv(s);
    var active := Active(s.store[p], s.now);
    FilterEntryOk(s.store[p], (l: LockInfo) => !l.IsExpired(s.now), s.now);
    if i :| 0 <= i < |active| && active[i].IsExclusive() {
      assert forall k :: 0 <= k < |active| ==> active[k] in active;
      if |active| > 1 { CompatibleAt(active, i, if i == 0 then 1 else 0, s.now); }
    }
  }

  /** Two places of the store never hold the same token. */
  lemma TokensAreUnique(s: State, p: Path, i: nat, q: Path, j: nat)
    requires Reachable(s)
    requires p in s.store && i < |s.store[p]| && q in s.store && j < |s.store[q]|
    requires s.store[p][i].token == s.store[q][j].token
    ensures p == q && i == j
  {
    ReachableInv(s);
    assert s.store[p][i] in s.store[p] && s.store[q][j] in s.store[q];
    if p == q { CompatibleAt(s.store[p], i, j, s.now); }
  }

  /** Every key of the store lies strictly below the root. */
  lemma KeysBelowRoot(s: State, p: Path)
    requires Reachable(s) && p in s.store
    ensures StrictlyBelow(s.root, p)
  {
    ReachableInv(s);
  }

  predicate TokenAt(entry: seq<LockInfo>, i: nat, token: Token) {
    i < |entry| && entry[i].token == token
  }

  function RemoveAt(entry: seq<LockInfo>, i: nat): seq<LockInfo>
    requires i < |entry|
  {
    entry[..i] + entry[i + 1..]
  }

  /** UNLOCK answers 204 exactly when the path holds the token, and then one lock goes and
      every other lock of the store stays where it was; otherwise nothing changes. */
  lemma UnlockRemovesOne(s: State, path: Path, token: Token)
    requires Reachable(s)
    ensures var (store, status) := (Step(s, Unlock(path, token)).store, UnlockSection(s.store, path, token).1);
            var entry := LocksAt(s.store, path);
            if exists i :: TokenAt(entry, i, token)
            then status == NO_CONTENT && exists i :: TokenAt(entry, i, token) && store == s.store[path := RemoveAt(entry, i)]
            else status == FORBIDDEN && store == s.store
  {
    ReachableInv(s);
    var entry := LocksAt(s.store, path);
    if i :| TokenAt(entry, i, token) {
      UnlockAt(s.store, path, token, i, s.now);
    } else {
      UnlockAbsent(s.store, path, token);
    }
  }

  lemma UnlockAt(store: LockStore, path: Path, token: Token, i: nat, now: nat)
    requires path in store && TokenAt(store[path], i, token)
    requires EntryOk(store[path], now)
    ensures UnlockSection(store, path, token) == (store[path := RemoveAt(store[path], i)], NO_CONTENT)
  {
    var entry := store[path];
    forall j | 0 <= j < |entry| && j != i ensures entry[j].token != token {
      CompatibleAt(entry, i, j, now);
    }
    FilterDropsOne(entry, (l: LockInfo) => l.token != token, i);
  }

  lemma UnlockAbsent(store: LockStore, path: Path, token: Token)
    requires forall i :: !TokenAt(LocksAt(store, path), i, token)
    ensures UnlockSection(store, path, token) == (store, FORBIDDEN)
  {
    if path in store {
      var entry := store[path];
      forall l | l in entry ensures l.token != token {
        var i: nat :| i < |entry| && entry[i] == l;
        assert !TokenAt(LocksAt(store, path), i, token);
      }
      FilterAll(entry, (l: LockInfo) => l.token != token);
      assert store[path := entry] == store;
    }
  }

  // ---- What a granted lock may rely on --------------------------------------------------

  /** The event carries the token: in the `If` header of LOCK or the header of UNLOCK. */
  predicate Presents(e: Event, token: Token) {
    match e
    case Lock(_, req, _, _) => token in req.tokens
    case Unlock(_, t) => t == token
    case _ => false
  }

  predicate Holds(store: LockStore, p: Path, l: LockInfo) {
    p in store && l in store[p]
  }

  lemma DecideKeepsOthers(entry: seq<LockInfo>, req: LockRequest, now: nat, newToken: Token, l: LockInfo)
    requires EntryOk(entry, now) && l in entry && !l.IsExpired(now) && l.token !in req.tokens
    requires Decide(entry, req, now, newToken).Success?
    ensures Decide(entry, req, now, newToken).value.Acquired?
    ensures l in Decide(entry, req, now, newToken).value.entry
  {
    var check := CheckExistingExclusive(entry, req.tokens, now);
    if check.value.Some? {
      var e :| e in entry && e.IsExclusive() && !e.IsExpired(now) && e.token == check.value.value;
      ActiveExclusiveIsAlone(entry, e, now);
    }
  }

  /** No step removes or alters an active lock whose token it does not present. */
  lemma StepKeepsLock(s: State, e: Event, p: Path, l: LockInfo)
    requires Inv(s) && Enabled(s, e)
    requires Holds(s.store, p, l) && !l.IsExpired(s.now) && !Presents(e, l.token)
    ensures Holds(Step(s, e).store, p, l)
  {
    match e
    case Lock(_, req, hit, newToken) =>
      if hit.Some? {
        var (q, i) := hit.value;
        if q == p {
          var k :| 0 <= k < |s.store[p]| && s.store[p][k] == l;
          assert k != i;
          assert Step(s, e).store[p][k] == l;
        }
      } else if req.target == p && Decide(s.store[p], req, s.now, newToken).Success? {
        DecideKeepsOthers(s.store[p], req, s.now, newToken, l);
      }
    case LockNullCommit(_, _) =>
    case Unlock(_, _) =>
    case Cleanup =>
    case _ =>
  }

  /** Persistence: from any reachable state, an active lock is still held, unchanged, after any
      run that does not present its token, for as long as its timeout has not elapsed. */
  lemma {:induction false} Persistence(s: State, events: seq<Event>, s': State, p: Path, l: LockInfo)
    requires Inv(s) && Run(s, events, s')
    requires Holds(s.store, p, l) && !l.IsExpired(s'.now)
    requires forall e :: e in events ==> !Presents(e, l.token)
    ensures Holds(s'.store, p, l)
    decreases |events|
  {
    if events != [] {
      var e := events[0];
      assert !Presents(e, l.token) by { assert e in events; }
      forall d | d in events[1..] ensures !Presents(d, l.token) { assert d in events; }
      NotExpiredBefore(s, events, s', l);
      StepKeepsInv(s, e);
      StepKeepsLock(s, e, p, l);
      Persistence(Step(s, e), events[1..], s', p, l);
    }
  }

  lemma NotExpiredBefore(s: State, events: seq<Event>, s': State, l: LockInfo)
    requires Inv(s) && Run(s, events, s') && !l.IsExpired(s'.now)
    ensures !l.IsExpired(s.now)
  {
    RunKeepsInv(s, events, s');
  }

  /** A LOCK that is answered with a lock has put exactly that lock in the store. */
  ghost predicate Grants(s: State, e: Event, p: Path, l: LockInfo) {
    && Enabled(s, e) && (e.Lock? || e.LockNullCommit?)
    && Outcome(s, e).1 == Granted(l)
    && p == if e.LockNullCommit? then s.pending[e.id].target
            else if e.hit.Some? then e.hit.value.0 else e.req.target
  }

  /** The request that the event answers. */
  function Asked(s: State, e: Event): LockRequest
    requires e.Lock? || (e.LockNullCommit? && e.id in s.pending)
  {
    if e.Lock? then e.req else s.pending[e.id]
  }

  predicate Refreshes(e: Event) {
    e.Lock? && e.hit.Some?
  }

  lemma GrantIsHeld(s: State, e: Event, p: Path, l: LockInfo)
    requires Grants(s, e, p, l)
    ensures Holds(Step(s, e).store, p, l) && l.created == s.now
  {
    if e.Lock? && e.hit.Some? {
      assert Step(s, e).store[p][e.hit.value.1] == l;
    } else {
      var entry := Step(s, e).store[p];
      assert entry[|entry| - 1] == l;
    }
  }

  /** The lock is the one that was asked for, at the path it was asked for, from now on. */
  lemma GrantIsAsAsked(s: State, e: Event, p: Path, l: LockInfo)
    requires Grants(s, e, p, l) && !Refreshes(e)
    ensures var req := Asked(s, e);
            && p == req.target && l.scope == req.scope && l.depth == req.depth
            && l.owner == req.owner && l.timeout == req.timeout && l.created == s.now
            && (l.token == e.newToken || l.token in req.tokens)
  {
    if e.Lock? {
      var entry := LocksAt(s.store, e.req.target);
      var check := CheckExistingExclusive(entry, e.req.tokens, s.now);
      if check.value.None? && e.req.scope.Shared? {
        assert FindPresented(entry, e.req.tokens).Some? ==> FindPresented(entry, e.req.tokens).value.token in e.req.tokens;
      }
    }
  }

  /** A refreshed lock is an active infinity lock of an ancestor whose token is presented, and only its
      time is new. */
  lemma RefreshIsOfAncestor(s: State, e: Event, p: Path, l: LockInfo)
    requires Grants(s, e, p, l) && Refreshes(e)
    ensures p < e.req.target && l.token in e.req.tokens && l.depth == Infinity
    ensures exists old' :: Holds(s.store, p, old') && !old'.IsExpired(s.now) && l == old'.(created := s.now)
  {
    var (_, i) := e.hit.value;
    var old' := s.store[p][i];
    assert Holds(s.store, p, old') && l == old'.(created := s.now);
  }

  /** A lock without a timeout never expires, and one with a timeout does when that has passed since the
      grant. */
  lemma GrantExpiresIff(s: State, grant: Event, events: seq<Event>, s': State, p: Path, l: LockInfo)
    requires Inv(s) && Grants(s, grant, p, l) && Run(Step(s, grant), events, s')
    ensures l.IsExpired(s'.now) <==> exists d :: l.timeout == Some(d) && s.now + d <= s'.now
  {
    GrantIsHeld(s, grant, p, l);
    StepKeepsInv(s, grant);
    RunKeepsInv(Step(s, grant), events, s');
  }

  /** A granted lock is still held after every later run that does not present its token, until
      its timeout has passed. */
  lemma GrantPersists(s: State, grant: Event, events: seq<Event>, s': State, p: Path, l: LockInfo)
    requires Reachable(s) && Grants(s, grant, p, l)
    requires Run(Step(s, grant), events, s') && (l.timeout.Some? ==> s'.now < s.now + l.timeout.value)
    requires forall d :: d in events ==> !Presents(d, l.token)
    ensures Inv(s') && Holds(s'.store, p, l) && !l.IsExpired(s'.now)
  {
    ReachableInv(s);
    var granted := Step(s, grant);
    StepKeepsInv(s, grant);
    GrantIsHeld(s, grant, p, l);
    RunKeepsInv(granted, events, s');
    GrantExpiresIff(s, grant, events, s', p, l);
    Persistence(granted, events, s', p, l);
  }

  /** The event is a LOCK at `p`, in either section, that found no ancestor lock to refresh. */
  ghost predicate LocksPath(s: State, e: Event, p: Path) {
    || (e.Lock? && e.req.target == p && e.hit.None?)
    || (e.LockNullCommit? && e.id in s.pending && s.pending[e.id].target == p)
  }

  /** An exclusive lock was asked for, or is refreshed. */
  predicate WantsExclusive(s: State, e: Event)
    requires e.Lock? || (e.LockNullCommit? && e.id in s.pending)
    requires Refreshes(e) ==> e.hit.value.0 in s.store && e.hit.value.1 < |s.store[e.hit.value.0]|
  {
    (if Refreshes(e) then s.store[e.hit.value.0][e.hit.value.1].scope else Asked(s, e).scope) == Exclusive
  }

  /** Exclusion over runs: once an exclusive lock has been asked for and granted at `p`, and until its
      timeout has passed or somebody presents its token, every LOCK at `p` that finds no ancestor lock of
      its own to refresh is refused with 423, in either section, and leaves the store as it is. */
  lemma GrantExcludesOthers(s: State, grant: Event, events: seq<Event>, s': State, p: Path, l: LockInfo, e: Event)
    requires Reachable(s) && Grants(s, grant, p, l) && WantsExclusive(s, grant)
    requires Run(Step(s, grant), events, s') && (l.timeout.Some? ==> s'.now < s.now + l.timeout.value)
    requires forall d :: d in events ==> !Presents(d, l.token)
    requires Enabled(s', e) && LocksPath(s', e, p) && !Presents(e, l.token)
    ensures Outcome(s', e) == (s'.store, Refused(LOCKED))
  {
    GrantPersists(s, grant, events, s', p, l);
    if !Refreshes(grant) { GrantIsAsAsked(s, grant, p, l); }
    HeldExclusiveRefuses(s', e, p, l);
  }

  lemma HeldExclusiveRefuses(s: State, e: Event, p: Path, l: LockInfo)
    requires Inv(s) && Holds(s.store, p, l) && l.IsExclusive() && !l.IsExpired(s.now)
    requires Enabled(s, e) && LocksPath(s, e, p) && !Presents(e, l.token)
    ensures Outcome(s, e) == (s.store, Refused(LOCKED))
  {
    var entry := s.store[p];
    assert s.store[p := entry] == s.store;
    if e.Lock? {
      ActiveExclusiveIsAlone(entry, l, s.now);
      assert Decide(entry, e.req, s.now, e.newToken) == Failure(LOCKED);
    }
  }

  // ---- When LOCK succeeds ---------------------------------------------------------------------

  /** This lock rules the request out: its token is not presented, and it is an active exclusive
      lock, or a new exclusive lock is wanted where no active exclusive lock can be renewed. */
  predicate Blocks(l: LockInfo, entry: seq<LockInfo>, req: LockRequest, now: nat) {
    l in entry && l.token !in req.tokens &&
    ((l.IsExclusive() && !l.IsExpired(now)) ||
     (req.scope.Exclusive? && forall m :: m in entry && m.IsExclusive() ==> m.IsExpired(now)))
  }

  /** LOCK at a resource is refused exactly when one of its locks blocks it, and takes the
      lock-null path exactly when there is no lock at all. */
  lemma DecisionIff(entry: seq<LockInfo>, req: LockRequest, now: nat, newToken: Token)
    requires EntryOk(entry, now)
    ensures Decide(entry, req, now, newToken) == Failure(LOCKED) <==> exists l :: Blocks(l, entry, req, now)
    ensures Decide(entry, req, now, newToken).Failure? ==> Decide(entry, req, now, newToken).error == LOCKED
    ensures Decide(entry, req, now, newToken) == Success(NeedsLockNull) <==> entry == []
  {
    var check := CheckExistingExclusive(entry, req.tokens, now);
    if check.Failure? {
      var e :| e in entry && e.IsExclusive() && !e.IsExpired(now) && e.token !in req.tokens;
      assert Blocks(e, entry, req, now);
    } else if check.value.Some? {
      var e :| e in entry && e.IsExclusive() && !e.IsExpired(now) && e.token == check.value.value;
      ActiveExclusiveIsAlone(entry, e, now);
    } else if req.scope.Exclusive? && exists l :: l in entry && l.token !in req.tokens {
      var l :| l in entry && l.token !in req.tokens;
      assert Blocks(l, entry, req, now);
    }
  }

  /** The request renews a lock it presents: the active exclusive one, or else, for a shared
      request, any. */
  predicate Renews(entry: seq<LockInfo>, req: LockRequest, now: nat) {
    if exists l :: l in entry && l.IsExclusive() && !l.IsExpired(now) then req.scope.Exclusive?
    else req.scope.Shared? && exists l :: l in entry && l.token in req.tokens
  }

  /** What a granted LOCK replaces: nothing comes in but the new lock, nothing goes but expired
      locks and locks whose token is presented, and the token is new unless a lock is renewed. */
  lemma DecisionMeans(entry: seq<LockInfo>, req: LockRequest, now: nat, newToken: Token)
    requires EntryOk(entry, now) && forall l :: l in entry ==> l.token != newToken
    requires Decide(entry, req, now, newToken).Success?
    requires Decide(entry, req, now, newToken).value.Acquired?
    ensures var d := Decide(entry, req, now, newToken).value;
            && (forall l :: l in d.entry ==> l in entry)
            && (forall l :: l in entry && l !in d.entry ==> l.token in req.tokens || l.IsExpired(now))
            && (d.token == newToken <==> !Renews(entry, req, now))
            && (Renews(entry, req, now) ==>
                  exists l :: l in entry && l !in d.entry && l.token == d.token && l.token in req.tokens)
  {
    var d := Decide(entry, req, now, newToken).value;
    var check := CheckExistingExclusive(entry, req.tokens, now);
    if check.value.Some? {
      var e :| e in entry && e.IsExclusive() && !e.IsExpired(now) && e.token == check.value.value;
      ActiveExclusiveIsAlone(entry, e, now);
      assert e !in d.entry;
    } else if req.scope.Shared? && FindPresented(entry, req.tokens).Some? {
      var l := FindPresented(entry, req.tokens).value;
      assert l in entry && l !in d.entry;
    }
  }

  /** Which locks stay beside a granted one: next to an active exclusive lock all that are not exclusive;
      otherwise none for an exclusive request, and for a shared one all but the lock that is renewed. */
  lemma DecisionKeepsIff(entry: seq<LockInfo>, req: LockRequest, now: nat, newToken: Token, l: LockInfo)
    requires forall m :: m in entry ==> m.token != newToken
    requires Decide(entry, req, now, newToken).Success?
    requires Decide(entry, req, now, newToken).value.Acquired?
    ensures var d := Decide(entry, req, now, newToken).value;
            l in d.entry <==>
            && l in entry
            && (if exists m :: m in entry && m.scope == Exclusive && !m.IsExpired(now) then l.scope != Exclusive
                else req.scope == Shared && l.token != d.token)
  {
    if m :| m in entry && m.scope == Exclusive && !m.IsExpired(now) {
      assert m.IsExclusive();
    } else if req.scope.Shared? && FindPresented(entry, req.tokens).Some? {
      assert FindPresented(entry, req.tokens).value in entry;
    }
  }

  /** LOCK refreshes a lock exactly when it presents the token of an active infinity lock on a proper
      ancestor of its target. */
  lemma RefreshesIff(s: State, e: Event)
    requires Enabled(s, e) && e.Lock?
    ensures Refreshes(e) <==>
            exists p, l :: Holds(s.store, p, l) && p < e.req.target && l.depth == Infinity && !l.IsExpired(s.now) && l.token in e.req.tokens
  {
    if e.hit.Some? {
      var (p, i) := e.hit.value;
      assert Holds(s.store, p, s.store[p][i]);
    } else {
      forall p, l | Holds(s.store, p, l) && p < e.req.target
        ensures !(l.depth == Infinity && !l.IsExpired(s.now) && l.token in e.req.tokens)
      {
        assert NoneRefreshable(s.store, p, e.req.tokens, s.now);
      }
    }
  }

  /** The event grants somebody a lock at `p`. */
  ghost predicate GrantsAt(s: State, e: Event, p: Path) {
    exists l :: Grants(s, e, p, l)
  }

  /** A run in which nobody is granted a lock at `p` and request `id` is not aborted. */
  ghost predicate RunAside(s: State, events: seq<Event>, s': State, id: nat, p: Path)
    decreases |events|
  {
    if events == [] then s' == s
    else
      && Enabled(s, events[0]) && !GrantsAt(s, events[0], p) && events[0] != LockNullFailed(id)
      && RunAside(Step(s, events[0]), events[1..], s', id, p)
  }

  /** The first section has left `req` pending on an entry without locks. */
  predicate Claimed(s: State, id: nat, req: LockRequest) {
    id in s.pending && s.pending[id] == req && LocksAt(s.store, req.target) == []
  }

  lemma GrantedAt(s: State, e: Event, p: Path)
    requires Enabled(s, e) && LocksPath(s, e, p) && Outcome(s, e).1.Granted?
    ensures GrantsAt(s, e, p)
  {
    assert Grants(s, e, p, Outcome(s, e).1.lock);
  }

  /** An entry without locks gets one only by a grant. */
  lemma StepKeepsEmpty(s: State, e: Event, p: Path)
    requires Enabled(s, e) && LocksAt(s.store, p) == [] && !GrantsAt(s, e, p)
    ensures LocksAt(Step(s, e).store, p) == []
  {
    if LocksPath(s, e, p) {
      assert !Outcome(s, e).1.Granted? by {
        if Outcome(s, e).1.Granted? { GrantedAt(s, e, p); }
      }
    } else if e.Lock? && e.hit.Some? {
      assert e.hit.value.0 != p;
    }
  }

  lemma StepKeepsClaim(s: State, e: Event, id: nat, req: LockRequest)
    requires Claimed(s, id, req) && Enabled(s, e)
    requires !GrantsAt(s, e, req.target) && e != LockNullFailed(id)
    ensures Claimed(Step(s, e), id, req)
  {
    StepKeepsEmpty(s, e, req.target);
    if e.LockNullCommit? && e.id == id {
      ClaimIsGranted(s, e, req);
    }
  }

  lemma ClaimIsGranted(s: State, commit: Event, req: LockRequest)
    requires commit.LockNullCommit? && Claimed(s, commit.id, req) && Enabled(s, commit)
    ensures GrantsAt(s, commit, req.target)
  {
    assert Grants(s, commit, req.target, NewLock(req, commit.newToken, s.now));
  }

  lemma {:induction false} RunKeepsClaim(s: State, events: seq<Event>, s': State, id: nat, req: LockRequest)
    requires Claimed(s, id, req) && RunAside(s, events, s', id, req.target)
    ensures Claimed(s', id, req)
    decreases |events|
  {
    if events != [] {
      StepKeepsClaim(s, events[0], id, req);
      RunKeepsClaim(Step(s, events[0]), events[1..], s', id, req);
    }
  }

  /** The two sections of LOCK together: a request that gave up the guard to create its file is
      granted the lock it asked for, whatever happened meanwhile, unless somebody was granted a lock
      at the same resource first. */
  lemma LockNullIsGranted(s: State, first: Event, events: seq<Event>, s': State, token: Token)
    requires Enabled(s, first) && first.Lock? && Outcome(s, first).1 == CreateLockNull
    requires RunAside(Step(s, first), events, s', first.id, first.req.target)
    requires Enabled(s', LockNullCommit(first.id, token))
    ensures Outcome(s', LockNullCommit(first.id, token)).1 == Granted(LockInfo(first.req.scope, token, first.req.owner, s'.now, first.req.timeout, first.req.depth))
  {
    assert Claimed(Step(s, first), first.id, first.req);
    RunKeepsClaim(Step(s, first), events, s', first.id, first.req);
  }

  /** The event ends the pending request, one way or the other. */
  predicate Ends(e: Event, id: nat) {
    (e.LockNullFailed? || e.LockNullCommit?) && e.id == id
  }

  /** A request that has ended, by its grant, its refusal or a failure to create the file, is over. */
  lemma EndedIsOver(s: State, e: Event, id: nat, token: Token)
    requires Enabled(s, e) && Ends(e, id)
    ensures id !in Step(s, e).pending && !Enabled(Step(s, e), LockNullCommit(id, token))
  {
  }

  lemma {:induction false} RunKeepsPending(s: State, events: seq<Event>, s': State, id: nat)
    requires id in s.pending && Run(s, events, s') && forall e :: e in events ==> !Ends(e, id)
    ensures id in s'.pending && s'.pending[id] == s.pending[id]
    decreases |events|
  {
    if events != [] {
      assert !Ends(events[0], id) by { assert events[0] in events; }
      forall e | e in events[1..] ensures !Ends(e, id) { assert e in events; }
      RunKeepsPending(Step(s, events[0]), events[1..], s', id);
    }
  }

  /** Over any run at all: the request comes back as it was, and gets its lock exactly when no lock is
      left at the resource then; otherwise it is refused with 423. */
  lemma LockNullIsGrantedIff(s: State, first: Event, events: seq<Event>, s': State, token: Token)
    requires Enabled(s, first) && first.Lock? && Outcome(s, first).1 == CreateLockNull
    requires Run(Step(s, first), events, s') && (forall e :: e in events ==> !Ends(e, first.id))
    requires token !in s'.issued
    ensures var commit := LockNullCommit(first.id, token);
            && Enabled(s', commit)
            && (Outcome(s', commit).1 == Granted(LockInfo(first.req.scope, token, first.req.owner, s'.now, first.req.timeout, first.req.depth)) <==>
                LocksAt(s'.store, first.req.target) == [])
            && (LocksAt(s'.store, first.req.target) != [] ==> Outcome(s', commit).1 == Refused(LOCKED))
  {
    RunKeepsPending(Step(s, first), events, s', first.id);
  }

  // ---- Where a lock comes from ------------------------------------------------------------------

  /** Somebody is granted the lock `l` at `q` in the course of the run. */
  ghost predicate GrantedIn(s: State, events: seq<Event>, q: Path, l: LockInfo)
    decreases |events|
  {
    events != [] && Enabled(s, events[0]) &&
    (Grants(s, events[0], q, l) || GrantedIn(Step(s, events[0]), events[1..], q, l))
  }

  /** A lock that a step leaves in the store was there before, or is granted by it. */
  lemma StepBringsOnlyGrants(s: State, e: Event, q: Path, l: LockInfo)
    requires Enabled(s, e) && Holds(Step(s, e).store, q, l)
    ensures Holds(s.store, q, l) || Grants(s, e, q, l)
  {
    match e
    case Lock(_, req, hit, newToken) =>
      if !Holds(s.store, q, l) {
        if hit.Some? {
          RefreshBringsOne(s, e, q, l);
        } else {
          DecisionBringsOne(LocksAt(s.store, req.target), req, s.now, newToken);
        }
      }
    case LockNullCommit(_, _) =>
    case Unlock(_, _) =>
    case Cleanup =>
    case _ =>
  }

  lemma RefreshBringsOne(s: State, e: Event, q: Path, l: LockInfo)
    requires Enabled(s, e) && e.Lock? && e.hit.Some?
    requires Holds(Step(s, e).store, q, l) && !Holds(s.store, q, l)
    ensures Grants(s, e, q, l)
  {
    var (p, i) := e.hit.value;
    var k :| 0 <= k < |Step(s, e).store[q]| && Step(s, e).store[q][k] == l;
  }

  lemma DecisionBringsOne(entry: seq<LockInfo>, req: LockRequest, now: nat, newToken: Token)
    ensures var d := Decide(entry, req, now, newToken);
            d.Success? && d.value.Acquired? ==> forall l :: l in d.value.entry ==> l in entry
  {
  }

  /** An active lock at the end of a run was active at its start, or has been granted in between. */
  lemma {:induction false} HeldIsOldOrGranted(s: State, events: seq<Event>, s': State, q: Path, l: LockInfo)
    requires Inv(s) && Run(s, events, s') && Holds(s'.store, q, l) && !l.IsExpired(s'.now)
    ensures (Holds(s.store, q, l) && !l.IsExpired(s.now)) || GrantedIn(s, events, q, l)
    decreases |events|
  {
    if events != [] {
      StepKeepsInv(s, events[0]);
      HeldIsOldOrGranted(Step(s, events[0]), events[1..], s', q, l);
      if !GrantedIn(Step(s, events[0]), events[1..], q, l) {
        StepBringsOnlyGrants(s, events[0], q, l);
      }
    }
  }

  // ---- A store with one lock is reached by a run ---------------------------------------------

  lemma RunConcat(s: State, a: seq<Event>, m: State, b: seq<Event>, s': State)
    requires Run(s, a, m) && Run(m, b, s')
    ensures Run(s, a + b, s')
    decreases |a|
  {
    if a == [] {
      assert a + b == b;
    } else {
      assert (a + b)[0] == a[0] && (a + b)[1..] == a[1..] + b;
      RunConcat(Step(s, a[0]), a[1..], m, b, s');
    }
  }

  lemma ReachableStep(s: State, e: Event)
    requires Reachable(s) && Enabled(s, e)
    ensures Reachable(Step(s, e))
  {
    var s0, events :| Init(s0) && Run(s0, events, s);
    assert [e][1..] == [];
    assert Run(s, [e], Step(s, e));
    RunConcat(s0, events, s, [e], Step(s, e));
  }

  /** After a LOCK on a resource without locks, its commit and a while, that lock is alone in the
      store. */
  lemma LoneLock(root: Path, req: LockRequest, token: Token, elapsed: nat) returns (s: State)
    requires Canonical(root) && StrictlyBelow(root, req.target)
    ensures Reachable(s) && s.root == root && s.now == elapsed
    ensures s.store == map[req.target := [LockInfo(req.scope, token, req.owner, 0, req.timeout, req.depth)]] && token in s.issued
  {
    var first: Token := token + "'";
    var s0 := State(root, map[], 0, {}, map[]);
    assert Run(s0, [], s0) && Reachable(s0);
    var lock := Lock(0, req, None, first);
    assert Enabled(s0, lock);
    ReachableStep(s0, lock);
    var s1 := Step(s0, lock);
    assert s1.pending == map[0 := req] && s1.issued == {first};
    var commit := LockNullCommit(0, token);
    assert |first| == |token| + 1;
    ReachableStep(s1, commit);
    var s2 := Step(s1, commit);
    ReachableStep(s2, Tick(elapsed));
    s := Step(s2, Tick(elapsed));
  }
}
