/** The lock-enforcement layer: the ancestor search with its two algorithms, the admission test
    on one path, the admission of a whole request, and what they guarantee over runs. */
module Enforcement {
  import opened Prelude
  import opened Paths
  import opened IfHeader
  import opened Locks
  import opened LockHandlers
  import opened LockRuns

  // ---- The ancestor search --------------------------------------------------------------

  predicate HoldsInfinity(entry: seq<LockInfo>) {
    exists l :: l in entry && l.depth.Infinity?
  }

  function InfinityKeys(store: LockStore): (r: set<Path>)
    ensures forall p :: p in r <==> p in store && HoldsInfinity(store[p])
  {
    set p | p in store && HoldsInfinity(store[p])
  }

  /** The scan over the entries that hold an infinity lock. */
  ghost predicate Scan(store: LockStore, target: Path, f: seq<LockInfo> -> bool) {
    exists p :: p in InfinityKeys(store) && p < target && f(store[p])
  }

  /** The walk over the ancestors of `p`, innermost first, while they start with the root. */
  predicate WalkUp(store: LockStore, p: Path, root: Path, f: seq<LockInfo> -> bool)
    decreases |p|
  {
    match Parent(p)
    case None => false
    case Some(parent) =>
      root <= parent && ((parent in store && f(store[parent])) || WalkUp(store, parent, root, f))
  }

  /** Few infinity entries are scanned; many are looked up on the way to the root. */
  ghost predicate Search(store: LockStore, target: Path, root: Path, f: seq<LockInfo> -> bool) {
    if |InfinityKeys(store)| <= 10 then Scan(store, target, f) else WalkUp(store, target, root, f)
  }

  /** `walk_locked_ancestors`. */
  method WalkLockedAncestors(store: LockStore, target: Path, root: Path, f: seq<LockInfo> -> bool)
    returns (r: bool)
    requires CanonicalKeys(store) && Canonical(target)
    ensures r == Search(store, target, root, f)
  {
    var entries := InfinityKeys(store);
    if |entries| <= 10 {
      var rest := entries;
      while rest != {}
        invariant rest <= entries
        invariant forall p :: p in entries - rest ==> !(p < target && f(store[p]))
      {
        var p :| p in rest;
        var above := TestAncestor(p, target);
        if above && f(store[p]) { return true; }
        rest := rest - {p};
      }
      return false;
    } else {
      var current := target;
      while current != []
        invariant WalkUp(store, target, root, f) == WalkUp(store, current, root, f)
        decreases |current|
      {
        var parent := current[..|current| - 1];
        if !(root <= parent) { return false; }
        if parent in store && f(store[parent]) { return true; }
        current := parent;
      }
      return false;
    }
  }

  /** The walk finds exactly the ancestors at or below the root that satisfy the test. */
  lemma {:induction false} WalkUpFinds(store: LockStore, p: Path, root: Path, f: seq<LockInfo> -> bool)
    ensures WalkUp(store, p, root, f) <==> exists q :: q in store && root <= q && q < p && f(store[q])
    decreases |p|
  {
    if p != [] {
      var parent := Parent(p).value;
      WalkUpFinds(store, parent, root, f);
      if q :| q in store && root <= q && q < p && f(store[q]) {
        assert q == parent || q < parent;
      }
    }
  }

  ghost predicate AncestorSatisfies(store: LockStore, target: Path, f: seq<LockInfo> -> bool) {
    exists p :: p in store && p < target && f(store[p])
  }

  ghost predicate KeysFromRoot(store: LockStore, root: Path) {
    forall p :: p in store ==> root <= p
  }

  ghost predicate OnlyInfinity(store: LockStore, f: seq<LockInfo> -> bool) {
    forall p :: p in store && f(store[p]) ==> HoldsInfinity(store[p])
  }

  /** On a store below the root, and for a test that only infinity locks can pass, both
      algorithms answer "some proper ancestor in the store passes the test". */
  lemma AlgorithmsAgree(store: LockStore, target: Path, root: Path, f: seq<LockInfo> -> bool)
    requires KeysFromRoot(store, root) && OnlyInfinity(store, f)
    ensures Scan(store, target, f) <==> AncestorSatisfies(store, target, f)
    ensures WalkUp(store, target, root, f) <==> AncestorSatisfies(store, target, f)
    ensures Search(store, target, root, f) <==> AncestorSatisfies(store, target, f)
  {
    WalkUpFinds(store, target, root, f);
    if p :| p in store && p < target && f(store[p]) {
      assert p in InfinityKeys(store);
    }
  }

  // ---- Admission of one path ------------------------------------------------------------

  predicate Refuses(infos: seq<LockInfo>, lists: seq<IfList>, requestPath: string, now: nat) {
    HoldsActiveInfinity(infos, now) && !EvalIf(lists, infos, requestPath, now)
  }

  /** `is_path_locked`. */
  ghost predicate IsPathLocked(store: LockStore, path: Path, lists: seq<IfList>, root: Path, requestPath: string, now: nat) {
    || !EvalIf(lists, LocksAt(store, path), requestPath, now)
    || Search(store, path, root, infos => Refuses(infos, lists, requestPath, now))
  }

  /** The admission test without either search algorithm. */
  lemma IsPathLockedMeans(store: LockStore, path: Path, lists: seq<IfList>, root: Path, requestPath: string, now: nat)
    requires KeysFromRoot(store, root)
    ensures IsPathLocked(store, path, lists, root, requestPath, now) <==>
            || !EvalIf(lists, LocksAt(store, path), requestPath, now)
            || exists p :: p in store && p < path && Refuses(store[p], lists, requestPath, now)
  {
    var f := infos => Refuses(infos, lists, requestPath, now);
    assert OnlyInfinity(store, f);
    AlgorithmsAgree(store, path, root, f);
    assert AncestorSatisfies(store, path, f) <==>
           exists p :: p in store && p < path && Refuses(store[p], lists, requestPath, now) by {
      if p :| p in store && p < path && Refuses(store[p], lists, requestPath, now) {
        assert f(store[p]);
      }
    }
  }

  // ---- Cleanup is invisible to admission --------------------------------------------------

  /** Expired locks play no part in the evaluation of a header. */
  lemma EvalIfOfActive(infos: seq<LockInfo>, lists: seq<IfList>, requestPath: string, now: nat)
    ensures EvalIf(lists, Active(infos, now), requestPath, now) == EvalIf(lists, infos, requestPath, now)
    ensures HoldsActiveInfinity(Active(infos, now), now) == HoldsActiveInfinity(infos, now)
  {
    FilterTwice(infos, (l: LockInfo) => !l.IsExpired(now));
  }

  lemma CleanupKeepsLocksAt(store: LockStore, p: Path, now: nat)
    ensures LocksAt(CleanupSection(store, now), p) == Active(LocksAt(store, p), now)
  {
    NoneActive(LocksAt(store, p), now);
  }

  lemma CleanupKeepsRefusal(store: LockStore, p: Path, lists: seq<IfList>, requestPath: string, now: nat)
    ensures var after := CleanupSection(store, now);
            (p in after && Refuses(after[p], lists, requestPath, now)) <==>
            (p in store && Refuses(store[p], lists, requestPath, now))
  {
    if p in store {
      EvalIfOfActive(store[p], lists, requestPath, now);
    }
  }

  /** The admission of a path is the same before and after cleanup, even when cleanup takes the
      store across the ten-entry threshold that selects the search algorithm. */
  lemma CleanupInvisible(store: LockStore, path: Path, lists: seq<IfList>, root: Path, requestPath: string, now: nat)
    requires KeysFromRoot(store, root)
    ensures IsPathLocked(CleanupSection(store, now), path, lists, root, requestPath, now) <==>
            IsPathLocked(store, path, lists, root, requestPath, now)
  {
    var after := CleanupSection(store, now);
    IsPathLockedMeans(store, path, lists, root, requestPath, now);
    IsPathLockedMeans(after, path, lists, root, requestPath, now);
    CleanupKeepsLocksAt(store, path, now);
    EvalIfOfActive(LocksAt(store, path), lists, requestPath, now);
    forall p
      ensures (p in after && Refuses(after[p], lists, requestPath, now)) <==>
              (p in store && Refuses(store[p], lists, requestPath, now))
    {
      CleanupKeepsRefusal(store, p, lists, requestPath, now);
    }
  }

  // ---- Admission of a request -------------------------------------------------------------

  /** `OtherMethod` stands for the methods whose handlers write no resource. */
  datatype Method = PUT | DELETE | MKCOL | PROPPATCH | MOVE | COPY | LOCK | OtherMethod

  /** Methods that pass the layer unseen. */
  predicate Unchecked(m: Method) {
    m.LOCK? || m.OtherMethod?
  }

  /** A request as the layer sees it: `source` and `destination` are the resolved paths, if path
      resolution succeeds; the strings are the request path and the destination, trimmed. */
  datatype Request = Request(
    method_: Method,
    path: string,
    source: Option<Path>,
    destPath: string,
    destination: Option<Path>,
    lists: seq<IfList>,
    hasLockToken: bool
  )

  datatype Verdict = Next | Reject(status: StatusCode)

  /** The source is checked unless it is only read, the destination for COPY and MOVE; a path
      that does not resolve is left to the handler. */
  ghost predicate SourceLocked(store: LockStore, root: Path, req: Request, now: nat) {
    && !req.method_.COPY? && req.source.Some?
    && IsPathLocked(store, req.source.value, req.lists, root, req.path, now)
  }

  ghost predicate DestinationLocked(store: LockStore, root: Path, req: Request, now: nat) {
    && (req.method_.COPY? || req.method_.MOVE?) && req.destination.Some?
    && IsPathLocked(store, req.destination.value, req.lists, root, req.destPath, now)
  }

  /** `lock_enforce`. */
  ghost function LockEnforce(store: LockStore, root: Path, req: Request, now: nat): Verdict {
    if Unchecked(req.method_) then Next
    else if req.lists != [] && (forall l :: l in req.lists ==> !HasLockToken(l)) && !req.hasLockToken then
      Reject(PRECONDITION_FAILED)
    else if SourceLocked(store, root, req, now) || DestinationLocked(store, root, req, now) then
      Reject(LOCKED)
    else Next
  }

  /** The paths the layer looks up: the source unless it is only read, and the destination. */
  ghost predicate LooksUp(req: Request, p: Path) {
    || (!Unchecked(req.method_) && !req.method_.COPY? && req.source == Some(p))
    || ((req.method_.COPY? || req.method_.MOVE?) && req.destination == Some(p))
  }

  /** Cleanup never changes the verdict on a request, in any reachable state. */
  lemma CleanupKeepsVerdict(s: State, req: Request)
    requires Reachable(s)
    ensures LockEnforce(CleanupSection(s.store, s.now), s.root, req, s.now) == LockEnforce(s.store, s.root, req, s.now)
  {
    var after := CleanupSection(s.store, s.now);
    assert KeysFromRoot(s.store, s.root) by { ReachableInv(s); }
    assert SourceLocked(after, s.root, req, s.now) == SourceLocked(s.store, s.root, req, s.now) by {
      if req.source.Some? {
        CleanupInvisible(s.store, req.source.value, req.lists, s.root, req.path, s.now);
      }
    }
    assert DestinationLocked(after, s.root, req, s.now) == DestinationLocked(s.store, s.root, req, s.now) by {
      if req.destination.Some? {
        CleanupInvisible(s.store, req.destination.value, req.lists, s.root, req.destPath, s.now);
      }
    }
  }

  /** A lock covers its own resource, and with depth infinity everything below it. */
  predicate Covers(p: Path, l: LockInfo, target: Path) {
    p == target || (l.depth.Infinity? && p < target)
  }

  ghost predicate Covered(store: LockStore, target: Path, now: nat) {
    exists p, l :: Holds(store, p, l) && !l.IsExpired(now) && Covers(p, l, target)
  }

  /** Without an `If` header, the locks of one resource refuse when one of them is active. */
  lemma NoHeaderMeans(infos: seq<LockInfo>, requestPath: string, now: nat)
    ensures EvalIf([], infos, requestPath, now) <==> forall l :: l in infos ==> l.IsExpired(now)
    ensures Refuses(infos, [], requestPath, now) <==> HoldsActiveInfinity(infos, now)
  {
    NoneActive(infos, now);
  }

  lemma CoveredMeans(store: LockStore, target: Path, now: nat)
    ensures Covered(store, target, now) <==>
            || (exists l :: l in LocksAt(store, target) && !l.IsExpired(now))
            || (exists p :: p in store && p < target && HoldsActiveInfinity(store[p], now))
  {
    if l :| l in LocksAt(store, target) && !l.IsExpired(now) {
      assert Holds(store, target, l);
    }
    if p :| p in store && p < target && HoldsActiveInfinity(store[p], now) {
      var l :| l in store[p] && l.depth.Infinity? && !l.IsExpired(now);
      assert Holds(store, p, l);
    }
  }

  /** Without an `If` header, a path is refused exactly when an active lock covers it. */
  lemma LockedIffCovered(s: State, target: Path, requestPath: string)
    requires Inv(s)
    ensures IsPathLocked(s.store, target, [], s.root, requestPath, s.now) <==> Covered(s.store, target, s.now)
  {
    IsPathLockedMeans(s.store, target, [], s.root, requestPath, s.now);
    CoveredMeans(s.store, target, s.now);
    NoHeaderMeans(LocksAt(s.store, target), requestPath, s.now);
    forall p | p in s.store
      ensures Refuses(s.store[p], [], requestPath, s.now) <==> HoldsActiveInfinity(s.store[p], s.now)
    {
      NoHeaderMeans(s.store[p], requestPath, s.now);
    }
  }

  /** A request without an `If` header is rejected exactly when an active lock covers a path that the
      layer looks up for it. */
  lemma VerdictIffCovered(s: State, req: Request)
    requires Inv(s) && req.lists == []
    ensures LockEnforce(s.store, s.root, req, s.now) ==
            if exists p :: LooksUp(req, p) && Covered(s.store, p, s.now) then Reject(LOCKED) else Next
  {
    if req.source.Some? { LockedIffCovered(s, req.source.value, req.path); }
    if req.destination.Some? { LockedIffCovered(s, req.destination.value, req.destPath); }
  }

  /** The same, method by method: COPY only reads its source, MOVE writes both, and what the layer does
      not know passes. */
  lemma VerdictByMethod(s: State, req: Request)
    requires Inv(s) && req.lists == []
    ensures var source := req.source.Some? && Covered(s.store, req.source.value, s.now);
            var destination := req.destination.Some? && Covered(s.store, req.destination.value, s.now);
            LockEnforce(s.store, s.root, req, s.now) ==
            match req.method_
            case PUT => (if source then Reject(LOCKED) else Next)
            case DELETE => (if source then Reject(LOCKED) else Next)
            case MKCOL => (if source then Reject(LOCKED) else Next)
            case PROPPATCH => (if source then Reject(LOCKED) else Next)
            case MOVE => (if source || destination then Reject(LOCKED) else Next)
            case COPY => (if destination then Reject(LOCKED) else Next)
            case LOCK => Next
            case OtherMethod => Next
  {
    VerdictIffCovered(s, req);
  }

  /** 412 is answered exactly when a checked request has an `If` header, names no token in it but
      `DAV:no-lock`, plainly or negated once, and has no `Lock-Token` header. */
  lemma PreconditionFailedIff(store: LockStore, root: Path, req: Request, now: nat)
    ensures LockEnforce(store, root, req, now) == Reject(PRECONDITION_FAILED) <==>
            && req.method_ in {PUT, DELETE, MKCOL, PROPPATCH, MOVE, COPY}
            && req.lists != [] && !req.hasLockToken
            && forall l, t :: l in req.lists && (StateToken(t) in l.conditions || Not(StateToken(t)) in l.conditions) ==>
                 t == "DAV:no-lock"
  {
    forall l | l in req.lists
      ensures HasLockToken(l) <==> exists t :: (StateToken(t) in l.conditions || Not(StateToken(t)) in l.conditions) && t != "DAV:no-lock"
    {
      TokenOfList(l);
    }
  }

  lemma TokenOfList(l: IfList)
    ensures HasLockToken(l) <==> exists t :: (StateToken(t) in l.conditions || Not(StateToken(t)) in l.conditions) && t != "DAV:no-lock"
  {
    if HasLockToken(l) {
      var c :| c in l.conditions && IsLockToken(c);
      var t := if c.StateToken? then c.token else c.inner.token;
      assert c == StateToken(t) || c == Not(StateToken(t));
    }
    if t :| (StateToken(t) in l.conditions || Not(StateToken(t)) in l.conditions) && t != "DAV:no-lock" {
      assert IsLockToken(StateToken(t)) && IsLockToken(Not(StateToken(t)));
    }
  }

  /** Enforcement over runs: after LOCK has granted a lock, and until it times out or its token is
      presented, every request without an `If` header for which the layer looks up a path it covers
      is rejected with 423. */
  lemma GrantIsEnforced(s: State, grant: Event, events: seq<Event>, s': State, p: Path, l: LockInfo, req: Request, target: Path)
    requires Reachable(s) && Grants(s, grant, p, l)
    requires Run(Step(s, grant), events, s') && (l.timeout.Some? ==> s'.now < s.now + l.timeout.value)
    requires forall e :: e in events ==> !Presents(e, l.token)
    requires req.lists == [] && LooksUp(req, target) && Covers(p, l, target)
    ensures LockEnforce(s'.store, s'.root, req, s'.now) == Reject(LOCKED)
  {
    GrantPersists(s, grant, events, s', p, l);
    assert Covered(s'.store, target, s'.now);
    VerdictIffCovered(s', req);
  }

  // ---- What presenting a token achieves -----------------------------------------------------

  /** The header `(<token>)`. */
  function TokenHeader(token: Token): seq<IfList> {
    [IfList(None, [StateToken(token)])]
  }

  lemma EvalTokenHeader(infos: seq<LockInfo>, token: Token, requestPath: string, now: nat)
    requires token != "DAV:no-lock"
    ensures EvalIf(TokenHeader(token), infos, requestPath, now) <==>
            exists l :: l in infos && !l.IsExpired(now) && l.token == token
  {
    var lists := TokenHeader(token);
    assert lists[0] in lists && StateToken(token) in lists[0].conditions;
  }

  /** The holder of a lock who sends its token in an untagged header is admitted exactly when
      that lock is on the target itself and no active infinity lock is above it. */
  lemma HolderAdmittedIff(s: State, target: Path, token: Token, requestPath: string)
    requires Reachable(s) && token != "DAV:no-lock"
    ensures !IsPathLocked(s.store, target, TokenHeader(token), s.root, requestPath, s.now) <==>
            && (exists l :: l in LocksAt(s.store, target) && !l.IsExpired(s.now) && l.token == token)
            && (forall p :: p in s.store && p < target ==> !HoldsActiveInfinity(s.store[p], s.now))
  {
    ReachableInv(s);
    IsPathLockedMeans(s.store, target, TokenHeader(token), s.root, requestPath, s.now);
    EvalTokenHeader(LocksAt(s.store, target), token, requestPath, s.now);
    forall p | p in s.store && p < target
      ensures EvalIf(TokenHeader(token), s.store[p], requestPath, s.now) ==>
              forall l :: l in LocksAt(s.store, target) ==> l.token != token
    {
      EvalTokenHeader(s.store[p], token, requestPath, s.now);
    }
  }

  /** The same for the verdict on a whole request that writes one path. */
  lemma HolderVerdictIff(s: State, req: Request, target: Path, token: Token)
    requires Reachable(s) && token != "DAV:no-lock"
    requires req.lists == TokenHeader(token) && req.source == Some(target)
    requires !Unchecked(req.method_) && !req.method_.COPY? && !req.method_.MOVE?
    ensures LockEnforce(s.store, s.root, req, s.now) ==
            if (exists l :: l in LocksAt(s.store, target) && !l.IsExpired(s.now) && l.token == token)
               && (forall p :: p in s.store && p < target ==> !HoldsActiveInfinity(s.store[p], s.now))
            then Next else Reject(LOCKED)
  {
    HolderAdmittedIff(s, target, token, req.path);
    var l := req.lists[0];
    assert l in req.lists && StateToken(token) in l.conditions && IsLockToken(StateToken(token));
    assert HasLockToken(l);
  }

  /** The header `<tag> (<token>)`. */
  function TaggedHeader(tag: string, token: Token): seq<IfList> {
    [IfList(Some(tag), [StateToken(token)])]
  }

  /** A token in a list that is tagged with the request's own path counts as in an untagged list; a list
      tagged with another path asks nothing, and any lock is passed over. */
  lemma TaggedTokenIff(s: State, target: Path, tag: string, token: Token, requestPath: string)
    requires Reachable(s) && token != "DAV:no-lock"
    ensures !IsPathLocked(s.store, target, TaggedHeader(tag, token), s.root, requestPath, s.now) <==>
            tag == requestPath ==>
              && (exists l :: l in LocksAt(s.store, target) && !l.IsExpired(s.now) && l.token == token)
              && (forall p :: p in s.store && p < target ==> !HoldsActiveInfinity(s.store[p], s.now))
  {
    ReachableInv(s);
    var lists := TaggedHeader(tag, token);
    IsPathLockedMeans(s.store, target, lists, s.root, requestPath, s.now);
    if tag == requestPath {
      HolderAdmittedIff(s, target, token, requestPath);
      IsPathLockedMeans(s.store, target, TokenHeader(token), s.root, requestPath, s.now);
    }
    forall infos
      ensures EvalIf(lists, infos, requestPath, s.now) <==> (tag == requestPath ==> EvalIf(TokenHeader(token), infos, requestPath, s.now))
    {
      EvalTagged(infos, tag, token, requestPath, s.now);
    }
  }

  lemma EvalTagged(infos: seq<LockInfo>, tag: string, token: Token, requestPath: string, now: nat)
    requires token != "DAV:no-lock"
    ensures EvalIf(TaggedHeader(tag, token), infos, requestPath, now) <==>
            (tag == requestPath ==> EvalIf(TokenHeader(token), infos, requestPath, now))
  {
    EvalTokenHeader(infos, token, requestPath, now);
    var lists := TaggedHeader(tag, token);
    assert lists[0] in lists && StateToken(token) in lists[0].conditions;
  }

  /** The target is locked with this token, and nothing above it is locked as a whole. */
  predicate HoldsAlone(s: State, target: Path, token: Token) {
    && (exists l :: l in LocksAt(s.store, target) && !l.IsExpired(s.now) && l.token == token)
    && (forall p :: p in s.store && p < target ==> !HoldsActiveInfinity(s.store[p], s.now))
  }

  lemma EvalPair(infos: seq<LockInfo>, tag: string, token: Token, other: string, otherToken: Token, now: nat)
    requires token != "DAV:no-lock" && otherToken != "DAV:no-lock" && tag != other
    ensures var lists := TaggedHeader(tag, token) + TaggedHeader(other, otherToken);
            && (EvalIf(lists, infos, tag, now) <==> EvalIf(TokenHeader(token), infos, tag, now))
            && (EvalIf(lists, infos, other, now) <==> EvalIf(TokenHeader(otherToken), infos, other, now))
  {
    EvalIfConcat(TaggedHeader(tag, token), TaggedHeader(other, otherToken), infos, tag, now);
    EvalIfConcat(TaggedHeader(tag, token), TaggedHeader(other, otherToken), infos, other, now);
    EvalTagged(infos, tag, token, tag, now);
    EvalTagged(infos, tag, token, other, now);
    EvalTagged(infos, other, otherToken, tag, now);
    EvalTagged(infos, other, otherToken, other, now);
  }

  /** Headers that every set of locks satisfies alike admit alike. */
  lemma SameHeaderSameAnswer(s: State, target: Path, lists: seq<IfList>, others: seq<IfList>, requestPath: string)
    requires Inv(s)
    requires forall infos :: EvalIf(lists, infos, requestPath, s.now) <==> EvalIf(others, infos, requestPath, s.now)
    ensures IsPathLocked(s.store, target, lists, s.root, requestPath, s.now) <==>
            IsPathLocked(s.store, target, others, s.root, requestPath, s.now)
  {
    IsPathLockedMeans(s.store, target, lists, s.root, requestPath, s.now);
    IsPathLockedMeans(s.store, target, others, s.root, requestPath, s.now);
  }

  lemma PairAdmitsIff(s: State, target: Path, tag: string, token: Token, other: string, otherToken: Token)
    requires Reachable(s) && token != "DAV:no-lock" && otherToken != "DAV:no-lock" && tag != other
    ensures var lists := TaggedHeader(tag, token) + TaggedHeader(other, otherToken);
            && (!IsPathLocked(s.store, target, lists, s.root, tag, s.now) <==> HoldsAlone(s, target, token))
            && (!IsPathLocked(s.store, target, lists, s.root, other, s.now) <==> HoldsAlone(s, target, otherToken))
  {
    ReachableInv(s);
    var lists := TaggedHeader(tag, token) + TaggedHeader(other, otherToken);
    forall infos
      ensures EvalIf(lists, infos, tag, s.now) <==> EvalIf(TokenHeader(token), infos, tag, s.now)
      ensures EvalIf(lists, infos, other, s.now) <==> EvalIf(TokenHeader(otherToken), infos, other, s.now)
    {
      EvalPair(infos, tag, token, other, otherToken, s.now);
    }
    SameHeaderSameAnswer(s, target, lists, TokenHeader(token), tag);
    SameHeaderSameAnswer(s, target, lists, TokenHeader(otherToken), other);
    HolderAdmittedIff(s, target, token, tag);
    HolderAdmittedIff(s, target, otherToken, other);
  }

  /** A COPY or MOVE that names the token of each side under its own tag passes exactly when the tokens
      it needs are those of its paths: both for MOVE, the destination's for COPY. */
  lemma TransferVerdictIff(s: State, req: Request, source: Path, token: Token, destination: Path, destToken: Token)
    requires Reachable(s) && token != "DAV:no-lock" && destToken != "DAV:no-lock" && req.path != req.destPath
    requires (req.method_.MOVE? || req.method_.COPY?) && req.source == Some(source) && req.destination == Some(destination)
    requires req.lists == TaggedHeader(req.path, token) + TaggedHeader(req.destPath, destToken)
    ensures LockEnforce(s.store, s.root, req, s.now) ==
            if (req.method_.MOVE? ==> HoldsAlone(s, source, token)) && HoldsAlone(s, destination, destToken)
            then Next else Reject(LOCKED)
  {
    PairAdmitsIff(s, source, req.path, token, req.destPath, destToken);
    PairAdmitsIff(s, destination, req.path, token, req.destPath, destToken);
    var l := req.lists[0];
    assert l in req.lists && StateToken(token) in l.conditions && IsLockToken(StateToken(token));
    assert HasLockToken(l);
  }

  /** So the holder of an infinity lock is refused everywhere below it, although LOCK granted it
      the whole subtree: the condition is looked up at the target alone. */
  lemma HolderBelowIsRefused(s: State, p: Path, l: LockInfo, target: Path, requestPath: string)
    requires Reachable(s) && l.token != "DAV:no-lock"
    requires Holds(s.store, p, l) && !l.IsExpired(s.now) && l.depth.Infinity? && p < target
    ensures IsPathLocked(s.store, target, TokenHeader(l.token), s.root, requestPath, s.now)
  {
    HolderAdmittedIff(s, target, l.token, requestPath);
    assert HoldsActiveInfinity(s.store[p], s.now);
  }

  // ---- Headers that present no token ----------------------------------------------------------

  /** The lock is active where the header is evaluated for `target`: on the target, or on an ancestor
      that holds an active infinity lock. */
  ghost predicate Consulted(s: State, target: Path, q: Path, l: LockInfo) {
    && Holds(s.store, q, l) && !l.IsExpired(s.now)
    && (q == target || (q < target && HoldsActiveInfinity(s.store[q], s.now)))
  }

  /** The conditions of the lists that apply to the request path. */
  ghost predicate Asks(lists: seq<IfList>, requestPath: string, c: IfCondition) {
    exists l :: l in lists && (l.resourceTag == None || l.resourceTag == Some(requestPath)) && c in l.conditions
  }

  lemma EvalIfMeans(lists: seq<IfList>, infos: seq<LockInfo>, requestPath: string, now: nat)
    requires lists != []
    ensures EvalIf(lists, infos, requestPath, now) <==>
            forall c :: Asks(lists, requestPath, c) ==> EvalActive(c, Active(infos, now))
  {
    if forall c :: Asks(lists, requestPath, c) ==> EvalActive(c, Active(infos, now)) {
      forall l, c | l in lists && Applicable(l, requestPath) && c in l.conditions ensures EvalActive(c, Active(infos, now)) {
        assert Asks(lists, requestPath, c);
      }
    }
  }

  /** The condition asks that a lock be absent, and no consulted lock is that one; or that the target
      not be without locks, and it is not. */
  ghost predicate Denies(s: State, target: Path, c: IfCondition) {
    && c.Not? && c.inner.StateToken?
    && (if c.inner.token == "DAV:no-lock" then exists l :: l in LocksAt(s.store, target) && !l.IsExpired(s.now)
        else forall q, l :: Consulted(s, target, q, l) ==> l.token != c.inner.token)
  }

  /** One condition, everywhere it is evaluated. */
  ghost predicate HoldsEverywhere(s: State, target: Path, c: IfCondition) {
    && EvalActive(c, Active(LocksAt(s.store, target), s.now))
    && forall q :: q in s.store && q < target && HoldsActiveInfinity(s.store[q], s.now) ==>
         EvalActive(c, Active(s.store[q], s.now))
  }

  lemma AdmittedMeans(s: State, target: Path, lists: seq<IfList>, requestPath: string)
    requires Inv(s) && lists != []
    ensures !IsPathLocked(s.store, target, lists, s.root, requestPath, s.now) <==>
            forall c :: Asks(lists, requestPath, c) ==> HoldsEverywhere(s, target, c)
  {
    IsPathLockedMeans(s.store, target, lists, s.root, requestPath, s.now);
    EvalIfMeans(lists, LocksAt(s.store, target), requestPath, s.now);
    forall q | q in s.store
      ensures EvalIf(lists, s.store[q], requestPath, s.now) <==>
              forall c :: Asks(lists, requestPath, c) ==> EvalActive(c, Active(s.store[q], s.now))
    {
      EvalIfMeans(lists, s.store[q], requestPath, s.now);
    }
  }

  /** A token that no consulted lock has fails everywhere. */
  lemma AbsentTokenEverywhere(s: State, target: Path, t: Token)
    requires t != "DAV:no-lock" && forall q, l :: Consulted(s, target, q, l) ==> l.token != t
    ensures !HoldsEverywhere(s, target, StateToken(t)) && HoldsEverywhere(s, target, Not(StateToken(t)))
  {
    forall l | l in Active(LocksAt(s.store, target), s.now) ensures l.token != t {
      assert Consulted(s, target, target, l);
    }
    forall q, l | q in s.store && q < target && HoldsActiveInfinity(s.store[q], s.now) && l in Active(s.store[q], s.now)
      ensures l.token != t
    {
      assert Consulted(s, target, q, l);
    }
  }

  lemma DeniedTokenFails(s: State, target: Path, q: Path, l: LockInfo)
    requires Consulted(s, target, q, l) && l.token != "DAV:no-lock"
    ensures !HoldsEverywhere(s, target, Not(StateToken(l.token)))
  {
    var active := Active(s.store[q], s.now);
    assert l in active && EvalActive(StateToken(l.token), active);
    assert !EvalActive(Not(StateToken(l.token)), active);
  }

  /** The two conditions on `DAV:no-lock`, at a covered target. */
  lemma NoLockEverywhere(s: State, target: Path)
    requires exists q, l :: Consulted(s, target, q, l)
    ensures !HoldsEverywhere(s, target, StateToken("DAV:no-lock"))
    ensures HoldsEverywhere(s, target, Not(StateToken("DAV:no-lock"))) <==>
            exists l :: l in LocksAt(s.store, target) && !l.IsExpired(s.now)
  {
    var q, l :| Consulted(s, target, q, l);
    assert l in Active(s.store[q], s.now);
    var none := StateToken("DAV:no-lock");
    assert forall a :: EvalActive(none, a) <==> a == [];
    assert forall a :: EvalActive(Not(none), a) <==> a != [];
    NoneActive(LocksAt(s.store, target), s.now);
    forall p | p in s.store && HoldsActiveInfinity(s.store[p], s.now) ensures Active(s.store[p], s.now) != [] {
      NoneActive(s.store[p], s.now);
    }
  }

  /** A request whose header presents none of the tokens that matter to a covered target is let through
      all the same exactly when it has a header, and every condition that applies to its path only
      denies tokens that are not there. */
  lemma AdmittedWithoutTokenIff(s: State, target: Path, lists: seq<IfList>, requestPath: string)
    requires Inv(s) && (exists q, l :: Consulted(s, target, q, l))
    requires forall c :: Asks(lists, requestPath, c) ==> c.StateToken? || c.inner.StateToken?
    requires forall q, l :: Consulted(s, target, q, l) ==> l.token != "DAV:no-lock" && !Asks(lists, requestPath, StateToken(l.token))
    ensures !IsPathLocked(s.store, target, lists, s.root, requestPath, s.now) <==>
            lists != [] && forall c :: Asks(lists, requestPath, c) ==> Denies(s, target, c)
  {
    if lists == [] {
      var q, l :| Consulted(s, target, q, l);
      ConsultedIsCovered(s, target, q, l);
      LockedIffCovered(s, target, requestPath);
    } else {
      AdmittedMeans(s, target, lists, requestPath);
      forall c | Asks(lists, requestPath, c) ensures HoldsEverywhere(s, target, c) <==> Denies(s, target, c) {
        ConditionEverywhere(s, target, lists, requestPath, c);
      }
    }
  }

  lemma ConsultedIsCovered(s: State, target: Path, q: Path, l: LockInfo)
    requires Consulted(s, target, q, l)
    ensures Covered(s.store, target, s.now)
  {
    CoveredMeans(s.store, target, s.now);
  }

  lemma ConditionEverywhere(s: State, target: Path, lists: seq<IfList>, requestPath: string, c: IfCondition)
    requires (exists q, l :: Consulted(s, target, q, l)) && Asks(lists, requestPath, c)
    requires c.StateToken? || c.inner.StateToken?
    requires forall q, l :: Consulted(s, target, q, l) ==> l.token != "DAV:no-lock" && !Asks(lists, requestPath, StateToken(l.token))
    ensures HoldsEverywhere(s, target, c) <==> Denies(s, target, c)
  {
    NoLockEverywhere(s, target);
    match c
    case StateToken(t) =>
      if t != "DAV:no-lock" { AbsentTokenEverywhere(s, target, t); }
    case Not(inner) =>
      var t := inner.token;
      if t != "DAV:no-lock" {
        if q, l :| Consulted(s, target, q, l) && l.token == t {
          DeniedTokenFails(s, target, q, l);
        } else {
          AbsentTokenEverywhere(s, target, t);
        }
      }
  }

  // ---- Expired locks and new exclusive locks ------------------------------------------------

  /** An exclusive LOCK at a resource without active locks is refused exactly when an expired
      lock that has not been cleaned up yet carries a token the request does not present. */
  lemma ExpiredLocksBlock(entry: seq<LockInfo>, req: LockRequest, now: nat, newToken: Token)
    requires Active(entry, now) == [] && req.scope.Exclusive?
    ensures Decide(entry, req, now, newToken).Failure? <==> exists l :: l in entry && l.token !in req.tokens
  {
    NoneActive(entry, now);
  }

  /** For instance, a lock that has timed out in a reachable state still refuses a new exclusive LOCK
      without tokens; the same request is let through once cleanup has run. */
  lemma ExpiredLockBlocksUntilCleanup(root: Path, old': LockRequest, token: Token, req: LockRequest, newToken: Token)
    returns (s: State)
    requires Canonical(root) && StrictlyBelow(root, req.target) && old'.target == req.target
    requires old'.timeout.Some? && req.scope.Exclusive? && req.tokens == []
    ensures Reachable(s) && s.store == map[req.target := [LockInfo(old'.scope, token, old'.owner, 0, old'.timeout, old'.depth)]]
    ensures s.now == old'.timeout.value && s.store[req.target][0].IsExpired(s.now)
    ensures LockSection(s.store, req, None, s.now, newToken).1 == Refused(LOCKED)
    ensures Reachable(Step(s, Cleanup))
    ensures LockSection(Step(s, Cleanup).store, req, None, s.now, newToken).1 == CreateLockNull
  {
    s := LoneLock(root, old', token, old'.timeout.value);
    ReachableStep(s, Cleanup);
    var l := NewLock(old', token, 0);
    assert l in s.store[req.target];
    assert CheckExistingExclusive([l], [], s.now) == Success(None);
    CleanupKeepsLocksAt(s.store, req.target, s.now);
    NoneActive([l], s.now);
  }
}
