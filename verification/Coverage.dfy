/** What the handlers write, against what the enforcement layer looks up: exactly which requests the
    locks protect their resources from. Requests are without an `If` header. */
module Coverage {
  import opened Prelude
  import opened Paths
  import opened FileTree
  import opened Locks
  import opened LockHandlers
  import opened LockRuns
  import opened Enforcement
  import opened PathGuard
  import opened Resolution
  import opened Percent
  import opened HandlerWrites
  import Text

  function Found<E>(r: Result<Path, E>): Option<Path> {
    match r
    case Success(p) => Some(p)
    case Failure(_) => None
  }

  /** The request as the layer sees it. */
  function LayerView(env: Env, req: HttpRequest): Request {
    Request(req.method_, Text.TrimEnd(req.uri, IsSlash), Found(LockKey(env, req.uri)),
            if req.destination.Some? then Text.TrimEnd(req.destination.value, IsSlash) else "",
            if req.destination.Some? then Found(LockKey(env, req.destination.value)) else None,
            [], req.hasLockToken)
  }

  /** The layer looks this path up for the request. */
  ghost predicate IsKey(env: Env, req: HttpRequest, p: Path) {
    LooksUp(LayerView(env, req), p)
  }

  ghost predicate Admitted(env: Env, req: HttpRequest, s: State) {
    LockEnforce(s.store, s.root, LayerView(env, req), s.now) == Next
  }

  /** LOCK makes a file only where there is no lock. */
  predicate Acts(req: HttpRequest, s: State, p: Path) {
    req.method_.LOCK? ==> LocksAt(s.store, p) == []
  }

  /** The handler would write a path that an active lock covers. */
  ghost predicate WritesCovered(env: Env, req: HttpRequest, s: State) {
    exists p :: Writes(env, req, p) && Acts(req, s, p) && Covered(s.store, p, s.now)
  }

  /** An active lock strictly inside a collection the request is about covers something written. */
  ghost predicate MembersLocked(env: Env, req: HttpRequest, s: State) {
    exists g, q, l, p :: Head(env, req, g) && MemberLock(s, g, q, l) && Covers(q, l, p) && Writes(env, req, p)
  }

  ghost predicate MemberLock(s: State, g: Path, q: Path, l: LockInfo) {
    Holds(s.store, q, l) && !l.IsExpired(s.now) && g < q
  }

  /** The layer refuses the request whenever it would write a covered path, locked members apart. */
  ghost predicate IsGuarded(env: Env, req: HttpRequest) {
    forall s :: Reachable(s) && s.root == env.root && Admitted(env, req, s) && WritesCovered(env, req, s) ==>
      MembersLocked(env, req, s)
  }

  /** Some lock can cover the path while the request may still write it: LOCK is stopped by a lock at
      the path itself, so there it must be one further up. */
  predicate CanBeCovered(env: Env, req: HttpRequest, h: Path) {
    StrictlyBelow(env.root, h) && (req.method_.LOCK? ==> env.root < Up(h))
  }

  /** A path that the request writes and the layer does not look up, outside the collections that the
      request is about. */
  ghost predicate Misses(env: Env, req: HttpRequest, h: Path) {
    && Target(env, req, h) && CanBeCovered(env, req, h) && !IsKey(env, req, h)
    && forall g :: Head(env, req, g) ==> !(g < h)
  }

  // ---- A covered write is seen or missed ------------------------------------------------------------

  lemma PrefixesCompare(a: Path, b: Path, p: Path)
    requires a <= p && b <= p
    ensures a <= b || b < a
  {
    assert a == p[..|a|] && b == p[..|b|];
  }

  lemma ProperPrefix(a: Path, b: Path)
    requires a <= b && a != b
    ensures a < b
  {
  }

  /** What covers a path below `g` covers `g`, or lies below it. */
  lemma CoverBelow(s: State, g: Path, p: Path) returns (q: Path, l: LockInfo)
    requires g < p && Covered(s.store, p, s.now)
    ensures Holds(s.store, q, l) && !l.IsExpired(s.now) && Covers(q, l, p)
    ensures Covers(q, l, g) || g < q
  {
    q, l :| Holds(s.store, q, l) && !l.IsExpired(s.now) && Covers(q, l, p);
    PrefixesCompare(q, g, p);
    if q <= g && q != g { ProperPrefix(q, g); }
  }

  lemma WholeIsTarget(env: Env, req: HttpRequest, g: Path)
    requires Whole(env, req, g)
    ensures Head(env, req, g) && Target(env, req, g) && !req.method_.LOCK?
  {
    if req.method_.COPY? || req.method_.MOVE? {
      var job := JobOf(env, req).value;
      if g == job.dest && Clears(env, job) { assert First(env, job) == Some(g); }
    }
  }

  /** The handler writes a covered path exactly when one of its targets is covered, or a lock lies inside
      what it takes as a whole. */
  lemma WritesCoveredIff(env: Env, req: HttpRequest, s: State)
    ensures WritesCovered(env, req, s) <==>
            || (exists h :: Target(env, req, h) && Acts(req, s, h) && Covered(s.store, h, s.now))
            || (exists g, q, l :: Whole(env, req, g) && MemberLock(s, g, q, l))
  {
    if WritesCovered(env, req, s) {
      var p :| Writes(env, req, p) && Acts(req, s, p) && Covered(s.store, p, s.now);
      if !Target(env, req, p) {
        var g :| Whole(env, req, g) && g < p;
        WholeIsTarget(env, req, g);
        var q, l := CoverBelow(s, g, p);
        assert MemberLock(s, g, q, l) || (Covered(s.store, g, s.now) && Acts(req, s, g));
      }
    }
    if h :| Target(env, req, h) && Acts(req, s, h) && Covered(s.store, h, s.now) {
      assert Writes(env, req, h);
    }
    if g, q, l :| Whole(env, req, g) && MemberLock(s, g, q, l) {
      WholeIsTarget(env, req, g);
      assert Writes(env, req, q) && Covers(q, l, q) && Acts(req, s, q);
    }
  }

  /** Without locked members, a covered path below a collection means a covered collection. */
  lemma CoveredAbove(env: Env, req: HttpRequest, s: State, g: Path, p: Path)
    requires !MembersLocked(env, req, s) && Head(env, req, g) && g < p
    requires Writes(env, req, p) && Covered(s.store, p, s.now)
    ensures Covered(s.store, g, s.now)
  {
    var q, l := CoverBelow(s, g, p);
    if g < q { MemberIsLocked(env, req, s, g, q, l, p); }
  }

  lemma MemberIsLocked(env: Env, req: HttpRequest, s: State, g: Path, q: Path, l: LockInfo, p: Path)
    requires Head(env, req, g) && MemberLock(s, g, q, l) && Covers(q, l, p) && Writes(env, req, p)
    ensures MembersLocked(env, req, s)
  {
  }

  lemma HeadIsSeenOrWritten(env: Env, req: HttpRequest, g: Path)
    requires Head(env, req, g)
    ensures IsKey(env, req, g) || Target(env, req, g)
  {
    if (req.method_.COPY? || req.method_.MOVE?) && JobOf(env, req).Some? {
      GuardedIsKey(env, req.destination.value);
    }
  }

  lemma CoveredIsBelowRoot(s: State, h: Path)
    requires Inv(s) && Covered(s.store, h, s.now)
    ensures s.root < h && (LocksAt(s.store, h) == [] ==> s.root < Up(h))
  {
    var q, l :| Holds(s.store, q, l) && !l.IsExpired(s.now) && Covers(q, l, h);
    assert StrictlyBelow(s.root, q);
    if q != h { assert q <= Up(h); }
  }

  lemma {:induction false} CoveredHeadIsSeen(env: Env, req: HttpRequest, s: State, g: Path) returns (k: Path)
    requires EnvOk(env) && Inv(s) && s.root == env.root && (forall h :: !Misses(env, req, h))
    requires !MembersLocked(env, req, s) && Head(env, req, g) && Covered(s.store, g, s.now)
    ensures IsKey(env, req, k) && Covered(s.store, k, s.now)
    decreases |g|
  {
    HeadIsSeenOrWritten(env, req, g);
    if IsKey(env, req, g) {
      k := g;
    } else if f :| Head(env, req, f) && f < g {
      CoveredAbove(env, req, s, f, g);
      k := CoveredHeadIsSeen(env, req, s, f);
    } else {
      CoveredIsSeen(env, req, s, g);
      k := g;
    }
  }

  lemma CoveredIsSeen(env: Env, req: HttpRequest, s: State, h: Path)
    requires EnvOk(env) && Inv(s) && s.root == env.root && (forall f :: !Misses(env, req, f))
    requires Target(env, req, h) && Acts(req, s, h) && Covered(s.store, h, s.now)
    requires forall g :: Head(env, req, g) ==> !(g < h)
    ensures IsKey(env, req, h)
  {
    TargetIsCanonical(env, req, h);
    CoveredIsBelowRoot(s, h);
    assert !Misses(env, req, h);
  }

  lemma CoveredWriteIsSeen(env: Env, req: HttpRequest, s: State) returns (k: Path)
    requires EnvOk(env) && Inv(s) && s.root == env.root && (forall h :: !Misses(env, req, h))
    requires WritesCovered(env, req, s) && !MembersLocked(env, req, s)
    ensures IsKey(env, req, k) && Covered(s.store, k, s.now)
  {
    var p :| Writes(env, req, p) && Acts(req, s, p) && Covered(s.store, p, s.now);
    if g :| Head(env, req, g) && g < p {
      CoveredAbove(env, req, s, g, p);
      k := CoveredHeadIsSeen(env, req, s, g);
    } else {
      forall g | Whole(env, req, g) ensures Head(env, req, g) { WholeIsTarget(env, req, g); }
      CoveredIsSeen(env, req, s, p);
      k := p;
    }
  }

  lemma NothingMissedIsGuarded(env: Env, req: HttpRequest, s: State)
    requires EnvOk(env) && Inv(s) && s.root == env.root && (forall h :: !Misses(env, req, h))
    requires WritesCovered(env, req, s) && !MembersLocked(env, req, s)
    ensures LockEnforce(s.store, s.root, LayerView(env, req), s.now) == Reject(LOCKED)
  {
    var k := CoveredWriteIsSeen(env, req, s);
    VerdictIffCovered(s, LayerView(env, req));
  }

  /** A run reaches a store in which `p` is covered and nothing else. */
  lemma OnlyCovered(root: Path, p: Path) returns (s: State)
    requires Canonical(root) && StrictlyBelow(root, p)
    ensures Reachable(s) && Inv(s) && s.root == root
    ensures Covered(s.store, p, s.now) && forall q :: Covered(s.store, q, s.now) ==> q == p
    ensures forall q, l :: Holds(s.store, q, l) ==> q == p
  {
    var lock := LockRequest(p, Exclusive, None, None, Zero, []);
    s := LoneLock(root, lock, "t", 0);
    ReachableInv(s);
    var l := NewLock(lock, "t", 0);
    assert s.store[p] == [l] && l in s.store[p];
    assert Holds(s.store, p, l) && Covers(p, l, p);
    forall q ensures Covered(s.store, q, s.now) ==> q == p { LoneCover(s, p, l, q); }
  }

  lemma LoneCover(s: State, h: Path, l: LockInfo, p: Path)
    requires s.store == map[h := [l]] && l.depth.Zero?
    ensures Covered(s.store, p, s.now) ==> p == h
  {
  }

  /** A run reaches a store with an infinity lock on `p` and nothing else. */
  lemma CoveredFrom(root: Path, p: Path) returns (s: State)
    requires Canonical(root) && StrictlyBelow(root, p)
    ensures Reachable(s) && s.root == root && s.store.Keys == {p}
    ensures forall q :: p < q ==> Covered(s.store, q, s.now)
  {
    var lock := LockRequest(p, Exclusive, None, None, Infinity, []);
    s := LoneLock(root, lock, "t", 0);
    var l := NewLock(lock, "t", 0);
    assert s.store[p] == [l] && l in s.store[p];
    assert Holds(s.store, p, l);
    forall q | p < q ensures Covered(s.store, q, s.now) { assert Covers(p, l, q); }
  }

  /** A lock on a missed path, or above it where LOCK would make a file, does not keep the request from
      it. */
  lemma MissedIsWritten(env: Env, req: HttpRequest, h: Path) returns (s: State)
    requires EnvOk(env) && Misses(env, req, h)
    ensures Reachable(s) && s.root == env.root && Admitted(env, req, s) && WritesCovered(env, req, s)
    ensures Covered(s.store, h, s.now) && !MembersLocked(env, req, s)
  {
    if req.method_.LOCK? {
      assert StrictlyBelow(env.root, Up(h));
      s := CoveredFrom(env.root, Up(h));
      assert Up(h) < h && Up(h) != h;
      assert Writes(env, req, h) && Acts(req, s, h);
    } else {
      s := OnlyCovered(env.root, h);
      assert Writes(env, req, h) && Acts(req, s, h);
      VerdictIffCovered(s, LayerView(env, req));
    }
  }

  /** The layer guards a request, in every reachable state, exactly when it looks up everything that the
      request writes outside the collections it is about. */
  lemma GuardedIff(env: Env, req: HttpRequest)
    requires EnvOk(env)
    ensures IsGuarded(env, req) <==> forall h :: !Misses(env, req, h)
  {
    if forall h :: !Misses(env, req, h) {
      forall s | Reachable(s) && s.root == env.root && Admitted(env, req, s) && WritesCovered(env, req, s)
        ensures MembersLocked(env, req, s)
      {
        ReachableInv(s);
        assert MembersLocked(env, req, s) by {
          if !MembersLocked(env, req, s) { NothingMissedIsGuarded(env, req, s); }
        }
      }
    } else {
      var h :| Misses(env, req, h);
      var s := MissedIsWritten(env, req, h);
    }
  }

  lemma MembersAreWritten(env: Env, req: HttpRequest, s: State)
    requires MembersLocked(env, req, s)
    ensures WritesCovered(env, req, s)
  {
    var g, q, l, p :| Head(env, req, g) && MemberLock(s, g, q, l) && Covers(q, l, p) && Writes(env, req, p);
    assert Acts(req, s, p) && Covered(s.store, p, s.now);
  }

  /** And then it admits a request that writes a covered path exactly when, nothing it looks up being
      covered, members are locked: the locks inside a collection do not protect them from a request
      on the collection. */
  lemma AdmittedWritesIff(env: Env, req: HttpRequest, s: State)
    requires EnvOk(env) && Inv(s) && s.root == env.root && (forall h :: !Misses(env, req, h))
    ensures Admitted(env, req, s) && WritesCovered(env, req, s) <==>
            (forall p :: IsKey(env, req, p) ==> !Covered(s.store, p, s.now)) && MembersLocked(env, req, s)
  {
    VerdictIffCovered(s, LayerView(env, req));
    if MembersLocked(env, req, s) { MembersAreWritten(env, req, s); }
    if WritesCovered(env, req, s) && !MembersLocked(env, req, s) {
      NothingMissedIsGuarded(env, req, s);
    }
  }

  // ---- Method by method ---------------------------------------------------------------------------

  /** DELETE and PROPPATCH of an existing node are guarded exactly when the request path is plain and
      its last name is no symbolic link. */
  lemma NodeRequestGuardedIff(env: Env, req: HttpRequest, node: Path)
    requires EnvOk(env) && (req.method_.DELETE? || req.method_.PROPPATCH?)
    requires Existing(env, req.uri) == Some(node) && node != env.root
    ensures IsGuarded(env, req) <==> Plain(req.uri) && NotALink(env, Named(env, req.uri))
    ensures forall p :: Writes(env, req, p) <==> if req.method_ == PROPPATCH then p == node else node <= p
  {
    GuardedIff(env, req);
    NodeRequestWrites(env, req, node);
    KeyIsNodeIff(env, req.uri, node);
    ExistingIsCanonical(env, req.uri);
    assert env.root < node;
    assert Target(env, req, node);
    assert forall h :: Target(env, req, h) ==> h == node;
    assert IsKey(env, req, node) <==> LockKey(env, req.uri) == Success(node);
    if !(Plain(req.uri) && NotALink(env, Named(env, req.uri))) {
      assert Misses(env, req, node);
    }
  }

  /** PROPPATCH writes the node, DELETE everything from it on, but not from the root. */
  lemma NodeRequestWrites(env: Env, req: HttpRequest, node: Path)
    requires (req.method_.DELETE? || req.method_.PROPPATCH?) && Existing(env, req.uri) == Some(node)
    ensures forall p :: Writes(env, req, p) <==>
                        if req.method_ == PROPPATCH then p == node else node != env.root && node <= p
  {
    forall p ensures Writes(env, req, p) <==> if req.method_ == PROPPATCH then p == node else node != env.root && node <= p {
      NodeRequestWritesAt(env, req, node, p);
    }
  }

  lemma NodeRequestWritesAt(env: Env, req: HttpRequest, node: Path, p: Path)
    requires (req.method_.DELETE? || req.method_.PROPPATCH?) && Existing(env, req.uri) == Some(node)
    ensures Writes(env, req, p) <==> if req.method_ == PROPPATCH then p == node else node != env.root && node <= p
  {
    assert Target(env, req, p) <==> p == node && (req.method_ == DELETE ==> node != env.root);
    assert Whole(env, req, node) <==> req.method_ == DELETE && node != env.root;
    assert forall g :: Whole(env, req, g) ==> g == node;
    if node <= p && p != node { ProperPrefix(node, p); }
  }

  /** PUT is guarded exactly when it fails, or writes its own path or one that is not below the root:
      not when it leads through a link to another file there, or to a place where it creates one. */
  lemma PutGuardedIff(env: Env, req: HttpRequest, key: Path)
    requires EnvOk(env) && req.method_.PUT? && Guarded(env, req.uri) == Success(key)
    ensures key != []
    ensures IsGuarded(env, req) <==>
            match env.lead(Up(key), Last(key))
            case Absent => true
            case Leads(node) => env.isDir(node) || node == key || !(env.root < node)
            case Dangling(place) => place == key || !(env.root < place)
            case Broken => true
  {
    GuardedIff(env, req);
    KeyIsBelowRoot(env, req.uri);
    forall h ensures Misses(env, req, h) <==> Created(env, At(env, key)) == Some(h) && h != key && env.root < h {
      PutMissesIff(env, req, key, h);
    }
    CreatedAt(env, key);
  }

  lemma CreatedAt(env: Env, key: Path)
    requires key != []
    ensures Created(env, At(env, key)) ==
            match env.lead(Up(key), Last(key))
            case Absent => Some(key)
            case Leads(node) => (if env.isDir(node) then None else Some(node))
            case Dangling(place) => Some(place)
            case Broken => None
  {
    assert key == Up(key) + [Last(key)];
  }

  /** And it writes what opening the path for writing leads to. */
  lemma PutWrites(env: Env, req: HttpRequest, key: Path)
    requires req.method_.PUT? && Guarded(env, req.uri) == Success(key) && key != []
    ensures forall p :: Writes(env, req, p) <==>
                        match env.lead(Up(key), Last(key))
                        case Absent => p == key
                        case Leads(node) => p == node && !env.isDir(node)
                        case Dangling(place) => p == place
                        case Broken => false
  {
    assert key == Up(key) + [Last(key)];
    forall p ensures Writes(env, req, p) <==> Created(env, At(env, key)) == Some(p) {
      assert Target(env, req, p) <==> Created(env, At(env, key)) == Some(p);
      assert forall g :: !Whole(env, req, g);
    }
  }

  lemma PutMissesIff(env: Env, req: HttpRequest, key: Path, h: Path)
    requires EnvOk(env) && req.method_.PUT? && Guarded(env, req.uri) == Success(key) && key != []
    ensures Misses(env, req, h) <==> Created(env, At(env, key)) == Some(h) && h != key && env.root < h
  {
    KeyOfPut(env, req, key, h);
    assert Target(env, req, h) <==> Created(env, At(env, key)) == Some(h);
    if Target(env, req, h) { TargetIsCanonical(env, req, h); }
  }

  lemma KeyOfPut(env: Env, req: HttpRequest, key: Path, h: Path)
    requires req.method_.PUT? && Guarded(env, req.uri) == Success(key)
    ensures IsKey(env, req, h) <==> h == key
  {
    GuardedIsKey(env, req.uri);
  }

  /** MKCOL is always guarded: it writes its own key, where nothing is. */
  lemma MkcolIsGuarded(env: Env, req: HttpRequest)
    requires EnvOk(env) && req.method_.MKCOL?
    ensures IsGuarded(env, req)
    ensures forall p :: p != [] ==>
              (Writes(env, req, p) <==> LockKey(env, req.uri) == Success(p) && env.lead(Up(p), Last(p)) == Absent)
  {
    GuardedIff(env, req);
    MkcolWrites(env, req);
  }

  lemma MkcolWrites(env: Env, req: HttpRequest)
    requires req.method_.MKCOL?
    ensures forall p :: p != [] ==>
              (Writes(env, req, p) <==> LockKey(env, req.uri) == Success(p) && env.lead(Up(p), Last(p)) == Absent)
  {
    forall p | p != []
      ensures Writes(env, req, p) <==> LockKey(env, req.uri) == Success(p) && env.lead(Up(p), Last(p)) == Absent
    {
      assert forall g :: !Whole(env, req, g);
      assert Target(env, req, p) <==> LockKey(env, req.uri) == Success(p) && At(env, p).Free?;
    }
  }

  /** LOCK is guarded exactly when something is at its path already or nothing above it can be locked:
      it makes a file below somebody else's infinity lock. */
  lemma LockGuardedIff(env: Env, req: HttpRequest, key: Path)
    requires EnvOk(env) && req.method_.LOCK? && LockKey(env, req.uri) == Success(key)
    ensures key != []
    ensures IsGuarded(env, req) <==> env.lead(Up(key), Last(key)) != Absent || Up(key) == env.root
  {
    GuardedIff(env, req);
    KeyIsCanonical(env, req.uri);
    AboveKey(env.root, key);
    assert Misses(env, req, key) <==> At(env, key).Free? && Up(key) != env.root by { LockMissesIff(env, req, key, key); }
    forall h ensures Misses(env, req, h) ==> h == key { LockMissesIff(env, req, key, h); }
  }

  lemma LockMissesIff(env: Env, req: HttpRequest, key: Path, h: Path)
    requires EnvOk(env) && req.method_.LOCK? && LockKey(env, req.uri) == Success(key) && Canonical(key) && env.root < key
    ensures Misses(env, req, h) <==> h == key && At(env, key).Free? && env.root < Up(key)
  {
    TargetOfLock(env, req, key, h);
  }

  lemma TargetOfLock(env: Env, req: HttpRequest, key: Path, h: Path)
    requires req.method_.LOCK? && LockKey(env, req.uri) == Success(key) && key != []
    ensures Target(env, req, h) <==> h == key && At(env, key).Free?
    ensures !IsKey(env, req, h) && !Head(env, req, h)
  {
  }

  lemma AboveKey(root: Path, key: Path)
    requires root < key
    ensures root <= Up(key) && (root < Up(key) <==> Up(key) != root)
  {
    if root != Up(key) { ProperPrefix(root, Up(key)); }
  }

  /** Without tokens LOCK goes on to make its file exactly where there are no locks. */
  lemma LockActsIff(s: State, e: Event, req: HttpRequest)
    requires Inv(s) && Enabled(s, e) && e.Lock? && e.req.tokens == [] && req.method_.LOCK?
    ensures Outcome(s, e).1 == CreateLockNull <==> Acts(req, s, e.req.target)
  {
    DecisionIff(LocksAt(s.store, e.req.target), e.req, s.now, e.newToken);
  }

  // ---- COPY and MOVE ------------------------------------------------------------------------------

  lemma KeysOfMove(env: Env, req: HttpRequest, h: Path)
    requires req.method_.MOVE? && JobOf(env, req).Some?
    ensures IsKey(env, req, h) <==> h == JobOf(env, req).value.dest || LockKey(env, req.uri) == Success(h)
  {
    GuardedIsKey(env, req.destination.value);
  }

  lemma TargetOfCopy(env: Env, req: HttpRequest, h: Path)
    requires req.method_.COPY?
    ensures Target(env, req, h) <==> Copies(env, req, h) || Settles(env, req, h)
  {
  }

  lemma SettlesOfCopy(env: Env, req: HttpRequest, job: Job, h: Path)
    requires req.method_.COPY? && JobOf(env, req) == Some(job) && Settles(env, req, h)
    ensures h == job.dest
  {
  }

  lemma CoverOfCopy(env: Env, req: HttpRequest, h: Path)
    requires EnvOk(env) && (req.method_.COPY? || req.method_.MOVE?) && Copies(env, req, h)
    ensures CanBeCovered(env, req, h) <==> env.root < h
  {
    CopiesIsCanonical(env, req, h);
  }

  lemma CopyMissesIff(env: Env, req: HttpRequest, job: Job, h: Path)
    requires EnvOk(env) && req.method_.COPY? && JobOf(env, req) == Some(job)
    ensures Misses(env, req, h) <==> Copies(env, req, h) && env.root < h && !(job.dest <= h)
  {
    TargetOfCopy(env, req, h);
    if Settles(env, req, h) { SettlesOfCopy(env, req, job, h); }
    if Copies(env, req, h) { CoverOfCopy(env, req, h); }
    KeysOfCopy(env, req, h);
    HeadsOfCopy(env, req, job);
    assert job.dest <= h <==> job.dest == h || job.dest < h by { if job.dest <= h && h != job.dest { ProperPrefix(job.dest, h); } }
  }

  lemma KeysOfCopy(env: Env, req: HttpRequest, h: Path)
    requires req.method_.COPY? && JobOf(env, req).Some?
    ensures IsKey(env, req, h) <==> h == JobOf(env, req).value.dest
  {
    GuardedIsKey(env, req.destination.value);
  }

  lemma HeadsOfCopy(env: Env, req: HttpRequest, job: Job)
    requires req.method_.COPY? && JobOf(env, req) == Some(job)
    ensures Head(env, req, job.dest) && forall g :: Head(env, req, g) ==> g == job.dest
  {
  }

  /** COPY is guarded exactly when all that it writes below the root lies at or below its destination: when
      no name it copies to, and not the destination itself, is a link that leads elsewhere. */
  lemma CopyGuardedIff(env: Env, req: HttpRequest, job: Job)
    requires EnvOk(env) && req.method_.COPY? && JobOf(env, req) == Some(job)
    ensures IsGuarded(env, req) <==> forall h :: Copies(env, req, h) && env.root < h ==> job.dest <= h
  {
    GuardedIff(env, req);
    forall h
      ensures Misses(env, req, h) <==> Copies(env, req, h) && env.root < h && !(job.dest <= h)
    {
      CopyMissesIff(env, req, job, h);
    }
  }

  /** COPY of a file is guarded exactly when its destination is no link to another file, or to a place
      where one is created, below the root; a link to a directory is removed. */
  lemma CopyFileGuardedIff(env: Env, req: HttpRequest, job: Job)
    requires EnvOk(env) && req.method_.COPY? && JobOf(env, req) == Some(job) && !env.isDir(job.source)
    ensures IsGuarded(env, req) <==>
            match env.lead(Up(job.dest), Last(job.dest))
            case Absent => true
            case Leads(node) => env.isDir(node) || job.dest <= node || !(env.root < node)
            case Dangling(place) => job.dest <= place || !(env.root < place)
            case Broken => true
  {
    CopyGuardedIff(env, req, job);
    FileIsCopied(env, req, job);
    match env.lead(Up(job.dest), Last(job.dest))
    case Leads(node) => assert Copies(env, req, if env.isDir(node) then job.dest else node);
    case Dangling(place) => assert Copies(env, req, place);
    case _ =>
  }

  lemma FileIsCopied(env: Env, req: HttpRequest, job: Job)
    requires JobOf(env, req) == Some(job) && !env.isDir(job.source)
    ensures forall h :: Copies(env, req, h) <==>
                        match env.lead(Up(job.dest), Last(job.dest))
                        case Absent => h == job.dest
                        case Leads(node) => h == if env.isDir(node) then job.dest else node
                        case Dangling(place) => h == place
                        case Broken => false
  {
    assert job.dest == Up(job.dest) + [Last(job.dest)];
    assert forall h :: Copies(env, req, h) <==> First(env, job) == Some(h);
  }

  /** All that COPY of a file writes: what its destination leads to, the destination's dead properties, and
      everything in a directory in its place, which goes. */
  lemma CopyFileWritesIff(env: Env, req: HttpRequest, job: Job, p: Path)
    requires req.method_.COPY? && JobOf(env, req) == Some(job) && !env.isDir(job.source)
    ensures Writes(env, req, p) <==>
            match env.lead(Up(job.dest), Last(job.dest))
            case Absent => p == job.dest
            case Leads(node) =>
              (if !env.isDir(node) then p == node || p == job.dest
               else if node == job.dest then job.dest <= p
               else p == job.dest)
            case Dangling(place) => p == place || p == job.dest
            case Broken => false
  {
    assert job.dest == Up(job.dest) + [Last(job.dest)];
    PartsOfFileCopy(env, req, job, p);
    if job.dest <= p && p != job.dest { ProperPrefix(job.dest, p); }
  }

  lemma PartsOfFileCopy(env: Env, req: HttpRequest, job: Job, p: Path)
    requires req.method_.COPY? && JobOf(env, req) == Some(job) && !env.isDir(job.source)
    ensures Writes(env, req, p) <==>
            || First(env, job) == Some(p)
            || (First(env, job).Some? && !(Clears(env, job) && job.dest < job.source) && p == job.dest)
            || (Clears(env, job) && job.dest < p)
  {
    assert Copies(env, req, p) <==> First(env, job) == Some(p);
    assert Settles(env, req, p) <==> First(env, job).Some? && !(Clears(env, job) && job.dest < job.source) && p == job.dest;
    assert Whole(env, req, job.dest) <==> Clears(env, job);
    assert forall g :: Whole(env, req, g) ==> g == job.dest;
    TargetOfCopy(env, req, p);
  }

  /** COPY or MOVE of a file comes to its end unless the destination is a link to nowhere, or a directory
      that goes with the source in it. */
  lemma FileCompletesIff(env: Env, req: HttpRequest, job: Job)
    requires JobOf(env, req) == Some(job) && !env.isDir(job.source)
    ensures Completes(env, req) <==>
            && env.lead(Up(job.dest), Last(job.dest)) != Broken
            && !(env.lead(Up(job.dest), Last(job.dest)) == Leads(job.dest) && env.isDir(job.dest) && job.dest < job.source)
  {
  }

  /** A directory is not copied onto a link that leads nowhere. */
  lemma DeadLinkStopsDirectory(env: Env, req: HttpRequest, job: Job)
    requires (req.method_.COPY? || req.method_.MOVE?) && JobOf(env, req) == Some(job) && env.isDir(job.source)
    requires env.lead(Up(job.dest), Last(job.dest)).Dangling? || env.lead(Up(job.dest), Last(job.dest)) == Broken
    requires req.method_.MOVE? || !req.shallow
    ensures forall h :: !Copies(env, req, h) && !Settles(env, req, h)
  {
    assert Copying(env, req, job) == None && First(env, job) == None;
  }

  /** A shallow COPY of a directory writes its destination at most, and only where no directory is yet. */
  lemma ShallowCopyIff(env: Env, req: HttpRequest, job: Job, h: Path)
    requires req.method_.COPY? && req.shallow && JobOf(env, req) == Some(job) && env.isDir(job.source)
    ensures Copies(env, req, h) <==>
            h == job.dest && match env.lead(Up(job.dest), Last(job.dest))
                             case Absent => true
                             case Leads(node) => !env.isDir(node)
                             case _ => false
  {
    assert job.dest == Up(job.dest) + [Last(job.dest)];
  }

  /** MOVE does not look at the depth. */
  lemma MoveIgnoresDepth(env: Env, req: HttpRequest, h: Path)
    requires req.method_.MOVE?
    ensures var other := req.(shallow := !req.shallow);
            (Copies(env, req, h) <==> Copies(env, other, h)) && (Completes(env, req) <==> Completes(env, other))
  {
    var other := req.(shallow := !req.shallow);
    assert JobOf(env, req) == JobOf(env, other);
    if JobOf(env, req).Some? {
      assert Copying(env, req, JobOf(env, req).value) == Copying(env, other, JobOf(env, req).value);
    }
  }

  /** What MOVE writes outside the destination and the source it takes away, and its own key. */
  ghost predicate Strays(env: Env, req: HttpRequest, job: Job, h: Path) {
    && Copies(env, req, h) && env.root < h && !(job.dest <= h)
    && !(Completes(env, req) && job.source <= h) && LockKey(env, req.uri) != Success(h)
  }

  /** MOVE is guarded exactly when nothing it writes strays, and when its source, if it can be taken away
      and the destination does not contain it, is named by a plain path without a link at its end. */
  lemma MoveGuardedIff(env: Env, req: HttpRequest, job: Job)
    requires EnvOk(env) && req.method_.MOVE? && JobOf(env, req) == Some(job)
    ensures IsGuarded(env, req) <==>
            && (Completes(env, req) && !(job.dest <= job.source) && job.source != env.root ==>
                  Plain(req.uri) && NotALink(env, Named(env, req.uri)))
            && forall h :: !Strays(env, req, job, h)
  {
    GuardedIff(env, req);
    JobIsCanonical(env, req);
    if job.source != env.root {
      KeyIsNodeIff(env, req.uri, job.source);
      ProperPrefix(env.root, job.source);
    }
    forall h ensures Misses(env, req, h) <==> Strays(env, req, job, h) || SourceMissed(env, req, job, h) {
      MoveMissesIff(env, req, job, h);
    }
    assert SourceMissed(env, req, job, job.source) <==>
           && Completes(env, req) && !(job.dest <= job.source) && job.source != env.root
           && !(Plain(req.uri) && NotALink(env, Named(env, req.uri)));
  }

  ghost predicate SourceMissed(env: Env, req: HttpRequest, job: Job, h: Path) {
    h == job.source && Completes(env, req) && env.root < h && !(job.dest <= h) && LockKey(env, req.uri) != Success(h)
  }

  lemma HeadsOfMove(env: Env, req: HttpRequest, job: Job)
    requires req.method_.MOVE? && JobOf(env, req) == Some(job)
    ensures Head(env, req, job.dest) && (Completes(env, req) ==> Head(env, req, job.source))
    ensures forall g :: Head(env, req, g) ==> g == job.dest || (Completes(env, req) && g == job.source)
  {
  }

  lemma MoveMissesIff(env: Env, req: HttpRequest, job: Job, h: Path)
    requires EnvOk(env) && req.method_.MOVE? && JobOf(env, req) == Some(job)
    ensures Misses(env, req, h) <==> Strays(env, req, job, h) || SourceMissed(env, req, job, h)
  {
    KeysOfMove(env, req, h);
    HeadsOfMove(env, req, job);
    JobIsCanonical(env, req);
    if Copies(env, req, h) { CoverOfCopy(env, req, h); }
    if job.dest <= h && h != job.dest { ProperPrefix(job.dest, h); }
    if job.source <= h && h != job.source { ProperPrefix(job.source, h); }
  }

  // ---- Requests that are not guarded ----------------------------------------------------------------------------

  /** `/./f` names a file that is removed, and no key. */
  lemma DotSegmentIsNotGuarded(env: Env, name: Name, req: HttpRequest)
    requires EnvOk(env) && req.method_.DELETE? && req.uri == "/./f" && name == ['f' as int]
    requires Lookup(env, env.root, name) == Some(env.root + [name])
    ensures Existing(env, req.uri) == Some(env.root + [name]) && LockKey(env, req.uri) == Failure(InvalidPath)
    ensures !IsGuarded(env, req)
  {
    DotSegmentBytes(name);
    var node := env.root + [name];
    var p := env.rootDir + [name];
    assert Up(p) == env.rootDir && Last(p) == name;
    assert Canonicalize(env, p) == Some(node);
    assert Existing(env, req.uri) == Some(node);
    KeyOfPlain(env, req.uri);
    NodeRequestGuardedIff(env, req, node);
  }

  lemma DecodeDotSegment(name: Name)
    requires name == ['f' as int]
    ensures TrimSlashes(Decode("/./f")) == [DOT, SLASH, name[0]] && Text.TrimEnd("/./f", IsSlash) == "/./f"
  {
    DecodePlain('/', "./f");
    DecodePlain('.', "/f");
    DecodePlain('/', "f");
    DecodePlain('f', "");
    assert "/./f" == ['/'] + "./f" && "./f" == ['.'] + "/f" && "/f" == ['/'] + "f" && "f" == ['f'] + "";
    var bytes: seq<byte> := [SLASH, DOT, SLASH, name[0]];
    assert Decode("/./f") == bytes;
    assert bytes[1..] == [DOT, SLASH, name[0]];
  }

  lemma DotSegmentPieces(name: Name)
    requires name == ['f' as int]
    ensures Pieces([DOT, SLASH, name[0]]) == [[DOT], name]
  {
    var last: seq<byte> := [name[0]];
    assert last[1..] == [] && name == [name[0]] + [];
    var none: seq<Name> := [[]];
    assert Pieces(last) == [name] + none[1..];
    var tail: seq<byte> := [SLASH, name[0]];
    assert tail[1..] == last && Pieces(tail) == [[], name];
    var trimmed: seq<byte> := [DOT, SLASH, name[0]];
    assert trimmed[1..] == tail;
    assert [DOT] + [] == [DOT] && [[], name][1..] == [name];
  }

  lemma DotSegmentBytes(name: Name)
    requires name == ['f' as int]
    ensures Components(TrimSlashes(Decode("/./f"))) == [name]
    ensures !AsksForDirectory(TrimSlashes(Decode("/./f"))) && !Plain("/./f")
  {
    DecodeDotSegment(name);
    DotSegmentPieces(name);
    FilterDot(name);
    assert [[DOT], name][0] == [DOT] && [[DOT], name][1] == name;
  }

  lemma FilterDot(name: Name)
    requires name == ['f' as int]
    ensures Filter([[DOT], name], (n: Name) => n != [] && n != [DOT]) == [name]
  {
    var dot: Name := [DOT];
    FilterConcat([dot], [name], (n: Name) => n != [] && n != [DOT]);
    assert [dot] + [name] == [[DOT], name];
  }

  /** `/a`, where `a` is a symbolic link: its target is removed, and the key is the link's own path. */
  lemma LinkIsNotGuarded(env: Env, name: Name, node: Path, req: HttpRequest)
    requires EnvOk(env) && req.method_.DELETE? && req.uri == "/a" && name == ['a' as int]
    requires Lookup(env, env.root, name) == Some(node) && env.root < node && node != env.root + [name]
    ensures Existing(env, req.uri) == Some(node) && LockKey(env, req.uri) == Success(env.root + [name])
    ensures !IsGuarded(env, req)
  {
    OneSegmentBytes(name);
    var p := env.rootDir + [name];
    assert Up(p) == env.rootDir && Last(p) == name;
    assert Canonicalize(env, p) == Some(node);
    assert Existing(env, req.uri) == Some(node);
    KeyOfPlain(env, req.uri);
    assert Named(env, req.uri) == p;
    NodeRequestGuardedIff(env, req, node);
  }

  lemma OneSegmentBytes(name: Name)
    requires name == ['a' as int]
    ensures Components(TrimSlashes(Decode("/a"))) == [name]
    ensures !AsksForDirectory(TrimSlashes(Decode("/a"))) && Plain("/a")
    ensures Text.TrimEnd("/a", IsSlash) == "/a"
  {
    var uri := "/a";
    DecodePlain('/', "a");
    DecodePlain('a', "");
    assert uri == ['/'] + "a" && "a" == ['a'] + "";
    var bytes: seq<byte> := [SLASH, name[0]];
    assert Decode(uri) == bytes;
    var trimmed: seq<byte> := [name[0]];
    assert bytes[1..] == trimmed && TrimSlashes(bytes) == trimmed;
    assert trimmed[1..] == [];
    assert Pieces(trimmed) == [name];
    assert Text.TrimEnd(uri, IsSlash) == uri;
  }

  /** COPY of a directory to an existing one: an entry whose name is a link at the destination, to a file
      or to a place where one can be created, is written through the link, and nothing looks up where that
      leads. */
  lemma InnerLinkIsNotGuarded(env: Env, req: HttpRequest, job: Job, name: Name, node: Path) returns (s: State)
    requires EnvOk(env) && req.method_.COPY? && !req.shallow && JobOf(env, req) == Some(job)
    requires env.isDir(job.source) && At(env, job.dest) == Taken(job.dest) && env.isDir(job.dest)
    requires env.lead(job.source, name) == Leads(job.source + [name]) && !env.isDir(job.source + [name])
    requires Created(env, SpotIn(env, job.dest, name)) == Some(node) && env.root < node && !(job.dest <= node)
    ensures !IsGuarded(env, req)
    ensures Reachable(s) && Admitted(env, req, s) && Writes(env, req, node) && Covered(s.store, node, s.now)
  {
    InnerLinkIsWritten(env, req, job, name, node);
    CopyGuardedIff(env, req, job);
    CopyMissesIff(env, req, job, node);
    s := MissedIsWritten(env, req, node);
  }

  /** A subdirectory of the source is created where there is nothing. */
  lemma NewDirectoryIsWritten(env: Env, req: HttpRequest, job: Job, name: Name)
    requires EnvOk(env) && (req.method_.MOVE? || !req.shallow) && JobOf(env, req) == Some(job)
    requires env.isDir(job.source) && At(env, job.dest) == Taken(job.dest) && env.isDir(job.dest)
    requires env.lead(job.source, name) == Leads(job.source + [name]) && env.isDir(job.source + [name])
    requires env.lead(job.dest, name) == Absent
    ensures Copies(env, req, job.dest + [name])
  {
    RealIsCanonical(env, job.dest);
    var walk := Start(env, job.source, job.dest);
    assert Copying(env, req, job) == Some(walk);
    assert SpotOf(env, job.dest, name) == SpotIn(env, job.dest, name);
    assert Arrives(walk, [Visit(name)], job.dest + [name]);
  }

  lemma InnerLinkIsWritten(env: Env, req: HttpRequest, job: Job, name: Name, node: Path)
    requires EnvOk(env) && !req.shallow && JobOf(env, req) == Some(job)
    requires env.isDir(job.source) && At(env, job.dest) == Taken(job.dest) && env.isDir(job.dest)
    requires env.lead(job.source, name) == Leads(job.source + [name]) && !env.isDir(job.source + [name])
    requires Created(env, SpotIn(env, job.dest, name)) == Some(node)
    ensures Copies(env, req, node)
  {
    RealIsCanonical(env, job.dest);
    var walk := Start(env, job.source, job.dest);
    assert Copying(env, req, job) == Some(walk);
    assert SpotOf(env, job.dest, name) == SpotIn(env, job.dest, name);
    assert Put(walk, name) == Some(node);
    assert Arrives(walk, [Visit(name)], node);
  }

  /** A collection with one locked member, in a state that a run reaches: a request that takes the
      collection as a whole, and looks it up, is admitted and writes the member. */
  lemma MembersAreNotGuarded(env: Env, req: HttpRequest, node: Path, member: Path) returns (s: State)
    requires EnvOk(env) && req.method_.DELETE? && Existing(env, req.uri) == Some(node) && node != env.root
    requires Plain(req.uri) && NotALink(env, Named(env, req.uri))
    requires node < member && Canonical(member)
    ensures IsKey(env, req, node) && IsGuarded(env, req)
    ensures Reachable(s) && Admitted(env, req, s) && Writes(env, req, member) && Covered(s.store, member, s.now)
  {
    KeyIsNodeIff(env, req.uri, node);
    NodeRequestGuardedIff(env, req, node);
    ExistingIsCanonical(env, req.uri);
    s := OnlyCovered(env.root, member);
    DeleteWritesMember(env, req, node, member);
    VerdictIffCovered(s, LayerView(env, req));
  }

  lemma DeleteWritesMember(env: Env, req: HttpRequest, node: Path, member: Path)
    requires req.method_.DELETE? && Existing(env, req.uri) == Some(node) && node != env.root && node < member
    ensures Writes(env, req, member)
  {
    assert Whole(env, req, node);
  }

  // ---- Over runs --------------------------------------------------------------------------------

  lemma {:induction false} RunKeepsRoot(s: State, events: seq<Event>, s': State)
    requires Run(s, events, s')
    ensures s'.root == s.root
    decreases |events|
  {
    if events != [] { RunKeepsRoot(Step(s, events[0]), events[1..], s'); }
  }

  /** After LOCK has granted a lock, and until it times out or its token is presented, every guarded
      request that would write what the lock covers is rejected with 423, locked members apart. */
  lemma GrantProtectsWrites(env: Env, s: State, grant: Event, events: seq<Event>, s': State, p: Path, l: LockInfo,
                            req: HttpRequest, written: Path)
    requires EnvOk(env) && s.root == env.root && Reachable(s) && Grants(s, grant, p, l)
    requires Run(Step(s, grant), events, s') && (l.timeout.Some? ==> s'.now < s.now + l.timeout.value)
    requires forall e :: e in events ==> !Presents(e, l.token)
    requires IsGuarded(env, req) && Writes(env, req, written) && Acts(req, s', written) && Covers(p, l, written)
    requires !MembersLocked(env, req, s')
    ensures LockEnforce(s'.store, s'.root, LayerView(env, req), s'.now) == Reject(LOCKED)
  {
    GrantPersists(s, grant, events, s', p, l);
    RunKeepsRoot(Step(s, grant), events, s');
    assert Covered(s'.store, written, s'.now);
    GuardedIff(env, req);
    NothingMissedIsGuarded(env, req, s');
  }

  /** The layer drops its guard before the handler runs. A guarded request that was admitted writes a
      covered path then, locked members apart, only if a lock on a path that was looked up has been
      granted in between. */
  lemma OvertakenOnlyByGrant(env: Env, req: HttpRequest, s: State, events: seq<Event>, s': State)
    returns (k: Path, q: Path, l: LockInfo)
    requires EnvOk(env) && s.root == env.root && Reachable(s) && Run(s, events, s')
    requires IsGuarded(env, req) && Admitted(env, req, s)
    requires WritesCovered(env, req, s') && !MembersLocked(env, req, s')
    ensures GrantedIn(s, events, q, l) && Holds(s'.store, q, l) && !l.IsExpired(s'.now)
    ensures IsKey(env, req, k) && Covers(q, l, k)
  {
    ReachableInv(s);
    RunKeepsInv(s, events, s');
    RunKeepsRoot(s, events, s');
    GuardedIff(env, req);
    k := CoveredWriteIsSeen(env, req, s');
    q, l :| Holds(s'.store, q, l) && !l.IsExpired(s'.now) && Covers(q, l, k);
    VerdictIffCovered(s, LayerView(env, req));
    HeldIsOldOrGranted(s, events, s', q, l);
  }

  /** And it does happen: a lock on what the request is about to write can be granted then. */
  lemma CanBeOvertaken(env: Env, req: HttpRequest, h: Path) returns (s: State, events: seq<Event>, s': State)
    requires EnvOk(env) && Target(env, req, h) && CanBeCovered(env, req, h)
    ensures Reachable(s) && s.root == env.root && Admitted(env, req, s) && Run(s, events, s')
    ensures WritesCovered(env, req, s')
  {
    if req.method_.LOCK? {
      s' := CoveredFrom(env.root, Up(h));
      assert Up(h) < h && Up(h) != h;
    } else {
      s' := OnlyCovered(env.root, h);
    }
    assert Writes(env, req, h) && Acts(req, s', h) && Covered(s'.store, h, s'.now);
    s, events :| Init(s) && Run(s, events, s');
    RunKeepsRoot(s, events, s');
    assert Run(s, [], s);
    ReachableInv(s);
    VerdictIffCovered(s, LayerView(env, req));
  }
}
