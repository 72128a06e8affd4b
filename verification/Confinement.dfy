/** A COPY or MOVE into a destination that no link leads out of stays within it, whatever the copy has
    created meanwhile, and so the enforcement layer guards it. */
module Confinement {
  import opened Prelude
  import opened Paths
  import opened FileTree
  import opened PathGuard
  import opened Resolution
  import opened Enforcement
  import opened HandlerWrites
  import opened Coverage

  predicate LeadsWithin(lead: Lead, dest: Path) {
    match lead
    case Leads(node) => dest <= node
    case Dangling(place) => dest <= place
    case _ => true
  }

  /** No name at or below `dest` is a link that leads out of it. */
  ghost predicate Confined(env: Env, dest: Path) {
    forall dir, n :: dest <= dir + [n] ==> LeadsWithin(env.lead(dir, n), dest)
  }

  /** A path to `dest` and on by names. */
  predicate Within(dest: Path, p: Path) {
    dest <= p && forall i :: |dest| <= i < |p| ==> p[i] != [DOT, DOT]
  }

  ghost predicate DestOk(env: Env, dest: Path) {
    dest != [] && Canonical(dest) && Real(env, Up(dest)) && Confined(env, dest)
  }

  lemma {:induction false} WithinLeadsWithin(env: Env, dest: Path, p: Path)
    requires DestOk(env, dest) && Within(dest, p)
    ensures Canonicalize(env, p).Some? ==> dest <= Canonicalize(env, p).value
    decreases |p|
  {
    assert p != [];
    assert dest == Up(dest) + [Last(dest)];
    if p == dest {
      RealIsCanonical(env, Up(dest));
      assert ValidName(Last(dest));
    } else {
      assert dest <= Up(p);
      WithinLeadsWithin(env, dest, Up(p));
      if Canonicalize(env, Up(p)).Some? {
        assert dest <= Canonicalize(env, Up(p)).value + [Last(p)];
      }
    }
  }

  lemma {:induction false} MakeKeepsReal(env: Env, place: Path, isDir: bool, p: Path)
    requires Real(env, p) && !(place <= p)
    ensures Real(Make(env, place, isDir), p)
    decreases |p|
  {
    if p != [] {
      NotAbove(place, p);
      MakeKeepsReal(env, place, isDir, Up(p));
      MakeKeepsLead(env, place, isDir, Up(p), Last(p), p);
    }
  }

  lemma NotAbove(place: Path, p: Path)
    requires p != [] && !(place <= p)
    ensures !(place <= Up(p)) && place != Up(p) && place != p && p == Up(p) + [Last(p)]
  {
    assert p == Up(p) + [Last(p)];
    assert place <= Up(p) ==> place <= p;
  }

  lemma MakeKeepsLead(env: Env, place: Path, isDir: bool, dir: Path, n: Name, node: Path)
    requires dir != place && dir + [n] != place && env.lead(dir, n) == Leads(node)
    ensures Make(env, place, isDir).lead(dir, n) == Leads(node) && Make(env, place, isDir).isDir(dir) == env.isDir(dir)
  {
  }

  lemma MakeKeepsDest(env: Env, place: Path, isDir: bool, dest: Path)
    requires DestOk(env, dest) && dest <= place
    ensures DestOk(Make(env, place, isDir), dest)
  {
    assert |Up(dest)| < |place|;
    MakeKeepsReal(env, place, isDir, Up(dest));
  }

  ghost predicate WalkWithin(w: Walk, dest: Path) {
    && WalkOk(w) && DestOk(w.env, dest) && Within(dest, w.dst)
    && forall i :: 0 <= i < |w.stack| ==> Within(dest, w.stack[i].1)
  }

  lemma PutWithin(w: Walk, n: Name, dest: Path)
    requires WalkWithin(w, dest) && Put(w, n).Some?
    ensures dest <= Put(w, n).value
  {
    WithinLeadsWithin(w.env, dest, w.dst);
    var dir := Canonicalize(w.env, w.dst).value;
    assert dest <= dir + [n];
  }

  lemma TurnKeepsWithin(w: Walk, turn: Turn, dest: Path)
    requires WalkWithin(w, dest)
    ensures WalkWithin(Turned(w, turn), dest)
  {
    TurnKeepsOk(w, turn);
    if turn.Visit? {
      var n := turn.name;
      if Put(w, n).Some? {
        PutWithin(w, n, dest);
        MakeKeepsDest(w.env, Put(w, n).value, IsDirectory(w, n), dest);
      }
      if IsNode(w, n) {
        NameOfNode(w, n);
        assert Within(dest, w.dst + [n]);
      }
    }
  }

  lemma {:induction false} ArrivesWithin(w: Walk, turns: seq<Turn>, h: Path, dest: Path)
    requires WalkWithin(w, dest) && Arrives(w, turns, h)
    ensures dest <= h
    decreases |turns|
  {
    if turns[0].Visit? && Put(w, turns[0].name) == Some(h) {
      PutWithin(w, turns[0].name, dest);
    } else {
      TurnKeepsWithin(w, turns[0], dest);
      ArrivesWithin(Turned(w, turns[0]), turns[1..], h, dest);
    }
  }

  lemma DestinationIsOk(env: Env, req: HttpRequest, job: Job)
    requires EnvOk(env) && JobOf(env, req) == Some(job) && Confined(env, job.dest)
    ensures DestOk(env, job.dest)
  {
    JobIsCanonical(env, req);
    GuardedPath(env, req.destination.value, job.dest);
    CanonicalizeIsReal(env, Up(Named(env, req.destination.value)));
  }

  /** All that the copying writes lies at or below a destination that no link leads out of. */
  lemma CopiesWithinDestination(env: Env, req: HttpRequest, job: Job, h: Path)
    requires EnvOk(env) && JobOf(env, req) == Some(job) && Confined(env, job.dest) && Copies(env, req, h)
    ensures job.dest <= h
  {
    DestinationIsOk(env, req, job);
    JobIsCanonical(env, req);
    assert job.dest == Up(job.dest) + [Last(job.dest)];
    if First(env, job) != Some(h) {
      var walk := Copying(env, req, job).value;
      MakeIsOk(env, job.dest, true);
      MakeKeepsDest(env, job.dest, true, job.dest);
      assert WalkWithin(walk, job.dest);
      var turns :| Arrives(walk, turns, h);
      ArrivesWithin(walk, turns, h, job.dest);
    }
  }

  /** So it is guarded, MOVE if its source is named by a plain path without a link at its end. */
  lemma ConfinedIsGuarded(env: Env, req: HttpRequest, job: Job)
    requires EnvOk(env) && (req.method_.COPY? || req.method_.MOVE?) && JobOf(env, req) == Some(job)
    requires Confined(env, job.dest)
    requires req.method_.MOVE? ==> Plain(req.uri) && NotALink(env, Named(env, req.uri))
    ensures IsGuarded(env, req)
  {
    forall h | Copies(env, req, h) ensures job.dest <= h { CopiesWithinDestination(env, req, job, h); }
    if req.method_.COPY? { CopyGuardedIff(env, req, job); } else { MoveGuardedIff(env, req, job); }
  }

  // ---- Without links in the way --------------------------------------------------------------

  /** What is at or below `dest` is no link. */
  ghost predicate LinkFree(env: Env, dest: Path) {
    forall dir, n :: dest <= dir + [n] ==> env.lead(dir, n) == Absent || env.lead(dir, n) == Leads(dir + [n])
  }

  /** `q` is the place below `dest` for the source, or for a node below it that is no link. */
  ghost predicate IsPlace(env: Env, source: Path, dest: Path, q: Path) {
    dest <= q && var p := source + q[|dest|..];
    p == source || (p != [] && env.lead(Up(p), Last(p)) == Leads(p))
  }

  predicate Apart(p: Path, q: Path) {
    !(p <= q) && !(q <= p)
  }

  predicate Alike(source: Path, dest: Path, src: Path, dst: Path) {
    dest <= dst && src == source + dst[|dest|..]
  }

  /** While the copy runs: source and destination directory lie alike, and the source has no new nodes. */
  ghost predicate Copied(env: Env, w: Walk, job: Job) {
    && WalkWithin(w, job.dest) && LinkFree(w.env, job.dest) && Alike(job.source, job.dest, w.src, w.dst)
    && (forall i :: 0 <= i < |w.stack| ==> Alike(job.source, job.dest, w.stack[i].0, w.stack[i].1))
    && (forall dir, n :: !(job.dest <= dir + [n]) && w.env.lead(dir, n) == Leads(dir + [n]) ==> env.lead(dir, n) == Leads(dir + [n]))
  }

  lemma {:induction false} LinkFreePath(env: Env, dest: Path, p: Path)
    requires DestOk(env, dest) && LinkFree(env, dest) && Within(dest, p)
    ensures Canonicalize(env, p).Some? ==> Canonicalize(env, p).value == p
    decreases |p|
  {
    if p == dest {
      RealIsCanonical(env, Up(dest));
      assert ValidName(Last(dest));
      LinkFreeStep(env, dest, dest);
    } else {
      assert dest <= Up(p);
      LinkFreePath(env, dest, Up(p));
      LinkFreeStep(env, dest, p);
    }
  }

  lemma LinkFreeStep(env: Env, dest: Path, p: Path)
    requires LinkFree(env, dest) && p != [] && dest <= p && Last(p) != [DOT, DOT]
    requires Canonicalize(env, Up(p)).Some? ==> Canonicalize(env, Up(p)).value == Up(p)
    ensures Canonicalize(env, p).Some? ==> Canonicalize(env, p).value == p
  {
    assert p == Up(p) + [Last(p)];
  }

  lemma PutIsPlace(env: Env, w: Walk, n: Name, job: Job)
    requires Copied(env, w, job) && Apart(job.source, job.dest) && Put(w, n).Some?
    ensures Put(w, n) == Some(w.dst + [n]) && IsPlace(env, job.source, job.dest, w.dst + [n])
  {
    LinkFreePath(w.env, job.dest, w.dst);
    NameOfNode(w, n);
    var q := w.dst + [n];
    assert job.dest <= q && q[|job.dest|..] == w.dst[|job.dest|..] + [n];
    assert job.source + q[|job.dest|..] == w.src + [n];
    assert Up(w.src + [n]) == w.src && Last(w.src + [n]) == n;
    BothAbove(job.source, job.dest, w.src + [n]);
  }

  lemma BothAbove(source: Path, dest: Path, p: Path)
    requires Apart(source, dest) && source <= p
    ensures !(dest <= p)
  {
    if dest <= p { PrefixesCompare(source, dest, p); }
  }

  lemma TurnKeepsCopied(env: Env, w: Walk, turn: Turn, job: Job)
    requires Copied(env, w, job) && Apart(job.source, job.dest)
    ensures Copied(env, Turned(w, turn), job)
  {
    TurnKeepsWithin(w, turn, job.dest);
    if turn.Visit? {
      var n := turn.name;
      if Put(w, n).Some? { PutIsPlace(env, w, n, job); }
      AlikeBelow(job.source, job.dest, w.src, w.dst, n);
    }
  }

  lemma AlikeBelow(source: Path, dest: Path, src: Path, dst: Path, n: Name)
    requires Alike(source, dest, src, dst)
    ensures Alike(source, dest, src + [n], dst + [n])
  {
    assert (dst + [n])[|dest|..] == dst[|dest|..] + [n];
  }

  lemma {:induction false} ArrivesAtPlace(env: Env, w: Walk, turns: seq<Turn>, h: Path, job: Job)
    requires Copied(env, w, job) && Apart(job.source, job.dest) && Arrives(w, turns, h)
    ensures IsPlace(env, job.source, job.dest, h)
    decreases |turns|
  {
    if turns[0].Visit? && Put(w, turns[0].name) == Some(h) {
      PutIsPlace(env, w, turns[0].name, job);
    } else {
      TurnKeepsCopied(env, w, turns[0], job);
      ArrivesAtPlace(env, Turned(w, turns[0]), turns[1..], h, job);
    }
  }

  /** Where no link is at or below the destination, and source and destination are apart, a COPY or MOVE
      copies to the places of the source's nodes and nowhere else. */
  lemma CopiesToPlaces(env: Env, req: HttpRequest, job: Job, h: Path)
    requires EnvOk(env) && JobOf(env, req) == Some(job) && Apart(job.source, job.dest)
    requires LinkFree(env, job.dest) && Copies(env, req, h)
    ensures IsPlace(env, job.source, job.dest, h)
  {
    if First(env, job) != Some(h) {
      CopyIsRunning(env, req, job);
      var walk := Copying(env, req, job).value;
      var turns :| Arrives(walk, turns, h);
      ArrivesAtPlace(env, walk, turns, h, job);
    } else {
      FirstIsDestination(env, job);
      assert job.source + h[|job.dest|..] == job.source;
    }
  }

  lemma FirstIsDestination(env: Env, job: Job)
    requires job.dest != [] && LinkFree(env, job.dest)
    ensures First(env, job).Some? ==> First(env, job).value == job.dest
  {
    assert job.dest == Up(job.dest) + [Last(job.dest)];
  }

  // ---- A copy that comes to its end ------------------------------------------------------------

  /** A way down from `s` over nodes that are no links. */
  ghost predicate Chain(env: Env, s: Path, rel: Path)
    decreases |rel|
  {
    rel == [] ||
    (env.lead(s, rel[0]) == Leads(s + [rel[0]]) && (rel[1..] != [] ==> env.isDir(s + [rel[0]])) && Chain(env, s + [rel[0]], rel[1..]))
  }

  /** What lies outside the destination is as before. */
  ghost predicate SameSource(env: Env, now: Env, dest: Path) {
    && (forall dir, n :: !(dest <= dir + [n]) && env.lead(dir, n) == Leads(dir + [n]) ==> now.lead(dir, n) == Leads(dir + [n]))
    && (forall p :: !(dest <= p) ==> now.isDir(p) == env.isDir(p))
  }

  /** The way down still has to be gone: from a directory on the stack, or by an entry of the current one. */
  predicate Ahead(w: Walk, s: Path, d: Path, rel: Path)
    requires rel != []
  {
    (s, d) in w.stack || (s == w.src && d == w.dst && rel[0] !in w.seen)
  }

  ghost predicate Running(env: Env, w: Walk, job: Job) {
    Copied(env, w, job) && SameSource(env, w.env, job.dest) && SameSource(env, w.before, job.dest)
  }

  lemma TurnKeepsRunning(env: Env, w: Walk, turn: Turn, job: Job)
    requires Running(env, w, job) && Apart(job.source, job.dest)
    ensures Running(env, Turned(w, turn), job)
  {
    TurnKeepsCopied(env, w, turn, job);
    if turn.Visit? && Put(w, turn.name).Some? { PutIsPlace(env, w, turn.name, job); }
  }

  /** A file on the way is written when its entry is dealt with. */
  lemma EntryIsWritten(env: Env, w: Walk, n: Name, job: Job)
    requires Running(env, w, job) && Apart(job.source, job.dest) && Passes(w, Visit(n))
    requires env.lead(w.src, n) == Leads(w.src + [n])
    ensures IsNode(w, n) && IsDirectory(w, n) == env.isDir(w.src + [n])
    ensures !env.isDir(w.src + [n]) ==> Put(w, n) == Some(w.dst + [n])
  {
    BothAbove(job.source, job.dest, w.src + [n]);
    assert IsNode(w, n);
    if Put(w, n).Some? { PutIsPlace(env, w, n, job); }
  }

  lemma StillAhead(w: Walk, turn: Turn, s: Path, d: Path, rel: Path)
    requires rel != [] && Ahead(w, s, d, rel) && Passes(w, turn)
    requires turn.Visit? ==> (s, d) in w.stack || turn.name != rel[0]
    requires Listed(w.before, s, rel[0])
    ensures Ahead(Turned(w, turn), s, d, rel)
  {
    if turn.Pop? {
      assert w.stack == w.stack[..|w.stack| - 1] + [w.stack[|w.stack| - 1]];
    }
  }

  lemma {:induction false} FinishWrites(env: Env, w: Walk, turns: seq<Turn>, job: Job, s: Path, d: Path, rel: Path)
    requires Running(env, w, job) && Apart(job.source, job.dest) && Finishes(w, turns)
    requires rel != [] && job.source <= s && Ahead(w, s, d, rel) && Chain(env, s, rel) && !env.isDir(s + rel)
    ensures Arrives(w, turns, d + rel)
    decreases |turns|
  {
    var n := rel[0];
    BothAbove(job.source, job.dest, s + [n]);
    assert Listed(w.before, s, n);
    if turns != [] {
      TurnKeepsRunning(env, w, turns[0], job);
      if turns[0] == Visit(n) && s == w.src && d == w.dst && (s, d) !in w.stack {
        EntryIsWritten(env, w, n, job);
        assert rel == [n] + rel[1..];
        if rel[1..] == [] {
          assert rel == [n];
        } else {
          var next := Turned(w, turns[0]);
          assert next.stack[|next.stack| - 1] == (s + [n], d + [n]);
          Assoc(s, [n], rel[1..]);
          Assoc(d, [n], rel[1..]);
          FinishWrites(env, next, turns[1..], job, s + [n], d + [n], rel[1..]);
        }
      } else {
        StillAhead(w, turns[0], s, d, rel);
        FinishWrites(env, Turned(w, turns[0]), turns[1..], job, s, d, rel);
      }
    }
  }

  lemma CopyIsRunning(env: Env, req: HttpRequest, job: Job)
    requires EnvOk(env) && JobOf(env, req) == Some(job) && Apart(job.source, job.dest) && LinkFree(env, job.dest)
    requires Copying(env, req, job).Some?
    ensures var walk := Copying(env, req, job).value;
            Running(env, walk, job) && walk.src == job.source && walk.dst == job.dest && walk.seen == {}
  {
    DestinationIsOk(env, req, job);
    JobIsCanonical(env, req);
    assert job.dest == Up(job.dest) + [Last(job.dest)];
    MakeIsOk(env, job.dest, true);
    MakeKeepsDest(env, job.dest, true, job.dest);
  }

  /** And it leaves none out: a copy that comes to its end has written the place of every file that is
      reached from the source without links. */
  lemma CompletedCopyWritesAll(env: Env, req: HttpRequest, job: Job, turns: seq<Turn>, rel: Path)
    requires EnvOk(env) && JobOf(env, req) == Some(job) && Apart(job.source, job.dest) && LinkFree(env, job.dest)
    requires Copying(env, req, job).Some? && Finishes(Copying(env, req, job).value, turns)
    requires rel != [] && Chain(env, job.source, rel) && !env.isDir(job.source + rel)
    ensures Copies(env, req, job.dest + rel)
  {
    CopyIsRunning(env, req, job);
    FinishWrites(env, Copying(env, req, job).value, turns, job, job.source, job.dest, rel);
  }

  /** So a directory is taken away by MOVE only if every file in it can be written. */
  lemma MovedIsCopied(env: Env, req: HttpRequest, job: Job, rel: Path)
    requires EnvOk(env) && JobOf(env, req) == Some(job) && Apart(job.source, job.dest) && LinkFree(env, job.dest)
    requires env.isDir(job.source) && Completes(env, req)
    requires rel != [] && Chain(env, job.source, rel) && !env.isDir(job.source + rel)
    requires req.method_.MOVE?
    ensures Copies(env, req, job.dest + rel)
  {
    var turns :| Finishes(Copying(env, req, job).value, turns);
    CompletedCopyWritesAll(env, req, job, turns, rel);
  }

  /** And it is taken away when they are: a directory with one file in it is moved to a free place. */
  lemma OneFileMoves(env: Env, req: HttpRequest, job: Job, name: Name)
    requires EnvOk(env) && req.method_.MOVE? && JobOf(env, req) == Some(job) && Apart(job.source, job.dest) && LinkFree(env, job.dest)
    requires env.isDir(job.source) && env.isDir(Up(job.dest)) && env.lead(Up(job.dest), Last(job.dest)) == Absent
    requires forall n :: env.lead(job.source, n) != Absent <==> n == name
    requires env.lead(job.source, name) == Leads(job.source + [name]) && !env.isDir(job.source + [name])
    requires env.lead(job.dest, name) == Absent
    ensures Completes(env, req) && Writes(env, req, job.source) && Writes(env, req, job.dest + [name])
  {
    assert Copying(env, req, job) == Some(Start(Make(env, job.dest, true), job.source, job.dest));
    DestinationIsOk(env, req, job);
    OneFileFinishes(env, Copying(env, req, job).value, job, name);
    WalkDecides(env, req, job, [Visit(name)], job.dest + [name]);
  }

  lemma WalkDecides(env: Env, req: HttpRequest, job: Job, turns: seq<Turn>, h: Path)
    requires req.method_.MOVE? && JobOf(env, req) == Some(job) && env.isDir(job.source) && job.source != job.dest
    requires Copying(env, req, job).Some? && Finishes(Copying(env, req, job).value, turns) && Arrives(Copying(env, req, job).value, turns, h)
    ensures Completes(env, req) && Writes(env, req, job.source) && Writes(env, req, h)
  {
    assert Completes(env, req);
    assert Settles(env, req, job.source) && Copies(env, req, h);
    assert Target(env, req, job.source) && Target(env, req, h);
  }

  lemma OneFileFinishes(env: Env, walk: Walk, job: Job, name: Name)
    requires walk == Start(Make(env, job.dest, true), job.source, job.dest) && Apart(job.source, job.dest)
    requires DestOk(env, job.dest) && env.isDir(Up(job.dest))
    requires forall n :: env.lead(job.source, n) != Absent <==> n == name
    requires env.lead(job.source, name) == Leads(job.source + [name]) && !env.isDir(job.source + [name])
    requires env.lead(job.dest, name) == Absent
    ensures Finishes(walk, [Visit(name)]) && Arrives(walk, [Visit(name)], job.dest + [name])
  {
    NewDestinationIsFound(env, job.dest);
    EntryOfOneFile(env, walk, job, name);
    var turns := [Visit(name)];
    assert turns[1..] == [];
  }

  lemma NewDestinationIsFound(env: Env, dest: Path)
    requires DestOk(env, dest) && env.isDir(Up(dest))
    ensures var made := Make(env, dest, true); Canonicalize(made, dest) == Some(dest) && made.isDir(dest)
  {
    var made := Make(env, dest, true);
    assert dest == Up(dest) + [Last(dest)];
    MakeKeepsReal(env, dest, true, Up(dest));
    assert Real(made, dest);
    RealIsCanonical(made, dest);
  }

  lemma EntryOfOneFile(env: Env, walk: Walk, job: Job, name: Name)
    requires walk == Start(Make(env, job.dest, true), job.source, job.dest) && Apart(job.source, job.dest)
    requires Canonicalize(walk.env, job.dest) == Some(job.dest) && walk.env.isDir(job.dest)
    requires forall n :: env.lead(job.source, n) != Absent <==> n == name
    requires env.lead(job.source, name) == Leads(job.source + [name]) && !env.isDir(job.source + [name])
    requires env.lead(job.dest, name) == Absent
    ensures Passes(walk, Visit(name)) && Put(walk, name) == Some(job.dest + [name])
    ensures Turned(walk, Visit(name)).stack == [] && AllSeen(Turned(walk, Visit(name)))
  {
    BothAbove(job.source, job.dest, job.source + [name]);
    forall n | Listed(walk.env, job.source, n) ensures n == name {
      BothAbove(job.source, job.dest, job.source + [n]);
    }
    assert (job.dest + [name]) != job.dest;
    assert walk.env.lead(job.dest, name) == Absent;
  }
}
