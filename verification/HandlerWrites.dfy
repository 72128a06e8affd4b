/** What each handler writes: the nodes and places that a request may create, change or remove, in a
    file system with symbolic links. A recursive copy is followed turn by turn, since what it has
    already created changes where later names lead. */
module HandlerWrites {
  import opened Prelude
  import opened Paths
  import opened FileTree
  import opened Enforcement
  import opened PathGuard
  import opened Resolution
  import Text

  /** A request as it arrives: its path, the path of its `Destination` header, the `Overwrite` header,
      and whether the `Depth` header asks for a shallow copy. */
  datatype HttpRequest = HttpRequest(
    method_: Method,
    uri: string,
    destination: Option<string>,
    overwrite: bool,
    shallow: bool,
    hasLockToken: bool
  )

  // ---- Opening and creating -----------------------------------------------------------------------

  /** What is found at a name: nothing, a node, a link to a place that is still free, a link to
      nowhere, or not even a directory that could hold the name. */
  datatype Spot = Free(place: Path) | Taken(node: Path) | Beyond(place: Path) | Blocked | NoDirectory

  function SpotIn(env: Env, dir: Path, n: Name): Spot {
    match env.lead(dir, n)
    case Absent => Free(dir + [n])
    case Leads(node) => Taken(node)
    case Dangling(place) => Beyond(place)
    case Broken => Blocked
  }

  /** The directory is given by any path, and found through links. */
  function SpotOf(env: Env, path: Path, n: Name): Spot {
    match Canonicalize(env, path)
    case None => NoDirectory
    case Some(dir) => if env.isDir(dir) then SpotIn(env, dir, n) else NoDirectory
  }

  /** `File::create`, and the target of `tokio::fs::copy`: what opening for writing writes. It goes
      through links, makes what is not there, and fails on a directory. */
  function Created(env: Env, spot: Spot): Option<Path> {
    match spot
    case Free(place) => Some(place)
    case Beyond(place) => Some(place)
    case Taken(node) => if env.isDir(node) then None else Some(node)
    case _ => None
  }

  /** The file system with a new node: links that named its place lead to it. */
  function Make(env: Env, place: Path, isDir: bool): Env {
    env.(lead := (dir, n) => if dir + [n] == place || env.lead(dir, n) == Dangling(place) then Leads(place) else env.lead(dir, n),
         isDir := p => if p == place then isDir else env.isDir(p))
  }

  // ---- The recursive copy -------------------------------------------------------------------------

  /** The loop of `copy_dir` while it reads the directory `src`, whose entries go to `dst`: the names it
      has dealt with, and the stack. `before` is the file system when the directory was opened. */
  datatype Walk = Walk(env: Env, before: Env, src: Path, dst: Path, seen: set<Name>, stack: seq<(Path, Path)>)

  /** One entry is dealt with, or the next directory is popped. */
  datatype Turn = Visit(name: Name) | Pop

  function Start(env: Env, src: Path, dst: Path): Walk {
    Walk(env, env, src, dst, {}, [])
  }

  predicate Listed(env: Env, dir: Path, n: Name) {
    !env.lead(dir, n).Absent?
  }

  /** The entry is a node of the source and no link; links are skipped. */
  predicate IsNode(w: Walk, n: Name) {
    w.env.lead(w.src, n) == Leads(w.src + [n])
  }

  predicate IsDirectory(w: Walk, n: Name) {
    w.env.isDir(w.src + [n])
  }

  /** What dealing with an entry writes: a directory is created where there is nothing, and a file is
      opened for writing. */
  function Put(w: Walk, n: Name): Option<Path> {
    if !IsNode(w, n) then None
    else
      var spot := SpotOf(w.env, w.dst, n);
      if !IsDirectory(w, n) then Created(w.env, spot)
      else if spot.Free? then Some(spot.place) else None
  }

  /** An entry is dealt with once, and not when it makes the copy fail: a file has to be written, and a
      directory needs some directory to be in. A directory is done when every entry is that it had
      when it was opened. */
  ghost predicate Passes(w: Walk, turn: Turn) {
    match turn
    case Visit(n) =>
      Listed(w.env, w.src, n) && n !in w.seen &&
      (IsNode(w, n) ==> if IsDirectory(w, n) then !SpotOf(w.env, w.dst, n).NoDirectory? else Put(w, n).Some?)
    case Pop => w.stack != [] && AllSeen(w)
  }

  ghost predicate AllSeen(w: Walk) {
    forall n :: Listed(w.before, w.src, n) ==> n in w.seen
  }

  function Turned(w: Walk, turn: Turn): Walk {
    match turn
    case Visit(n) =>
      w.(env := if Put(w, n).Some? && !SpotOf(w.env, w.dst, n).Taken? then Make(w.env, Put(w, n).value, IsDirectory(w, n)) else w.env,
         seen := w.seen + {n},
         stack := if IsNode(w, n) && IsDirectory(w, n) then w.stack + [(w.src + [n], w.dst + [n])] else w.stack)
    case Pop =>
      if w.stack == [] then w
      else
        var (src, dst) := w.stack[|w.stack| - 1];
        Walk(w.env, w.env, src, dst, {}, w.stack[..|w.stack| - 1])
  }

  /** The copy writes `h` in the course of these turns. */
  ghost predicate Arrives(w: Walk, turns: seq<Turn>, h: Path)
    decreases |turns|
  {
    turns != [] && Passes(w, turns[0]) &&
    ((turns[0].Visit? && Put(w, turns[0].name) == Some(h)) || Arrives(Turned(w, turns[0]), turns[1..], h))
  }

  /** These turns take the copy to its end. */
  ghost predicate Finishes(w: Walk, turns: seq<Turn>)
    decreases |turns|
  {
    if turns == [] then w.stack == [] && AllSeen(w)
    else Passes(w, turns[0]) && Finishes(Turned(w, turns[0]), turns[1..])
  }

  // ---- COPY and MOVE ------------------------------------------------------------------------------

  /** A COPY or MOVE that gets past its checks: the source node and the destination's path. */
  datatype Job = Job(source: Path, dest: Path)

  /** What is at the destination's own path. */
  function At(env: Env, dest: Path): Spot
    requires dest != []
  {
    SpotIn(env, Up(dest), Last(dest))
  }

  /** The checks: the source exists, the destination resolves, is not spelled as the source, and does
      not exist or may be overwritten. */
  function JobOf(env: Env, req: HttpRequest): (job: Option<Job>)
    ensures job.Some? ==> job.value.dest != []
  {
    if req.destination.None? then None
    else
      match (Existing(env, req.uri), Guarded(env, req.destination.value))
      case (Some(source), Success(dest)) =>
        if Spelled(env, req.destination.value) == Some(source) || dest == [] then None
        else if At(env, dest).Taken? && !req.overwrite then None
        else Some(Job(source, dest))
      case _ => None
  }

  /** A directory in the place of a file source is removed with everything in it; a link to one is
      removed alone. */
  predicate Clears(env: Env, job: Job)
    requires job.dest != []
  {
    !env.isDir(job.source) && At(env, job.dest) == Taken(job.dest) && env.isDir(job.dest)
  }

  /** What is removed or put at the destination itself. */
  function First(env: Env, job: Job): Option<Path>
    requires job.dest != []
  {
    match At(env, job.dest)
    case Taken(node) =>
      if env.isDir(job.source) == env.isDir(node) then (if env.isDir(node) then None else Some(node))
      else Some(job.dest)
    case Beyond(place) => if env.isDir(job.source) then None else Some(place)
    case Free(place) => Some(place)
    case _ => None
  }

  /** The recursive copy, where there is one: a shallow copy creates the directory only, and it fails
      on a link that leads nowhere. */
  function Copying(env: Env, req: HttpRequest, job: Job): Option<Walk>
    requires job.dest != []
  {
    if !env.isDir(job.source) || (req.method_.COPY? && req.shallow) then None
    else
      match At(env, job.dest)
      case Taken(node) =>
        Some(Start(if env.isDir(node) then env else Make(env, job.dest, true), job.source, job.dest))
      case Free(_) => Some(Start(Make(env, job.dest, true), job.source, job.dest))
      case _ => None
  }

  /** The copying of a COPY or MOVE writes `h`. */
  ghost predicate Copies(env: Env, req: HttpRequest, h: Path) {
    var job := JobOf(env, req);
    && job.Some?
    && (First(env, job.value) == Some(h) || CopiesWithin(Copying(env, req, job.value), h))
  }

  ghost predicate CopiesWithin(walk: Option<Walk>, h: Path) {
    walk.Some? && exists turns :: Arrives(walk.value, turns, h)
  }

  /** The copying can come to its end, after which MOVE takes the source away. */
  ghost predicate Completes(env: Env, req: HttpRequest) {
    var job := JobOf(env, req);
    && job.Some?
    && if env.isDir(job.value.source) then
         Copying(env, req, job.value).Some? && exists turns :: Finishes(Copying(env, req, job.value).value, turns)
       else First(env, job.value).Some? && !(Clears(env, job.value) && job.value.dest < job.value.source)
  }

  /** At its end a COPY or MOVE gives the destination the source's dead properties, and MOVE has put the
      source there. Renaming a node to itself does nothing. */
  ghost predicate Settles(env: Env, req: HttpRequest, h: Path) {
    Completes(env, req) &&
    var job := JobOf(env, req).value;
    h == job.dest || (req.method_.MOVE? && h == job.source && job.source != job.dest)
  }

  // ---- Every method -------------------------------------------------------------------------------

  /** A node or place that the handler writes. PUT writes through a link; MKCOL, and LOCK where there
      are no locks, make what is not there; DELETE and PROPPATCH act on the existing node, DELETE not
      on the root. */
  ghost predicate Target(env: Env, req: HttpRequest, h: Path) {
    match req.method_
    case PUT =>
      Guarded(env, req.uri).Success? && Guarded(env, req.uri).value != [] &&
      Created(env, At(env, Guarded(env, req.uri).value)) == Some(h)
    case MKCOL => LockKey(env, req.uri) == Success(h) && h != [] && At(env, h).Free?
    case LOCK => LockKey(env, req.uri) == Success(h) && h != [] && At(env, h).Free?
    case PROPPATCH => Existing(env, req.uri) == Some(h)
    case DELETE => Existing(env, req.uri) == Some(h) && h != env.root
    case COPY => Copies(env, req, h) || Settles(env, req, h)
    case MOVE => Copies(env, req, h) || Settles(env, req, h)
    case OtherMethod => false
  }

  /** The collections a request is about: the one DELETE removes, the destination of COPY and MOVE, and
      what MOVE takes away. */
  ghost predicate Head(env: Env, req: HttpRequest, g: Path) {
    match req.method_
    case DELETE => Target(env, req, g)
    case COPY => JobOf(env, req).Some? && g == JobOf(env, req).value.dest
    case MOVE => (JobOf(env, req).Some? && g == JobOf(env, req).value.dest) || Settles(env, req, g)
    case _ => false
  }

  /** What is written together with everything below it: what DELETE and MOVE take away, a destination
      that is cleared, and one to which a whole directory can be renamed. */
  ghost predicate Whole(env: Env, req: HttpRequest, g: Path) {
    match req.method_
    case DELETE => Target(env, req, g)
    case COPY => JobOf(env, req).Some? && g == JobOf(env, req).value.dest && Clears(env, JobOf(env, req).value)
    case MOVE => (JobOf(env, req).Some? && g == JobOf(env, req).value.dest && Clears(env, JobOf(env, req).value)) ||
                 (Settles(env, req, g) && JobOf(env, req).value.source != JobOf(env, req).value.dest)
    case _ => false
  }

  ghost predicate Writes(env: Env, req: HttpRequest, p: Path) {
    Target(env, req, p) || exists g :: Whole(env, req, g) && g < p
  }

  // ---- Everything written has a canonical path ------------------------------------------------------

  lemma SpotIsCanonical(env: Env, path: Path, n: Name)
    requires LeadsOk(env) && ValidName(n)
    ensures var spot := SpotOf(env, path, n);
            && (spot.Free? ==> Canonical(spot.place))
            && (spot.Taken? ==> Canonical(spot.node))
            && (spot.Beyond? ==> Canonical(spot.place))
  {
    CanonicalizeIsFaithful(env, path);
  }

  lemma MakeIsOk(env: Env, place: Path, isDir: bool)
    requires LeadsOk(env) && Canonical(place)
    ensures LeadsOk(Make(env, place, isDir))
  {
    var made := Make(env, place, isDir);
    forall dir, n | made.lead(dir, n).Dangling? ensures IsVacant(made, made.lead(dir, n).place) {
      var p := made.lead(dir, n).place;
      assert env.lead(dir, n) == Dangling(p) && p != place;
      assert Up(p) + [Last(p)] == p;
      assert made.lead(Up(p), Last(p)) == env.lead(Up(p), Last(p));
    }
  }

  ghost predicate WalkOk(w: Walk) {
    LeadsOk(w.env) && Canonical(w.src) && forall i :: 0 <= i < |w.stack| ==> Canonical(w.stack[i].0)
  }

  lemma NameOfNode(w: Walk, n: Name)
    requires WalkOk(w) && IsNode(w, n)
    ensures ValidName(n) && Canonical(w.src + [n])
  {
    assert n == (w.src + [n])[|w.src|];
  }

  lemma PutIsCanonical(w: Walk, n: Name)
    requires WalkOk(w) && Put(w, n).Some?
    ensures Canonical(Put(w, n).value)
  {
    NameOfNode(w, n);
    SpotIsCanonical(w.env, w.dst, n);
  }

  /** What an entry puts where nothing was is there from then on, as what it is. */
  lemma PutIsThere(w: Walk, n: Name)
    requires Put(w, n).Some? && Put(w, n).value != [] && !SpotOf(w.env, w.dst, n).Taken?
    ensures var (p, env) := (Put(w, n).value, Turned(w, Visit(n)).env);
            SpotIn(env, Up(p), Last(p)) == Taken(p) && env.isDir(p) == w.env.isDir(w.src + [n])
  {
    var p := Put(w, n).value;
    assert p == Up(p) + [Last(p)];
  }

  lemma TurnKeepsOk(w: Walk, turn: Turn)
    requires WalkOk(w)
    ensures WalkOk(Turned(w, turn))
  {
    if turn.Visit? {
      var n := turn.name;
      if Put(w, n).Some? {
        PutIsCanonical(w, n);
        MakeIsOk(w.env, Put(w, n).value, IsDirectory(w, n));
      }
      if IsNode(w, n) { NameOfNode(w, n); }
    }
  }

  lemma {:induction false} ArrivesIsCanonical(w: Walk, turns: seq<Turn>, h: Path)
    requires WalkOk(w) && Arrives(w, turns, h)
    ensures Canonical(h)
    decreases |turns|
  {
    if turns[0].Visit? && Put(w, turns[0].name) == Some(h) {
      PutIsCanonical(w, turns[0].name);
    } else {
      TurnKeepsOk(w, turns[0]);
      ArrivesIsCanonical(Turned(w, turns[0]), turns[1..], h);
    }
  }

  lemma JobIsCanonical(env: Env, req: HttpRequest)
    requires EnvOk(env) && JobOf(env, req).Some?
    ensures var job := JobOf(env, req).value;
            Canonical(job.source) && Canonical(job.dest) && env.root < job.dest && env.root <= job.source
  {
    ExistingIsCanonical(env, req.uri);
    KeyIsBelowRoot(env, req.destination.value);
  }

  lemma AtIsCanonical(env: Env, p: Path)
    requires LeadsOk(env) && p != [] && Canonical(p)
    ensures var spot := At(env, p);
            && (spot.Free? ==> spot.place == p)
            && (spot.Taken? ==> Canonical(spot.node))
            && (spot.Beyond? ==> Canonical(spot.place))
  {
    assert p == Up(p) + [Last(p)];
  }

  lemma CopiesIsCanonical(env: Env, req: HttpRequest, h: Path)
    requires EnvOk(env) && Copies(env, req, h)
    ensures Canonical(h)
  {
    var job := JobOf(env, req).value;
    JobIsCanonical(env, req);
    AtIsCanonical(env, job.dest);
    if First(env, job) != Some(h) {
      MakeIsOk(env, job.dest, true);
      var walk := Copying(env, req, job).value;
      assert WalkOk(walk);
      var turns :| Arrives(walk, turns, h);
      ArrivesIsCanonical(walk, turns, h);
    }
  }

  lemma TransferIsCanonical(env: Env, req: HttpRequest, h: Path)
    requires EnvOk(env) && (Copies(env, req, h) || Settles(env, req, h))
    ensures Canonical(h)
  {
    if Copies(env, req, h) { CopiesIsCanonical(env, req, h); } else { JobIsCanonical(env, req); }
  }

  lemma TargetIsCanonical(env: Env, req: HttpRequest, h: Path)
    requires EnvOk(env) && Target(env, req, h)
    ensures Canonical(h)
  {
    match req.method_
    case PUT =>
      KeyIsBelowRoot(env, req.uri);
      AtIsCanonical(env, Guarded(env, req.uri).value);
    case MKCOL => KeyIsCanonical(env, req.uri);
    case LOCK => KeyIsCanonical(env, req.uri);
    case PROPPATCH => ExistingIsCanonical(env, req.uri);
    case DELETE => ExistingIsCanonical(env, req.uri);
    case COPY => TransferIsCanonical(env, req, h);
    case MOVE => TransferIsCanonical(env, req, h);
    case OtherMethod =>
  }

  lemma KeyIsCanonical(env: Env, uri: string)
    requires EnvOk(env) && LockKey(env, uri).Success?
    ensures Canonical(LockKey(env, uri).value) && env.root < LockKey(env, uri).value
  {
    KeyIsBelowRoot(env, Text.TrimEnd(uri, IsSlash));
  }
}
