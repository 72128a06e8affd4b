/** The stack loop of the recursive copy when source and destination contain one another. With the
    destination below the source every turn finds what an earlier turn has made, and the loop never
    runs out of work; with the source below the destination it ends. */
module CopyIntoSelf {
  import opened Prelude
  import opened Paths
  import opened FileTree
  import opened CopyMove

  type Stack = seq<(Path, Path)>

  predicate NoLinksFrom(fs: Files, dest: Path) {
    forall q :: q in fs && dest <= q ==> !fs[q].Symlink?
  }

  predicate Targets(stack: Stack, dest: Path) {
    forall x :: x in stack ==> dest <= x.1
  }

  /** A turn of the loop that did not fail: exactly the subdirectories of the top go on the stack, each
      once and with an existing place; what is new is the place of a child; and a file can only have
      gone into a directory. */
  ghost predicate Turn(before: Files, stack: Stack, after: Files, next: Stack)
    requires stack != []
  {
    var (dir, dirDest) := stack[|stack| - 1];
    var rest := stack[..|stack| - 1];
    && Grown(before, after) && OnlyPlacesNew(before, after, dir, dirDest)
    && |rest| <= |next| && next[..|rest|] == rest && Pushed(before, dir, dirDest, next[|rest|..])
    && (forall c :: IsChild(before, dir, c) && before[c].Dir? ==>
          (c, dirDest + [Last(c)]) in next && dirDest + [Last(c)] in after)
    && (forall c :: IsChild(before, dir, c) && before[c].File? ==> IsDir(after, dirDest))
  }

  predicate OnlyPlacesNew(before: Files, after: Files, dir: Path, dirDest: Path) {
    forall p :: p in after && p !in before ==> p != [] && Up(p) == dirDest && dir + [Last(p)] in before
  }

  /** Subdirectories with their places, no two alike. */
  predicate Pushed(before: Files, dir: Path, dirDest: Path, pushed: Stack) {
    && NoDuplicates(Firsts(pushed))
    && forall x :: x in pushed ==> IsChild(before, dir, x.0) && before[x.0].Dir? && x.1 == dirDest + [Last(x.0)]
  }

  /** What the inner loop has done for one entry. */
  predicate EntryIn(before: Files, after: Files, dirDest: Path, c: Path, pushed: Stack) {
    && c in before && c != []
    && (before[c].Dir? ==> (c, dirDest + [Last(c)]) in pushed && dirDest + [Last(c)] in after)
    && (before[c].File? ==> IsDir(after, dirDest))
  }

  /** The state of the inner loop once the entries in `seen` have been handled. */
  ghost predicate Handled(before: Files, now: Files, dest: Path, dir: Path, dirDest: Path, seen: seq<Path>, pushed: Stack) {
    && Grown(before, now) && NoLinksFrom(now, dest) && Targets(pushed, dest)
    && OnlyPlacesNew(before, now, dir, dirDest) && Pushed(before, dir, dirDest, pushed)
    && (forall x :: x in pushed ==> x.0 in seen)
    && (forall c :: c in seen ==> EntryIn(before, now, dirDest, c, pushed))
  }

  lemma EntryStaysIn(before: Files, now: Files, after: Files, dirDest: Path, c: Path, pushed: Stack, more: Stack)
    requires EntryIn(before, now, dirDest, c, pushed) && Grown(now, after)
    ensures EntryIn(before, after, dirDest, c, pushed + more)
  {
  }

  /** The stack elements that one entry gives. */
  function More(before: Files, dirDest: Path, entry: Path): Stack
    requires entry in before && entry != []
  {
    if before[entry].Dir? then [(entry, dirDest + [Last(entry)])] else []
  }

  lemma PushedMore(before: Files, dir: Path, dirDest: Path, pushed: Stack, entry: Path)
    requires Pushed(before, dir, dirDest, pushed) && IsChild(before, dir, entry) && entry !in Firsts(pushed)
    ensures Pushed(before, dir, dirDest, pushed + More(before, dirDest, entry))
  {
    var more := More(before, dirDest, entry);
    FirstsConcat(pushed, more);
    assert Firsts(more) == if before[entry].Dir? then [entry] else [];
  }

  lemma NewPlaces(before: Files, now: Files, after: Files, dir: Path, dirDest: Path, entry: Path)
    requires OnlyPlacesNew(before, now, dir, dirDest) && IsChild(before, dir, entry)
    requires forall q :: q != dirDest + [Last(entry)] ==> (q in after <==> q in now)
    ensures OnlyPlacesNew(before, after, dir, dirDest)
  {
    var place := dirDest + [Last(entry)];
    assert Up(place) == dirDest && Last(place) == Last(entry);
    assert dir + [Last(entry)] == entry;
  }

  lemma HandleEntry(before: Files, now: Files, after: Files, dest: Path, dir: Path, dirDest: Path, seen: seq<Path>, pushed: Stack, entry: Path)
    requires Handled(before, now, dest, dir, dirDest, seen, pushed) && dest <= dirDest
    requires IsChild(before, dir, entry) && entry !in seen
    requires Grown(now, after) && NoLinksFrom(after, dest)
    requires forall q :: q != dirDest + [Last(entry)] ==> (q in after <==> q in now)
    requires before[entry].Dir? ==> dirDest + [Last(entry)] in after
    requires before[entry].File? ==> IsDir(after, dirDest)
    ensures Handled(before, after, dest, dir, dirDest, seen + [entry], pushed + More(before, dirDest, entry))
  {
    var more := More(before, dirDest, entry);
    NewPlaces(before, now, after, dir, dirDest, entry);
    FirstsOf(pushed);
    PushedMore(before, dir, dirDest, pushed, entry);
    assert EntryIn(before, after, dirDest, entry, pushed + more);
    forall c | c in seen ensures EntryIn(before, after, dirDest, c, pushed + more) {
      EntryStaysIn(before, now, after, dirDest, c, pushed, more);
    }
  }

  /** One turn, wherever source and destination lie. */
  method CopyTurn(disk: FileSystem, stack: Stack, ghost dest: Path) returns (r: Result<(), IoError>, next: Stack)
    requires stack != [] && Targets(stack, dest) && NoLinksFrom(disk.files, dest)
    modifies disk`files
    ensures Grown(old(disk.files), disk.files)
    ensures r.Success? ==> Targets(next, dest) && NoLinksFrom(disk.files, dest)
    ensures r.Success? ==> Turn(old(disk.files), stack, disk.files, next)
  {
    ghost var before := disk.files;
    var (dir, dirDest) := stack[|stack| - 1];
    assert stack[|stack| - 1] in stack;
    var entries := ReadDir(disk.files, dir);
    var pushed: Stack := [];
    for k := 0 to |entries|
      invariant Handled(before, disk.files, dest, dir, dirDest, entries[..k], pushed)
    {
      ghost var now := disk.files;
      assert entries[k] in entries && entries[k] in Children(before, dir);
      assert entries[k] !in entries[..k] && entries[..k + 1] == entries[..k] + [entries[k]];
      var push;
      r, push := CopyOne(disk, entries[k], dirDest, dest);
      if r.Failure? { return r, []; }
      HandleEntry(before, now, disk.files, dest, dir, dirDest, entries[..k], pushed, entries[k]);
      pushed := pushed + if push then [(entries[k], dirDest + [Last(entries[k])])] else [];
    }
    next := stack[..|stack| - 1] + pushed;
    assert entries[..|entries|] == entries;
    TurnDone(before, disk.files, dest, stack, entries, pushed);
    r := Success(());
  }

  lemma TurnDone(before: Files, after: Files, dest: Path, stack: Stack, entries: seq<Path>, pushed: Stack)
    requires stack != []
    requires var (dir, dirDest) := stack[|stack| - 1];
             && Handled(before, after, dest, dir, dirDest, entries, pushed)
             && forall p :: p in entries <==> p in Children(before, dir)
    ensures Turn(before, stack, after, stack[..|stack| - 1] + pushed)
  {
    var (dir, dirDest) := stack[|stack| - 1];
    var rest := stack[..|stack| - 1];
    var next := rest + pushed;
    assert next[..|rest|] == rest && next[|rest|..] == pushed;
    forall c | IsChild(before, dir, c) ensures EntryIn(before, after, dirDest, c, pushed) {
      assert c in Children(before, dir) && c in entries;
    }
  }

  /** One entry of the directory on top. */
  method CopyOne(disk: FileSystem, entry: Path, dirDest: Path, ghost dest: Path) returns (r: Result<(), IoError>, push: bool)
    requires entry in disk.files && entry != [] && dest <= dirDest && NoLinksFrom(disk.files, dest)
    modifies disk`files
    ensures Grown(old(disk.files), disk.files)
    ensures forall q :: q != dirDest + [Last(entry)] ==> (q in disk.files <==> q in old(disk.files))
    ensures r.Success? ==> NoLinksFrom(disk.files, dest) && push == old(disk.files)[entry].Dir?
    ensures r.Success? && push ==> dirDest + [Last(entry)] in disk.files
    ensures r.Success? && old(disk.files)[entry].File? ==> IsDir(disk.files, dirDest)
  {
    var entryDest := dirDest + [Last(entry)];
    assert Up(entryDest) == dirDest && dest <= entryDest;
    r, push := disk.CopyEntry(entry, entryDest);
  }

  /** Source and place of a stack element with the source above the place, and the next node on the
      way down between them. */
  predicate LeadsOn(fs: Files, x: (Path, Path)) {
    x.0 < x.1 && IsDir(fs, x.0) && x.1[..|x.0| + 1] in fs && !fs[x.1[..|x.0| + 1]].Symlink?
  }

  ghost predicate NotDone(fs: Files, stack: Stack) {
    exists x :: x in stack && LeadsOn(fs, x)
  }

  lemma ChildLeadsOn(fs: Files, c: Path, d: Path, n: Name, dest: Path)
    requires WellFormed(fs) && NoLinksFrom(fs, dest) && dest <= d && c <= d
    requires IsDir(fs, c) && d + [n] in fs
    ensures LeadsOn(fs, (c, d + [n]))
  {
    var place := d + [n];
    var below := place[..|c| + 1];
    assert dest <= place && c < place;
    if |c| < |d| {
      AboveIsDir(fs, below, place);
    } else {
      assert below == place;
    }
  }

  /** A file on the way down cannot be there: the place below it would be a directory. */
  lemma FileStops(fs: Files, c: Path, d: Path)
    requires WellFormed(fs) && c <= d && IsDir(fs, d)
    ensures IsDir(fs, c)
  {
    if |c| < |d| {
      AboveIsDir(fs, c, d);
    } else {
      assert c == d;
    }
  }

  /** The top of the stack passes its work on to the next node on its way down. */
  lemma TopLeadsOn(before: Files, after: Files, stack: Stack, next: Stack, dest: Path)
    requires WellFormed(before) && stack != [] && Targets(stack, dest) && NoLinksFrom(after, dest)
    requires Turn(before, stack, after, next) && LeadsOn(before, stack[|stack| - 1])
    ensures NotDone(after, next)
  {
    var top := stack[|stack| - 1];
    assert top in stack;
    var (s, d) := top;
    var c := d[..|s| + 1];
    assert Up(c) == s;
    assert IsChild(before, s, c);
    if before[c].File? {
      FileStops(after, c, d);
    }
    assert (c, d + [Last(c)]) in next;
    ChildLeadsOn(after, c, d, Last(c), dest);
  }

  lemma TurnLeadsOn(before: Files, after: Files, stack: Stack, next: Stack, dest: Path)
    requires WellFormed(before) && stack != [] && Targets(stack, dest) && NoLinksFrom(after, dest)
    requires Turn(before, stack, after, next) && NotDone(before, stack)
    ensures NotDone(after, next)
  {
    var x :| x in stack && LeadsOn(before, x);
    if x == stack[|stack| - 1] {
      TopLeadsOn(before, after, stack, next, dest);
    } else {
      InRest(stack, x);
      assert next[..|stack| - 1] == stack[..|stack| - 1] && x in next;
      assert LeadsOn(after, x);
    }
  }

  lemma InRest(stack: Stack, x: (Path, Path))
    requires stack != [] && x in stack && x != stack[|stack| - 1]
    ensures x in stack[..|stack| - 1]
  {
    assert stack == stack[..|stack| - 1] + [stack[|stack| - 1]];
  }

  datatype LoopState = LoopState(files: Files, stack: Stack)

  /** A turn that did not fail leads from one state of the loop to the next. */
  ghost predicate Follows(s: LoopState, t: LoopState, dest: Path) {
    && s.stack != [] && Targets(s.stack, dest) && Targets(t.stack, dest) && NoLinksFrom(t.files, dest)
    && Turn(s.files, s.stack, t.files, t.stack)
  }

  /** The states the loop goes through after `s`, turn by turn. */
  ghost predicate Turns(s: LoopState, states: seq<LoopState>, dest: Path)
    decreases states
  {
    states == [] || (Follows(s, states[0], dest) && Turns(states[0], states[1..], dest))
  }

  lemma FollowsLeadsOn(s: LoopState, t: LoopState, dest: Path)
    requires Follows(s, t, dest) && WellFormed(s.files) && NotDone(s.files, s.stack)
    ensures WellFormed(t.files) && NotDone(t.files, t.stack)
  {
    TurnLeadsOn(s.files, t.files, s.stack, t.stack, dest);
  }

  lemma {:induction false} WorkLeft(s: LoopState, states: seq<LoopState>, dest: Path)
    requires Turns(s, states, dest) && WellFormed(s.files) && NotDone(s.files, s.stack)
    ensures forall t :: t in states ==> NotDone(t.files, t.stack)
    decreases states
  {
    if states != [] {
      FollowsLeadsOn(s, states[0], dest);
      WorkLeft(states[0], states[1..], dest);
      assert forall t :: t in states ==> t == states[0] || t in states[1..];
    }
  }

  /** Copying a directory to a place below itself never ends: after any number of turns that did not
      fail there is work left, so the loop can only stop by failing. */
  lemma NeverDone(fs: Files, src: Path, dest: Path, states: seq<LoopState>)
    requires WellFormed(fs) && src < dest && IsDir(fs, src) && IsDir(fs, dest)
    requires Turns(LoopState(fs, [(src, dest)]), states, dest)
    ensures forall t :: t in states ==> t.stack != []
  {
    var (below, start) := (dest[..|src| + 1], (src, dest));
    FileStops(fs, below, dest);
    assert LeadsOn(fs, start) && start in [start];
    WorkLeft(LoopState(fs, [start]), states, dest);
  }

  // ---- A source below the destination ---------------------------------------------------------

  /** The paths of at most `n` of the names. */
  function Words(names: set<Name>, n: nat): set<Path> {
    if n == 0 then {[]}
    else Words(names, n - 1) + set w, a | w in Words(names, n - 1) && a in names :: w + [a]
  }

  lemma {:induction false} IsWord(names: set<Name>, n: nat, p: Path)
    requires |p| <= n && forall a :: a in p ==> a in names
    ensures p in Words(names, n)
  {
    if n > 0 {
      if p == [] {
        IsWord(names, n - 1, p);
      } else {
        forall a | a in Up(p) ensures a in names { assert a in p; }
        IsWord(names, n - 1, Up(p));
        assert p == Up(p) + [Last(p)] && Last(p) in p;
      }
    }
  }

  /** Every path is made of these names and not longer than this. */
  predicate Within(fs: Files, names: set<Name>, n: nat) {
    forall p :: p in fs ==> |p| <= n && forall a :: a in p ==> a in names
  }

  lemma {:induction false} Longest(paths: set<Path>) returns (n: nat)
    ensures forall p :: p in paths ==> |p| <= n
    decreases |paths|
  {
    if paths == {} {
      n := 0;
    } else {
      var p :| p in paths;
      var m := Longest(paths - {p});
      n := if m < |p| then |p| else m;
    }
  }

  /** What holds after some turns, `visited` being the directories that have been on top. */
  ghost predicate Winding(s: LoopState, src: Path, dest: Path, names: set<Name>, n: nat, visited: set<Path>) {
    && Within(s.files, names, n)
    && NoDuplicates(Firsts(s.stack))
    && (forall d :: d in visited ==> d in s.files && d !in Firsts(s.stack))
    && (forall x :: x in s.stack ==> src <= x.0 && x.0 in s.files && x.1 == Image(src, dest, x.0))
    && (forall d :: (d in visited || d in Firsts(s.stack)) && d != src ==> d != [] && Up(d) in visited)
  }

  lemma ChildIsNew(s: LoopState, src: Path, dest: Path, names: set<Name>, n: nat, visited: set<Path>, c: Path)
    requires s.stack != [] && Winding(s, src, dest, names, n, visited)
    requires IsChild(s.files, s.stack[|s.stack| - 1].0, c)
    ensures c !in visited && c !in Firsts(s.stack) && src <= c
  {
    var top := s.stack[|s.stack| - 1];
    assert top in s.stack && Firsts(s.stack)[|s.stack| - 1] == top.0 && top.0 in Firsts(s.stack);
    assert c[..|top.0|] == top.0;
    assert c != src;
  }

  lemma PlacesWithin(s: LoopState, t: LoopState, src: Path, dest: Path, names: set<Name>, n: nat, top: (Path, Path))
    requires Within(s.files, names, n) && dest < src && src <= top.0 && top.0 in s.files && top.1 == Image(src, dest, top.0)
    requires forall a :: a in dest ==> a in names
    requires OnlyPlacesNew(s.files, t.files, top.0, top.1)
    ensures Within(t.files, names, n)
  {
    forall p | p in t.files ensures |p| <= n && forall a :: a in p ==> a in names {
      if p !in s.files {
        var c := top.0 + [Last(p)];
        assert p == top.1 + [Last(p)] && Last(p) in c;
        forall a | a in p ensures a in names {
          if a in top.1 && a !in dest { assert a in top.0; }
        }
      }
    }
  }

  lemma PushedWinds(s: LoopState, pushed: Stack, src: Path, dest: Path, names: set<Name>, n: nat, visited: set<Path>, top: (Path, Path))
    requires s.stack != [] && top == s.stack[|s.stack| - 1] && Winding(s, src, dest, names, n, visited)
    requires Pushed(s.files, top.0, top.1, pushed)
    ensures forall x :: x in pushed ==>
              x.0 !in visited && x.0 !in Firsts(s.stack) && src <= x.0 && x.1 == Image(src, dest, x.0) && x.0 != [] && Up(x.0) == top.0
  {
    TopWinds(s, src, dest, names, n, visited);
    forall x | x in pushed
      ensures x.0 !in visited && x.0 !in Firsts(s.stack) && src <= x.0 && x.1 == Image(src, dest, x.0) && x.0 != [] && Up(x.0) == top.0
    {
      ChildIsNew(s, src, dest, names, n, visited, x.0);
      ImageOfChild(src, dest, top.0, x.0);
    }
  }

  lemma FirstsWind(rest: Stack, top: (Path, Path), pushed: Stack, visited: set<Path>)
    requires NoDuplicates(Firsts(rest + [top])) && NoDuplicates(Firsts(pushed))
    requires forall x :: x in pushed ==> x.0 !in Firsts(rest + [top]) && x.0 !in visited && x.0 != [] && Up(x.0) == top.0
    ensures NoDuplicates(Firsts(rest + pushed)) && top.0 !in Firsts(rest + pushed)
    ensures forall d :: d in Firsts(rest + pushed) ==> d in Firsts(rest + [top]) || (d !in visited && d != [] && Up(d) == top.0)
  {
    FirstsConcat(rest, pushed);
    FirstsConcat(rest, [top]);
    assert Firsts([top]) == [top.0];
    FirstsOf(pushed);
    NoDuplicatesConcat(Firsts(rest), [top.0], Firsts(pushed));
  }

  lemma StackWinds(s: LoopState, t: LoopState, src: Path, dest: Path, names: set<Name>, n: nat, visited: set<Path>)
    requires s.stack != [] && Winding(s, src, dest, names, n, visited)
    requires Turn(s.files, s.stack, t.files, t.stack)
    ensures var top := s.stack[|s.stack| - 1];
            && NoDuplicates(Firsts(t.stack)) && top.0 !in Firsts(t.stack)
            && (forall d :: d in Firsts(t.stack) ==> d in Firsts(s.stack) || (d !in visited && d != [] && Up(d) == top.0))
            && (forall x :: x in t.stack ==> src <= x.0 && x.0 in t.files && x.1 == Image(src, dest, x.0))
  {
    var rest, pushed := TurnParts(s.files, s.stack, t.files, t.stack);
    PartsWind(s, t, rest, pushed, src, dest, names, n, visited, s.stack[|s.stack| - 1]);
  }

  lemma TurnParts(before: Files, stack: Stack, after: Files, next: Stack) returns (rest: Stack, pushed: Stack)
    requires stack != [] && Turn(before, stack, after, next)
    ensures var top := stack[|stack| - 1];
            stack == rest + [top] && next == rest + pushed && Grown(before, after) && Pushed(before, top.0, top.1, pushed)
  {
    rest := stack[..|stack| - 1];
    pushed := next[|rest|..];
  }

  lemma PartsWind(s: LoopState, t: LoopState, rest: Stack, pushed: Stack, src: Path, dest: Path, names: set<Name>, n: nat,
                  visited: set<Path>, top: (Path, Path))
    requires t.stack == rest + pushed && s.stack == rest + [top] && Winding(s, src, dest, names, n, visited)
    requires Grown(s.files, t.files) && Pushed(s.files, top.0, top.1, pushed)
    ensures NoDuplicates(Firsts(t.stack)) && top.0 !in Firsts(t.stack)
    ensures forall d :: d in Firsts(t.stack) ==> d in Firsts(s.stack) || (d !in visited && d != [] && Up(d) == top.0)
    ensures forall x :: x in t.stack ==> src <= x.0 && x.0 in t.files && x.1 == Image(src, dest, x.0)
  {
    PushedWinds(s, pushed, src, dest, names, n, visited, top);
    FirstsWind(rest, top, pushed, visited);
    StackHolds(s, t, rest, pushed, src, dest, top);
  }

  lemma StackHolds(s: LoopState, t: LoopState, rest: Stack, pushed: Stack, src: Path, dest: Path, top: (Path, Path))
    requires t.stack == rest + pushed && s.stack == rest + [top] && Grown(s.files, t.files)
    requires forall x :: x in s.stack ==> src <= x.0 && x.0 in s.files && x.1 == Image(src, dest, x.0)
    requires Pushed(s.files, top.0, top.1, pushed) && forall x :: x in pushed ==> src <= x.0 && x.1 == Image(src, dest, x.0)
    ensures forall x :: x in t.stack ==> src <= x.0 && x.0 in t.files && x.1 == Image(src, dest, x.0)
  {
    forall x | x in t.stack ensures src <= x.0 && x.0 in t.files && x.1 == Image(src, dest, x.0) {
      if x in rest { assert x in s.stack; }
    }
  }

  lemma FirstsOf(stack: Stack)
    ensures forall d :: d in Firsts(stack) <==> exists x :: x in stack && x.0 == d
  {
    forall x | x in stack ensures x.0 in Firsts(stack) {
      var i :| 0 <= i < |stack| && stack[i] == x;
      assert Firsts(stack)[i] == x.0;
    }
  }

  lemma ImageOfChild(src: Path, dest: Path, dir: Path, c: Path)
    requires src <= dir && c != [] && Up(c) == dir
    ensures src <= c && Image(src, dest, c) == Image(src, dest, dir) + [Last(c)]
  {
    assert c == dir + [Last(c)];
  }

  lemma NoDuplicatesConcat(a: seq<Path>, b: seq<Path>, c: seq<Path>)
    requires NoDuplicates(a + b) && NoDuplicates(c) && forall p :: p in c ==> p !in a + b
    ensures NoDuplicates(a + c) && forall p :: p in b ==> p !in a + c
  {
    forall i, j | 0 <= i < j < |a + c| ensures (a + c)[i] != (a + c)[j] {
      if j < |a| {
        assert (a + b)[i] != (a + b)[j];
      } else if i < |a| {
        assert (a + b)[i] == a[i] && c[j - |a|] in c;
      }
    }
    forall p | p in b ensures p !in a + c {
      var k :| 0 <= k < |b| && b[k] == p;
      forall i | 0 <= i < |a| ensures a[i] != p { assert (a + b)[i] != (a + b)[|a| + k]; }
      assert p in a + b;
    }
  }

  /** The directories on the stack and those visited, when the top moves from one to the other. */
  lemma VisitedWinds(before: seq<Path>, top: Path, after: seq<Path>, visited: set<Path>, src: Path)
    requires top in before && (forall d :: d in visited ==> d !in before) && top !in after
    requires forall d :: d in after ==> d in before || (d !in visited && d != [] && Up(d) == top)
    requires forall d :: (d in visited || d in before) && d != src ==> d != [] && Up(d) in visited
    ensures top !in visited
    ensures forall d :: d in visited + {top} ==> d !in after
    ensures forall d :: (d in visited + {top} || d in after) && d != src ==> d != [] && Up(d) in visited + {top}
  {
  }

  lemma TopWinds(s: LoopState, src: Path, dest: Path, names: set<Name>, n: nat, visited: set<Path>)
    requires s.stack != [] && Winding(s, src, dest, names, n, visited)
    ensures var top := s.stack[|s.stack| - 1];
            && top.0 in Firsts(s.stack) && top.0 in s.files && src <= top.0 && top.1 == Image(src, dest, top.0)
  {
    var top := s.stack[|s.stack| - 1];
    assert top in s.stack && Firsts(s.stack)[|s.stack| - 1] == top.0;
  }

  lemma VisitedStay(fs: Files, fs': Files, visited: set<Path>, top: Path)
    requires Grown(fs, fs') && top in fs && forall d :: d in visited ==> d in fs
    ensures forall d :: d in visited + {top} ==> d in fs'
  {
  }

  lemma TurnWinds(s: LoopState, t: LoopState, src: Path, dest: Path, names: set<Name>, n: nat, visited: set<Path>, top: Path)
    requires s.stack != [] && top == s.stack[|s.stack| - 1].0 && dest < src && (forall a :: a in dest ==> a in names)
    requires Winding(s, src, dest, names, n, visited)
    requires Turn(s.files, s.stack, t.files, t.stack)
    ensures Winding(t, src, dest, names, n, visited + {top}) && top !in visited
  {
    TopWinds(s, src, dest, names, n, visited);
    PlacesWithin(s, t, src, dest, names, n, s.stack[|s.stack| - 1]);
    StackWinds(s, t, src, dest, names, n, visited);
    VisitedWinds(Firsts(s.stack), top, Firsts(t.stack), visited, src);
    VisitedStay(s.files, t.files, visited, top);
  }

  /** Every turn visits another directory of the finite set. */
  lemma {:induction false} WindsOn(s: LoopState, states: seq<LoopState>, src: Path, dest: Path, names: set<Name>, n: nat, visited: set<Path>)
    returns (last: LoopState, all: set<Path>)
    requires Turns(s, states, dest) && dest < src && (forall a :: a in dest ==> a in names)
    requires Winding(s, src, dest, names, n, visited)
    ensures Winding(last, src, dest, names, n, all) && |all| == |visited| + |states|
    decreases states
  {
    if states == [] {
      last, all := s, visited;
    } else {
      var top := s.stack[|s.stack| - 1].0;
      TurnWinds(s, states[0], src, dest, names, n, visited, top);
      last, all := WindsOn(states[0], states[1..], src, dest, names, n, visited + {top});
    }
  }

  lemma SubsetSize(a: set<Path>, b: set<Path>)
    requires a <= b
    ensures |a| <= |b|
    decreases |a|
  {
    if a != {} {
      var p :| p in a;
      SubsetSize(a - {p}, b - {p});
    }
  }

  /** Copying a directory onto one above it ends: there is a bound, set by the tree at the start, on the
      number of turns of every execution, whatever order directories are read in. */
  lemma AboveEnds(fs: Files, src: Path, dest: Path) returns (bound: nat)
    requires IsDir(fs, src) && dest in fs && dest < src
    ensures forall states :: Turns(LoopState(fs, [(src, dest)]), states, dest) ==> |states| <= bound
  {
    var names := set p, a | p in fs && a in p :: a;
    var n := Longest(fs.Keys);
    var start := LoopState(fs, [(src, dest)]);
    assert Firsts(start.stack) == [src] && Image(src, dest, src) == dest;
    assert Winding(start, src, dest, names, n, {});
    var words := Words(names, n);
    bound := |words|;
    forall states | Turns(start, states, dest) ensures |states| <= bound {
      var last, all := WindsOn(start, states, src, dest, names, n, {});
      forall d | d in all ensures d in words { IsWord(names, n, d); }
      SubsetSize(all, words);
    }
  }
}
