/** A file tree as a map from paths to nodes, and the worklist argument behind the two loops that
    replace recursion over it by an explicit stack. */
module FileTree {
  import opened Prelude
  import opened Paths

  /** A symbolic link may lead nowhere; nothing in the tree lies below a link. */
  datatype Node = Dir | File(content: seq<byte>) | Symlink(dangling: bool)

  type Files = map<Path, Node>

  /** The dead properties of one path, by Clark key. */
  type Properties = map<string, string>

  function Up(p: Path): Path
    requires p != []
  {
    p[..|p| - 1]
  }

  function Last(p: Path): Name
    requires p != []
  {
    p[|p| - 1]
  }

  predicate IsDir(fs: Files, p: Path) {
    p in fs && fs[p].Dir?
  }

  /** `metadata` succeeds: it follows a link, and fails on one that leads nowhere. */
  predicate Exists(fs: Files, p: Path) {
    p in fs && fs[p] != Symlink(true)
  }

  /** Whatever exists has a directory above it. */
  predicate WellFormed(fs: Files) {
    forall p :: p in fs && p != [] ==> IsDir(fs, Up(p))
  }

  predicate IsChild(fs: Files, dir: Path, p: Path) {
    p in fs && p != [] && Up(p) == dir
  }

  function Children(fs: Files, dir: Path): set<Path> {
    set p | p in fs && IsChild(fs, dir, p)
  }

  predicate NoDuplicates<T(==)>(s: seq<T>) {
    forall i, j :: 0 <= i < j < |s| ==> s[i] != s[j]
  }

  /** The entries of a directory in whatever order the system lists them. */
  method ReadDir(fs: Files, dir: Path) returns (entries: seq<Path>)
    ensures NoDuplicates(entries)
    ensures forall p :: p in entries <==> p in Children(fs, dir)
  {
    entries := [];
    var rest := Children(fs, dir);
    while rest != {}
      invariant NoDuplicates(entries)
      invariant rest <= Children(fs, dir)
      invariant forall p :: p in entries <==> p in Children(fs, dir) && p !in rest
    {
      var p :| p in rest;
      entries := entries + [p];
      rest := rest - {p};
    }
  }

  /** The directories on a stack whose elements carry something else along. */
  function Firsts<T>(stack: seq<(Path, T)>): (r: seq<Path>)
    ensures |r| == |stack|
    ensures forall i :: 0 <= i < |r| ==> r[i] == stack[i].0
  {
    seq(|stack|, i requires 0 <= i < |stack| => stack[i].0)
  }

  lemma FirstsConcat<T>(a: seq<(Path, T)>, b: seq<(Path, T)>)
    ensures Firsts(a + b) == Firsts(a) + Firsts(b)
  {
  }

  // ---- The worklist -----------------------------------------------------------------------

  /** The directories at and below `root`. */
  function Directories(fs: Files, root: Path): set<Path> {
    set p | p in fs && root <= p && fs[p].Dir?
  }

  /** `work` is what still has to be visited: its elements are distinct directories that have not
      been visited, and a directory has been seen once its parent has been visited. */
  ghost predicate Worklist(fs: Files, root: Path, work: seq<Path>, visited: set<Path>) {
    && NoDuplicates(work)
    && visited <= Directories(fs, root)
    && (forall d :: d in work ==> d in Directories(fs, root) && d !in visited)
    && (forall d :: d in Directories(fs, root) ==>
          ((d in visited || d in work) <==> (d == root || (root < d && Up(d) in visited))))
  }

  /** With nothing left to visit, every directory has been visited. */
  lemma {:induction false} WorklistDone(fs: Files, root: Path, visited: set<Path>, d: Path)
    requires WellFormed(fs) && Worklist(fs, root, [], visited) && d in Directories(fs, root)
    ensures d in visited
    decreases |d|
  {
    if d != root {
      assert root <= Up(d);
      WorklistDone(fs, root, visited, Up(d));
    }
  }

  /** Visiting one directory and pushing the directories among its children keeps the worklist. */
  lemma WorklistStep(fs: Files, root: Path, work: seq<Path>, visited: set<Path>, d: Path, pushed: seq<Path>)
    requires WellFormed(fs) && Worklist(fs, root, work + [d], visited)
    requires NoDuplicates(pushed)
    requires forall p :: p in pushed <==> p in Children(fs, d) && fs[p].Dir?
    ensures Worklist(fs, root, work + pushed, visited + {d})
  {
    var before := work + [d];
    assert before[|work|] == d;
    assert d in before;
    forall p | p in pushed ensures p in Directories(fs, root) && p != d && p !in visited && p !in work {
      assert Up(p) == d;
      assert p[..|p| - 1] == d;
      assert root <= p && root < p;
      assert p != root;
    }
    assert forall i :: 0 <= i < |work| ==> before[i] == work[i] && work[i] in before;
    assert NoDuplicates(work + pushed) by {
      forall i, j | 0 <= i < j < |work + pushed| ensures (work + pushed)[i] != (work + pushed)[j] {
        if j < |work| {
          assert before[i] != before[j];
        } else if i < |work| {
          assert (work + pushed)[j] in pushed;
        }
      }
    }
    forall e | e in Directories(fs, root)
      ensures (e in visited + {d} || e in work + pushed) <==> (e == root || (root < e && Up(e) in visited + {d}))
    {
      assert e in before <==> e in work || e == d;
      if root < e && Up(e) == d {
        assert e in Children(fs, d);
      }
    }
    forall e | e in work ensures e != d {
      var i :| 0 <= i < |work| && work[i] == e;
      assert before[i] != before[|work|];
    }
  }
}
