/** The listing behind PROPFIND (section 9.1 of RFC 4918): the stack loop over a file tree and the
    hrefs of its entries. Names are the bytes of UTF-8 text. */
module PropFind {
  import opened Prelude
  import opened Paths
  import opened FileTree
  import opened Locks
  import opened Percent

  // ---- Hrefs ------------------------------------------------------------------------------

  /** `normalize_href` for a directory, and `normalize_href_dir`. */
  function NormalizeDir(href: string): (r: string)
    ensures EndsInSlash(r)
  {
    if EndsInSlash(href) then href else href + "/"
  }

  /** The href under which the entries of the directory `rel` below the base are listed. */
  function DirHref(base: string, rel: Path): string
    decreases |rel|
  {
    if rel == [] then base else DirHref(base, Up(rel)) + (Encode(Last(rel)) + "/")
  }

  function Href(base: string, rel: Path): string
    requires rel != []
  {
    DirHref(base, Up(rel)) + Encode(Last(rel))
  }

  lemma {:induction false} EncodeEnds(n: Name)
    requires n != [] && SLASH !in n
    ensures Encode(n) != "" && Encode(n)[|Encode(n)| - 1] != '/'
  {
    if |n| > 1 { EncodeEnds(n[1..]); }
  }

  lemma ChildDirHref(base: string, rel: Path)
    requires rel != [] && ValidName(Last(rel))
    ensures NormalizeDir(Href(base, rel)) == DirHref(base, rel)
  {
    EncodeEnds(Last(rel));
    Assoc(DirHref(base, Up(rel)), Encode(Last(rel)), "/");
  }

  /** The names of a directory's path, each followed by a slash. */
  function DirBytes(rel: Path): seq<byte>
    decreases |rel|
  {
    if rel == [] then [] else DirBytes(Up(rel)) + (Last(rel) + [SLASH])
  }

  /** The names of a path joined by slashes. */
  function Below(rel: Path): seq<byte>
    requires rel != []
  {
    DirBytes(Up(rel)) + Last(rel)
  }

  lemma {:induction false} DirHrefDecodes(base: string, rel: Path)
    requires EndsInSlash(base)
    ensures Decode(DirHref(base, rel)) == Decode(base) + DirBytes(rel)
    decreases |rel|
  {
    if rel == [] {
      assert Decode(base) + [] == Decode(base);
    } else {
      DirHrefDecodes(base, Up(rel));
      DirHrefEnds(base, Up(rel));
      StepDecodes(DirHref(base, Up(rel)), Last(rel), "/");
      DecodeSlash();
      Assoc(Decode(base), DirBytes(Up(rel)), Last(rel) + [SLASH]);
    }
  }

  lemma DecodeSlash()
    ensures Decode("/") == [SLASH]
  {
    DecodePlain('/', "");
    assert ['/'] + "" == "/";
  }

  lemma DirHrefEnds(base: string, rel: Path)
    requires EndsInSlash(base)
    ensures EndsInSlash(DirHref(base, rel))
  {
  }

  lemma StepDecodes(dir: string, n: Name, rest: string)
    requires EndsInSlash(dir)
    ensures Decode(dir + (Encode(n) + rest)) == Decode(dir) + (n + Decode(rest))
  {
    DecodeAfterSlash(dir, Encode(n) + rest);
    DecodeName(n, rest);
  }

  lemma HrefDecodes(base: string, rel: Path)
    requires EndsInSlash(base) && rel != []
    ensures Decode(Href(base, rel)) == Decode(base) + Below(rel)
  {
    DirHrefDecodes(base, Up(rel));
    DirHrefEnds(base, Up(rel));
    StepDecodes(DirHref(base, Up(rel)), Last(rel), "");
    assert Encode(Last(rel)) + "" == Encode(Last(rel));
    assert Last(rel) + Decode("") == Last(rel);
    Assoc(Decode(base), DirBytes(Up(rel)), Last(rel));
  }

  lemma {:induction false} DirBytesJoin(rel: Path)
    ensures [SLASH] + DirBytes(rel) == Join(rel) + [SLASH]
    decreases |rel|
  {
    if rel != [] {
      BelowJoin(rel);
      Assoc(DirBytes(Up(rel)), Last(rel), [SLASH]);
      Assoc([SLASH], Below(rel), [SLASH]);
    }
  }

  lemma {:induction false} BelowJoin(rel: Path)
    requires rel != []
    ensures [SLASH] + Below(rel) == Join(rel)
    decreases |rel|, 0
  {
    var up, last := Up(rel), Last(rel);
    DirBytesJoin(up);
    Assoc([SLASH], DirBytes(up), last);
    Assoc(Join(up), [SLASH], last);
    assert rel == up + [last];
    JoinConcat(up, [last]);
    assert Join([last]) == [SLASH] + last;
  }

  /** Percent-decoding an href gives the decoded base followed by the names joined by slashes, and
      splitting that at the slashes recovers the names. */
  lemma HrefRoundTrip(base: string, rel: Path)
    requires EndsInSlash(base) && rel != [] && Canonical(rel)
    ensures Decode(Href(base, rel)) == Decode(base) + Below(rel)
    ensures Pieces(Below(rel)) == rel
  {
    HrefDecodes(base, rel);
    BelowJoin(rel);
    PiecesOfJoin(rel);
    assert Join(rel)[1..] == Below(rel);
    assert Pieces(Join(rel)) == [[]] + Pieces(Below(rel));
    assert ([[]] + rel)[1..] == rel && ([[]] + Pieces(Below(rel)))[1..] == Pieces(Below(rel));
  }

  /** Different paths have different hrefs, and none has the href of the base. */
  lemma HrefsDistinct(base: string, rel: Path, other: Path)
    requires EndsInSlash(base) && rel != [] && other != [] && Canonical(rel) && Canonical(other)
    ensures Href(base, rel) == Href(base, other) <==> rel == other
    ensures Href(base, rel) != base
  {
    HrefRoundTrip(base, rel);
    HrefRoundTrip(base, other);
    if Href(base, rel) == Href(base, other) {
      assert (Decode(base) + Below(rel))[|Decode(base)|..] == Below(rel);
      assert (Decode(base) + Below(other))[|Decode(base)|..] == Below(other);
    }
    assert Last(rel) != [] by { assert Last(rel) in rel; }
    assert |Decode(Href(base, rel))| > |Decode(base)|;
  }

  // ---- The listing ------------------------------------------------------------------------

  datatype Entry = Entry(href: string, isDir: bool)

  function Relative(root: Path, p: Path): Path
    requires root <= p
  {
    p[|root|..]
  }

  function EntryOf(fs: Files, root: Path, base: string, p: Path): Entry
    requires p in fs && root < p
  {
    Entry(Href(base, Relative(root, p)), fs[p].Dir?)
  }

  /** The entries list exactly the paths in `which`, each once, under its href. */
  ghost predicate Lists(fs: Files, root: Path, base: string, entries: seq<Entry>, paths: seq<Path>, which: set<Path>) {
    && |entries| == |paths| && NoDuplicates(paths)
    && (forall p :: p in paths <==> p in which)
    && (forall i :: 0 <= i < |paths| ==>
          paths[i] in fs && root < paths[i] && entries[i] == EntryOf(fs, root, base, paths[i]))
  }

  /** The same without naming the order. */
  ghost predicate ListsExactly(fs: Files, root: Path, base: string, entries: seq<Entry>, which: set<Path>) {
    exists paths :: Lists(fs, root, base, entries, paths, which)
  }

  function ListedBelow(fs: Files, root: Path): set<Path> {
    set p | p in fs && root < p && Exists(fs, p)
  }

  function ListedChildren(fs: Files, dir: Path): set<Path> {
    set p | p in Children(fs, dir) && Exists(fs, p)
  }

  /** Stack elements are directories paired with the href their entries are listed under. */
  predicate Hrefs(stack: seq<(Path, string)>, root: Path, base: string) {
    forall i :: 0 <= i < |stack| ==> root <= stack[i].0 && stack[i].1 == DirHref(base, Relative(root, stack[i].0))
  }

  /** The state of the inner loop once the children in `seen` have been handled. */
  ghost predicate Handled(fs: Files, root: Path, base: string, seen: seq<Path>, entries: seq<Entry>, paths: seq<Path>, pushed: seq<(Path, string)>) {
    && Lists(fs, root, base, entries, paths, set p | p in seen && Exists(fs, p))
    && NoDuplicates(Firsts(pushed)) && Hrefs(pushed, root, base)
    && (forall p :: p in Firsts(pushed) <==> p in seen && IsDir(fs, p))
  }

  /** A node that can be examined is listed, and a directory is pushed too. */
  lemma HandleChild(fs: Files, root: Path, base: string, seen: seq<Path>, entries: seq<Entry>, paths: seq<Path>, pushed: seq<(Path, string)>, child: Path)
    requires Handled(fs, root, base, seen, entries, paths, pushed)
    requires child in fs && root < child && child !in seen
    ensures !Exists(fs, child) ==> Handled(fs, root, base, seen + [child], entries, paths, pushed)
    ensures Exists(fs, child) ==>
              Handled(fs, root, base, seen + [child], entries + [EntryOf(fs, root, base, child)], paths + [child],
                      if fs[child].Dir? then pushed + [(child, DirHref(base, Relative(root, child)))] else pushed)
  {
    var which := set p | p in seen && Exists(fs, p);
    var more := set p | p in seen + [child] && Exists(fs, p);
    if Exists(fs, child) {
      ListsAppend(fs, root, base, entries, paths, which, child);
      assert which + {child} == more;
      if fs[child].Dir? { PushOne(pushed, root, base, child); }
    } else {
      assert which == more;
    }
  }

  /** What a listing can reach: everything but what lies below a directory that cannot be read. */
  function Reached(fs: Files, root: Path, unreadable: set<Path>): Files {
    map p | p in fs && !(exists d :: d in unreadable && root <= d < p) :: fs[p]
  }

  lemma ReachedIff(fs: Files, root: Path, unreadable: set<Path>, p: Path)
    ensures p in Reached(fs, root, unreadable) <==> p in fs && forall d :: root <= d && d < p ==> d !in unreadable
  {
  }

  /** The entries of a directory, if it can be read, in whatever order, as the Linux reader gives them:
      of a link it says that it is one. */
  method TryReadDir(fs: Files, ghost root: Path, unreadable: set<Path>, dir: Path) returns (r: Option<seq<Path>>)
    requires root <= dir && dir in Reached(fs, root, unreadable)
    ensures r.None? ==> Children(Reached(fs, root, unreadable), dir) == {}
    ensures r.Some? ==> NoDuplicates(r.value)
    ensures r.Some? ==> forall p :: p in r.value <==> p in Children(Reached(fs, root, unreadable), dir)
    ensures r.Some? ==> forall p :: p in r.value ==> p in fs && fs[p] == Reached(fs, root, unreadable)[p]
  {
    ghost var tree := Reached(fs, root, unreadable);
    if dir in unreadable {
      forall p | p in tree && p != [] && Up(p) == dir ensures false { BelowUp(p); }
      return None;
    }
    var children := ReadDir(fs, dir);
    forall p | p in Children(fs, dir) ensures p in tree {
      if d :| d in unreadable && root <= d < p {
        BelowIsAtOrBelowUp(d, p);
      }
    }
    r := Some(children);
  }

  lemma BelowUp(p: Path)
    requires p != []
    ensures Up(p) < p
  {
  }

  lemma BelowIsAtOrBelowUp(d: Path, p: Path)
    requires d < p
    ensures p != [] && (d == Up(p) || d < Up(p))
  {
  }

  lemma ReachedIsTree(fs: Files, root: Path, unreadable: set<Path>)
    requires WellFormed(fs)
    ensures WellFormed(Reached(fs, root, unreadable))
  {
    var tree := Reached(fs, root, unreadable);
    forall p | p in tree && p != [] ensures IsDir(tree, Up(p)) {
      forall d | d in unreadable && d < Up(p) ensures d < p { BelowUp(p); }
    }
  }

  /** One directory of the loop: its entries, and its subdirectories to push. */
  method ListDirectory(fs: Files, unreadable: set<Path>, ghost root: Path, ghost base: string, dir: Path, dirHref: string)
    returns (entries: seq<Entry>, pushed: seq<(Path, string)>, ghost paths: seq<Path>)
    requires (forall p :: p in fs ==> Canonical(p)) && root <= dir && dir in Reached(fs, root, unreadable)
    requires dirHref == DirHref(base, Relative(root, dir))
    ensures Lists(Reached(fs, root, unreadable), root, base, entries, paths, ListedChildren(Reached(fs, root, unreadable), dir))
    ensures NoDuplicates(Firsts(pushed)) && Hrefs(pushed, root, base)
    ensures forall p :: p in Firsts(pushed) <==>
              p in Children(Reached(fs, root, unreadable), dir) && Reached(fs, root, unreadable)[p].Dir?
  {
    ghost var tree := Reached(fs, root, unreadable);
    entries, pushed, paths := [], [], [];
    var read := TryReadDir(fs, root, unreadable, dir);
    if read.None? { return; }
    var children := read.value;
    for k := 0 to |children|
      invariant Handled(tree, root, base, children[..k], entries, paths, pushed)
    {
      var child := children[k];
      assert child in children && child in Children(tree, dir) && child !in children[..k];
      assert children[..k + 1] == children[..k] + [child];
      ChildHref(tree, root, base, dir, child);
      HandleChild(tree, root, base, children[..k], entries, paths, pushed, child);
      if Exists(fs, child) {
        var href := dirHref + Encode(Last(child));
        entries := entries + [Entry(href, fs[child].Dir?)];
        paths := paths + [child];
        if fs[child].Dir? {
          pushed := pushed + [(child, NormalizeDir(href))];
        }
      }
    }
    assert children[..|children|] == children;
    HandledAll(tree, root, base, children, entries, paths, pushed, dir);
  }

  lemma HandledAll(tree: Files, root: Path, base: string, children: seq<Path>, entries: seq<Entry>, paths: seq<Path>,
                   pushed: seq<(Path, string)>, dir: Path)
    requires Handled(tree, root, base, children, entries, paths, pushed)
    requires forall p :: p in children <==> p in Children(tree, dir)
    ensures Lists(tree, root, base, entries, paths, ListedChildren(tree, dir))
    ensures NoDuplicates(Firsts(pushed)) && Hrefs(pushed, root, base)
    ensures forall p :: p in Firsts(pushed) <==> p in Children(tree, dir) && tree[p].Dir?
  {
    assert (set p | p in children && Exists(tree, p)) == ListedChildren(tree, dir);
  }

  lemma ListsAppend(fs: Files, root: Path, base: string, entries: seq<Entry>, paths: seq<Path>, which: set<Path>, p: Path)
    requires Lists(fs, root, base, entries, paths, which)
    requires p in fs && root < p && p !in which
    ensures Lists(fs, root, base, entries + [EntryOf(fs, root, base, p)], paths + [p], which + {p})
  {
    assert forall i :: 0 <= i < |paths| ==> paths[i] in paths;
  }

  lemma PushOne(stack: seq<(Path, string)>, root: Path, base: string, p: Path)
    requires NoDuplicates(Firsts(stack)) && Hrefs(stack, root, base)
    requires root <= p && p !in Firsts(stack)
    ensures var more := stack + [(p, DirHref(base, Relative(root, p)))];
            NoDuplicates(Firsts(more)) && Hrefs(more, root, base) && Firsts(more) == Firsts(stack) + [p]
  {
    var more := stack + [(p, DirHref(base, Relative(root, p)))];
    assert Firsts(more) == Firsts(stack) + [p];
  }

  lemma ChildHref(fs: Files, root: Path, base: string, dir: Path, child: Path)
    requires root <= dir && IsChild(fs, dir, child) && Canonical(child)
    ensures root < child
    ensures DirHref(base, Relative(root, dir)) + Encode(Last(child)) == Href(base, Relative(root, child))
    ensures NormalizeDir(Href(base, Relative(root, child))) == DirHref(base, Relative(root, child))
  {
    assert root <= child by { assert child[..|dir|] == dir; }
    var rel := Relative(root, child);
    assert Up(rel) == Relative(root, dir) && Last(rel) == Last(child);
    assert Last(child) in child;
    ChildDirHref(base, rel);
  }

  /** What has been listed once the directories in `visited` have been. */
  function Seen(fs: Files, root: Path, visited: set<Path>): set<Path> {
    set p | p in fs && root < p && Exists(fs, p) && Up(p) in visited
  }

  /** `collect_descendants`: whatever order the stack and the directories are read in, every node
      below the root that can be examined, and that no unreadable directory hides, is listed exactly
      once, under its own href. */
  method CollectDescendants(fs: Files, unreadable: set<Path>, root: Path, base: string) returns (entries: seq<Entry>)
    requires WellFormed(fs) && IsDir(fs, root) && forall p :: p in fs ==> Canonical(p)
    ensures var tree := Reached(fs, root, unreadable);
            ListsExactly(tree, root, NormalizeDir(base), entries, ListedBelow(tree, root))
  {
    ghost var tree := Reached(fs, root, unreadable);
    ReachedIsTree(fs, root, unreadable);
    var start := NormalizeDir(base);
    var stack := [(root, start)];
    entries := [];
    ghost var paths: seq<Path> := [];
    ghost var visited: set<Path> := {};
    ListingStarts(tree, root, start);
    while stack != []
      invariant Listing(tree, root, start, stack, visited, entries, paths)
      decreases |Directories(tree, root) - visited|
    {
      stack, entries, visited, paths := ListTop(fs, unreadable, root, start, stack, visited, entries, paths);
    }
    ListingEnds(tree, root, start, stack, visited, entries, paths);
  }

  /** One turn of that loop. */
  method ListTop(fs: Files, unreadable: set<Path>, ghost root: Path, ghost base: string, stack: seq<(Path, string)>,
                 ghost visited: set<Path>, entries: seq<Entry>, ghost paths: seq<Path>)
    returns (rest: seq<(Path, string)>, all: seq<Entry>, ghost seen: set<Path>, ghost allPaths: seq<Path>)
    requires WellFormed(Reached(fs, root, unreadable)) && forall p :: p in fs ==> Canonical(p)
    requires stack != [] && Listing(Reached(fs, root, unreadable), root, base, stack, visited, entries, paths)
    ensures Listing(Reached(fs, root, unreadable), root, base, rest, seen, all, allPaths)
    ensures |Directories(Reached(fs, root, unreadable), root) - seen| < |Directories(Reached(fs, root, unreadable), root) - visited|
  {
    ghost var tree := Reached(fs, root, unreadable);
    var top := stack[|stack| - 1];
    rest := stack[..|stack| - 1];
    assert stack == rest + [top];
    ListingTop(tree, root, base, stack, visited, entries, paths);
    var more, pushed;
    ghost var morePaths;
    more, pushed, morePaths := ListDirectory(fs, unreadable, root, base, top.0, top.1);
    ListingStep(tree, root, base, rest, top, pushed, visited, entries, paths, more, morePaths);
    rest, all := rest + pushed, entries + more;
    seen, allPaths := visited + {top.0}, paths + morePaths;
  }

  /** The state of the loop of `collect_descendants`. */
  ghost predicate Listing(fs: Files, root: Path, base: string, stack: seq<(Path, string)>, visited: set<Path>, entries: seq<Entry>, paths: seq<Path>) {
    && Worklist(fs, root, Firsts(stack), visited) && Hrefs(stack, root, base)
    && Lists(fs, root, base, entries, paths, Seen(fs, root, visited))
  }

  lemma ListingStarts(fs: Files, root: Path, base: string)
    requires IsDir(fs, root)
    ensures Listing(fs, root, base, [(root, base)], {}, [], [])
  {
    assert Firsts([(root, base)]) == [root];
    assert Relative(root, root) == [];
  }

  lemma ListingTop(fs: Files, root: Path, base: string, stack: seq<(Path, string)>, visited: set<Path>, entries: seq<Entry>, paths: seq<Path>)
    requires stack != [] && Listing(fs, root, base, stack, visited, entries, paths)
    ensures var (dir, dirHref) := stack[|stack| - 1];
            root <= dir && dir in fs && dirHref == DirHref(base, Relative(root, dir))
    ensures Hrefs(stack[..|stack| - 1], root, base)
  {
    assert Firsts(stack)[|stack| - 1] in Firsts(stack);
  }

  lemma ListingStep(fs: Files, root: Path, base: string, rest: seq<(Path, string)>, top: (Path, string), pushed: seq<(Path, string)>,
                    visited: set<Path>, entries: seq<Entry>, paths: seq<Path>, more: seq<Entry>, morePaths: seq<Path>)
    requires WellFormed(fs) && root <= top.0 && Hrefs(rest, root, base)
    requires Listing(fs, root, base, rest + [top], visited, entries, paths)
    requires Lists(fs, root, base, more, morePaths, ListedChildren(fs, top.0))
    requires NoDuplicates(Firsts(pushed)) && Hrefs(pushed, root, base)
    requires forall p :: p in Firsts(pushed) <==> p in Children(fs, top.0) && fs[p].Dir?
    ensures Listing(fs, root, base, rest + pushed, visited + {top.0}, entries + more, paths + morePaths)
    ensures |Directories(fs, root) - (visited + {top.0})| < |Directories(fs, root) - visited|
  {
    Advance(fs, root, base, rest, top, pushed, visited);
    SeenMore(fs, root, visited, top.0);
    ListsConcat(fs, root, base, entries, paths, Seen(fs, root, visited), more, morePaths, ListedChildren(fs, top.0));
  }

  lemma ListingEnds(fs: Files, root: Path, base: string, stack: seq<(Path, string)>, visited: set<Path>, entries: seq<Entry>, paths: seq<Path>)
    requires WellFormed(fs) && stack == [] && Listing(fs, root, base, stack, visited, entries, paths)
    ensures Lists(fs, root, base, entries, paths, ListedBelow(fs, root))
  {
    assert Firsts(stack) == [];
    AllSeen(fs, root, visited);
  }

  lemma Advance(fs: Files, root: Path, base: string, rest: seq<(Path, string)>, top: (Path, string), pushed: seq<(Path, string)>, visited: set<Path>)
    requires WellFormed(fs)
    requires Worklist(fs, root, Firsts(rest + [top]), visited) && Hrefs(rest, root, base) && Hrefs(pushed, root, base)
    requires NoDuplicates(Firsts(pushed))
    requires forall p :: p in Firsts(pushed) <==> p in Children(fs, top.0) && fs[p].Dir?
    ensures Worklist(fs, root, Firsts(rest + pushed), visited + {top.0}) && Hrefs(rest + pushed, root, base)
    ensures top.0 !in visited
    ensures |Directories(fs, root) - (visited + {top.0})| < |Directories(fs, root) - visited|
  {
    FirstsConcat(rest, [top]);
    FirstsConcat(rest, pushed);
    assert Firsts([top]) == [top.0];
    assert top.0 in Firsts(rest) + [top.0];
    WorklistStep(fs, root, Firsts(rest), visited, top.0, Firsts(pushed));
    assert Directories(fs, root) - (visited + {top.0}) == Directories(fs, root) - visited - {top.0};
  }

  lemma ListsConcat(fs: Files, root: Path, base: string, entries: seq<Entry>, paths: seq<Path>, which: set<Path>,
                    more: seq<Entry>, morePaths: seq<Path>, others: set<Path>)
    requires Lists(fs, root, base, entries, paths, which) && Lists(fs, root, base, more, morePaths, others)
    requires which !! others
    ensures Lists(fs, root, base, entries + more, paths + morePaths, which + others)
  {
    forall p | p in paths ensures p !in morePaths {
      assert p in which;
    }
    NoneTwice(paths, morePaths);
    ConcatLists(fs, root, base, entries, paths, more, morePaths);
  }

  lemma ConcatLists(fs: Files, root: Path, base: string, entries: seq<Entry>, paths: seq<Path>, more: seq<Entry>, morePaths: seq<Path>)
    requires |entries| == |paths| && |more| == |morePaths|
    requires forall i :: 0 <= i < |paths| ==> paths[i] in fs && root < paths[i] && entries[i] == EntryOf(fs, root, base, paths[i])
    requires forall i :: 0 <= i < |more| ==>
               morePaths[i] in fs && root < morePaths[i] && more[i] == EntryOf(fs, root, base, morePaths[i])
    ensures var (all, allPaths) := (entries + more, paths + morePaths);
            forall i :: 0 <= i < |allPaths| ==>
              allPaths[i] in fs && root < allPaths[i] && all[i] == EntryOf(fs, root, base, allPaths[i])
  {
  }

  lemma NoneTwice(a: seq<Path>, b: seq<Path>)
    requires NoDuplicates(a) && NoDuplicates(b) && forall p :: p in a ==> p !in b
    ensures NoDuplicates(a + b)
  {
    forall i, j | 0 <= i < j < |a + b| ensures (a + b)[i] != (a + b)[j] {
      if i < |a| <= j {
        assert a[i] in a && b[j - |a|] in b;
      }
    }
  }

  lemma SeenMore(fs: Files, root: Path, visited: set<Path>, dir: Path)
    requires root <= dir && dir !in visited
    ensures Seen(fs, root, visited + {dir}) == Seen(fs, root, visited) + ListedChildren(fs, dir)
    ensures Seen(fs, root, visited) !! ListedChildren(fs, dir)
  {
    forall p | p in ListedChildren(fs, dir) ensures root < p { assert p[..|dir|] == dir; }
  }

  lemma AllSeen(fs: Files, root: Path, visited: set<Path>)
    requires WellFormed(fs) && Worklist(fs, root, [], visited)
    ensures Seen(fs, root, visited) == ListedBelow(fs, root)
  {
    forall p | p in ListedBelow(fs, root) ensures Up(p) in visited {
      assert root <= Up(p);
      WorklistDone(fs, root, visited, Up(p));
    }
  }

  /** `collect_entries`: the target itself, then what the depth asks for. */
  method CollectEntries(fs: Files, unreadable: set<Path>, target: Path, requestPath: string, depth: Depth)
    returns (entries: seq<Entry>)
    requires WellFormed(fs) && forall p :: p in fs ==> Canonical(p)
    requires target in fs ==> !fs[target].Symlink?
    ensures target !in fs ==> entries == []
    ensures target in fs ==>
              var tree := Reached(fs, target, unreadable);
              && entries != [] && target in tree
              && entries[0] == Entry(if fs[target].Dir? && !EndsInSlash(requestPath) then requestPath + "/" else requestPath, fs[target].Dir?)
              && (!fs[target].Dir? || depth == Zero ==> |entries| == 1)
              && (fs[target].Dir? && depth == One ==>
                    ListsExactly(tree, target, NormalizeDir(requestPath), entries[1..],
                                 set p | p in tree && p != [] && Up(p) == target && Exists(tree, p)))
              && (fs[target].Dir? && depth == Infinity ==>
                    ListsExactly(tree, target, NormalizeDir(requestPath), entries[1..],
                                 set p | p in tree && target < p && Exists(tree, p)))
  {
    if target !in fs { return []; }
    ghost var tree := Reached(fs, target, unreadable);
    var isDir := fs[target].Dir?;
    var first := Entry(if isDir then NormalizeDir(requestPath) else requestPath, isDir);
    var below: seq<Entry> := [];
    assert target in tree;
    if isDir && depth.One? {
      var pushed;
      ghost var paths;
      assert Relative(target, target) == [];
      below, pushed, paths := ListDirectory(fs, unreadable, target, NormalizeDir(requestPath), target, NormalizeDir(requestPath));
      assert ListedChildren(tree, target) == set p | p in tree && p != [] && Up(p) == target && Exists(tree, p);
    } else if isDir && depth.Infinity? {
      below := CollectDescendants(fs, unreadable, target, requestPath);
      assert ListedBelow(tree, target) == set p | p in tree && target < p && Exists(tree, p);
    }
    entries := [first] + below;
    assert entries[1..] == below;
  }

  /** So the hrefs of a listing are pairwise distinct, and differ from the base's. */
  lemma ListingHrefsDistinct(fs: Files, root: Path, base: string, entries: seq<Entry>, paths: seq<Path>, which: set<Path>, i: nat, j: nat)
    requires forall p :: p in fs ==> Canonical(p)
    requires EndsInSlash(base) && Lists(fs, root, base, entries, paths, which)
    requires i < |entries| && j < |entries|
    ensures entries[i].href == entries[j].href <==> i == j
    ensures entries[i].href != base
  {
    var rel, other := Relative(root, paths[i]), Relative(root, paths[j]);
    assert paths[i] == root + rel && paths[j] == root + other;
    assert Canonical(rel) && Canonical(other);
    HrefsDistinct(base, rel, other);
  }
}
