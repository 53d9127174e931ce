/** The "preparing ... output dir" step of the Haskell compile rule: create the
    output directory, then walk the tree below it, deleting every file that
    the compiler will not regenerate and, after a directory's contents have
    been visited, the directory itself when it is left empty (never the
    output directory itself).

    Two descriptions are given and proved equal: `Walk`, the visitor as the
    rule runs it (children in an order the model leaves open, files before or
    after sibling directories, post-order deletion of directories), and
    `Pruned`, a closed form that says which entries survive. */
module OutputDirCleaning {
  import opened Wrappers
  import opened Paths

  // ---------------------------------------------------------------------
  // Regions of a filesystem
  // ---------------------------------------------------------------------

  /** The entries strictly below `d`. */
  function Below(fs: FileSystem, d: Path): set<Path> {
    set p | p in fs.Entries() && d < p
  }

  /** The entries directly inside `d`. */
  function Children(fs: FileSystem, d: Path): set<Path> {
    set p | p in fs.Entries() && d < p && |p| == |d| + 1
  }

  /** The entries at or below one of `tops`. */
  function Subtrees(fs: FileSystem, tops: set<Path>): set<Path> {
    set p, c | p in fs.Entries() && c in tops && c <= p :: p
  }

  /** Some file of `allowed` exists strictly below `d`. */
  predicate AllowedFileBelow(fs: FileSystem, allowed: set<Path>, d: Path) {
    exists f :: f in fs.files && f in allowed && d < f
  }

  // ---------------------------------------------------------------------
  // The closed form
  // ---------------------------------------------------------------------

  /** `fs` with the entries of `region` removed, except the allowed files and
      the directories that have an allowed file below them. */
  function Prune(fs: FileSystem, allowed: set<Path>, region: set<Path>): FileSystem {
    FileSystem(
      set p | p in fs.files && (p in region ==> p in allowed),
      set p | p in fs.dirs && (p in region ==> AllowedFileBelow(fs, allowed, p)))
  }

  /** A region that contains everything below each of its members. */
  predicate DownwardClosed(fs: FileSystem, region: set<Path>) {
    forall p, q :: p in region && q in fs.Entries() && p < q ==> q in region
  }

  lemma PruneKeepsAllowedFiles(fs: FileSystem, allowed: set<Path>, region: set<Path>, d: Path)
    ensures AllowedFileBelow(Prune(fs, allowed, region), allowed, d) == AllowedFileBelow(fs, allowed, d)
  {
    var r := Prune(fs, allowed, region);
    if AllowedFileBelow(fs, allowed, d) {
      var f :| f in fs.files && f in allowed && d < f;
      assert f in r.files;
    }
  }

  /** Pruning twice is pruning the union of the regions once. */
  lemma PruneCompose(fs: FileSystem, allowed: set<Path>, r1: set<Path>, r2: set<Path>)
    ensures Prune(Prune(fs, allowed, r1), allowed, r2) == Prune(fs, allowed, r1 + r2)
  {
    var once := Prune(fs, allowed, r1);
    forall p
      ensures AllowedFileBelow(once, allowed, p) == AllowedFileBelow(fs, allowed, p)
    {
      PruneKeepsAllowedFiles(fs, allowed, r1, p);
    }
  }

  /** Only the entries of a region matter to Prune. */
  lemma PruneRelevant(fs: FileSystem, allowed: set<Path>, r1: set<Path>, r2: set<Path>)
    requires r1 * fs.Entries() == r2 * fs.Entries()
    ensures Prune(fs, allowed, r1) == Prune(fs, allowed, r2)
  {
    var a := Prune(fs, allowed, r1);
    var b := Prune(fs, allowed, r2);
    forall p | p in fs.Entries()
      ensures p in r1 <==> p in r2
    {
      assert p in r1 <==> p in r1 * fs.Entries();
      assert p in r2 <==> p in r2 * fs.Entries();
    }
    assert a.files == b.files;
    assert a.dirs == b.dirs;
  }

  lemma PruneNothing(fs: FileSystem, allowed: set<Path>)
    ensures Prune(fs, allowed, {}) == fs
  {
    var r := Prune(fs, allowed, {});
    assert r.files == fs.files;
    assert r.dirs == fs.dirs;
  }

  /** Pruning a downward-closed region keeps a filesystem well formed. */
  lemma PruneWellFormed(fs: FileSystem, allowed: set<Path>, region: set<Path>)
    requires fs.WellFormed() && DownwardClosed(fs, region)
    ensures Prune(fs, allowed, region).WellFormed()
  {
    var r := Prune(fs, allowed, region);
    forall p | p in r.files + r.dirs && |p| > 1
      ensures p[..|p| - 1] in r.dirs
    {
      var parent := p[..|p| - 1];
      assert p in fs.Entries();
      assert parent in fs.dirs;
      if parent in region {
        assert p in region;
        if p in r.files {
          assert p in allowed;
        } else {
          var f :| f in fs.files && f in allowed && p < f;
          assert parent < f;
        }
      }
    }
  }

  // ---------------------------------------------------------------------
  // The visitor as it runs
  // ---------------------------------------------------------------------

  lemma BelowShrinks(fs: FileSystem, d: Path, c: Path)
    requires d < c && c in fs.Entries()
    ensures |Below(fs, c)| < |Below(fs, d)|
  {
    var small, big := Below(fs, c), Below(fs, d);
    assert small <= big;
    assert c in big - small;
    assert big == small + (big - small);
  }

  lemma BelowMonotone(smaller: FileSystem, fs: FileSystem, d: Path)
    requires smaller.files <= fs.files && smaller.dirs <= fs.dirs
    ensures |Below(smaller, d)| <= |Below(fs, d)|
  {
    var small, big := Below(smaller, d), Below(fs, d);
    assert small <= big;
    assert big == small + (big - small);
  }

  /** The child the walk visits next: some member of `pending`. */
  ghost function NextChild(pending: set<Path>): (c: Path)
    requires pending != {}
    ensures c in pending
  {
    var c :| c in pending; c
  }

  /** The walk of directory `d`: visit its children, then (post-order) delete
      `d` if it is now empty and is not the walk's root. */
  ghost function Walk(fs: FileSystem, d: Path, root: Path, allowed: set<Path>): (r: FileSystem)
    ensures r.files <= fs.files && r.dirs <= fs.dirs
    decreases |Below(fs, d)|, 1, 0
  {
    var visited := VisitChildren(fs, d, Children(fs, d), root, allowed);
    if d != root && Children(visited, d) == {} then visited.(dirs := visited.dirs - {d})
    else visited
  }

  /** Visiting the `pending` children of `d` one at a time, in an unspecified
      order: a file not in `allowed` is deleted, a directory is walked. */
  ghost function VisitChildren(fs: FileSystem, d: Path, pending: set<Path>, root: Path, allowed: set<Path>): (r: FileSystem)
    requires forall c :: c in pending ==> d < c
    ensures r.files <= fs.files && r.dirs <= fs.dirs
    decreases |Below(fs, d)|, 0, |pending|
  {
    if pending == {} then fs
    else
      var c := NextChild(pending);
      var next := VisitEntry(fs, d, c, root, allowed);
      BelowMonotone(next, fs, d);
      VisitChildren(next, d, pending - {c}, root, allowed)
  }

  /** Visiting one child `c` of `d`: a file not in `allowed` is deleted
      (visitFile), a directory is walked. */
  ghost function VisitEntry(fs: FileSystem, d: Path, c: Path, root: Path, allowed: set<Path>): (r: FileSystem)
    requires d < c
    ensures r.files <= fs.files && r.dirs <= fs.dirs
    decreases |Below(fs, d)|, 0, 0
  {
    if c in fs.files then
      (if c in allowed then fs else fs.(files := fs.files - {c}))
    else if c in fs.dirs then
      BelowShrinks(fs, d, c);
      Walk(fs, c, root, allowed)
    else fs
  }

  // ---------------------------------------------------------------------
  // The walk computes the closed form
  // ---------------------------------------------------------------------

  lemma SubtreesOfChildren(fs: FileSystem, d: Path)
    requires fs.WellFormed()
    ensures Subtrees(fs, Children(fs, d)) == Below(fs, d)
  {
    forall p | p in Below(fs, d)
      ensures p in Subtrees(fs, Children(fs, d))
    {
      var c := p[..|d| + 1];
      assert d < c && c <= p;
      if c != p {
        AncestorIsDirectory(fs, c, p);
      }
      assert c in Children(fs, d);
    }
  }

  lemma SubtreeOfOne(fs: FileSystem, c: Path)
    requires fs.WellFormed() && |c| > 0
    ensures c in fs.files ==> Subtrees(fs, {c}) == {c}
    ensures c in fs.dirs ==> Subtrees(fs, {c}) == Below(fs, c) + {c}
    ensures c !in fs.Entries() ==> Subtrees(fs, {c}) == {}
  {
    var sub := Subtrees(fs, {c});
    assert forall p :: p in sub <==> p in fs.Entries() && c <= p;
    if c in fs.files {
      forall q | q in sub
        ensures q == c
      {
        if c < q {
          NothingBelowFile(fs, c, q);
        }
      }
      assert c in sub;
    } else if c in fs.dirs {
      forall q | q in Below(fs, c) + {c}
        ensures q in sub
      {
        assert c <= q;
      }
      forall q | q in sub
        ensures q in Below(fs, c) + {c}
      {
        if q != c {
          assert c < q;
        }
      }
    } else {
      forall q | q in fs.Entries()
        ensures !(c <= q)
      {
        if c < q {
          NothingBelowAbsent(fs, c, q);
        } else {
          assert c != q;
        }
      }
    }
  }

  lemma SubtreesDownwardClosed(fs: FileSystem, tops: set<Path>)
    ensures DownwardClosed(fs, Subtrees(fs, tops))
  {
    forall p, q | p in Subtrees(fs, tops) && q in fs.Entries() && p < q
      ensures q in Subtrees(fs, tops)
    {
      var c :| c in tops && c <= p;
      assert c <= q;
    }
  }

  lemma BelowDownwardClosed(fs: FileSystem, d: Path)
    ensures DownwardClosed(fs, Below(fs, d))
    ensures DownwardClosed(fs, Below(fs, d) + {d})
  {
  }

  /** After its children are visited, a directory is empty exactly when no
      allowed file was below it. */
  lemma EmptyAfterVisit(fs: FileSystem, d: Path, allowed: set<Path>)
    requires fs.WellFormed()
    ensures var visited := Prune(fs, allowed, Below(fs, d));
      Children(visited, d) == {} <==> !AllowedFileBelow(fs, allowed, d)
  {
    var visited := Prune(fs, allowed, Below(fs, d));
    if AllowedFileBelow(fs, allowed, d) {
      var f :| f in fs.files && f in allowed && d < f;
      var c := f[..|d| + 1];
      assert d < c && c <= f;
      if c == f {
        assert c in visited.files;
      } else {
        AncestorIsDirectory(fs, c, f);
        assert AllowedFileBelow(fs, allowed, c);
        assert c in visited.dirs;
      }
      assert c in Children(visited, d);
    }
  }

  /** Walking directory `d` (the root, or a directory below it) prunes the
      entries below `d`, and `d` itself unless it is the root. */
  lemma {:induction false} WalkIsPrune(fs: FileSystem, d: Path, root: Path, allowed: set<Path>)
    requires fs.WellFormed()
    requires root <= d && (d == root || d in fs.dirs)
    ensures Walk(fs, d, root, allowed)
         == Prune(fs, allowed, Below(fs, d) + (if d == root then {} else {d}))
    decreases |Below(fs, d)|, 1, 0
  {
    var kids := Children(fs, d);
    VisitChildrenIsPrune(fs, d, kids, root, allowed);
    SubtreesOfChildren(fs, d);
    PostVisit(fs, d, root, allowed);
  }

  /** The post-order step: the visited directory is removed exactly when it is
      not the root and no allowed file was below it. */
  lemma PostVisit(fs: FileSystem, d: Path, root: Path, allowed: set<Path>)
    requires fs.WellFormed()
    requires d == root || d in fs.dirs
    ensures var visited := Prune(fs, allowed, Below(fs, d));
      (if d != root && Children(visited, d) == {} then visited.(dirs := visited.dirs - {d}) else visited)
      == Prune(fs, allowed, Below(fs, d) + (if d == root then {} else {d}))
  {
    var visited := Prune(fs, allowed, Below(fs, d));
    EmptyAfterVisit(fs, d, allowed);
    var target := Prune(fs, allowed, Below(fs, d) + (if d == root then {} else {d}));
    if d == root {
      assert Below(fs, d) + {} == Below(fs, d);
    } else {
      assert d !in Below(fs, d);
      assert d !in fs.files;
      assert visited.files == target.files;
      if Children(visited, d) == {} {
        assert visited.(dirs := visited.dirs - {d}).dirs == target.dirs;
      } else {
        assert visited.dirs == target.dirs;
      }
    }
  }

  /** Visiting any set of children of `d`, in whatever order, prunes their subtrees. */
  lemma {:induction false} VisitChildrenIsPrune(fs: FileSystem, d: Path, pending: set<Path>, root: Path, allowed: set<Path>)
    requires fs.WellFormed()
    requires root <= d
    requires forall c :: c in pending ==> d < c
    ensures VisitChildren(fs, d, pending, root, allowed) == Prune(fs, allowed, Subtrees(fs, pending))
    decreases |Below(fs, d)|, 0, |pending|
  {
    if pending == {} {
      PruneNothing(fs, allowed);
      PruneRelevant(fs, allowed, {}, Subtrees(fs, pending));
    } else {
      var c := NextChild(pending);
      var next := VisitEntry(fs, d, c, root, allowed);
      var mine := Subtrees(fs, {c});
      var rest := pending - {c};
      VisitEntryIsPrune(fs, d, c, root, allowed);
      SubtreesDownwardClosed(fs, {c});
      PruneWellFormed(fs, allowed, mine);
      BelowMonotone(next, fs, d);
      VisitChildrenIsPrune(next, d, rest, root, allowed);
      PruneThenRest(fs, allowed, c, pending);
    }
  }

  /** Pruning the subtree of one child and then the subtrees of the others
      prunes the subtrees of all of them. */
  lemma PruneThenRest(fs: FileSystem, allowed: set<Path>, c: Path, pending: set<Path>)
    requires c in pending
    ensures var next := Prune(fs, allowed, Subtrees(fs, {c}));
      Prune(next, allowed, Subtrees(next, pending - {c})) == Prune(fs, allowed, Subtrees(fs, pending))
  {
    var mine := Subtrees(fs, {c});
    var next := Prune(fs, allowed, mine);
    var rest := pending - {c};
    assert Subtrees(next, rest) * next.Entries() == Subtrees(fs, rest) * next.Entries();
    PruneRelevant(next, allowed, Subtrees(next, rest), Subtrees(fs, rest));
    PruneCompose(fs, allowed, mine, Subtrees(fs, rest));
    forall p | p in Subtrees(fs, pending)
      ensures p in mine + Subtrees(fs, rest)
    {
      var top :| top in pending && top <= p && p in fs.Entries();
      if top == c {
        assert p in mine;
      } else {
        assert top in rest;
      }
    }
    assert mine + Subtrees(fs, rest) == Subtrees(fs, pending);
  }

  /** Visiting one child prunes its subtree. */
  lemma {:induction false} VisitEntryIsPrune(fs: FileSystem, d: Path, c: Path, root: Path, allowed: set<Path>)
    requires fs.WellFormed()
    requires root <= d && d < c
    ensures VisitEntry(fs, d, c, root, allowed) == Prune(fs, allowed, Subtrees(fs, {c}))
    decreases |Below(fs, d)|, 0, 0
  {
    SubtreeOfOne(fs, c);
    var mine := Subtrees(fs, {c});
    var next := VisitEntry(fs, d, c, root, allowed);
    if c in fs.files {
      assert next.files == Prune(fs, allowed, mine).files;
      assert next.dirs == Prune(fs, allowed, mine).dirs;
    } else if c in fs.dirs {
      BelowShrinks(fs, d, c);
      WalkIsPrune(fs, c, root, allowed);
    } else {
      PruneNothing(fs, allowed);
      PruneRelevant(fs, allowed, {}, mine);
    }
  }

  // ---------------------------------------------------------------------
  // The step
  // ---------------------------------------------------------------------

  /** ProjectFilesystem.mkdirs (Files.createDirectories): every missing
      directory on the way to `root` is created; a file in the way fails. */
  function MakeDirectories(fs: FileSystem, root: Path): (r: Result<FileSystem, string>)
    ensures r.Success? <==> forall k :: 0 < k <= |root| ==> root[..k] !in fs.files
    ensures r.Success? ==> r.value.files == fs.files
    ensures r.Success? ==> r.value.dirs == fs.dirs + (set k | 0 < k <= |root| :: root[..k])
  {
    if exists k :: 0 < k <= |root| && root[..k] in fs.files then
      Failure("a file exists where a directory is needed")
    else
      Success(fs.(dirs := fs.dirs + (set k | 0 < k <= |root| :: root[..k])))
  }

  /** The files the walk leaves, stated on the filesystem it starts from:
      outside `root` everything stays; below it, exactly the allowed files
      and the directories with an allowed file below them. */
  function Pruned(fs: FileSystem, root: Path, allowed: set<Path>): (r: FileSystem)
    requires fs.WellFormed()
    ensures r.WellFormed()
    ensures r.files <= fs.files && r.dirs <= fs.dirs
    // only entries strictly below the root are touched
    ensures forall p :: p in fs.Entries() && !(root < p) ==> p in r.Entries()
    // every remaining file below the root is allowed, and every allowed one present is kept
    ensures forall f :: f in r.files && root < f ==> f in allowed
    ensures forall f :: f in fs.files && f in allowed ==> f in r.files
    // no directory below the root is left without a file below it
    ensures forall x :: x in r.dirs && root < x ==> exists f :: f in r.files && x < f
  {
    var r := Prune(fs, allowed, Below(fs, root));
    BelowDownwardClosed(fs, root);
    PruneWellFormed(fs, allowed, Below(fs, root));
    assert forall x :: x in r.dirs && root < x ==> AllowedFileBelow(fs, allowed, x);
    r
  }

  /** The step as it runs: create the output directory, then walk it. */
  ghost function PrepareByWalking(fs: FileSystem, root: Path, allowed: set<Path>): Result<FileSystem, string> {
    match MakeDirectories(fs, root)
    case Failure(e) => Failure(e)
    case Success(made) => Success(Walk(made, root, root, allowed))
  }

  lemma MakeDirectoriesWellFormed(fs: FileSystem, root: Path)
    requires fs.WellFormed() && |root| > 0
    requires MakeDirectories(fs, root).Success?
    ensures MakeDirectories(fs, root).value.WellFormed()
    ensures root in MakeDirectories(fs, root).value.dirs
  {
    var made := MakeDirectories(fs, root).value;
    assert root == root[..|root|];
    forall p | p in made.files + made.dirs && |p| > 1
      ensures p[..|p| - 1] in made.dirs
    {
      if p !in fs.Entries() {
        var k :| 0 < k <= |root| && p == root[..k];
        assert p[..|p| - 1] == root[..k - 1];
      }
    }
  }

  /** The "preparing ... output dir" step on a filesystem. */
  function PrepareOutputDir(fs: FileSystem, root: Path, allowed: set<Path>): (r: Result<FileSystem, string>)
    requires fs.WellFormed() && |root| > 0
    ensures r.Success? <==> forall k :: 0 < k <= |root| ==> root[..k] !in fs.files
    ensures r.Success? ==> r.value.WellFormed() && root in r.value.dirs
    // nothing appears but the directories on the way to the root
    ensures r.Success? ==> r.value.files <= fs.files
    ensures r.Success? ==> r.value.dirs <= fs.dirs + (set k | 0 < k <= |root| :: root[..k])
    ensures r.Success? ==> forall f :: f in r.value.files && root < f ==> f in allowed
    ensures r.Success? ==> forall f :: f in fs.files && f in allowed ==> f in r.value.files
    ensures r.Success? ==> forall p :: p in fs.Entries() && !(root < p) ==> p in r.value.Entries()
    ensures r.Success? ==> forall x :: x in r.value.dirs && root < x ==> exists f :: f in r.value.files && x < f
  {
    match MakeDirectories(fs, root)
    case Failure(e) => Failure(e)
    case Success(made) =>
      MakeDirectoriesWellFormed(fs, root);
      Success(Pruned(made, root, allowed))
  }

  /** The visitor, whatever order it visits children in, does what the closed form says. */
  lemma WalkMatchesPrepare(fs: FileSystem, root: Path, allowed: set<Path>)
    requires fs.WellFormed() && |root| > 0
    ensures PrepareByWalking(fs, root, allowed) == PrepareOutputDir(fs, root, allowed)
  {
    if MakeDirectories(fs, root).Success? {
      MakeDirectoriesWellFormed(fs, root);
      var made := MakeDirectories(fs, root).value;
      WalkIsPrune(made, root, root, allowed);
      assert Below(made, root) + {} == Below(made, root);
    }
  }

  /** Preparing an already prepared directory changes nothing. */
  lemma PrepareIdempotent(fs: FileSystem, root: Path, allowed: set<Path>)
    requires fs.WellFormed() && |root| > 0
    requires PrepareOutputDir(fs, root, allowed).Success?
    ensures var once := PrepareOutputDir(fs, root, allowed).value;
      PrepareOutputDir(once, root, allowed) == Success(once)
  {
    var once := PrepareOutputDir(fs, root, allowed).value;
    assert forall k :: 0 < k <= |root| ==> root[..k] in once.dirs by {
      forall k | 0 < k <= |root|
        ensures root[..k] in once.dirs
      {
        if k < |root| {
          AncestorIsDirectory(once, root[..k], root);
        } else {
          assert root[..k] == root;
        }
      }
    }
    var made := MakeDirectories(once, root).value;
    assert made.dirs == once.dirs;
    var twice := Pruned(made, root, allowed);
    assert twice.files == once.files;
    assert twice.dirs == once.dirs by {
      forall x | x in once.dirs && root < x
        ensures AllowedFileBelow(once, allowed, x)
      {
        var f :| f in once.files && x < f;
        assert root < f;
      }
    }
  }
}
