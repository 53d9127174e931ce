/** The "rm" build step: deleting one path, or a whole subtree, below the
    build cell's root, and the shell-like description the step shows. */
module Rm {
  import Wrappers
  import Strings
  import opened Paths

  /** An RmStep: the path to delete, relative to the build cell's root, and
      whether to delete the subtree below it too. */
  datatype RmStep = RmStep(path: Path, recursive: bool)

  /** RmStep.of(path): recursive deletion is off unless asked for. */
  function NewRmStep(path: Path): (r: RmStep)
    ensures r.path == path && !r.recursive
  {
    RmStep(path, false)
  }


  /** StepExecutionResult, as far as this step reports it. */
  datatype StepResult = Success | Error

  /** The location execute deletes: the build cell's root resolved against the
      step's cell-relative path. */
  function AbsolutePath(cellRoot: Path, step: RmStep): (r: Path)
    ensures cellRoot <= r && r[|cellRoot|..] == step.path
  {
    cellRoot + step.path
  }

  /** The entry `p` and every entry below it. */
  function Subtree(fs: FileSystem, p: Path): (r: set<Path>)
    ensures forall q :: q in r <==> q in fs.Entries() && p <= q
  {
    set q | q in fs.Entries() && p <= q
  }

  /** The filesystem without the given entries. */
  function Without(fs: FileSystem, gone: set<Path>): (r: FileSystem)
    ensures r.files == fs.files - gone && r.dirs == fs.dirs - gone
  {
    FileSystem(fs.files - gone, fs.dirs - gone)
  }

  /** A well-formed filesystem has nothing below a path it does not hold. */
  lemma NothingUnderAbsent(fs: FileSystem, target: Path)
    requires fs.WellFormed() && target != [] && target !in fs.Entries()
    ensures forall q :: q in fs.Entries() ==> !(target <= q)
  {
    forall q | q in fs.Entries()
      ensures !(target <= q)
    {
      NothingBelowAbsent(fs, target, q);
      assert q != target;
    }
  }

  /** A directory with something in it. */
  predicate HasChildren(fs: FileSystem, p: Path) {
    exists q :: q in fs.Entries() && p < q
  }

  /** execute: deleteRecursivelyIfExists or deleteIfExists on the absolute
      path. A missing path is not an error; deleting a non-empty directory
      without recursion throws; `ioFailure` stands for any other IOException,
      after which the step reports ERROR. The filesystem root itself cannot
      be deleted. */
  function Execute(fs: FileSystem, cellRoot: Path, step: RmStep, ioFailure: bool): (r: (FileSystem, StepResult))
    ensures var target := AbsolutePath(cellRoot, step);
      r.1 == Success <==> !ioFailure && target != [] && (step.recursive || target !in fs.dirs || !HasChildren(fs, target))
    ensures r.1 == Error ==> r.0 == fs
    ensures var target := AbsolutePath(cellRoot, step);
      !ioFailure && target != [] && target !in fs.Entries() ==> r == (fs, Success)
    ensures var target := AbsolutePath(cellRoot, step);
      r.1 == Success && !step.recursive ==> r.0.files == fs.files - {target} && r.0.dirs == fs.dirs - {target}
    ensures var target := AbsolutePath(cellRoot, step);
      r.1 == Success && step.recursive && target in fs.Entries() ==>
        r.0.files == fs.files - Subtree(fs, target) && r.0.dirs == fs.dirs - Subtree(fs, target)
  {
    var target := AbsolutePath(cellRoot, step);
    if ioFailure || target == [] then (fs, Error)
    else if target !in fs.Entries() then (fs, Success)
    else if step.recursive then (Without(fs, Subtree(fs, target)), Success)
    else if target in fs.dirs && HasChildren(fs, target) then (fs, Error)
    else (Without(fs, {target}), Success)
  }

  /** Recursive deletion in a well-formed filesystem removes the target and
      everything below it, and nothing else. */
  lemma RecursiveDeletesExactlySubtree(fs: FileSystem, cellRoot: Path, step: RmStep, ioFailure: bool)
    requires fs.WellFormed() && step.recursive
    requires Execute(fs, cellRoot, step, ioFailure).1 == Success
    ensures var after, target := Execute(fs, cellRoot, step, ioFailure).0, AbsolutePath(cellRoot, step);
      && after.files <= fs.files && after.dirs <= fs.dirs
      && forall p :: p in after.Entries() <==> p in fs.Entries() && !(target <= p)
  {
    var target := AbsolutePath(cellRoot, step);
    if target !in fs.Entries() {
      NothingUnderAbsent(fs, target);
    }
  }

  /** Deleting keeps a filesystem well-formed: nothing is left whose parent
      directory is gone. */
  lemma ExecuteKeepsWellFormed(fs: FileSystem, cellRoot: Path, step: RmStep, ioFailure: bool)
    requires fs.WellFormed()
    ensures Execute(fs, cellRoot, step, ioFailure).0.WellFormed()
  {
    var target := AbsolutePath(cellRoot, step);
    var (after, result) := Execute(fs, cellRoot, step, ioFailure);
    if result == Success && after != fs {
      forall p | p in after.Entries() && |p| > 1
        ensures p[..|p| - 1] in after.dirs
      {
        var parent := p[..|p| - 1];
        assert parent in fs.dirs;
        if step.recursive {
          assert !(target <= p);
          assert !(target <= parent);
        } else {
          assert parent != target by {
            if target in fs.dirs {
              assert !HasChildren(fs, target);
            }
            if target in fs.files {
              NothingBelowFile(fs, target, p);
            }
          }
        }
      }
    }
  }

  /** Running the step a second time changes nothing more and reports the
      same result. */
  lemma ExecuteIdempotent(fs: FileSystem, cellRoot: Path, step: RmStep, ioFailure: bool)
    ensures var (once, r1) := Execute(fs, cellRoot, step, ioFailure);
      var (twice, r2) := Execute(once, cellRoot, step, ioFailure);
      twice == once && r2 == r1
  {
    var target := AbsolutePath(cellRoot, step);
    var (once, r1) := Execute(fs, cellRoot, step, ioFailure);
    if r1 == Success {
      assert target !in once.Entries();
    }
  }

  /** On a file or an empty directory, recursive and plain deletion agree. */
  lemma RecursionOnlyMattersForDirectories(fs: FileSystem, cellRoot: Path, path: Path, ioFailure: bool)
    requires fs.WellFormed()
    requires !HasChildren(fs, cellRoot + path)
    ensures Execute(fs, cellRoot, RmStep(path, true), ioFailure) == Execute(fs, cellRoot, RmStep(path, false), ioFailure)
  {
    var target := cellRoot + path;
    if !ioFailure && target != [] && target in fs.Entries() {
      forall q | q in Subtree(fs, target)
        ensures q == target
      {
        assert !(target < q);
      }
      assert Subtree(fs, target) == {target};
    }
  }

  /** getDescription: "rm", "-f", "-r" when recursive, and the path, joined by
      single spaces. */
  function Description(step: RmStep): (r: string)
    ensures r == "rm -f " + (if step.recursive then "-r " else "") + PathString(step.path)
  {
    var p := PathString(step.path);
    Strings.JoinCons(" ", "rm", (if step.recursive then ["-f", "-r"] else ["-f"]) + [p]);
    Strings.JoinCons(" ", "-f", (if step.recursive then ["-r"] else []) + [p]);
    if step.recursive then
      Strings.JoinCons(" ", "-r", [p]);
      assert ["rm", "-f"] + ["-r"] + [p] == ["rm"] + (["-f", "-r"] + [p]);
      assert ["-f", "-r"] + [p] == ["-f"] + (["-r"] + [p]);
      Strings.Join(" ", ["rm", "-f"] + ["-r"] + [p])
    else
      assert ["rm", "-f"] + [] + [p] == ["rm"] + (["-f"] + [p]);
      assert ["-f"] + [p] == ["-f"] + ([] + [p]);
      Strings.Join(" ", ["rm", "-f"] + [] + [p])
  }

  /** Step.getShortName: the command word the description starts with. */
  function ShortName(step: RmStep): (r: string)
    ensures ' ' !in r
    ensures |r| < |Description(step)| && Description(step)[..|r| + 1] == r + " "
  {
    "rm"
  }

  /** A path read back from its string: the names between the separators. */
  function ParsePath(s: string): Path {
    if s == "" then [] else Strings.SplitOn(s, Separator)
  }

  /** Reads a description back: "rm -f PATH" or "rm -f -r PATH". */
  function ParseDescription(d: string): Wrappers.Option<RmStep> {
    var words := Strings.SplitOn(d, ' ');
    if |words| == 3 && words[0] == "rm" && words[1] == "-f" then
      Wrappers.Some(RmStep(ParsePath(words[2]), false))
    else if |words| == 4 && words[0] == "rm" && words[1] == "-f" && words[2] == "-r" then
      Wrappers.Some(RmStep(ParsePath(words[3]), true))
    else Wrappers.None
  }

  /** A path whose names are non-empty and hold neither a separator nor a space. */
  predicate PlainPath(p: Path) {
    forall k :: 0 <= k < |p| ==> p[k] != "" && Separator !in p[k] && ' ' !in p[k]
  }

  /** A plain path's string holds no space and reads back as the path. */
  lemma PathStringRoundTrip(path: Path)
    requires PlainPath(path)
    ensures ' ' !in PathString(path)
    ensures ParsePath(PathString(path)) == path
  {
    Strings.JoinAvoids([Separator], path, ' ');
    if path != [] {
      Strings.SplitOnJoin(path, Separator);
      Strings.JoinHead([Separator], path);
    }
  }

  /** The words of the description, split at the spaces. */
  lemma DescriptionWords(step: RmStep)
    requires ' ' !in PathString(step.path)
    ensures Strings.SplitOn(Description(step), ' ') == ["rm", "-f"] + (if step.recursive then ["-r"] else []) + [PathString(step.path)]
  {
    var words := ["rm", "-f"] + (if step.recursive then ["-r"] else []) + [PathString(step.path)];
    assert forall k :: 0 <= k < |words| ==> ' ' !in words[k];
    Strings.SplitOnJoin(words, ' ');
  }

  /** The description names the step exactly: reading it back gives the step. */
  lemma DescriptionRoundTrip(step: RmStep)
    requires PlainPath(step.path)
    ensures ParseDescription(Description(step)) == Wrappers.Some(step)
  {
    PathStringRoundTrip(step.path);
    DescriptionWords(step);
    ParseWords(Description(step), step);
  }

  /** A string whose words are those of a step's description reads back as the step. */
  lemma ParseWords(d: string, step: RmStep)
    requires ParsePath(PathString(step.path)) == step.path
    requires Strings.SplitOn(d, ' ') == ["rm", "-f"] + (if step.recursive then ["-r"] else []) + [PathString(step.path)]
    ensures ParseDescription(d) == Wrappers.Some(step)
  {
  }

  /** Distinct plain steps have distinct descriptions. */
  lemma DescriptionInjective(s1: RmStep, s2: RmStep)
    requires PlainPath(s1.path) && PlainPath(s2.path)
    ensures Description(s1) == Description(s2) <==> s1 == s2
  {
    DescriptionRoundTrip(s1);
    DescriptionRoundTrip(s2);
  }
}
