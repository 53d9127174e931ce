/** Paths as sequences of name elements, and a filesystem as the finite sets
    of paths that name files and directories. */
module Paths {
  import Strings

  /** A path by its name elements: "a/b/C.o" is ["a", "b", "C.o"]. The empty
      path is the directory that all paths of one filesystem are relative to. */
  type Path = seq<string>

  /** File.separatorChar on the platforms the model describes. */
  const Separator: char := '/'

  /** Path.toString: the name elements joined by the separator. */
  function PathString(p: Path): string {
    Strings.Join([Separator], p)
  }

  /** The string of the absolute path that reaches `p` from the filesystem
      root, for `p` given relative to that root. `AbsoluteIsRootMarked` shows
      it is the string of the absolute path [""] + p. */
  function AbsolutePathString(p: Path): string {
    [Separator] + PathString(p)
  }

  /** The names that are not empty, in order. */
  function NonEmptyNames(names: seq<string>): (r: seq<string>)
    ensures forall k :: 0 <= k < |r| ==> r[k] != ""
    ensures forall x :: x in r <==> x in names && x != ""
    ensures (forall k :: 0 <= k < |names| ==> names[k] != "") ==> r == names
    decreases |names|
  {
    if |names| == 0 then []
    else (if names[0] == "" then [] else [names[0]]) + NonEmptyNames(names[1..])
  }

  /** An empty first name is dropped, and the rest kept when none is empty. */
  lemma NonEmptyNamesTail(names: seq<string>)
    requires |names| > 0 && names[0] == ""
    requires forall k :: 0 < k < |names| ==> names[k] != ""
    ensures NonEmptyNames(names) == names[1..]
  {
    assert forall k :: 0 <= k < |names[1..]| ==> names[1..][k] != "";
  }

  /** A non-empty last name survives the filtering, in last place. */
  lemma {:induction false} NonEmptyNamesAppend(names: seq<string>, last: string)
    requires last != ""
    ensures NonEmptyNames(names + [last]) == NonEmptyNames(names) + [last]
    decreases |names|
  {
    if |names| == 0 {
      assert names + [last] == [last];
    } else {
      assert (names + [last])[1..] == names[1..] + [last];
      NonEmptyNamesAppend(names[1..], last);
    }
  }

  /** A path string that starts with the separator is absolute. */
  predicate IsAbsoluteString(s: string) {
    |s| > 0 && s[0] == Separator
  }

  /** An absolute path has an empty first name: "/a/b" is ["", "a", "b"], so
      that its string starts with the separator too. */
  predicate IsAbsolute(p: Path) {
    |p| > 0 && p[0] == ""
  }

  /** Path.resolve(String): `other` is parsed into name elements (a repeated
      or trailing separator yields no empty name). An absolute `other` is the
      result by itself; otherwise its names are appended to `dir`. */
  function ResolveString(dir: Path, other: string): (r: Path)
    ensures IsAbsoluteString(other) ==> IsAbsolute(r)
    ensures IsAbsoluteString(other) ==> forall k :: 0 < k < |r| ==> r[k] != "" && Separator !in r[k]
    ensures !IsAbsoluteString(other) ==> dir <= r
    ensures !IsAbsoluteString(other) ==> forall k :: |dir| <= k < |r| ==> r[k] != "" && Separator !in r[k]
  {
    var pieces := Strings.SplitOn(other, Separator);
    var names := NonEmptyNames(pieces);
    assert forall k :: 0 <= k < |names| ==> names[k] in pieces;
    if IsAbsoluteString(other) then [""] + names else dir + names
  }

  /** A non-empty tail without separators ends the last name of the result. */
  lemma {:induction false} ResolveLastName(dir: Path, x: string, tail: string, other: string) returns (last: string)
    requires tail != "" && Separator !in tail && other == x + tail
    ensures var r := ResolveString(dir, other);
      |r| > 0 && r[|r| - 1] == last && |tail| <= |last| && last[|last| - |tail|..] == tail
    ensures !IsAbsoluteString(other) ==> |ResolveString(dir, other)| > |dir|
  {
    Strings.SplitOnAppend(x, tail, Separator);
    var px := Strings.SplitOn(x, Separator);
    last := px[|px| - 1] + tail;
    assert Strings.SplitOn(x + tail, Separator) == px[..|px| - 1] + [last];
    NonEmptyNamesAppend(px[..|px| - 1], last);
    var r := ResolveString(dir, x + tail);
    var front := if IsAbsoluteString(x + tail) then [""] else dir;
    assert r == front + NonEmptyNames(px[..|px| - 1]) + [last];
  }

  /** The string of an absolute result is `other` itself when `other` has no
      repeated or trailing separator. */
  lemma ResolveAbsoluteString(dir: Path, other: string)
    requires IsAbsoluteString(other)
    requires forall k :: 0 < k < |Strings.SplitOn(other, Separator)| ==> Strings.SplitOn(other, Separator)[k] != ""
    ensures PathString(ResolveString(dir, other)) == other
  {
    var pieces := Strings.SplitOn(other, Separator);
    Strings.SplitOnFirst(other, Separator);
    assert pieces == [""] + pieces[1..];
    NonEmptyNamesTail(pieces);
    Strings.JoinSplitOn(other, Separator);
  }

  /** The relative case's names: a relative `other` with no repeated,
      leading or trailing separator appends exactly its pieces, so the string
      of what is appended is `other` itself. */
  lemma ResolveRelativeString(dir: Path, other: string)
    requires !IsAbsoluteString(other)
    requires forall k :: 0 <= k < |Strings.SplitOn(other, Separator)| ==> Strings.SplitOn(other, Separator)[k] != ""
    ensures ResolveString(dir, other) == dir + Strings.SplitOn(other, Separator)
    ensures PathString(ResolveString(dir, other)[|dir|..]) == other
  {
    var r := ResolveString(dir, other);
    assert r[|dir|..] == Strings.SplitOn(other, Separator);
    Strings.JoinSplitOn(other, Separator);
  }

  /** Both absolute forms agree: a relative path written after the separator
      is the string of the path marked absolute by an empty first name. */
  lemma AbsoluteIsRootMarked(p: Path)
    requires |p| > 0
    ensures IsAbsolute([""] + p)
    ensures AbsolutePathString(p) == PathString([""] + p)
  {
    Strings.JoinCons([Separator], "", p);
  }

  /** A filesystem: the paths that name files and the paths that name directories. */
  datatype FileSystem = FileSystem(files: set<Path>, dirs: set<Path>) {

    function Entries(): set<Path> {
      files + dirs
    }

    /** Nothing is both a file and a directory, the root itself is not an
        entry, and the parent of every entry below the root is a directory. */
    predicate WellFormed() {
      && files !! dirs
      && [] !in files + dirs
      && forall p :: p in files + dirs && |p| > 1 ==> p[..|p| - 1] in dirs
    }
  }

  /** Every non-root proper prefix of an entry of a well-formed filesystem is a directory. */
  lemma {:induction false} AncestorIsDirectory(fs: FileSystem, p: Path, q: Path)
    requires fs.WellFormed()
    requires q in fs.Entries() && 0 < |p| && p < q
    ensures p in fs.dirs
    decreases |q|
  {
    var parent := q[..|q| - 1];
    assert parent in fs.dirs;
    if |parent| > |p| {
      assert p < parent;
      AncestorIsDirectory(fs, p, parent);
    } else {
      assert p == parent;
    }
  }

  /** A file of a well-formed filesystem has nothing below it. */
  lemma NothingBelowFile(fs: FileSystem, f: Path, q: Path)
    requires fs.WellFormed() && f in fs.files && q in fs.Entries()
    ensures !(f < q)
  {
    if f < q {
      AncestorIsDirectory(fs, f, q);
    }
  }

  /** An absent path of a well-formed filesystem has nothing below it. */
  lemma NothingBelowAbsent(fs: FileSystem, a: Path, q: Path)
    requires fs.WellFormed() && a !in fs.Entries() && |a| > 0 && q in fs.Entries()
    ensures !(a < q)
  {
    if a < q {
      AncestorIsDirectory(fs, a, q);
    }
  }
}
