/** The string vocabulary the build rules rely on: the natural order of
    java.lang.String (which sorted sets and TreeSets iterate in), joining,
    splitting on one character or on runs of whitespace, character
    replacement, and Guava's zip-and-concat of a flag with a list of values. */
module Strings {

  // ---------------------------------------------------------------------
  // The natural order of java.lang.String
  // ---------------------------------------------------------------------

  /** `a` sorts strictly before `b` under String.compareTo: the first differing
      character decides, and a proper prefix sorts before the longer string. */
  predicate Less(a: string, b: string)
    decreases |a|
  {
    if |a| == 0 then |b| > 0
    else if |b| == 0 then false
    else if a[0] != b[0] then a[0] < b[0]
    else Less(a[1..], b[1..])
  }

  predicate LessOrEqual(a: string, b: string) {
    a == b || Less(a, b)
  }

  lemma {:induction false} LessIrreflexive(a: string)
    ensures !Less(a, a)
  {
    if |a| > 0 {
      LessIrreflexive(a[1..]);
    }
  }

  lemma {:induction false} LessAsymmetric(a: string, b: string)
    ensures Less(a, b) ==> !Less(b, a)
  {
    if |a| > 0 && |b| > 0 && a[0] == b[0] {
      LessAsymmetric(a[1..], b[1..]);
    }
  }

  lemma {:induction false} LessTransitive(a: string, b: string, c: string)
    requires Less(a, b) && Less(b, c)
    ensures Less(a, c)
  {
    if |a| > 0 && a[0] == b[0] && b[0] == c[0] {
      LessTransitive(a[1..], b[1..], c[1..]);
    }
  }

  lemma {:induction false} LessTotal(a: string, b: string)
    ensures a == b || Less(a, b) || Less(b, a)
  {
    if |a| > 0 && |b| > 0 && a[0] == b[0] {
      LessTotal(a[1..], b[1..]);
      if a[1..] == b[1..] {
        assert a == [a[0]] + a[1..];
        assert b == [b[0]] + b[1..];
      }
    }
  }

  /** `m` is the first element of `s` in string order. */
  predicate IsLeast(m: string, s: set<string>) {
    m in s && forall x :: x in s ==> LessOrEqual(m, x)
  }

  lemma {:induction false} LeastExists(s: set<string>)
    requires s != {}
    ensures exists m :: IsLeast(m, s)
    decreases |s|
  {
    var x :| x in s;
    if s == {x} {
      assert IsLeast(x, s);
    } else {
      LeastExists(s - {x});
      var m :| IsLeast(m, s - {x});
      LessTotal(x, m);
      if Less(x, m) {
        forall y | y in s
          ensures LessOrEqual(x, y)
        {
          if y != x && y != m {
            assert y in s - {x};
            LessTransitive(x, m, y);
          }
        }
        assert IsLeast(x, s);
      } else {
        assert IsLeast(m, s);
      }
    }
  }

  lemma LeastIsUnique(s: set<string>)
    ensures forall m1, m2 :: IsLeast(m1, s) && IsLeast(m2, s) ==> m1 == m2
  {
    forall m1, m2 | IsLeast(m1, s) && IsLeast(m2, s)
      ensures m1 == m2
    {
      LessAsymmetric(m1, m2);
    }
  }

  /** Every element sorts strictly before every later one (so there are no duplicates). */
  predicate StrictlySorted(xs: seq<string>) {
    forall i, j :: 0 <= i < j < |xs| ==> Less(xs[i], xs[j])
  }

  /** The elements of a set of strings in the order a java.util.TreeSet or a
      Guava ImmutableSortedSet iterates them. */
  function SortedElements(s: set<string>): (r: seq<string>)
    ensures |r| == |s|
    ensures forall x :: x in r <==> x in s
    ensures StrictlySorted(r)
    decreases |s|
  {
    if s == {} then []
    else
      LeastExists(s);
      LeastIsUnique(s);
      var m :| IsLeast(m, s);
      var rest := SortedElements(s - {m});
      LeastBeforeSorted(m, s, rest);
      [m] + rest
  }

  lemma LeastBeforeSorted(m: string, s: set<string>, rest: seq<string>)
    requires IsLeast(m, s) && StrictlySorted(rest)
    requires forall x :: x in rest <==> x in s - {m}
    ensures StrictlySorted([m] + rest)
    ensures forall x :: x in [m] + rest <==> x in s
  {
    var r := [m] + rest;
    forall i, j | 0 <= i < j < |r|
      ensures Less(r[i], r[j])
    {
      if i == 0 {
        assert r[j] == rest[j - 1];
        assert rest[j - 1] in rest;
      } else {
        assert r[i] == rest[i - 1] && r[j] == rest[j - 1];
      }
    }
  }

  lemma StrictlySortedTail(xs: seq<string>)
    requires StrictlySorted(xs) && |xs| > 0
    ensures StrictlySorted(xs[1..])
    ensures forall x :: x in xs[1..] <==> x in xs && x != xs[0]
  {
    LessIrreflexive(xs[0]);
  }

  /** There is only one strictly sorted arrangement of a set of strings. */
  lemma {:induction false} SortedUnique(a: seq<string>, b: seq<string>)
    requires StrictlySorted(a) && StrictlySorted(b)
    requires forall x :: x in a <==> x in b
    ensures a == b
    decreases |a|
  {
    if |a| > 0 {
      assert a[0] in b;
      assert |b| > 0;
      if a[0] != b[0] {
        assert b[0] in a;
        var i :| 0 <= i < |a| && a[i] == b[0];
        var j :| 0 <= j < |b| && b[j] == a[0];
        assert Less(a[0], b[0]) by {
          assert i > 0;
        }
        assert Less(b[0], a[0]) by {
          assert j > 0;
        }
        LessAsymmetric(a[0], b[0]);
      }
      StrictlySortedTail(a);
      StrictlySortedTail(b);
      SortedUnique(a[1..], b[1..]);
      assert a == [a[0]] + a[1..];
      assert b == [b[0]] + b[1..];
    } else {
      HeadIsMember(b);
    }
  }

  lemma HeadIsMember(xs: seq<string>)
    ensures |xs| > 0 ==> xs[0] in xs
  {
  }

  /** SortedElements is the one and only sorted listing of the set. */
  lemma SortedElementsIsTheSortedListing(s: set<string>, xs: seq<string>)
    requires StrictlySorted(xs)
    requires forall x :: x in xs <==> x in s
    ensures xs == SortedElements(s)
  {
    SortedUnique(xs, SortedElements(s));
  }

  // ---------------------------------------------------------------------
  // Joining and splitting
  // ---------------------------------------------------------------------

  /** Guava's Joiner.on(sep).join(parts) (and Collectors.joining(sep)). */
  function Join(sep: string, parts: seq<string>): string
    decreases |parts|
  {
    if |parts| == 0 then ""
    else if |parts| == 1 then parts[0]
    else parts[0] + sep + Join(sep, parts[1..])
  }

  lemma JoinHead(sep: string, parts: seq<string>)
    requires |parts| >= 1 && parts[0] != ""
    ensures Join(sep, parts) != "" && Join(sep, parts)[0] == parts[0][0]
  {
  }

  /** A character that is in neither the separator nor any part is not in the joined string. */
  lemma {:induction false} JoinAvoids(sep: string, parts: seq<string>, c: char)
    requires c !in sep && forall k :: 0 <= k < |parts| ==> c !in parts[k]
    ensures c !in Join(sep, parts)
    decreases |parts|
  {
    if |parts| > 1 {
      JoinAvoids(sep, parts[1..], c);
    }
  }

  /** The position of the first `c` in `s`. */
  function IndexOf(s: string, c: char): (i: nat)
    requires c in s
    ensures i < |s| && s[i] == c && c !in s[..i]
  {
    if s[0] == c then 0
    else
      var k := IndexOf(s[1..], c);
      assert s[..k + 1] == [s[0]] + s[1..][..k];
      1 + k
  }

  /** The pieces of `s` between the occurrences of `c`, empty pieces included. */
  function SplitOn(s: string, c: char): (r: seq<string>)
    ensures |r| >= 1
    ensures forall k :: 0 <= k < |r| ==> c !in r[k]
    decreases |s|
  {
    if c !in s then [s]
    else
      var i := IndexOf(s, c);
      [s[..i]] + SplitOn(s[i + 1..], c)
  }

  /** The first piece is a prefix of the string, and empty when the string starts with `c`. */
  lemma SplitOnFirst(s: string, c: char)
    ensures SplitOn(s, c)[0] <= s
    ensures |s| > 0 && s[0] == c ==> SplitOn(s, c)[0] == ""
  {
    if c in s {
      assert SplitOn(s, c)[0] == s[..IndexOf(s, c)];
    }
  }

  /** Joining the pieces back with `c` restores the string. */
  lemma {:induction false} JoinSplitOn(s: string, c: char)
    ensures Join([c], SplitOn(s, c)) == s
    decreases |s|
  {
    if c in s {
      var i := IndexOf(s, c);
      JoinSplitOn(s[i + 1..], c);
      JoinSplitOnStep(s, c, i);
    }
  }

  lemma JoinSplitOnStep(s: string, c: char, i: nat)
    requires i < |s| && s[i] == c && c !in s[..i]
    requires Join([c], SplitOn(s[i + 1..], c)) == s[i + 1..]
    ensures Join([c], SplitOn(s, c)) == s
  {
    var u, v := s[..i], s[i + 1..];
    assert s == u + [c] + v;
    SplitOnAt(u, c, v);
    JoinCons([c], u, SplitOn(v, c));
  }

  lemma JoinCons(sep: string, first: string, rest: seq<string>)
    requires |rest| >= 1
    ensures Join(sep, [first] + rest) == first + sep + Join(sep, rest)
  {
    assert ([first] + rest)[1..] == rest;
  }

  lemma IndexOfAfterPrefix(u: string, c: char, v: string)
    requires c !in u
    ensures IndexOf(u + [c] + v, c) == |u|
  {
    var s := u + [c] + v;
    assert s[|u|] == c;
  }

  /** Splitting at the first `c`. */
  lemma {:induction false} SplitOnAt(u: string, c: char, v: string)
    requires c !in u
    ensures SplitOn(u + [c] + v, c) == [u] + SplitOn(v, c)
  {
    var s := u + [c] + v;
    IndexOfAfterPrefix(u, c, v);
    assert s[..|u|] == u;
    assert s[|u| + 1..] == v;
  }

  /** Appending a `c`-free string extends the last piece. */
  lemma {:induction false} SplitOnAppend(x: string, y: string, c: char)
    requires c !in y
    ensures var px := SplitOn(x, c);
      SplitOn(x + y, c) == px[..|px| - 1] + [px[|px| - 1] + y]
    decreases |x|
  {
    if c !in x {
      assert c !in x + y;
      assert SplitOn(x + y, c) == [x + y];
    } else {
      var i := IndexOf(x, c);
      var u, tail := x[..i], x[i + 1..];
      assert x == u + [c] + tail;
      SplitOnAppend(tail, y, c);
      SplitOnAppendStep(u, tail, y, c);
    }
  }

  lemma {:induction false} SplitOnAppendStep(u: string, tail: string, y: string, c: char)
    requires c !in u
    requires var pt := SplitOn(tail, c);
      SplitOn(tail + y, c) == pt[..|pt| - 1] + [pt[|pt| - 1] + y]
    ensures var px := SplitOn(u + [c] + tail, c);
      SplitOn(u + [c] + tail + y, c) == px[..|px| - 1] + [px[|px| - 1] + y]
  {
    SplitOnAt(u, c, tail);
    assert u + [c] + tail + y == u + [c] + (tail + y);
    SplitOnAt(u, c, tail + y);
    ExtendLastAfterHead(u, SplitOn(tail, c), y);
  }

  /** Extending the last element commutes with putting an element in front. */
  lemma ExtendLastAfterHead(u: string, pt: seq<string>, y: string)
    requires |pt| > 0
    ensures var px := [u] + pt;
      [u] + (pt[..|pt| - 1] + [pt[|pt| - 1] + y]) == px[..|px| - 1] + [px[|px| - 1] + y]
  {
    var px := [u] + pt;
    assert px[..|px| - 1] == [u] + pt[..|pt| - 1];
  }

  /** Splitting a join of `c`-free pieces gives the pieces back. */
  lemma {:induction false} SplitOnJoin(parts: seq<string>, c: char)
    requires |parts| >= 1
    requires forall k :: 0 <= k < |parts| ==> c !in parts[k]
    ensures SplitOn(Join([c], parts), c) == parts
    decreases |parts|
  {
    if |parts| > 1 {
      var rest := Join([c], parts[1..]);
      assert Join([c], parts) == parts[0] + [c] + rest;
      SplitOnAt(parts[0], c, rest);
      SplitOnJoin(parts[1..], c);
      assert parts == [parts[0]] + parts[1..];
    }
  }

  /** String.replace(char, char): every `from` becomes `to`. */
  function ReplaceChar(s: string, from: char, to: char): (r: string)
    ensures |r| == |s|
    ensures forall i {:trigger r[i]} :: 0 <= i < |s| ==> r[i] == (if s[i] == from then to else s[i])
    decreases |s|
  {
    if |s| == 0 then ""
    else [if s[0] == from then to else s[0]] + ReplaceChar(s[1..], from, to)
  }

  lemma ReplaceCharAppend(a: string, b: string, from: char, to: char)
    ensures ReplaceChar(a + b, from, to) == ReplaceChar(a, from, to) + ReplaceChar(b, from, to)
  {
    var l := ReplaceChar(a + b, from, to);
    var r := ReplaceChar(a, from, to) + ReplaceChar(b, from, to);
    assert |l| == |r|;
    forall i | 0 <= i < |l|
      ensures l[i] == r[i]
    {
      if i < |a| {
        assert (a + b)[i] == a[i];
      } else {
        assert (a + b)[i] == b[i - |a|];
      }
    }
  }

  /** Replacing `from` by `to` is splitting on `from` and joining with `to`. */
  lemma {:induction false} ReplaceCharIsSplitJoin(s: string, from: char, to: char)
    ensures ReplaceChar(s, from, to) == Join([to], SplitOn(s, from))
    decreases |s|
  {
    if from !in s {
      assert ReplaceChar(s, from, to) == s;
    } else {
      var i := IndexOf(s, from);
      var head, tail := s[..i], s[i + 1..];
      assert s == head + [from] + tail;
      var pieces := SplitOn(tail, from);
      assert SplitOn(s, from) == [head] + pieces;
      assert ReplaceChar(head, from, to) == head;
      assert ReplaceChar([from], from, to) == [to];
      calc {
        ReplaceChar(s, from, to);
        { ReplaceCharAppend(head + [from], tail, from, to); }
        ReplaceChar(head + [from], from, to) + ReplaceChar(tail, from, to);
        { ReplaceCharAppend(head, [from], from, to); }
        head + [to] + ReplaceChar(tail, from, to);
        { ReplaceCharIsSplitJoin(tail, from, to); }
        head + [to] + Join([to], pieces);
        Join([to], [head] + pieces);
      }
    }
  }

  // ---------------------------------------------------------------------
  // String.split("\\s+")
  // ---------------------------------------------------------------------

  /** Java's regular-expression class \s: space, tab, newline, vertical tab,
      form feed and carriage return. */
  predicate IsWhitespace(ch: char) {
    ch == ' ' || ch == '\t' || ch == '\n' || ch == '\U{0B}' || ch == '\U{0C}' || ch == '\r'
  }

  predicate HasWhitespace(s: string) {
    exists i :: 0 <= i < |s| && IsWhitespace(s[i])
  }

  function FirstWhitespace(s: string): (i: nat)
    requires HasWhitespace(s)
    ensures i < |s| && IsWhitespace(s[i]) && !HasWhitespace(s[..i])
  {
    if IsWhitespace(s[0]) then 0
    else
      var k := FirstWhitespace(s[1..]);
      assert s[..k + 1] == [s[0]] + s[1..][..k];
      1 + k
  }

  /** `s` without its leading run of whitespace. */
  function SkipWhitespace(s: string): (r: string)
    ensures |r| <= |s| && r == s[|s| - |r|..]
    ensures r == [] || !IsWhitespace(r[0])
    ensures forall i :: 0 <= i < |s| - |r| ==> IsWhitespace(s[i])
  {
    if |s| > 0 && IsWhitespace(s[0]) then SkipWhitespace(s[1..]) else s
  }

  /** The substrings between maximal runs of whitespace, empty ones included:
      a leading run yields a leading "", a trailing run a trailing "". */
  function WhitespaceFields(s: string): (r: seq<string>)
    ensures |r| >= 1
    ensures forall k :: 0 <= k < |r| ==> !HasWhitespace(r[k])
    ensures forall k :: 0 < k < |r| - 1 ==> r[k] != ""
    ensures |s| > 0 && !IsWhitespace(s[0]) ==> r[0] != ""
    decreases |s|
  {
    if !HasWhitespace(s) then [s]
    else
      var i := FirstWhitespace(s);
      [s[..i]] + WhitespaceFields(SkipWhitespace(s[i..]))
  }

  /** `xs` without its trailing empty strings. */
  function DropTrailingEmpty(xs: seq<string>): (r: seq<string>)
    ensures |r| <= |xs| && r == xs[..|r|]
    ensures |r| > 0 ==> r[|r| - 1] != ""
    ensures forall k :: |r| <= k < |xs| ==> xs[k] == ""
  {
    if |xs| == 0 then []
    else if xs[|xs| - 1] == "" then DropTrailingEmpty(xs[..|xs| - 1])
    else xs
  }

  /** String.split("\\s+"): a string without whitespace is returned whole
      (even the empty string); otherwise the whitespace-separated fields with
      the trailing empty ones removed, so a leading run of whitespace still
      gives a leading "" and an all-whitespace string gives no fields. */
  function SplitWhitespace(s: string): (r: seq<string>)
    ensures forall k :: 0 <= k < |r| ==> !HasWhitespace(r[k])
    ensures forall k :: 0 < k < |r| ==> r[k] != ""
    ensures !HasWhitespace(s) ==> r == [s]
  {
    if !HasWhitespace(s) then [s] else DropTrailingEmpty(WhitespaceFields(s))
  }

  lemma FirstWhitespaceAfterToken(t: string, v: string)
    requires !HasWhitespace(t)
    ensures HasWhitespace(t + " " + v)
    ensures FirstWhitespace(t + " " + v) == |t|
  {
    var s := t + " " + v;
    assert IsWhitespace(s[|t|]);
  }

  lemma SkipOneSpace(v: string)
    requires v != [] && !IsWhitespace(v[0])
    ensures SkipWhitespace(" " + v) == v
  {
  }

  /** The first field of a token, a space and more is the token. */
  lemma {:induction false} WhitespaceFieldsAt(t: string, v: string)
    requires !HasWhitespace(t) && v != [] && !IsWhitespace(v[0])
    ensures WhitespaceFields(t + " " + v) == [t] + WhitespaceFields(v)
  {
    var s := t + " " + v;
    FirstWhitespaceAfterToken(t, v);
    assert s[..|t|] == t;
    assert s[|t|..] == " " + v;
    SkipOneSpace(v);
  }

  /** Fields of single-space-joined tokens are the tokens. */
  lemma {:induction false} WhitespaceFieldsJoin(tokens: seq<string>)
    requires |tokens| >= 1
    requires forall k :: 0 <= k < |tokens| ==> tokens[k] != "" && !HasWhitespace(tokens[k])
    ensures WhitespaceFields(Join(" ", tokens)) == tokens
    decreases |tokens|
  {
    if |tokens| > 1 {
      var rest := Join(" ", tokens[1..]);
      assert Join(" ", tokens) == tokens[0] + " " + rest;
      JoinHead(" ", tokens[1..]);
      WhitespaceFieldsAt(tokens[0], rest);
      WhitespaceFieldsJoin(tokens[1..]);
      assert tokens == [tokens[0]] + tokens[1..];
    }
  }

  /** Splitting single-space-joined tokens on whitespace gives the tokens back. */
  lemma SplitWhitespaceJoin(tokens: seq<string>)
    requires |tokens| >= 1
    requires forall k :: 0 <= k < |tokens| ==> tokens[k] != "" && !HasWhitespace(tokens[k])
    ensures SplitWhitespace(Join(" ", tokens)) == tokens
  {
    if |tokens| > 1 {
      var s := Join(" ", tokens);
      FirstWhitespaceAfterToken(tokens[0], Join(" ", tokens[1..]));
      WhitespaceFieldsJoin(tokens);
      assert DropTrailingEmpty(tokens) == tokens;
    }
  }

  /** Only whitespace (the empty string included). */
  predicate IsBlank(w: string) {
    forall i :: 0 <= i < |w| ==> IsWhitespace(w[i])
  }

  /** The tokens with gaps[k] between tokens[k] and tokens[k + 1]. */
  function Interleave(tokens: seq<string>, gaps: seq<string>): string
    requires |tokens| >= 1 && |gaps| == |tokens| - 1
    decreases |tokens|
  {
    if |tokens| == 1 then tokens[0]
    else tokens[0] + gaps[0] + Interleave(tokens[1..], gaps[1..])
  }

  /** Non-empty, whitespace-free tokens separated by non-empty runs of whitespace. */
  predicate WellSpaced(tokens: seq<string>, gaps: seq<string>) {
    && |tokens| >= 1 && |gaps| == |tokens| - 1
    && (forall k :: 0 <= k < |tokens| ==> tokens[k] != "" && !HasWhitespace(tokens[k]))
    && (forall k :: 0 <= k < |gaps| ==> gaps[k] != "" && IsBlank(gaps[k]))
  }

  /** A run of whitespace is skipped up to the first non-whitespace character. */
  lemma {:induction false} SkipBlank(w: string, v: string)
    requires IsBlank(w) && (v == "" || !IsWhitespace(v[0]))
    ensures SkipWhitespace(w + v) == v
    decreases |w|
  {
    if |w| > 0 {
      assert (w + v)[1..] == w[1..] + v;
      SkipBlank(w[1..], v);
    } else {
      assert w + v == v;
    }
  }

  /** A whitespace-free token, then a run of whitespace: the token is the
      first field, and the fields of the rest follow. */
  lemma {:induction false} WhitespaceFieldsRun(t: string, w: string, v: string)
    requires !HasWhitespace(t) && w != "" && IsBlank(w) && (v == "" || !IsWhitespace(v[0]))
    ensures WhitespaceFields(t + w + v) == [t] + WhitespaceFields(v)
  {
    var s := t + w + v;
    assert IsWhitespace(s[|t|]);
    assert s[..|t|] == t;
    assert FirstWhitespace(s) == |t|;
    assert s[|t|..] == w + v;
    SkipBlank(w, v);
  }

  /** The fields of spaced tokens and a trailing run: the tokens, and one
      empty field for a non-empty trailing run. */
  lemma {:induction false} WhitespaceFieldsSpaced(tokens: seq<string>, gaps: seq<string>, trail: string, extra: seq<string>)
    requires WellSpaced(tokens, gaps) && IsBlank(trail)
    requires extra == if trail == "" then [] else [""]
    ensures WhitespaceFields(Interleave(tokens, gaps) + trail) == tokens + extra
    decreases |tokens|
  {
    if |tokens| == 1 {
      FieldsOfLastToken(tokens, trail, extra);
    } else {
      WellSpacedTail(tokens, gaps);
      var rest := Interleave(tokens[1..], gaps[1..]);
      WhitespaceFieldsSpaced(tokens[1..], gaps[1..], trail, extra);
      SpacedHead(tokens[1..], gaps[1..], trail);
      FieldsOfToken(tokens[0], gaps[0], rest, trail, tokens[1..] + extra);
      assert Interleave(tokens, gaps) == tokens[0] + gaps[0] + rest;
      ConsFields(tokens, extra);
    }
  }

  lemma FieldsOfLastToken(tokens: seq<string>, trail: string, extra: seq<string>)
    requires |tokens| == 1 && !HasWhitespace(tokens[0]) && IsBlank(trail)
    requires extra == if trail == "" then [] else [""]
    ensures WhitespaceFields(tokens[0] + trail) == tokens + extra
  {
    if trail == "" {
      assert tokens[0] + trail == tokens[0];
    } else {
      WhitespaceFieldsRun(tokens[0], trail, "");
      assert tokens[0] + trail + "" == tokens[0] + trail;
    }
  }

  lemma FieldsOfToken(t: string, gap: string, rest: string, trail: string, restFields: seq<string>)
    requires !HasWhitespace(t) && gap != "" && IsBlank(gap)
    requires rest + trail != "" && !IsWhitespace((rest + trail)[0])
    requires WhitespaceFields(rest + trail) == restFields
    ensures WhitespaceFields(t + gap + rest + trail) == [t] + restFields
  {
    WhitespaceFieldsRun(t, gap, rest + trail);
    assert t + gap + rest + trail == t + gap + (rest + trail);
  }

  lemma WellSpacedTail(tokens: seq<string>, gaps: seq<string>)
    requires WellSpaced(tokens, gaps) && |tokens| > 1
    ensures WellSpaced(tokens[1..], gaps[1..])
    ensures !HasWhitespace(tokens[0]) && gaps[0] != "" && IsBlank(gaps[0])
  {
  }

  /** Spaced tokens, then anything, start with the first token's first character. */
  lemma SpacedHead(tokens: seq<string>, gaps: seq<string>, trail: string)
    requires WellSpaced(tokens, gaps)
    ensures var s := Interleave(tokens, gaps) + trail;
      s != "" && !IsWhitespace(s[0])
  {
    assert tokens[0] != "" && !HasWhitespace(tokens[0]);
    assert !IsWhitespace(tokens[0][0]);
  }

  lemma ConsFields(tokens: seq<string>, extra: seq<string>)
    requires |tokens| > 0
    ensures [tokens[0]] + (tokens[1..] + extra) == tokens + extra
  {
    assert tokens == [tokens[0]] + tokens[1..];
  }

  /** A leading run of whitespace adds one empty first field. */
  lemma LeadFields(lead: string, body: string)
    requires IsBlank(lead) && lead != "" && body != "" && !IsWhitespace(body[0])
    ensures WhitespaceFields(lead + body) == [""] + WhitespaceFields(body)
  {
    var s := lead + body;
    assert IsWhitespace(s[0]);
    assert FirstWhitespace(s) == 0;
    assert s[..0] == "" && s[0..] == s;
    SkipBlank(lead, body);
  }

  /** On a non-empty string the split is the fields without trailing empty ones. */
  lemma SplitWhitespaceNonEmpty(s: string)
    requires s != ""
    ensures SplitWhitespace(s) == DropTrailingEmpty(WhitespaceFields(s))
  {
  }

  /** Trailing empty strings after a non-empty last one are dropped. */
  lemma DropAfterLast(front: seq<string>, tokens: seq<string>, extra: seq<string>)
    requires |tokens| > 0 && tokens[|tokens| - 1] != ""
    requires extra == [] || extra == [""]
    ensures DropTrailingEmpty(front + (tokens + extra)) == front + tokens
  {
    var want := front + tokens;
    assert front + (tokens + extra) == want + extra;
    if extra == [""] {
      assert (want + extra)[..|want|] == want;
    } else {
      assert want + extra == want;
    }
  }

  /** A string that starts with a run of whitespace (possibly empty), then a
      non-whitespace character: the leading run gives one leading "", and
      trailing empty fields are dropped. */
  lemma SplitAfterLead(lead: string, body: string, tokens: seq<string>, extra: seq<string>)
    requires IsBlank(lead) && body != "" && !IsWhitespace(body[0])
    requires |tokens| > 0 && tokens[|tokens| - 1] != ""
    requires extra == [] || extra == [""]
    requires WhitespaceFields(body) == tokens + extra
    ensures SplitWhitespace(lead + body) == (if lead == "" then [] else [""]) + tokens
  {
    var front: seq<string> := if lead == "" then [] else [""];
    if lead == "" {
      assert lead + body == body;
    } else {
      LeadFields(lead, body);
    }
    SplitWhitespaceNonEmpty(lead + body);
    DropAfterLast(front, tokens, extra);
  }

  /** String.split("\\s+") on non-empty tokens separated by runs of any
      whitespace, with optional runs before and after: the tokens, after
      one leading "" exactly when there is a leading run. */
  lemma SplitWhitespaceSpaced(lead: string, tokens: seq<string>, gaps: seq<string>, trail: string)
    requires WellSpaced(tokens, gaps) && IsBlank(lead) && IsBlank(trail)
    ensures SplitWhitespace(lead + Interleave(tokens, gaps) + trail) == (if lead == "" then [] else [""]) + tokens
  {
    var body := Interleave(tokens, gaps) + trail;
    assert lead + Interleave(tokens, gaps) + trail == lead + body;
    var extra: seq<string> := if trail == "" then [] else [""];
    WhitespaceFieldsSpaced(tokens, gaps, trail, extra);
    SpacedHead(tokens, gaps, trail);
    SplitAfterLead(lead, body, tokens, extra);
  }

  /** A non-empty string of whitespace splits into no fields at all. */
  lemma SplitWhitespaceBlank(w: string)
    requires w != "" && IsBlank(w)
    ensures SplitWhitespace(w) == []
  {
    WhitespaceFieldsRun("", w, "");
    assert "" + w + "" == w;
    assert DropTrailingEmpty(["", ""]) == DropTrailingEmpty([""]);
  }

  // ---------------------------------------------------------------------
  // MoreIterables.zipAndConcat(Iterables.cycle(flag), values)
  // ---------------------------------------------------------------------

  /** Each value preceded by `flag`: flag, v0, flag, v1, ... */
  function ZipWithFlag(flag: string, values: seq<string>): (r: seq<string>)
    ensures |r| == 2 * |values|
    ensures forall i :: 0 <= i < |values| ==> r[2 * i] == flag && r[2 * i + 1] == values[i]
    decreases |values|
  {
    if |values| == 0 then []
    else
      var rest := ZipWithFlag(flag, values[1..]);
      ZipWithFlagCons(flag, values, rest);
      [flag, values[0]] + rest
  }

  lemma ZipWithFlagCons(flag: string, values: seq<string>, rest: seq<string>)
    requires |values| > 0 && |rest| == 2 * (|values| - 1)
    requires forall i :: 0 <= i < |values| - 1 ==> rest[2 * i] == flag && rest[2 * i + 1] == values[1..][i]
    ensures forall i :: 0 <= i < |values| ==> ([flag, values[0]] + rest)[2 * i] == flag && ([flag, values[0]] + rest)[2 * i + 1] == values[i]
  {
    var r := [flag, values[0]] + rest;
    forall i | 0 <= i < |values|
      ensures r[2 * i] == flag && r[2 * i + 1] == values[i]
    {
      if i > 0 {
        assert r[2 * i] == rest[2 * (i - 1)];
        assert r[2 * i + 1] == rest[2 * (i - 1) + 1];
        assert values[i] == values[1..][i - 1];
      }
    }
  }

  /** The values of a flag, value, flag, value, ... list. */
  function ValuesOf(pairs: seq<string>): (r: seq<string>)
    requires |pairs| % 2 == 0
    ensures |r| * 2 == |pairs|
    ensures forall k :: 0 <= k < |r| ==> r[k] == pairs[2 * k + 1]
    decreases |pairs|
  {
    if |pairs| == 0 then []
    else
      var rest := ValuesOf(pairs[2..]);
      assert forall k :: 1 <= k <= |rest| ==> pairs[2 * k + 1] == pairs[2..][2 * (k - 1) + 1];
      [pairs[1]] + rest
  }

  /** `block` reads `flag v` for each member `v` of `values`, in increasing order. */
  ghost predicate FlagBlock(block: seq<string>, flag: string, values: set<string>) {
    && |block| % 2 == 0
    && (forall i :: 0 <= i < |block| && i % 2 == 0 ==> block[i] == flag)
    && StrictlySorted(ValuesOf(block))
    && (forall x :: x in ValuesOf(block) <==> x in values)
  }

  lemma EvenLength(s: seq<string>, n: nat)
    requires |s| == 2 * n
    ensures |s| % 2 == 0
  {
  }

  /** Flagging the sorted members of a set gives its flag block. */
  lemma ZipWithFlagIsFlagBlock(flag: string, values: set<string>)
    ensures FlagBlock(ZipWithFlag(flag, SortedElements(values)), flag, values)
  {
    var xs := SortedElements(values);
    var block := ZipWithFlag(flag, xs);
    EvenLength(block, |xs|);
    forall i | 0 <= i < |block| && i % 2 == 0
      ensures block[i] == flag
    {
      assert i == 2 * (i / 2);
    }
    assert ValuesOf(block) == xs;
  }

  /** There is only one flag block for a flag and a set of values. */
  lemma FlagBlockUnique(b1: seq<string>, b2: seq<string>, flag: string, values: set<string>)
    requires FlagBlock(b1, flag, values) && FlagBlock(b2, flag, values)
    ensures b1 == b2
  {
    var v1, v2 := ValuesOf(b1), ValuesOf(b2);
    SortedUnique(v1, v2);
    assert |b1| == |b2|;
    forall i | 0 <= i < |b1|
      ensures b1[i] == b2[i]
    {
      if i % 2 == 1 {
        assert i == 2 * (i / 2) + 1;
        assert b1[i] == v1[i / 2];
      }
    }
  }

  // ---------------------------------------------------------------------
  // Lists built from consecutive parts
  // ---------------------------------------------------------------------

  /** The parts one after the other. */
  function Concat(parts: seq<seq<string>>): seq<string>
    decreases |parts|
  {
    if |parts| == 0 then [] else Concat(parts[..|parts| - 1]) + parts[|parts| - 1]
  }

  /** Where part `k` starts in the concatenation (the length, when k is |parts|). */
  function Offset(parts: seq<seq<string>>, k: nat): nat
    requires k <= |parts|
  {
    |Concat(parts[..k])|
  }

  /** The concatenation of the first parts is a prefix of the whole. */
  lemma {:induction false} ConcatPrefix(parts: seq<seq<string>>, k: nat)
    requires k <= |parts|
    ensures Concat(parts[..k]) <= Concat(parts)
    decreases |parts|
  {
    if k < |parts| {
      var n := |parts|;
      assert parts[..n - 1][..k] == parts[..k];
      ConcatPrefix(parts[..n - 1], k);
      assert parts[..n] == parts;
    } else {
      assert parts[..k] == parts;
    }
  }

  /** Each part sits, whole, between its offset and the next. */
  lemma ConcatSlice(parts: seq<seq<string>>, k: nat)
    requires k < |parts|
    ensures Offset(parts, k) + |parts[k]| == Offset(parts, k + 1) <= |Concat(parts)|
    ensures Concat(parts)[Offset(parts, k)..Offset(parts, k + 1)] == parts[k]
  {
    ConcatPrefix(parts, k + 1);
    assert parts[..k + 1][..k] == parts[..k];
    var c := Concat(parts[..k + 1]);
    assert c == Concat(parts[..k]) + parts[k];
    assert Concat(parts)[..|c|] == c;
  }
}
