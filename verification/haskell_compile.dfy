/** The rule that compiles Haskell modules with GHC: its configuration checks,
    its output file names, the compiler command line, and the steps it runs. */
module HaskellCompile {
  import opened Wrappers
  import Strings
  import opened Paths
  import opened Targets
  import OutputDirCleaning

  // ---------------------------------------------------------------------
  // Inputs of the rule
  // ---------------------------------------------------------------------

  /** CxxSourceRuleFactory.PicType: position-independent code or not. */
  datatype PicType = Pic | Pdc

  datatype HaskellVersion = HaskellVersion(major: int)

  /** HaskellPackageInfo: a package's name and version. */
  datatype PackageInfo = PackageInfo(name: string, version: string)

  /** HaskellPackage: its info, the package database it lives in, and the
      rules its files come from (HaskellPackage.getDeps). */
  datatype HaskellPackage = HaskellPackage(info: PackageInfo, packageDb: SourcePath, deps: set<BuildTarget>)

  /** HaskellSources: module names, the source files, and the rules that
      produce them (HaskellSources.getDeps). */
  datatype HaskellSources = HaskellSources(moduleNames: set<string>, sourcePaths: seq<SourcePath>, deps: set<BuildTarget>)

  /** PreprocessorFlags, by the rules it needs (PreprocessorFlags.getDeps).
      The flags it renders are computed by code outside this model and are
      handed to the compiler step as already stringified arguments. */
  datatype PreprocessorFlags = PreprocessorFlags(deps: set<BuildTarget>)

  /** The arguments of HaskellCompileRule.from besides the target and base params. */
  datatype CompileArgs = CompileArgs(
    compiler: Tool,
    version: HaskellVersion,
    flags: seq<string>,
    ppFlags: PreprocessorFlags,
    picType: PicType,
    hsProfile: bool,
    main: Option<string>,
    packageInfo: Option<PackageInfo>,
    includes: seq<SourcePath>,
    exposedPackages: map<string, HaskellPackage>,
    packages: map<string, HaskellPackage>,
    sources: HaskellSources)

  /** A constructed rule: its params, the generated-files directory of its
      target (BuildTargets.getGenPath), whether it compiles position-independent
      code, and its arguments. */
  datatype HaskellCompileRule = HaskellCompileRule(params: BuildRuleParams, genDir: Path, pic: bool, args: CompileArgs) {

    /** What the constructor checks: profiled PIC is not supported. */
    predicate Valid() {
      !(pic && args.hsProfile)
    }
  }

  const ProfiledPicMessage: string := "Currently don't support profiled PIC."

  // ---------------------------------------------------------------------
  // Construction
  // ---------------------------------------------------------------------

  /** The dependencies of the packages of one package map. */
  function PackageDeps(packages: map<string, HaskellPackage>): (r: set<BuildTarget>)
    ensures forall t :: t in r <==> exists n :: n in packages && t in packages[n].deps
  {
    set n, t | n in packages && t in packages[n].deps :: t
  }

  /** The declared dependencies `from` computes: the compiler's, the
      preprocessor flags', the rules behind the include paths, the sources',
      and those of every exposed and transitive package. */
  function DeclaredDeps(a: CompileArgs): (r: set<BuildTarget>)
    ensures a.compiler.deps <= r && a.ppFlags.deps <= r && a.sources.deps <= r
    ensures forall i :: 0 <= i < |a.includes| && a.includes[i].BuildTargetSourcePath? ==> a.includes[i].target in r
    ensures forall n :: n in a.exposedPackages ==> a.exposedPackages[n].deps <= r
    ensures forall n :: n in a.packages ==> a.packages[n].deps <= r
    ensures forall t :: t in r ==>
      || t in a.compiler.deps || t in a.ppFlags.deps || t in a.sources.deps
      || (exists i :: 0 <= i < |a.includes| && a.includes[i].BuildTargetSourcePath? && a.includes[i].target == t)
      || (exists n :: n in a.exposedPackages && t in a.exposedPackages[n].deps)
      || (exists n :: n in a.packages && t in a.packages[n].deps)
  {
    var includeRules := RuleInputs(set i | i in a.includes);
    a.compiler.deps + a.ppFlags.deps + includeRules + a.sources.deps
      + PackageDeps(a.exposedPackages) + PackageDeps(a.packages)
  }

  /** HaskellCompileRule.from followed by the constructor: the params get the
      rule's target, the declared dependencies above and no extra
      dependencies; `pic` records whether the pic type is PIC; profiled PIC
      is refused. */
  function From(target: BuildTarget, baseParams: BuildRuleParams, genDir: Path, a: CompileArgs): (r: Result<HaskellCompileRule, string>)
    ensures r.Failure? <==> a.picType == Pic && a.hsProfile
    ensures r.Failure? ==> r.error == ProfiledPicMessage
    ensures r.Success? ==> r.value.Valid()
    ensures r.Success? ==> (r.value.pic <==> a.picType == Pic)
    ensures r.Success? ==> r.value.args == a && r.value.genDir == genDir
    ensures r.Success? ==> r.value.params.target == target && r.value.params.extraDeps == {}
    ensures r.Success? ==> r.value.params.declaredDeps == DeclaredDeps(a)
  {
    var params := baseParams.WithBuildTarget(target).WithDeclaredDeps(DeclaredDeps(a)).WithoutExtraDeps();
    var pic := a.picType == Pic;
    if pic && a.hsProfile then Failure(ProfiledPicMessage)
    else Success(HaskellCompileRule(params, genDir, pic, a))
  }

  // ---------------------------------------------------------------------
  // Output directories and file names
  // ---------------------------------------------------------------------

  /** Where the compiler writes object files: "objects" in the rule's
      generated-files directory. */
  function ObjectDir(rule: HaskellCompileRule): (r: Path)
    ensures |r| == |rule.genDir| + 1 && r[..|rule.genDir|] == rule.genDir && r[|rule.genDir|] == "objects"
  {
    rule.genDir + ["objects"]
  }

  /** Where the compiler writes interface files: "interfaces" in the rule's
      generated-files directory. */
  function InterfaceDir(rule: HaskellCompileRule): (r: Path)
    ensures |r| == |rule.genDir| + 1 && r[..|rule.genDir|] == rule.genDir && r[|rule.genDir|] == "interfaces"
  {
    rule.genDir + ["interfaces"]
  }

  /** Where the compiler places generated FFI stub files: "stubs" in the
      rule's generated-files directory. */
  function StubDir(rule: HaskellCompileRule): (r: Path)
    ensures |r| == |rule.genDir| + 1 && r[..|rule.genDir|] == rule.genDir && r[|rule.genDir|] == "stubs"
  {
    rule.genDir + ["stubs"]
  }

  /** The three output directories are distinct and none lies inside another. */
  lemma {:induction false} OutputDirsApart(rule: HaskellCompileRule)
    ensures !(ObjectDir(rule) <= InterfaceDir(rule)) && !(InterfaceDir(rule) <= ObjectDir(rule))
    ensures !(ObjectDir(rule) <= StubDir(rule)) && !(StubDir(rule) <= ObjectDir(rule))
    ensures !(InterfaceDir(rule) <= StubDir(rule)) && !(StubDir(rule) <= InterfaceDir(rule))
  {
    var n := |rule.genDir|;
    assert ObjectDir(rule)[n] == "objects";
    assert InterfaceDir(rule)[n] == "interfaces";
    assert StubDir(rule)[n] == "stubs";
  }

  /** The object file suffix: profiled objects are "p_o". */
  function ObjectSuffix(rule: HaskellCompileRule): (r: string)
    ensures r == "p_o" <==> rule.args.hsProfile
    ensures r == "o" <==> !rule.args.hsProfile
  {
    if rule.args.hsProfile then "p_o" else "o"
  }

  /** The interface file suffix: PIC wins over profiling. */
  function InterfaceSuffix(rule: HaskellCompileRule): (r: string)
    ensures r == "dyn_hi" <==> rule.pic
    ensures r == "p_hi" <==> !rule.pic && rule.args.hsProfile
    ensures r == "hi" <==> !rule.pic && !rule.args.hsProfile
  {
    if rule.pic then "dyn_hi" else if rule.args.hsProfile then "p_hi" else "hi"
  }

  /** Of valid rules, the interface suffix tells the whole compilation mode
      and the object suffix tells whether it is profiled. */
  lemma {:induction false} SuffixesIdentifyMode(r1: HaskellCompileRule, r2: HaskellCompileRule)
    requires r1.Valid() && r2.Valid()
    ensures InterfaceSuffix(r1) == InterfaceSuffix(r2) <==> r1.pic == r2.pic && r1.args.hsProfile == r2.args.hsProfile
    ensures ObjectSuffix(r1) == ObjectSuffix(r2) <==> r1.args.hsProfile == r2.args.hsProfile
  {
  }

  /** Object suffixes end in 'o' and interface suffixes in 'i', so no object
      file name is ever an interface file name. */
  lemma {:induction false} SuffixesEnd(rule: HaskellCompileRule)
    ensures ObjectSuffix(rule)[|ObjectSuffix(rule)| - 1] == 'o'
    ensures InterfaceSuffix(rule)[|InterfaceSuffix(rule)| - 1] == 'i'
    ensures Separator !in ObjectSuffix(rule) && Separator !in InterfaceSuffix(rule)
  {
  }

  /** The output file of `moduleName` in `root`: the dots of the module name
      become separators and "." + `suffix` is appended. */
  function ModuleOutputPath(root: Path, moduleName: string, suffix: string): (r: Path)
    ensures !ResolvesAbsolute(moduleName) ==> root <= r
    ensures ResolvesAbsolute(moduleName) ==> IsAbsolute(r)
  {
    ModulePathStartsAbsolute(moduleName, suffix);
    ResolveString(root, Strings.ReplaceChar(moduleName, '.', Separator) + "." + suffix)
  }

  /** A module name that starts with a dot or a separator has an absolute
      path string, which Path.resolve takes in place of the directory. */
  predicate ResolvesAbsolute(moduleName: string) {
    |moduleName| > 0 && (moduleName[0] == '.' || moduleName[0] == Separator)
  }

  /** A Haskell module name: dot-separated non-empty names without separators. */
  predicate ValidModuleName(moduleName: string) {
    var pieces := Strings.SplitOn(moduleName, '.');
    forall k :: 0 <= k < |pieces| ==> pieces[k] != "" && Separator !in pieces[k]
  }

  predicate EndsWith(s: string, t: string) {
    |t| <= |s| && s[|s| - |t|..] == t
  }

  /** The last name of a module's output file ends with "." + `suffix`, and
      unless the module name resolves to an absolute path the file lies
      strictly inside `root`. */
  lemma {:induction false} ModuleOutputPathLastName(root: Path, moduleName: string, suffix: string)
    requires Separator !in suffix
    ensures var p := ModuleOutputPath(root, moduleName, suffix);
      |p| > 0 && EndsWith(p[|p| - 1], "." + suffix)
    ensures !ResolvesAbsolute(moduleName) ==> root < ModuleOutputPath(root, moduleName, suffix)
  {
    var x := Strings.ReplaceChar(moduleName, '.', Separator);
    ModulePathStartsAbsolute(moduleName, suffix);
    var last := ResolveLastName(root, x, "." + suffix, x + "." + suffix);
  }

  /** The path string of a module starts with the separator exactly when the
      module name starts with a dot or a separator. */
  lemma ModulePathStartsAbsolute(moduleName: string, suffix: string)
    ensures IsAbsoluteString(Strings.ReplaceChar(moduleName, '.', Separator) + "." + suffix) <==> ResolvesAbsolute(moduleName)
  {
  }

  /** A module name with a leading dot leaves `root` behind: ".Foo" is
      written to "/Foo.o". */
  lemma LeadingDotIsAbsolute(root: Path)
    ensures ModuleOutputPath(root, ".Foo", "o") == ["", "Foo.o"]
    ensures PathString(ModuleOutputPath(root, ".Foo", "o")) == "/Foo.o"
  {
    var path := Strings.ReplaceChar(".Foo", '.', Separator) + "." + "o";
    assert path == "/Foo.o";
    assert Strings.SplitOn(path, Separator) == ["", "Foo.o"] by {
      assert Strings.IndexOf(path, Separator) == 0;
      assert path[1..] == "Foo.o";
    }
    assert ["", "Foo.o"][1..] == ["Foo.o"];
    assert PathString(["", "Foo.o"]) == "" + [Separator] + "Foo.o";
  }

  /** A valid module name starts with neither a dot nor a separator. */
  lemma ValidModuleNameIsRelative(moduleName: string)
    requires ValidModuleName(moduleName)
    ensures !ResolvesAbsolute(moduleName)
  {
    Strings.SplitOnFirst(moduleName, '.');
    var first := Strings.SplitOn(moduleName, '.')[0];
    assert first != "" && Separator !in first;
    assert first[0] == moduleName[0];
  }

  /** For a valid module name the output file is `root`, then the module's
      names, the last one carrying the suffix. */
  lemma {:induction false} ModuleOutputPathNames(root: Path, moduleName: string, suffix: string)
    requires ValidModuleName(moduleName) && Separator !in suffix
    ensures var pieces := Strings.SplitOn(moduleName, '.');
      ModuleOutputPath(root, moduleName, suffix) == root + pieces[..|pieces| - 1] + [pieces[|pieces| - 1] + "." + suffix]
  {
    var pieces := Strings.SplitOn(moduleName, '.');
    var n := |pieces|;
    var x := Strings.ReplaceChar(moduleName, '.', Separator);
    var y := "." + suffix;
    var names := SplitDottedName(moduleName, x, pieces, y);
    ValidModuleNameIsRelative(moduleName);
    calc {
      ModuleOutputPath(root, moduleName, suffix);
      { assert x + "." + suffix == x + y; }
      ResolveString(root, x + y);
      root + NonEmptyNames(names);
      root + names;
      { assert pieces[n - 1] + y == pieces[n - 1] + "." + suffix; }
      root + pieces[..n - 1] + [pieces[n - 1] + "." + suffix];
    }
  }

  /** Splitting the path string of a valid module name, followed by a
      separator-free tail, gives the module's names, the tail on the last,
      none of them empty. */
  lemma SplitDottedName(moduleName: string, path: string, pieces: seq<string>, tail: string) returns (names: seq<string>)
    requires ValidModuleName(moduleName) && Separator !in tail
    requires path == Strings.ReplaceChar(moduleName, '.', Separator) && pieces == Strings.SplitOn(moduleName, '.')
    ensures names == pieces[..|pieces| - 1] + [pieces[|pieces| - 1] + tail]
    ensures Strings.SplitOn(path + tail, Separator) == names
    ensures forall k :: 0 <= k < |names| ==> names[k] != ""
  {
    SplitPathOfModule(moduleName, path, pieces);
    names := SplitExtendsLast(path, tail, pieces);
  }

  /** A separator-free tail extends the last name of a split. */
  lemma {:induction false} SplitExtendsLast(x: string, tail: string, pieces: seq<string>) returns (names: seq<string>)
    requires Separator !in tail && Strings.SplitOn(x, Separator) == pieces
    requires forall k :: 0 <= k < |pieces| ==> pieces[k] != ""
    ensures names == pieces[..|pieces| - 1] + [pieces[|pieces| - 1] + tail]
    ensures Strings.SplitOn(x + tail, Separator) == names
    ensures forall k :: 0 <= k < |names| ==> names[k] != ""
  {
    Strings.SplitOnAppend(x, tail, Separator);
    names := pieces[..|pieces| - 1] + [pieces[|pieces| - 1] + tail];
  }

  /** The path string of a valid module name splits into the module's names. */
  lemma {:induction false} SplitPathOfModule(moduleName: string, path: string, pieces: seq<string>)
    requires ValidModuleName(moduleName)
    requires path == Strings.ReplaceChar(moduleName, '.', Separator) && pieces == Strings.SplitOn(moduleName, '.')
    ensures Strings.SplitOn(path, Separator) == pieces
    ensures forall k :: 0 <= k < |pieces| ==> pieces[k] != ""
  {
    Strings.ReplaceCharIsSplitJoin(moduleName, '.', Separator);
    Strings.SplitOnJoin(pieces, Separator);
  }

  /** Valid module names have the same output file exactly when they are the same name. */
  lemma {:induction false} ModuleOutputPathInjective(root: Path, m1: string, m2: string, suffix: string)
    requires ValidModuleName(m1) && ValidModuleName(m2) && Separator !in suffix
    ensures ModuleOutputPath(root, m1, suffix) == ModuleOutputPath(root, m2, suffix) <==> m1 == m2
  {
    if ModuleOutputPath(root, m1, suffix) == ModuleOutputPath(root, m2, suffix) {
      SameOutputPathSameModule(root, m1, m2, suffix);
    }
  }

  lemma {:induction false} SameOutputPathSameModule(root: Path, m1: string, m2: string, suffix: string)
    requires ValidModuleName(m1) && ValidModuleName(m2) && Separator !in suffix
    requires ModuleOutputPath(root, m1, suffix) == ModuleOutputPath(root, m2, suffix)
    ensures m1 == m2
  {
    var p1, p2 := Strings.SplitOn(m1, '.'), Strings.SplitOn(m2, '.');
    ModuleOutputPathNames(root, m1, suffix);
    ModuleOutputPathNames(root, m2, suffix);
    assert p1[|p1| - 1] + "." + suffix == p1[|p1| - 1] + ("." + suffix);
    assert p2[|p2| - 1] + "." + suffix == p2[|p2| - 1] + ("." + suffix);
    SameLayoutSamePieces(root, p1, p2, "." + suffix);
    Strings.JoinSplitOn(m1, '.');
    Strings.JoinSplitOn(m2, '.');
  }

  /** A path made of `root`, all pieces but the last, then the last piece
      with a tail determines the pieces. */
  lemma SameLayoutSamePieces(root: Path, p1: seq<string>, p2: seq<string>, tail: string)
    requires |p1| > 0 && |p2| > 0
    requires root + p1[..|p1| - 1] + [p1[|p1| - 1] + tail] == root + p2[..|p2| - 1] + [p2[|p2| - 1] + tail]
    ensures p1 == p2
  {
    var path := root + p1[..|p1| - 1] + [p1[|p1| - 1] + tail];
    var n := |p1|;
    assert |p1| == |p2|;
    assert p1[..n - 1] == path[|root|..|path| - 1] == p2[..n - 1];
    var l1, l2 := p1[n - 1], p2[n - 1];
    assert l1 + tail == path[|path| - 1] == l2 + tail;
    assert l1 == (l1 + tail)[..|l1|];
    assert l2 == (l2 + tail)[..|l2|];
    assert p1 == p1[..n - 1] + [l1] && p2 == p2[..n - 1] + [l2];
  }

  /** The files the compiler will write into `root`, which cleaning keeps. */
  function AllowedPaths(root: Path, modules: set<string>, suffix: string): (r: set<Path>)
    ensures forall m :: m in modules ==> ModuleOutputPath(root, m, suffix) in r
    ensures forall p :: p in r ==> exists m :: m in modules && p == ModuleOutputPath(root, m, suffix)
  {
    set m | m in modules :: ModuleOutputPath(root, m, suffix)
  }

  /** getObjects: one object file per moduleName, in sorted moduleName order, each
      named by the rule's target. */
  function Objects(rule: HaskellCompileRule): (r: seq<SourcePath>)
    ensures var modules := Strings.SortedElements(rule.args.sources.moduleNames);
      && |r| == |modules| == |rule.args.sources.moduleNames|
      && forall i :: 0 <= i < |r| ==>
           r[i] == BuildTargetSourcePath(rule.params.target, ModuleOutputPath(ObjectDir(rule), modules[i], ObjectSuffix(rule)))
  {
    var modules := Strings.SortedElements(rule.args.sources.moduleNames);
    seq(|modules|, i requires 0 <= i < |modules| =>
      BuildTargetSourcePath(rule.params.target, ModuleOutputPath(ObjectDir(rule), modules[i], ObjectSuffix(rule))))
  }

  /** Every module has its object file among the objects. */
  lemma ObjectsCoverModules(rule: HaskellCompileRule)
    ensures forall m :: m in rule.args.sources.moduleNames ==>
      BuildTargetSourcePath(rule.params.target, ModuleOutputPath(ObjectDir(rule), m, ObjectSuffix(rule))) in Objects(rule)
  {
    var modules := Strings.SortedElements(rule.args.sources.moduleNames);
    var objs := Objects(rule);
    forall m | m in rule.args.sources.moduleNames
      ensures BuildTargetSourcePath(rule.params.target, ModuleOutputPath(ObjectDir(rule), m, ObjectSuffix(rule))) in objs
    {
      var i :| 0 <= i < |modules| && modules[i] == m;
      assert objs[i] == BuildTargetSourcePath(rule.params.target, ModuleOutputPath(ObjectDir(rule), m, ObjectSuffix(rule)));
    }
  }

  /** Every object is some module's object file. */
  lemma ObjectsAreOfModules(rule: HaskellCompileRule)
    ensures forall o :: o in Objects(rule) ==>
      exists m :: m in rule.args.sources.moduleNames && o == BuildTargetSourcePath(rule.params.target, ModuleOutputPath(ObjectDir(rule), m, ObjectSuffix(rule)))
  {
    var modules := Strings.SortedElements(rule.args.sources.moduleNames);
    var objs := Objects(rule);
    forall o | o in objs
      ensures exists m :: m in rule.args.sources.moduleNames && o == BuildTargetSourcePath(rule.params.target, ModuleOutputPath(ObjectDir(rule), m, ObjectSuffix(rule)))
    {
      var i :| 0 <= i < |objs| && objs[i] == o;
      assert modules[i] in rule.args.sources.moduleNames;
    }
  }

  /** With valid module names no object is listed twice. */
  lemma ObjectsDistinct(rule: HaskellCompileRule)
    requires forall m :: m in rule.args.sources.moduleNames ==> ValidModuleName(m)
    ensures forall i, j :: 0 <= i < j < |Objects(rule)| ==> Objects(rule)[i] != Objects(rule)[j]
  {
    var modules := Strings.SortedElements(rule.args.sources.moduleNames);
    var objs := Objects(rule);
    SuffixesEnd(rule);
    forall i, j | 0 <= i < j < |objs|
      ensures objs[i] != objs[j]
    {
      assert modules[i] in rule.args.sources.moduleNames && modules[j] in rule.args.sources.moduleNames;
      assert Strings.Less(modules[i], modules[j]);
      Strings.LessIrreflexive(modules[i]);
      ModuleOutputPathInjective(ObjectDir(rule), modules[i], modules[j], ObjectSuffix(rule));
    }
  }

  // ---------------------------------------------------------------------
  // Compiler arguments
  // ---------------------------------------------------------------------

  /** isCacheable: only GHC 8 and later produce reproducible outputs. */
  function IsCacheable(rule: HaskellCompileRule): (r: bool)
    ensures r <==> rule.args.version.major >= 8
  {
    rule.args.version.major >= 8
  }

  /** The "%s-%s" name-version form of a package. */
  function PackageId(info: PackageInfo): (r: string)
    ensures |r| == |info.name| + 1 + |info.version| && r[..|info.name|] == info.name && r[|info.name|] == '-'
    ensures r[|info.name| + 1..] == info.version
  {
    info.name + "-" + info.version
  }

  /** getPackageNameArgs: "-package-name" and the package's name (GHC 8 and
      later) or its name-version (earlier), or nothing without package info. */
  function PackageNameArgs(rule: HaskellCompileRule): (r: seq<string>)
    ensures rule.args.packageInfo.None? <==> r == []
    ensures rule.args.packageInfo.Some? ==> |r| == 2 && r[0] == "-package-name"
    ensures rule.args.packageInfo.Some? && rule.args.version.major >= 8 ==> r[1] == rule.args.packageInfo.value.name
    ensures rule.args.packageInfo.Some? && rule.args.version.major < 8 ==> r[1] == PackageId(rule.args.packageInfo.value)
  {
    match rule.args.packageInfo
    case None => []
    case Some(info) =>
      if rule.args.version.major >= 8 then ["-package-name", info.name]
      else ["-package-name", info.name + "-" + info.version]
  }

  /** A cacheable rule names its package by its bare name, a non-cacheable one
      by name and version. */
  lemma {:induction false} CacheableIffBarePackageName(rule: HaskellCompileRule)
    requires rule.args.packageInfo.Some?
    ensures IsCacheable(rule) <==> PackageNameArgs(rule) == ["-package-name", rule.args.packageInfo.value.name]
  {
  }

  /** The resolved package databases of all packages, exposed or not. */
  function PackageDbs(rule: HaskellCompileRule, resolve: SourcePath -> string): (r: set<string>)
    ensures forall d :: d in r <==>
      || (exists n :: n in rule.args.packages && d == resolve(rule.args.packages[n].packageDb))
      || (exists n :: n in rule.args.exposedPackages && d == resolve(rule.args.exposedPackages[n].packageDb))
  {
    (set n | n in rule.args.packages :: resolve(rule.args.packages[n].packageDb))
      + (set n | n in rule.args.exposedPackages :: resolve(rule.args.exposedPackages[n].packageDb))
  }

  function ExposedIds(rule: HaskellCompileRule): (r: set<string>)
    ensures forall id :: id in r <==> exists n :: n in rule.args.exposedPackages && id == PackageId(rule.args.exposedPackages[n].info)
  {
    set n | n in rule.args.exposedPackages :: PackageId(rule.args.exposedPackages[n].info)
  }

  function HiddenIds(rule: HaskellCompileRule): (r: set<string>)
    ensures forall id :: id in r <==> exists n :: n in rule.args.packages && id == PackageId(rule.args.packages[n].info)
  {
    set n | n in rule.args.packages :: PackageId(rule.args.packages[n].info)
  }

  /** The three blocks of package arguments, as a property of a list. */
  ghost predicate PackageArgsLayout(r: seq<string>, dbs: set<string>, exposed: set<string>, hidden: set<string>) {
    var i, j := 2 * |dbs|, 2 * |dbs| + 2 * |exposed|;
    && |r| == j + 2 * |hidden|
    && Strings.FlagBlock(r[..i], "-package-db", dbs)
    && Strings.FlagBlock(r[i..j], "-package", exposed)
    && Strings.FlagBlock(r[j..], "-hide-package", hidden)
  }

  /** getPackageArgs: the package databases, then the exposed packages, then
      the hidden ones, each block sorted and each entry behind its flag. */
  function PackageArgs(rule: HaskellCompileRule, resolve: SourcePath -> string): (r: seq<string>)
  {
    Strings.ZipWithFlag("-package-db", Strings.SortedElements(PackageDbs(rule, resolve)))
      + Strings.ZipWithFlag("-package", Strings.SortedElements(ExposedIds(rule)))
      + Strings.ZipWithFlag("-hide-package", Strings.SortedElements(HiddenIds(rule)))
  }

  /** The package arguments list every package database once, in order,
      after "-package-db"; then the exposed packages' name-versions after
      "-package"; then the other packages' after "-hide-package". */
  lemma PackageArgsLaidOut(rule: HaskellCompileRule, resolve: SourcePath -> string)
    ensures PackageArgsLayout(PackageArgs(rule, resolve), PackageDbs(rule, resolve), ExposedIds(rule), HiddenIds(rule))
  {
    var dbs, exposed, hidden := PackageDbs(rule, resolve), ExposedIds(rule), HiddenIds(rule);
    Strings.ZipWithFlagIsFlagBlock("-package-db", dbs);
    Strings.ZipWithFlagIsFlagBlock("-package", exposed);
    Strings.ZipWithFlagIsFlagBlock("-hide-package", hidden);
    LayoutOfBlocks(
      Strings.ZipWithFlag("-package-db", Strings.SortedElements(dbs)),
      Strings.ZipWithFlag("-package", Strings.SortedElements(exposed)),
      Strings.ZipWithFlag("-hide-package", Strings.SortedElements(hidden)),
      dbs, exposed, hidden);
  }

  lemma {:induction false} LayoutOfBlocks(a: seq<string>, b: seq<string>, c: seq<string>, dbs: set<string>, exposed: set<string>, hidden: set<string>)
    requires |a| == 2 * |dbs| && |b| == 2 * |exposed| && |c| == 2 * |hidden|
    requires Strings.FlagBlock(a, "-package-db", dbs)
    requires Strings.FlagBlock(b, "-package", exposed)
    requires Strings.FlagBlock(c, "-hide-package", hidden)
    ensures PackageArgsLayout(a + b + c, dbs, exposed, hidden)
  {
    var r := a + b + c;
    assert r[..|a|] == a;
    assert r[|a|..|a| + |b|] == b;
    assert r[|a| + |b|..] == c;
  }

  /** The layout determines the package arguments: any list laid out that
      way is the one the rule produces. */
  lemma {:induction false} PackageArgsUnique(rule: HaskellCompileRule, resolve: SourcePath -> string, r: seq<string>)
    requires PackageArgsLayout(r, PackageDbs(rule, resolve), ExposedIds(rule), HiddenIds(rule))
    ensures r == PackageArgs(rule, resolve)
  {
    PackageArgsLaidOut(rule, resolve);
    LayoutUnique(r, PackageArgs(rule, resolve), PackageDbs(rule, resolve), ExposedIds(rule), HiddenIds(rule));
  }

  lemma {:induction false} LayoutUnique(r: seq<string>, s: seq<string>, dbs: set<string>, exposed: set<string>, hidden: set<string>)
    requires PackageArgsLayout(r, dbs, exposed, hidden) && PackageArgsLayout(s, dbs, exposed, hidden)
    ensures r == s
  {
    var i, j := 2 * |dbs|, 2 * |dbs| + 2 * |exposed|;
    Strings.FlagBlockUnique(r[..i], s[..i], "-package-db", dbs);
    Strings.FlagBlockUnique(r[i..j], s[i..j], "-package", exposed);
    Strings.FlagBlockUnique(r[j..], s[j..], "-hide-package", hidden);
    EqualByThirds(r, s, i, j);
  }

  lemma EqualByThirds(r: seq<string>, s: seq<string>, i: nat, j: nat)
    requires i <= j <= |r| == |s|
    requires r[..i] == s[..i] && r[i..j] == s[i..j] && r[j..] == s[j..]
    ensures r == s
  {
    assert r == r[..i] + r[i..j] + r[j..];
    assert s == s[..i] + s[i..j] + s[j..];
  }

  /** HaskellDescriptionUtils.PIC_FLAGS and PROF_FLAGS, which this model takes as given. */
  datatype GhcModeFlags = GhcModeFlags(picFlags: seq<string>, profFlags: seq<string>)

  /** What the compiler step needs from its build context: the source path
      resolver, the absolute project root, the stringified preprocessor flags
      and the mode flags. */
  datatype GhcContext = GhcContext(resolve: SourcePath -> string, projectRoot: Path, preprocessorFlags: seq<string>, modeFlags: GhcModeFlags)

  /** The extra arguments of getShellCommandInternal: PIC flags for PIC,
      otherwise profiling flags when profiling, otherwise none. */
  function ExtraArgs(rule: HaskellCompileRule, mode: GhcModeFlags): (r: seq<string>)
    ensures rule.pic ==> r == mode.picFlags
    ensures !rule.pic && rule.args.hsProfile ==> r == mode.profFlags
    ensures !rule.pic && !rule.args.hsProfile ==> r == []
  {
    if rule.pic then mode.picFlags else if rule.args.hsProfile then mode.profFlags else []
  }

  /** "-main-is" and the main moduleName, when there is one. */
  function MainArgs(rule: HaskellCompileRule): (r: seq<string>)
    ensures rule.args.main.None? <==> r == []
    ensures rule.args.main.Some? ==> r == ["-main-is", rule.args.main.value]
  {
    Strings.ZipWithFlag("-main-is", if rule.args.main.Some? then [rule.args.main.value] else [])
  }

  /** Each preprocessor flag behind "-optP". */
  function PreprocessorArgs(ppFlags: seq<string>): (r: seq<string>)
    ensures |r| == 2 * |ppFlags|
    ensures forall i :: 0 <= i < |ppFlags| ==> r[2 * i] == "-optP" && r[2 * i + 1] == ppFlags[i]
  {
    Strings.ZipWithFlag("-optP", ppFlags)
  }

  function ResolveAll(paths: seq<SourcePath>, resolve: SourcePath -> string): (r: seq<string>)
    ensures |r| == |paths| && forall i :: 0 <= i < |paths| ==> r[i] == resolve(paths[i])
  {
    seq(|paths|, i requires 0 <= i < |paths| => resolve(paths[i]))
  }

  /** "-i" followed by the resolved include paths, separated by ':'. */
  function IncludeArg(rule: HaskellCompileRule, resolve: SourcePath -> string): (r: string)
    ensures |r| >= 2 && r[..2] == "-i"
  {
    "-i" + Strings.Join([':'], ResolveAll(rule.args.includes, resolve))
  }

  /** When no include path contains ':', the include paths can be read back
      from the argument, in order; with no include paths the argument is a
      bare "-i". */
  lemma {:induction false} IncludeArgSplits(rule: HaskellCompileRule, resolve: SourcePath -> string)
    requires forall i :: 0 <= i < |rule.args.includes| ==> ':' !in resolve(rule.args.includes[i])
    ensures |rule.args.includes| > 0 ==>
      Strings.SplitOn(IncludeArg(rule, resolve)[2..], ':') == ResolveAll(rule.args.includes, resolve)
    ensures |rule.args.includes| == 0 ==> IncludeArg(rule, resolve) == "-i"
  {
    var paths := ResolveAll(rule.args.includes, resolve);
    assert IncludeArg(rule, resolve)[2..] == Strings.Join([':'], paths);
    if |paths| > 0 {
      Strings.SplitOnJoin(paths, ':');
    } else {
      assert IncludeArg(rule, resolve) == "-i" + "";
    }
  }

  /** The output-directory options, each directory resolved against the project root. */
  function DirArgs(rule: HaskellCompileRule, projectRoot: Path): (r: seq<string>)
    ensures |r| == 6
    ensures r[0] == "-odir" && r[1] == AbsolutePathString(projectRoot + ObjectDir(rule))
    ensures r[2] == "-hidir" && r[3] == AbsolutePathString(projectRoot + InterfaceDir(rule))
    ensures r[4] == "-stubdir" && r[5] == AbsolutePathString(projectRoot + StubDir(rule))
  {
    ["-odir", AbsolutePathString(projectRoot + ObjectDir(rule)),
     "-hidir", AbsolutePathString(projectRoot + InterfaceDir(rule)),
     "-stubdir", AbsolutePathString(projectRoot + StubDir(rule))]
  }

  /** The parts of the compiler command, in the order getCommandWithExtraArgs
      adds them; "-no-link" is fixed and sits between the flags and the
      mode's extra arguments. */
  datatype GhcArguments = GhcArguments(
    prefix: seq<string>,
    flags: seq<string>,
    extra: seq<string>,
    main: seq<string>,
    packageName: seq<string>,
    preprocessor: seq<string>,
    dirs: seq<string>,
    includeArg: string,
    packages: seq<string>,
    sources: seq<string>)
  {
    /** The parts in command order. */
    function Parts(): seq<seq<string>> {
      [prefix, flags, ["-no-link"], extra, main, packageName, preprocessor, dirs, [includeArg], packages, sources]
    }

    /** Where the output-directory options start. */
    function DirsStart(): nat {
      |prefix| + |flags| + 1 + |extra| + |main| + |packageName| + |preprocessor|
    }
  }

  /** The command line: the parts one after the other, nothing added or dropped. */
  function Assemble(g: GhcArguments): seq<string> {
    g.prefix + g.flags + ["-no-link"] + g.extra + g.main + g.packageName + g.preprocessor
      + g.dirs + [g.includeArg] + g.packages + g.sources
  }

  /** The command's length is the sum of its parts', and the prefix, the fixed
      "-no-link", the output-directory options and the include path each
      sit at the offset their predecessors leave. */
  lemma AssembleLayout(g: GhcArguments)
    ensures var cmd, d := Assemble(g), g.DirsStart();
      && |cmd| == d + |g.dirs| + 1 + |g.packages| + |g.sources|
      && cmd[..|g.prefix|] == g.prefix
      && cmd[|g.prefix|..|g.prefix| + |g.flags|] == g.flags
      && cmd[|g.prefix| + |g.flags|] == "-no-link"
      && cmd[d..d + |g.dirs|] == g.dirs
      && (forall k :: 0 <= k < |g.dirs| ==> cmd[d + k] == g.dirs[k])
      && cmd[d + |g.dirs|] == g.includeArg
      && cmd[d + |g.dirs| + 1 + |g.packages|..] == g.sources
  {
    var front := g.prefix + g.flags + ["-no-link"] + g.extra + g.main + g.packageName + g.preprocessor;
    var back := [g.includeArg] + g.packages + g.sources;
    assert Assemble(g) == front + g.dirs + back;
    assert |front| == g.DirsStart();
    assert front[..|g.prefix|] == g.prefix;
    assert front[|g.prefix|..|g.prefix| + |g.flags|] == g.flags;
  }

  /** Assembling is concatenating the parts in order. */
  lemma AssembleIsConcat(g: GhcArguments)
    ensures Assemble(g) == Strings.Concat(g.Parts())
  {
    var p := g.Parts();
    var c := Strings.Concat;
    assert c(p[..0]) == [];
    assert c(p[..1]) == g.prefix by { assert p[..1][..0] == p[..0]; }
    assert c(p[..2]) == g.prefix + g.flags by { assert p[..2][..1] == p[..1]; }
    assert c(p[..3]) == g.prefix + g.flags + ["-no-link"] by { assert p[..3][..2] == p[..2]; }
    assert c(p[..4]) == g.prefix + g.flags + ["-no-link"] + g.extra by { assert p[..4][..3] == p[..3]; }
    assert c(p[..5]) == g.prefix + g.flags + ["-no-link"] + g.extra + g.main by { assert p[..5][..4] == p[..4]; }
    assert c(p[..6]) == g.prefix + g.flags + ["-no-link"] + g.extra + g.main + g.packageName by { assert p[..6][..5] == p[..5]; }
    assert c(p[..7]) == g.prefix + g.flags + ["-no-link"] + g.extra + g.main + g.packageName + g.preprocessor by { assert p[..7][..6] == p[..6]; }
    assert c(p[..8]) == g.prefix + g.flags + ["-no-link"] + g.extra + g.main + g.packageName + g.preprocessor
      + g.dirs by { assert p[..8][..7] == p[..7]; }
    assert c(p[..9]) == g.prefix + g.flags + ["-no-link"] + g.extra + g.main + g.packageName + g.preprocessor
      + g.dirs + [g.includeArg] by { assert p[..9][..8] == p[..8]; }
    assert c(p[..10]) == g.prefix + g.flags + ["-no-link"] + g.extra + g.main + g.packageName + g.preprocessor
      + g.dirs + [g.includeArg] + g.packages by { assert p[..10][..9] == p[..9]; }
    assert p == p[..11];
    assert p[..11][..10] == p[..10];
  }

  /** An assembled command is its parts, in order, with nothing between or
      around them: part k runs from starts[k] to ends[k], the first starts
      the command, each starts where the previous ends, and the last ends it. */
  lemma AssembleCuts(g: GhcArguments) returns (starts: seq<nat>, ends: seq<nat>)
    ensures |starts| == |ends| == 11 && starts[0] == 0 && ends[10] == |Assemble(g)|
    ensures forall k :: 0 < k < 11 ==> starts[k] == ends[k - 1]
    ensures forall k :: 0 <= k < 11 ==> starts[k] <= ends[k] <= |Assemble(g)| && Assemble(g)[starts[k]..ends[k]] == g.Parts()[k]
  {
    var p := g.Parts();
    AssembleIsConcat(g);
    starts := seq(11, k requires 0 <= k < 11 => Strings.Offset(p, k));
    ends := seq(11, k requires 0 <= k < 11 => Strings.Offset(p, k + 1));
    forall k | 0 <= k < 11
      ensures starts[k] <= ends[k] <= |Assemble(g)| && Assemble(g)[starts[k]..ends[k]] == p[k]
    {
      Strings.ConcatSlice(p, k);
    }
    assert p[..0] == [] && p[..11] == p;
  }

  /** The parts the rule and its context give. */
  function Arguments(rule: HaskellCompileRule, ctx: GhcContext): (g: GhcArguments)
    ensures g.prefix == rule.args.compiler.commandPrefix && g.flags == rule.args.flags
    ensures g.dirs == DirArgs(rule, ctx.projectRoot)
    ensures g.includeArg == IncludeArg(rule, ctx.resolve)
    ensures g.sources == ResolveAll(rule.args.sources.sourcePaths, ctx.resolve)
  {
    GhcArguments(
      rule.args.compiler.commandPrefix,
      rule.args.flags,
      ExtraArgs(rule, ctx.modeFlags),
      MainArgs(rule),
      PackageNameArgs(rule),
      PreprocessorArgs(ctx.preprocessorFlags),
      DirArgs(rule, ctx.projectRoot),
      IncludeArg(rule, ctx.resolve),
      PackageArgs(rule, ctx.resolve),
      ResolveAll(rule.args.sources.sourcePaths, ctx.resolve))
  }

  /** getCommandWithExtraArgs, with the extra arguments getShellCommandInternal picks. */
  function GhcCommand(rule: HaskellCompileRule, ctx: GhcContext): seq<string> {
    Assemble(Arguments(rule, ctx))
  }

  /** What getCommandWithExtraArgs adds, in the order it adds them: the
      compiler's command prefix, the rule's flags, "-no-link", the mode's
      extra arguments, the main module, the package name, the preprocessor
      flags, the output directories, the include path, the packages, and
      the source files. */
  function CommandParts(rule: HaskellCompileRule, ctx: GhcContext): (r: seq<seq<string>>)
    ensures |r| == 11
  {
    [rule.args.compiler.commandPrefix,
     rule.args.flags,
     ["-no-link"],
     ExtraArgs(rule, ctx.modeFlags),
     MainArgs(rule),
     PackageNameArgs(rule),
     PreprocessorArgs(ctx.preprocessorFlags),
     DirArgs(rule, ctx.projectRoot),
     [IncludeArg(rule, ctx.resolve)],
     PackageArgs(rule, ctx.resolve),
     ResolveAll(rule.args.sources.sourcePaths, ctx.resolve)]
  }

  /** The command is its parts, in order, with nothing between or around
      them: part k runs from starts[k] to ends[k], the first starts the
      command, each starts where the previous ends, and the last ends it. */
  lemma CommandOrder(rule: HaskellCompileRule, ctx: GhcContext) returns (starts: seq<nat>, ends: seq<nat>)
    ensures |starts| == |ends| == 11 && starts[0] == 0 && ends[10] == |GhcCommand(rule, ctx)|
    ensures forall k :: 0 < k < 11 ==> starts[k] == ends[k - 1]
    ensures forall k :: 0 <= k < 11 ==>
      starts[k] <= ends[k] <= |GhcCommand(rule, ctx)| && GhcCommand(rule, ctx)[starts[k]..ends[k]] == CommandParts(rule, ctx)[k]
  {
    var g := Arguments(rule, ctx);
    assert g.Parts() == CommandParts(rule, ctx);
    starts, ends := AssembleCuts(g);
  }

  /** The output directory options appear in the command together, in the
      order DirArgs lists them. */
  lemma DirArgsInCommand(rule: HaskellCompileRule, ctx: GhcContext) returns (i: nat)
    ensures i + 6 <= |GhcCommand(rule, ctx)|
    ensures GhcCommand(rule, ctx)[i..i + 6] == DirArgs(rule, ctx.projectRoot)
  {
    var g := Arguments(rule, ctx);
    i := g.DirsStart();
    DirsAt(GhcCommand(rule, ctx), g, DirArgs(rule, ctx.projectRoot));
  }

  lemma DirsAt(cmd: seq<string>, g: GhcArguments, dirs: seq<string>)
    requires cmd == Assemble(g) && g.dirs == dirs && |dirs| == 6
    ensures var i := g.DirsStart();
      && i + 6 <= |cmd|
      && cmd[i..i + 6] == dirs
  {
    AssembleLayout(g);
  }

  // ---------------------------------------------------------------------
  // Build steps
  // ---------------------------------------------------------------------

  /** The steps of the rule: cleaning an output directory, keeping only files
      named by a module and the suffix, or running GHC. */
  datatype Step =
    | PrepareOutputDir(name: string, root: Path, suffix: string)
    | GhcStep(command: seq<string>)

  function StepShortName(step: Step): (r: string)
    ensures step.PrepareOutputDir? ==> r == "preparing " + step.name + " output dir"
    ensures step.GhcStep? ==> r == "haskell-compile"
  {
    match step
    case PrepareOutputDir(name, _, _) => "preparing " + name + " output dir"
    case GhcStep(_) => "haskell-compile"
  }

  /** The artifacts the rule records and the steps it runs. */
  datatype BuildSteps = BuildSteps(artifacts: seq<Path>, steps: seq<Step>)

  /** getBuildSteps: records the object, interface and stub directories,
      prepares each (the object directory with the interface suffix, as the
      rule is written), then runs GHC. */
  function GetBuildSteps(rule: HaskellCompileRule, ctx: GhcContext): (r: BuildSteps)
    ensures r.artifacts == [ObjectDir(rule), InterfaceDir(rule), StubDir(rule)]
    ensures |r.steps| == 4
    ensures r.steps[0] == PrepareOutputDir("object", ObjectDir(rule), InterfaceSuffix(rule))
    ensures r.steps[1] == PrepareOutputDir("interface", InterfaceDir(rule), InterfaceSuffix(rule))
    ensures r.steps[2] == PrepareOutputDir("stub", StubDir(rule), "h")
    ensures r.steps[3] == GhcStep(GhcCommand(rule, ctx))
  {
    BuildSteps(
      [ObjectDir(rule), InterfaceDir(rule), StubDir(rule)],
      [PrepareOutputDir("object", ObjectDir(rule), InterfaceSuffix(rule)),
       PrepareOutputDir("interface", InterfaceDir(rule), InterfaceSuffix(rule)),
       PrepareOutputDir("stub", StubDir(rule), "h"),
       GhcStep(GhcCommand(rule, ctx))])
  }

  /** The directories the first three steps clean are the recorded artifacts,
      and they are the ones the compiler is told to write to. */
  lemma StepsAgreeWithCommand(rule: HaskellCompileRule, ctx: GhcContext) returns (i: nat)
    ensures var bs := GetBuildSteps(rule, ctx);
      var cmd := bs.steps[3].command;
      && bs.steps[0].PrepareOutputDir? && bs.steps[0].root == bs.artifacts[0]
      && bs.steps[1].PrepareOutputDir? && bs.steps[1].root == bs.artifacts[1]
      && bs.steps[2].PrepareOutputDir? && bs.steps[2].root == bs.artifacts[2]
      && i + 6 <= |cmd|
      && cmd[i] == "-odir" && cmd[i + 1] == AbsolutePathString(ctx.projectRoot + bs.steps[0].root)
      && cmd[i + 2] == "-hidir" && cmd[i + 3] == AbsolutePathString(ctx.projectRoot + bs.steps[1].root)
      && cmd[i + 4] == "-stubdir" && cmd[i + 5] == AbsolutePathString(ctx.projectRoot + bs.steps[2].root)
  {
    i := DirArgsInCommand(rule, ctx);
    SixAt(GhcCommand(rule, ctx), i, DirArgs(rule, ctx.projectRoot));
  }

  lemma SixAt(cmd: seq<string>, i: nat, run: seq<string>)
    requires i + 6 <= |cmd| && cmd[i..i + 6] == run
    ensures cmd[i] == run[0] && cmd[i + 1] == run[1] && cmd[i + 2] == run[2]
    ensures cmd[i + 3] == run[3] && cmd[i + 4] == run[4] && cmd[i + 5] == run[5]
  {
  }

  /** Executing one preparation step: create the directory, then delete
      every file in it that is not a module's output with the step's suffix,
      then every directory left empty (the root excepted). */
  function RunPrepareStep(rule: HaskellCompileRule, fs: FileSystem, step: Step): (r: Result<FileSystem, string>)
    requires fs.WellFormed() && step.PrepareOutputDir? && |step.root| > 0
    ensures r.Success? <==> forall k :: 0 < k <= |step.root| ==> step.root[..k] !in fs.files
    ensures r.Success? ==> r.value.WellFormed() && step.root in r.value.dirs
    ensures r.Success? ==> forall f :: f in r.value.files && step.root < f ==>
      exists m :: m in rule.args.sources.moduleNames && f == ModuleOutputPath(step.root, m, step.suffix)
    ensures r.Success? ==> forall m :: m in rule.args.sources.moduleNames && ModuleOutputPath(step.root, m, step.suffix) in fs.files ==>
      ModuleOutputPath(step.root, m, step.suffix) in r.value.files
    ensures r.Success? ==> forall p :: p in fs.Entries() && !(step.root < p) ==> p in r.value.Entries()
    ensures r.Success? ==> forall x :: x in r.value.dirs && step.root < x ==> exists f :: f in r.value.files && x < f
    // nothing appears but the directories on the way to the output directory
    ensures r.Success? ==> r.value.files <= fs.files
    ensures r.Success? ==> r.value.dirs <= fs.dirs + (set k | 0 < k <= |step.root| :: step.root[..k])
  {
    var allowed := AllowedPaths(step.root, rule.args.sources.moduleNames, step.suffix);
    OutputDirCleaning.PrepareOutputDir(fs, step.root, allowed)
  }

  /** As written, the object directory is cleaned with the interface suffix:
      whatever object files of the rule's modules were there beforehand are
      all deleted, and the interface-named files are what survive. */
  lemma {:induction false} ObjectDirPreparationDeletesObjects(rule: HaskellCompileRule, ctx: GhcContext, fs: FileSystem)
    requires fs.WellFormed()
    requires RunPrepareStep(rule, fs, GetBuildSteps(rule, ctx).steps[0]).Success?
    ensures var after := RunPrepareStep(rule, fs, GetBuildSteps(rule, ctx).steps[0]).value;
      && (forall m :: !ResolvesAbsolute(m) ==> ModuleOutputPath(ObjectDir(rule), m, ObjectSuffix(rule)) !in after.files)
      && (forall m :: m in rule.args.sources.moduleNames && ModuleOutputPath(ObjectDir(rule), m, InterfaceSuffix(rule)) in fs.files ==>
            ModuleOutputPath(ObjectDir(rule), m, InterfaceSuffix(rule)) in after.files)
  {
    var step := GetBuildSteps(rule, ctx).steps[0];
    var root := ObjectDir(rule);
    assert step.root == root && step.suffix == InterfaceSuffix(rule);
    forall m
      ensures var p := ModuleOutputPath(root, m, ObjectSuffix(rule));
        (!ResolvesAbsolute(m) ==> root < p) && forall m2 :: p != ModuleOutputPath(root, m2, InterfaceSuffix(rule))
    {
      ObjectFileIsNoInterfaceFile(rule, root, m);
    }
  }

  /** An object file is no module's interface file, and it lies strictly
      inside its directory unless the module name resolves to an absolute path. */
  lemma ObjectFileIsNoInterfaceFile(rule: HaskellCompileRule, root: Path, m: string)
    ensures var p := ModuleOutputPath(root, m, ObjectSuffix(rule));
      (!ResolvesAbsolute(m) ==> root < p) && forall m2 :: p != ModuleOutputPath(root, m2, InterfaceSuffix(rule))
  {
    SuffixesEnd(rule);
    ModuleOutputPathLastName(root, m, ObjectSuffix(rule));
    forall m2
      ensures ModuleOutputPath(root, m, ObjectSuffix(rule)) != ModuleOutputPath(root, m2, InterfaceSuffix(rule))
    {
      LastCharsApart(root, m, ObjectSuffix(rule), m2, InterfaceSuffix(rule));
    }
  }

  /** Output files whose suffixes end differently are different files. */
  lemma LastCharsApart(root: Path, m1: string, s1: string, m2: string, s2: string)
    requires Separator !in s1 && Separator !in s2 && |s1| > 0 && |s2| > 0
    requires s1[|s1| - 1] != s2[|s2| - 1]
    ensures ModuleOutputPath(root, m1, s1) != ModuleOutputPath(root, m2, s2)
  {
    ModuleOutputPathLastName(root, m1, s1);
    ModuleOutputPathLastName(root, m2, s2);
    var p1, p2 := ModuleOutputPath(root, m1, s1), ModuleOutputPath(root, m2, s2);
    var l1, l2 := p1[|p1| - 1], p2[|p2| - 1];
    assert l1[|l1| - 1] == ("." + s1)[|s1|] == s1[|s1| - 1];
    assert l2[|l2| - 1] == ("." + s2)[|s2|] == s2[|s2| - 1];
  }
}
