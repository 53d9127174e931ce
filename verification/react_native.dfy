/** How a React Native library is turned into build rules: a JavaScript
    bundle rule for the platform, and on Android an optional resource rule
    and its AAPT2 compile rule, wired together by their dependencies. Rules
    are modelled by their parameters (target, declared and extra
    dependencies) and the few fields the enhancer sets. */
module ReactNative {
  import opened Wrappers
  import Strings
  import opened Paths
  import opened Targets

  /** The flavor of the bundle rule on Android. */
  const BundleFlavor: Flavor := "bundle"

  /** The flavor of the Android resource rule. */
  const AndroidResFlavor: Flavor := "android_res"

  datatype Platform = Android | Ios

  /** ReactNativeFlavors.useUnbundling, useIndexedUnbundling, isDevMode and
      exposeSourceMap: each reads the flavors of a target. */
  datatype FlavorSwitches = FlavorSwitches(
    useUnbundling: BuildTarget -> bool,
    useIndexedUnbundling: BuildTarget -> bool,
    isDevMode: BuildTarget -> bool,
    exposeSourceMap: BuildTarget -> bool)

  /** The library's arguments: the entry file, the sources, the bundle's name,
      the packager flags (one string or a list of strings), and on Android
      the resource package, if any. */
  datatype LibraryArgs = LibraryArgs(
    entryPath: SourcePath,
    srcs: set<SourcePath>,
    bundleName: string,
    packagerFlags: Option<Either<string, seq<string>>>,
    package: Option<string>)

  /** A ReactNativeBundle, by what the enhancer gives its constructor. */
  datatype Bundle = Bundle(
    params: BuildRuleParams,
    entryPath: SourcePath,
    srcs: set<SourcePath>,
    unbundle: bool,
    indexedUnbundle: bool,
    devMode: bool,
    exposeSourceMap: bool,
    bundleName: string,
    packagerFlags: seq<string>,
    packager: Tool,
    platform: Platform)

  /** An AndroidResource built from the bundle's resource output. */
  datatype AndroidResource = AndroidResource(params: BuildRuleParams, resources: SourcePath, package: string)

  /** An Aapt2Compile of the same resources. */
  datatype Aapt2Compile = Aapt2Compile(params: BuildRuleParams, resources: SourcePath)

  /** An AndroidReactNativeLibrary. */
  datatype AndroidLibrary = AndroidLibrary(params: BuildRuleParams, bundle: Bundle)

  /** A rule added to the resolver's index. */
  datatype IndexedRule =
    | BundleRule(bundle: Bundle)
    | ResourceRule(resource: AndroidResource)
    | Aapt2Rule(aapt2: Aapt2Compile)
  {
    function Target(): BuildTarget {
      match this
      case BundleRule(b) => b.params.target
      case ResourceRule(r) => r.params.target
      case Aapt2Rule(a) => a.params.target
    }
  }

  /** What enhanceForAndroid produces: the library, the list of extra
      dependencies it appends, and the rules it indexed, in order. */
  datatype AndroidEnhancement = AndroidEnhancement(library: AndroidLibrary, extraDeps: seq<BuildTarget>, index: seq<IndexedRule>)

  /** The packager flags: none when absent, a string split at runs of
      whitespace, a list as given. */
  function PackagerFlags(flags: Option<Either<string, seq<string>>>): (r: seq<string>)
    ensures flags.None? ==> r == []
    ensures flags.Some? && flags.value.Right? ==> r == flags.value.right
    ensures flags.Some? && flags.value.Left? ==> r == Strings.SplitWhitespace(flags.value.left)
  {
    match flags
    case None => []
    case Some(Left(s)) => Strings.SplitWhitespace(s)
    case Some(Right(list)) => list
  }

  /** A list of plain flags and the same flags written as one string separated
      by spaces give the packager the same flags. */
  lemma PackagerFlagsStringOrList(tokens: seq<string>)
    requires |tokens| >= 1
    requires forall k :: 0 <= k < |tokens| ==> tokens[k] != "" && !Strings.HasWhitespace(tokens[k])
    ensures PackagerFlags(Some(Left(Strings.Join(" ", tokens)))) == PackagerFlags(Some(Right(tokens))) == tokens
  {
    Strings.SplitWhitespaceJoin(tokens);
  }

  /** A flags string is split at runs of any whitespace: the words, after one
      empty flag when the string starts with whitespace. */
  lemma PackagerFlagsSpaced(lead: string, words: seq<string>, gaps: seq<string>, trail: string)
    requires Strings.WellSpaced(words, gaps) && Strings.IsBlank(lead) && Strings.IsBlank(trail)
    ensures PackagerFlags(Some(Left(lead + Strings.Interleave(words, gaps) + trail))) == (if lead == "" then [] else [""]) + words
  {
    Strings.SplitWhitespaceSpaced(lead, words, gaps, trail);
  }

  /** A flags string of nothing but whitespace gives no flags, and the empty
      string gives one empty flag. */
  lemma PackagerFlagsBlank(w: string)
    requires Strings.IsBlank(w)
    ensures PackagerFlags(Some(Left(w))) == if w == "" then [""] else []
  {
    if w != "" {
      Strings.SplitWhitespaceBlank(w);
    }
  }

  /** The rules the bundle depends on: those behind the entry file, those
      behind the sources, and the packager's. */
  function BundleDeps(args: LibraryArgs, packager: Tool): (r: set<BuildTarget>)
    ensures forall t :: t in r <==>
      || (args.entryPath.BuildTargetSourcePath? && args.entryPath.target == t)
      || (exists sp :: sp in args.srcs && sp.BuildTargetSourcePath? && sp.target == t)
      || t in packager.deps
  {
    RuleInputs({args.entryPath}) + RuleInputs(args.srcs) + packager.deps
  }

  /** createReactNativeBundle: the bundle takes the given target, declares
      the rules behind its inputs and the packager's, has no extra
      dependencies, and reads its four switches from the target of the
      parameters it was handed, not from its own target. */
  function CreateBundle(baseParams: BuildRuleParams, target: BuildTarget, args: LibraryArgs, packager: Tool, switches: FlavorSwitches, platform: Platform): (b: Bundle)
    ensures b.params.target == target
    ensures b.params.declaredDeps == BundleDeps(args, packager) && b.params.extraDeps == {}
    ensures b.unbundle == switches.useUnbundling(baseParams.target)
    ensures b.indexedUnbundle == switches.useIndexedUnbundling(baseParams.target)
    ensures b.devMode == switches.isDevMode(baseParams.target)
    ensures b.exposeSourceMap == switches.exposeSourceMap(baseParams.target)
    ensures b.packagerFlags == PackagerFlags(args.packagerFlags)
    ensures b.entryPath == args.entryPath && b.srcs == args.srcs && b.bundleName == args.bundleName
    ensures b.packager == packager && b.platform == platform
  {
    Bundle(
      baseParams.WithBuildTarget(target).WithDeclaredDeps(BundleDeps(args, packager)).WithoutExtraDeps(),
      args.entryPath,
      args.srcs,
      switches.useUnbundling(baseParams.target),
      switches.useIndexedUnbundling(baseParams.target),
      switches.isDevMode(baseParams.target),
      switches.exposeSourceMap(baseParams.target),
      args.bundleName,
      PackagerFlags(args.packagerFlags),
      packager,
      platform)
  }

  /** The parameters of the resource rule: the library's, with the
      android_res flavor and the bundle as the only extra dependency. */
  function ResourceParams(params: BuildRuleParams): (r: BuildRuleParams)
    ensures r.target == WithFlavor(params.target, AndroidResFlavor)
    ensures r.declaredDeps == params.declaredDeps
    ensures r.extraDeps == {WithFlavor(params.target, BundleFlavor)}
  {
    params.WithAppendedFlavor(AndroidResFlavor).WithExtraDeps({WithFlavor(params.target, BundleFlavor)})
  }

  /** enhanceForAndroid: the bundle gets the "bundle" flavor and is indexed;
      with a package, a resource rule over the bundle's resources (at
      `resourcesOutput` of the bundle) and its AAPT2 compile rule (flavored
      with `aapt2Flavor`) are indexed too. The library appends the bundle,
      then the resource rule when there is one, to its extra dependencies. */
  function EnhanceForAndroid(params: BuildRuleParams, args: LibraryArgs, packager: Tool, switches: FlavorSwitches, aapt2Flavor: Flavor, resourcesOutput: Path): (r: AndroidEnhancement)
    ensures r.library.bundle.params.target == WithFlavor(params.target, BundleFlavor)
    ensures r.library.bundle.platform == Android
    // the bundle's switches are read from the library's own target
    ensures r.library.bundle.unbundle == switches.useUnbundling(params.target)
    ensures r.library.bundle.indexedUnbundle == switches.useIndexedUnbundling(params.target)
    ensures r.library.bundle.devMode == switches.isDevMode(params.target)
    ensures r.library.bundle.exposeSourceMap == switches.exposeSourceMap(params.target)
    ensures r.library.bundle.params.declaredDeps == BundleDeps(args, packager) && r.library.bundle.params.extraDeps == {}
    ensures r.library.bundle.packagerFlags == PackagerFlags(args.packagerFlags)
    ensures args.package.None? ==> r.extraDeps == [WithFlavor(params.target, BundleFlavor)]
    ensures args.package.Some? ==> r.extraDeps == [WithFlavor(params.target, BundleFlavor), WithFlavor(params.target, AndroidResFlavor)]
    ensures r.library.params.target == params.target && r.library.params.declaredDeps == params.declaredDeps
    ensures forall t :: t in r.library.params.extraDeps <==> t in params.extraDeps || t in r.extraDeps
    ensures |r.index| == (if args.package.Some? then 3 else 1)
    ensures r.index[0] == BundleRule(r.library.bundle)
    ensures args.package.Some? ==>
      && r.index[1].ResourceRule?
      && r.index[1].resource.params.target == WithFlavor(params.target, AndroidResFlavor)
      && r.index[1].resource.params.declaredDeps == params.declaredDeps
      && r.index[1].resource.params.extraDeps == {WithFlavor(params.target, BundleFlavor)}
      && r.index[1].resource.package == args.package.value
      && r.index[1].resource.resources == BuildTargetSourcePath(WithFlavor(params.target, BundleFlavor), resourcesOutput)
    ensures args.package.Some? ==>
      && r.index[2].Aapt2Rule?
      && r.index[2].aapt2.params.target == WithFlavor(WithFlavor(params.target, AndroidResFlavor), aapt2Flavor)
      && r.index[2].aapt2.params.declaredDeps == params.declaredDeps
      && r.index[2].aapt2.params.extraDeps == {WithFlavor(params.target, BundleFlavor)}
      && r.index[2].aapt2.resources == r.index[1].resource.resources
  {
    var bundleTarget := WithFlavor(params.target, BundleFlavor);
    var bundle := CreateBundle(params, bundleTarget, args, packager, switches, Android);
    match args.package
    case None =>
      var extraDeps := [bundleTarget];
      AndroidEnhancement(AndroidLibrary(params.CopyAppendingExtraDeps({bundleTarget}), bundle), extraDeps, [BundleRule(bundle)])
    case Some(pkg) =>
      var resourceParams := ResourceParams(params);
      var resources := BuildTargetSourcePath(bundleTarget, resourcesOutput);
      var resource := AndroidResource(resourceParams, resources, pkg);
      var aapt2 := Aapt2Compile(resourceParams.WithAppendedFlavor(aapt2Flavor), resources);
      var extraDeps := [bundleTarget, resourceParams.target];
      AndroidEnhancement(
        AndroidLibrary(params.CopyAppendingExtraDeps({bundleTarget, resourceParams.target}), bundle),
        extraDeps,
        [BundleRule(bundle), ResourceRule(resource), Aapt2Rule(aapt2)])
  }

  /** enhanceForIos: the bundle keeps the library's own target. */
  function EnhanceForIos(params: BuildRuleParams, args: LibraryArgs, packager: Tool, switches: FlavorSwitches): (b: Bundle)
    ensures b.params.target == params.target && b.platform == Ios
  {
    CreateBundle(params, params.target, args, packager, switches, Ios)
  }

  /** The Android and iOS bundles of one library differ only in their target
      and platform: the same dependencies, flags and switches, the switches
      read from the library's unflavored target on both. */
  lemma BundlesDifferOnlyInTargetAndPlatform(params: BuildRuleParams, args: LibraryArgs, packager: Tool, switches: FlavorSwitches, aapt2Flavor: Flavor, resourcesOutput: Path)
    ensures var android := EnhanceForAndroid(params, args, packager, switches, aapt2Flavor, resourcesOutput).library.bundle;
      var ios := EnhanceForIos(params, args, packager, switches);
      android == ios.(params := ios.params.(target := WithFlavor(params.target, BundleFlavor)), platform := Android)
  {
  }

  /** Every extra dependency the library appends is a rule the enhancer
      indexed, in the same order. */
  lemma ExtraDepsAreIndexed(params: BuildRuleParams, args: LibraryArgs, packager: Tool, switches: FlavorSwitches, aapt2Flavor: Flavor, resourcesOutput: Path)
    ensures var r := EnhanceForAndroid(params, args, packager, switches, aapt2Flavor, resourcesOutput);
      && |r.extraDeps| <= |r.index|
      && forall k :: 0 <= k < |r.extraDeps| ==> r.extraDeps[k] == r.index[k].Target()
  {
    var r := EnhanceForAndroid(params, args, packager, switches, aapt2Flavor, resourcesOutput);
    assert r.index[0].Target() == WithFlavor(params.target, BundleFlavor);
    if args.package.Some? {
      assert r.index[1].Target() == WithFlavor(params.target, AndroidResFlavor);
    }
  }

  /** When the library's target carries none of the flavors the enhancer adds,
      the indexed rules have pairwise distinct targets, none of them the
      library's own. */
  lemma IndexedTargetsDistinct(params: BuildRuleParams, args: LibraryArgs, packager: Tool, switches: FlavorSwitches, aapt2Flavor: Flavor, resourcesOutput: Path)
    requires BundleFlavor !in params.target.flavors && AndroidResFlavor !in params.target.flavors
    requires aapt2Flavor !in params.target.flavors && aapt2Flavor != AndroidResFlavor
    ensures var index := EnhanceForAndroid(params, args, packager, switches, aapt2Flavor, resourcesOutput).index;
      && (forall k :: 0 <= k < |index| ==> index[k].Target() != params.target)
      && (forall i, j :: 0 <= i < j < |index| ==> index[i].Target() != index[j].Target())
  {
    var t := params.target;
    var bundleTarget, resourceTarget := WithFlavor(t, BundleFlavor), WithFlavor(t, AndroidResFlavor);
    var aapt2Target := WithFlavor(resourceTarget, aapt2Flavor);
    assert BundleFlavor in bundleTarget.flavors && BundleFlavor !in resourceTarget.flavors;
    assert AndroidResFlavor in aapt2Target.flavors && AndroidResFlavor !in bundleTarget.flavors;
    assert aapt2Flavor in aapt2Target.flavors && aapt2Flavor !in resourceTarget.flavors;
  }
}
