/** Build targets with flavors, source paths, tools, and the parameters every
    build rule is constructed from (its target and its declared and extra
    dependencies). Rules are identified by their targets, so a set of
    dependency rules is modelled as the set of their targets. */
module Targets {
  import opened Paths

  /** An InternalFlavor, by its name. */
  type Flavor = string

  /** A BuildTarget: the base path of its build file, its short name, and its flavors. */
  datatype BuildTarget = BuildTarget(basePath: string, shortName: string, flavors: set<Flavor>)

  /** The target with one more flavor (BuildTarget.builder(t).addFlavors(f).build(),
      BuildTarget.withAppendedFlavors(f)). */
  function WithFlavor(t: BuildTarget, f: Flavor): (r: BuildTarget)
    ensures r.basePath == t.basePath && r.shortName == t.shortName
    ensures f in r.flavors && t.flavors <= r.flavors && r.flavors - t.flavors <= {f}
    ensures r == t <==> f in t.flavors
  {
    t.(flavors := t.flavors + {f})
  }

  /** A SourcePath: a plain file, or the output of the rule with the given target. */
  datatype SourcePath =
    | PathSourcePath(path: Path)
    | BuildTargetSourcePath(target: BuildTarget, output: Path)

  /** SourcePathRuleFinder.filterBuildRuleInputs: the rules that produce the given source paths. */
  function RuleInputs(paths: set<SourcePath>): (r: set<BuildTarget>)
    ensures forall t :: t in r <==> exists sp :: sp in paths && sp.BuildTargetSourcePath? && sp.target == t
  {
    set sp | sp in paths && sp.BuildTargetSourcePath? :: sp.target
  }

  /** A Tool as the rules use it: its command prefix (Tool.getCommandPrefix,
      already resolved) and the rules it needs (Tool.getDeps). */
  datatype Tool = Tool(commandPrefix: seq<string>, deps: set<BuildTarget>)

  /** BuildRuleParams: the rule's target and its declared and extra dependencies. */
  datatype BuildRuleParams = BuildRuleParams(target: BuildTarget, declaredDeps: set<BuildTarget>, extraDeps: set<BuildTarget>) {

    function WithBuildTarget(t: BuildTarget): BuildRuleParams {
      this.(target := t)
    }

    function WithDeclaredDeps(deps: set<BuildTarget>): BuildRuleParams {
      this.(declaredDeps := deps)
    }

    function WithoutExtraDeps(): BuildRuleParams {
      this.(extraDeps := {})
    }

    /** Replaces the extra dependencies. */
    function WithExtraDeps(deps: set<BuildTarget>): BuildRuleParams {
      this.(extraDeps := deps)
    }

    /** Adds to the extra dependencies. */
    function CopyAppendingExtraDeps(deps: set<BuildTarget>): BuildRuleParams {
      this.(extraDeps := extraDeps + deps)
    }

    function WithAppendedFlavor(f: Flavor): BuildRuleParams {
      this.(target := WithFlavor(target, f))
    }
  }
}
