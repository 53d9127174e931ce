# Buck: Haskell compilation, the rm step and React Native graph enhancement

A Dafny model of three pieces of the Buck build tool:

- **The Haskell compile rule** (`HaskellCompileRule`). It covers:
  - how the rule is constructed, with profiled PIC refused;
  - the declared dependencies it collects;
  - the object and interface file suffixes;
  - the object files it lists, one per module;
  - whether its output is cacheable;
  - the GHC command line, part by part;
  - the four build steps it runs.
  - The step that prepares an output directory, by deleting every file the compiler will not rewrite and every directory left empty, is modelled twice:
    - as the post-order file-tree walk the source performs;
    - in closed form.
- **The rm step** (`AbstractRmStep`). It deletes one path, or a whole subtree, below the build cell's root. The model also covers the `rm -f [-r] PATH` description the step shows.
- **React Native graph enhancement** (`ReactNativeLibraryGraphEnhancer`):
  - the JavaScript bundle rule for a library;
  - on Android, the optional resource rule and its AAPT2 compile rule;
  - the flavors of the targets, and the declared and extra dependencies that wire the rules together.

Files:

- `wrappers.dfy`: `Option`, `Result` and `Either`.
- `strings.dfy` (module `Strings`). It covers:
  - Java's `String.compareTo` order, and a sorted set as a list (what a `TreeSet` iterates);
  - joining, splitting at one character, and `replace(char, char)`;
  - `String.split("\\s+")`;
  - flag/value lists (`MoreIterables.zipAndConcat(Iterables.cycle(flag), values)`);
  - lists built from consecutive parts.
- `paths.dfy` (module `Paths`). A path is a sequence of names; an absolute path has an empty first name, so that its string starts with the separator. `Path.toString` and `Path.resolve(String)` are modelled, including `resolve` returning an absolute argument by itself. A filesystem is the sets of paths naming files and directories.
- `targets.dfy` (module `Targets`). It covers:
  - build targets with flavor sets;
  - source paths and the rules behind them;
  - tools;
  - `BuildRuleParams` and its `with…`/`copyAppending…` updates.
- `output_dir_cleaning.dfy` (module `OutputDirCleaning`): the output-directory preparation step.
- `haskell_compile.dfy` (module `HaskellCompile`): the compile rule.
- `rm_step.dfy` (module `Rm`): the rm step.
- `react_native.dfy` (module `ReactNative`): the enhancer.

Code outside these three classes becomes a parameter of the model. This includes:

- the source path resolver;
- the compiler's command prefix;
- the stringified preprocessor flags;
- the PIC and profiling flag lists;
- the generated-files directory of a target;
- the `ReactNativeFlavors` switches;
- the packager tool;
- the AAPT2 compile flavor;
- the bundle's resources directory.

Strings are compared by code point.

## Model

| member | source | states |
|---|---|---|
| HaskellCompile.From | src/com/facebook/buck/haskell/HaskellCompileRule.java:112-198 | Construction fails exactly when the pic type is PIC and profiling is on, with the constructor's message. Otherwise the rule's `pic` is true exactly for PIC. Its params carry the given target, the declared dependencies and no extra dependencies. |
| HaskellCompile.DeclaredDeps | src/com/facebook/buck/haskell/HaskellCompileRule.java:167-180 | The declared dependencies are exactly the rules of the compiler, the preprocessor flags, the include paths, the sources and every exposed or transitive package. Every such rule is included and nothing else is. |
| HaskellCompile.PackageDeps | src/com/facebook/buck/haskell/HaskellCompileRule.java:176-179 | A rule is a dependency of a package map exactly when some package in the map depends on it. |
| HaskellCompile.ObjectDir | src/com/facebook/buck/haskell/HaskellCompileRule.java:206-209 | The object directory is the rule's generated-files directory with one more name, "objects". |
| HaskellCompile.InterfaceDir | src/com/facebook/buck/haskell/HaskellCompileRule.java:211-214 | The interface directory is the rule's generated-files directory with one more name, "interfaces". |
| HaskellCompile.StubDir | src/com/facebook/buck/haskell/HaskellCompileRule.java:216-219 | The stub directory is the rule's generated-files directory with one more name, "stubs". |
| HaskellCompile.OutputDirsApart | src/com/facebook/buck/haskell/HaskellCompileRule.java:206-219 | The object, interface and stub directories are pairwise distinct, and none lies inside another. |
| HaskellCompile.ObjectSuffix | src/com/facebook/buck/haskell/HaskellCompileRule.java:374-380 | The object suffix is "p_o" exactly when profiling, and "o" exactly when not. |
| HaskellCompile.InterfaceSuffix | src/com/facebook/buck/haskell/HaskellCompileRule.java:382-390 | The interface suffix is "dyn_hi" exactly for PIC. It is "p_hi" exactly when profiling without PIC, and "hi" exactly when neither. |
| HaskellCompile.SuffixesIdentifyMode | src/com/facebook/buck/haskell/HaskellCompileRule.java:374-390 | For valid rules, equal interface suffixes mean equal PIC and profiling settings, and equal object suffixes mean equal profiling settings. Both hold in both directions. |
| HaskellCompile.SuffixesEnd | src/com/facebook/buck/haskell/HaskellCompileRule.java:374-390 | Object suffixes end in 'o' and interface suffixes in 'i'. Neither contains a separator. |
| HaskellCompile.ModuleOutputPath | src/com/facebook/buck/haskell/HaskellCompileRule.java:400 | A module name that starts with neither a dot nor a separator gives a path in the directory. One that starts with either gives an absolute path, because `resolve` then ignores the directory. |
| HaskellCompile.ModuleOutputPathLastName | src/com/facebook/buck/haskell/HaskellCompileRule.java:400 | A module's output file always has a last name ending with "." and the suffix. Unless the module name starts with a dot or a separator, the file lies strictly inside the directory. |
| HaskellCompile.LeadingDotIsAbsolute | src/com/facebook/buck/haskell/HaskellCompileRule.java:400 | The module ".Foo" is written to "/Foo.o", whatever the directory. |
| HaskellCompile.ValidModuleNameIsRelative | src/com/facebook/buck/haskell/HaskellCompileRule.java:400 | A valid module name (dot-separated non-empty names without a separator) starts with neither a dot nor a separator, so its output file is in the directory. |
| HaskellCompile.ModuleOutputPathNames | src/com/facebook/buck/haskell/HaskellCompileRule.java:400 | For a valid module name, the output file is the directory, then the dot-separated names of the module, with "." and the suffix appended to the last name. |
| HaskellCompile.ModuleOutputPathInjective | src/com/facebook/buck/haskell/HaskellCompileRule.java:396-401 | Two valid module names have the same output file in a directory exactly when they are the same name. |
| HaskellCompile.AllowedPaths | src/com/facebook/buck/haskell/HaskellCompileRule.java:439-442 | A path is allowed exactly when it is the output file of one of the rule's modules, with the step's suffix. |
| HaskellCompile.Objects | src/com/facebook/buck/haskell/HaskellCompileRule.java:392-403 | There is one object per module. The i-th object is the output file, in the object directory, of the i-th module in sorted order, with the object suffix, named by the rule's target. |
| HaskellCompile.ObjectsCoverModules | src/com/facebook/buck/haskell/HaskellCompileRule.java:392-403 | Every module's object file is among the objects. |
| HaskellCompile.ObjectsAreOfModules | src/com/facebook/buck/haskell/HaskellCompileRule.java:392-403 | Every object is the object file of some module. |
| HaskellCompile.ObjectsDistinct | src/com/facebook/buck/haskell/HaskellCompileRule.java:392-403 | With valid module names, no object is listed twice. |
| HaskellCompile.PackageId | src/com/facebook/buck/haskell/HaskellCompileRule.java:242-244 | A package id is the name, a '-', then the version: its length is the sum of theirs plus one, and it splits back into the name and the version. |
| HaskellCompile.PackageNameArgs | src/com/facebook/buck/haskell/HaskellCompileRule.java:221-232 | Without package info there are no arguments. With it there are two: "-package-name", then the bare name from GHC 8 on, or the name-version before GHC 8. |
| HaskellCompile.IsCacheable | src/com/facebook/buck/haskell/HaskellCompileRule.java:364-367 | The rule is cacheable exactly when the GHC major version is 8 or later. |
| HaskellCompile.CacheableIffBarePackageName | src/com/facebook/buck/haskell/HaskellCompileRule.java:364-367 | A rule with package info is cacheable, that is GHC 8 or later, exactly when its package is named by the bare name. |
| HaskellCompile.PackageDbs | src/com/facebook/buck/haskell/HaskellCompileRule.java:240-248 | A database is listed exactly when some transitive or exposed package resolves to it. |
| HaskellCompile.ExposedIds | src/com/facebook/buck/haskell/HaskellCompileRule.java:247-252 | The exposed ids are exactly the name-versions of the exposed packages. |
| HaskellCompile.HiddenIds | src/com/facebook/buck/haskell/HaskellCompileRule.java:240-245 | The hidden ids are exactly the name-versions of the transitive packages. |
| HaskellCompile.PackageArgsLaidOut | src/com/facebook/buck/haskell/HaskellCompileRule.java:254-261 | The package arguments come in three blocks. First, each database once, in sorted order, after "-package-db". Then each exposed name-version after "-package". Then each hidden one after "-hide-package". |
| HaskellCompile.PackageArgsUnique | src/com/facebook/buck/haskell/HaskellCompileRule.java:235-262 | Any list with that three-block layout is the list the rule produces. |
| HaskellCompile.ExtraArgs | src/com/facebook/buck/haskell/HaskellCompileRule.java:294-305 | The extra arguments are the PIC flags for PIC, else the profiling flags when profiling, else none. |
| HaskellCompile.MainArgs | src/com/facebook/buck/haskell/HaskellCompileRule.java:315-316 | With no main module there are no arguments. Otherwise they are "-main-is" and the module. |
| HaskellCompile.PreprocessorArgs | src/com/facebook/buck/haskell/HaskellCompileRule.java:272-273 | Each preprocessor flag, in order, comes after "-optP". |
| HaskellCompile.IncludeArg | src/com/facebook/buck/haskell/HaskellCompileRule.java:322-328 | The include argument starts with "-i". |
| HaskellCompile.IncludeArgSplits | src/com/facebook/buck/haskell/HaskellCompileRule.java:322-328 | When no include path contains ':', the include argument after "-i" splits at ':' into the resolved include paths, in order, provided there is at least one. With no include paths the argument is a bare "-i". |
| HaskellCompile.DirArgs | src/com/facebook/buck/haskell/HaskellCompileRule.java:319-321 | The six directory arguments: "-odir", "-hidir" and "-stubdir", each followed by the absolute path of its directory. |
| HaskellCompile.CommandOrder | src/com/facebook/buck/haskell/HaskellCompileRule.java:307-338 | The command splits into eleven consecutive parts with nothing between or around them. In order: the compiler prefix, the flags, "-no-link", the extra arguments, the main arguments, the package-name arguments, the preprocessor arguments, the directory arguments, the include argument, the package arguments and the resolved sources. |
| HaskellCompile.AssembleLayout | src/com/facebook/buck/haskell/HaskellCompileRule.java:310-337 | The command's length is the sum of its parts' lengths. The prefix, the flags, "-no-link", the directory arguments, the include argument and the sources each sit at the offset their predecessors leave. |
| HaskellCompile.DirArgsInCommand | src/com/facebook/buck/haskell/HaskellCompileRule.java:319-321 | The six directory arguments appear together in the command, in order. |
| HaskellCompile.StepShortName | src/com/facebook/buck/haskell/HaskellCompileRule.java:340-343 | The GHC step is named "haskell-compile". A preparation step is named "preparing NAME output dir". |
| HaskellCompile.GetBuildSteps | src/com/facebook/buck/haskell/HaskellCompileRule.java:346-362 | The object, interface and stub directories are recorded as artifacts. There are exactly four steps: prepare the object directory with the interface suffix, prepare the interface directory with the interface suffix, prepare the stub directory with "h", then GHC. |
| HaskellCompile.StepsAgreeWithCommand | src/com/facebook/buck/haskell/HaskellCompileRule.java:347-359 | The directories the three preparation steps clean are the recorded artifacts. They are the ones the command passes after "-odir", "-hidir" and "-stubdir". |
| HaskellCompile.RunPrepareStep | src/com/facebook/buck/haskell/HaskellCompileRule.java:427-470 | A preparation step fails exactly when some ancestor of its directory, or the directory itself, is a file. On success: every file left inside the directory is some module's output with the step's suffix; those outputs that existed are kept; nothing outside the directory is touched; every directory left inside it holds some file; no file appears, and the only new directories are the directory and its ancestors; the result is well formed. |
| HaskellCompile.ObjectDirPreparationDeletesObjects | src/com/facebook/buck/haskell/HaskellCompileRule.java:355-356 | Because the object directory is prepared with the interface suffix, no object file of a module whose name starts with neither a dot nor a separator survives in it. The interface-suffixed module files that were there survive. |
| HaskellCompile.ObjectFileIsNoInterfaceFile | src/com/facebook/buck/haskell/HaskellCompileRule.java:374-400 | An object file is no module's interface file. Unless the module name starts with a dot or a separator, it lies strictly inside its directory. |
| OutputDirCleaning.MakeDirectories | src/com/facebook/buck/haskell/HaskellCompileRule.java:432 | `mkdirs` fails exactly when some prefix of the path is a file. Otherwise it adds every prefix as a directory and changes nothing else. |
| OutputDirCleaning.Pruned | src/com/facebook/buck/haskell/HaskellCompileRule.java:433-466 | After cleaning, every file strictly inside the root is allowed, and every allowed file is kept. Everything not strictly inside the root is kept. Every directory strictly inside the root holds some file. The result is well formed. |
| OutputDirCleaning.PrepareOutputDir | src/com/facebook/buck/haskell/HaskellCompileRule.java:427-470 | Creating the root, then cleaning it, fails exactly when some prefix of the root is a file. On success: the root is a directory; every file strictly inside it is allowed, and every allowed file is kept; everything not strictly inside it is kept; every directory strictly inside it holds some file; no file appears, and the only new directories are the root and its ancestors; the result is well formed. |
| OutputDirCleaning.Walk | src/com/facebook/buck/haskell/HaskellCompileRule.java:433-466 | Walking a directory only deletes: the files and directories left are among those there before. |
| OutputDirCleaning.VisitChildren | src/com/facebook/buck/haskell/HaskellCompileRule.java:433-466 | Visiting the children of a directory, in any order, only deletes. |
| OutputDirCleaning.VisitEntry | src/com/facebook/buck/haskell/HaskellCompileRule.java:445-453 | Visiting one child only deletes. |
| OutputDirCleaning.WalkIsPrune | src/com/facebook/buck/haskell/HaskellCompileRule.java:433-466 | Walking a directory removes exactly the unallowed files below it and the directories left empty, whatever order children are visited in. |
| OutputDirCleaning.VisitChildrenIsPrune | src/com/facebook/buck/haskell/HaskellCompileRule.java:433-466 | Visiting any set of children, one at a time in any order, prunes exactly their subtrees. |
| OutputDirCleaning.VisitEntryIsPrune | src/com/facebook/buck/haskell/HaskellCompileRule.java:445-453 | Visiting one child prunes its subtree: an unallowed file is deleted, and a directory is walked. |
| OutputDirCleaning.PostVisit | src/com/facebook/buck/haskell/HaskellCompileRule.java:456-465 | After its children are visited, a non-root directory is deleted exactly when nothing allowed lies below it. |
| OutputDirCleaning.EmptyAfterVisit | src/com/facebook/buck/haskell/HaskellCompileRule.java:459-460 | After its children are visited, a directory is empty exactly when no allowed file was below it. |
| OutputDirCleaning.WalkMatchesPrepare | src/com/facebook/buck/haskell/HaskellCompileRule.java:427-470 | The step as the visitor performs it equals the closed form, on every well-formed filesystem. |
| OutputDirCleaning.PrepareIdempotent | src/com/facebook/buck/haskell/HaskellCompileRule.java:427-470 | Preparing an already prepared directory changes nothing. |
| Rm.NewRmStep | src/com/facebook/buck/step/fs/AbstractRmStep.java:39-45 | A step built from a path deletes that path and is not recursive. |
| Rm.AbsolutePath | src/com/facebook/buck/step/fs/AbstractRmStep.java:54-55 | The deleted location is the cell root followed by the step's cell-relative path. |
| Rm.Execute | src/com/facebook/buck/step/fs/AbstractRmStep.java:52-69 | The step succeeds exactly when there is no I/O failure, the location is not the root, and the step is recursive or the location is not a non-empty directory. On error nothing changes. An absent location is success with nothing changed. Plain deletion removes that one path. Recursive deletion removes its subtree. |
| Rm.RecursiveDeletesExactlySubtree | src/com/facebook/buck/step/fs/AbstractRmStep.java:57-59 | A successful recursive deletion in a well-formed filesystem leaves exactly the entries not at or below the location. |
| Rm.ExecuteKeepsWellFormed | src/com/facebook/buck/step/fs/AbstractRmStep.java:52-69 | Deleting leaves a well-formed filesystem well formed. |
| Rm.ExecuteIdempotent | src/com/facebook/buck/step/fs/AbstractRmStep.java:57-62 | Running the step a second time changes nothing more and reports the same result. |
| Rm.RecursionOnlyMattersForDirectories | src/com/facebook/buck/step/fs/AbstractRmStep.java:57-63 | On a file, an absent path or an empty directory, recursive and plain deletion give the same filesystem and result. |
| Rm.Description | src/com/facebook/buck/step/fs/AbstractRmStep.java:71-84 | The description is "rm -f ", then "-r " when recursive, then the path. |
| Rm.ShortName | src/com/facebook/buck/step/fs/AbstractRmStep.java:47-50 | The short name has no space in it, and every description starts with it followed by a space, so it is exactly the description's first word ("rm"). |
| Rm.DescriptionWords | src/com/facebook/buck/step/fs/AbstractRmStep.java:71-84 | The description's words are "rm", "-f", then "-r" when recursive, then the path. |
| Rm.PathStringRoundTrip | src/com/facebook/buck/step/fs/AbstractRmStep.java:81 | A plain path's string contains no space and reads back as the path. |
| Rm.DescriptionRoundTrip | src/com/facebook/buck/step/fs/AbstractRmStep.java:71-84 | Reading the description back gives the step. |
| Rm.DescriptionInjective | src/com/facebook/buck/step/fs/AbstractRmStep.java:71-84 | Two steps on plain paths have the same description exactly when they are the same step. |
| ReactNative.PackagerFlags | src/com/facebook/buck/js/ReactNativeLibraryGraphEnhancer.java:58-67 | Absent flags give no flags, a list is taken as given, and a string is split as `String.split("\\s+")` splits it. |
| ReactNative.PackagerFlagsSpaced | src/com/facebook/buck/js/ReactNativeLibraryGraphEnhancer.java:58-67 | A string of words separated by runs of any whitespace, with optional runs before and after, gives the words, after one empty flag exactly when the string starts with whitespace. |
| ReactNative.PackagerFlagsBlank | src/com/facebook/buck/js/ReactNativeLibraryGraphEnhancer.java:58-67 | A non-empty string of nothing but whitespace gives no flags. The empty string gives one empty flag. |
| ReactNative.PackagerFlagsStringOrList | src/com/facebook/buck/js/ReactNativeLibraryGraphEnhancer.java:58-67 | Plain flags given as a list, or joined by spaces into one string, give the packager the same flags. |
| ReactNative.BundleDeps | src/com/facebook/buck/js/ReactNativeLibraryGraphEnhancer.java:73-78 | A rule is a bundle dependency exactly when it is behind the entry path, behind a source, or a packager dependency. |
| ReactNative.CreateBundle | src/com/facebook/buck/js/ReactNativeLibraryGraphEnhancer.java:48-90 | The bundle takes the given target, the bundle dependencies and no extra dependencies. Its four switches are read from the target of the params it is handed, not from its own target. It keeps the parsed packager flags and the entry, sources, name, packager and platform it is given. |
| ReactNative.EnhanceForAndroid | src/com/facebook/buck/js/ReactNativeLibraryGraphEnhancer.java:92-147 | The bundle's target is the library's with the "bundle" flavor. Its declared dependencies are the bundle dependencies, it has no extra dependencies, its packager flags are the parsed ones, and its four switches are read from the library's target. The extra dependencies are [bundle], or [bundle, resource] with a package, appended to the library's own. The library keeps its target and declared dependencies. The bundle is indexed. With a package, two more rules are indexed: a resource rule flavored "android_res", with the bundle's resources and the package, and its AAPT2 rule flavored on top of that. Both keep the library's declared dependencies and have the bundle as their only extra dependency. |
| ReactNative.ResourceParams | src/com/facebook/buck/js/ReactNativeLibraryGraphEnhancer.java:114-117 | The resource rule's params carry the library's target with the "android_res" flavor, the library's declared dependencies, and the bundle as the only extra dependency. |
| ReactNative.EnhanceForIos | src/com/facebook/buck/js/ReactNativeLibraryGraphEnhancer.java:149-163 | The iOS bundle keeps the library's own target. |
| ReactNative.BundlesDifferOnlyInTargetAndPlatform | src/com/facebook/buck/js/ReactNativeLibraryGraphEnhancer.java:100-108 | The Android and iOS bundles of one library are equal except for the target and the platform. |
| ReactNative.ExtraDepsAreIndexed | src/com/facebook/buck/js/ReactNativeLibraryGraphEnhancer.java:109-135 | Every extra dependency the library appends is the target of the indexed rule at the same position. |
| ReactNative.IndexedTargetsDistinct | src/com/facebook/buck/js/ReactNativeLibraryGraphEnhancer.java:106-142 | When the library's target lacks the added flavors, and the AAPT2 flavor differs from "android_res", the indexed rules' targets are pairwise distinct and differ from the library's. |
| Targets.WithFlavor | src/com/facebook/buck/js/ReactNativeLibraryGraphEnhancer.java:106 | Adding a flavor keeps the base path and name and adds exactly that flavor. The target is unchanged exactly when it already had the flavor. |
| Targets.RuleInputs | src/com/facebook/buck/js/ReactNativeLibraryGraphEnhancer.java:75-76 | The rules behind a set of source paths are exactly the targets of its build-target source paths. |
| Strings.SplitWhitespace | src/com/facebook/buck/js/ReactNativeLibraryGraphEnhancer.java:61 | No field holds whitespace, only the first may be empty, and a string without whitespace is one field, itself. |
| Strings.SplitWhitespaceSpaced | src/com/facebook/buck/js/ReactNativeLibraryGraphEnhancer.java:61 | Non-empty words separated by non-empty runs of any whitespace, with optional runs before and after, split into the words, after one "" exactly when there is a leading run. |
| Strings.SplitWhitespaceBlank | src/com/facebook/buck/js/ReactNativeLibraryGraphEnhancer.java:61 | A non-empty string of nothing but whitespace splits into no fields. |
| Strings.SplitWhitespaceJoin | src/com/facebook/buck/js/ReactNativeLibraryGraphEnhancer.java:61 | Splitting non-empty, whitespace-free words joined by single spaces gives the words back. |
| Strings.ZipWithFlag | src/com/facebook/buck/haskell/HaskellCompileRule.java:258-260 | The list is twice as long as the values. Its even positions hold the flag and its odd positions the values, in order. |
| Strings.ZipWithFlagIsFlagBlock | src/com/facebook/buck/haskell/HaskellCompileRule.java:258-260 | Pairing a flag with each element of a sorted set gives an even-length list. It alternates the flag and the set's elements, each once, in sorted order. |
| Strings.SortedElements | src/com/facebook/buck/haskell/HaskellCompileRule.java:236-238 | The listing has one entry per element of the set, holds exactly the set's elements, and is strictly increasing. |
| Strings.SortedElementsIsTheSortedListing | src/com/facebook/buck/haskell/HaskellCompileRule.java:236-238 | Any strictly sorted list holding exactly a set's elements is the set's sorted listing, which is what a `TreeSet` iterates. |
| Strings.ReplaceChar | src/com/facebook/buck/haskell/HaskellCompileRule.java:400 | The result has the same length, with every occurrence of the one character replaced by the other and every other character kept. |
| Paths.ResolveString | src/com/facebook/buck/haskell/HaskellCompileRule.java:400 | A string that starts with the separator resolves to an absolute path by itself. Any other string extends the directory. Either way the names added are non-empty and free of separators. |
| Paths.ResolveRelativeString | src/com/facebook/buck/haskell/HaskellCompileRule.java:400 | A relative string with no repeated, leading or trailing separator appends exactly its separator-delimited pieces to the directory, and the string of what is appended is that string. |
| Paths.AbsoluteIsRootMarked | src/com/facebook/buck/haskell/HaskellCompileRule.java:319-321 | The absolute directory string of a non-empty project path is the string of the path marked absolute by an empty first name, so both absolute forms agree. |
| Paths.ResolveAbsoluteString | src/com/facebook/buck/haskell/HaskellCompileRule.java:400 | An absolute string without repeated or trailing separators resolves to a path whose string is that string. |

## Left out

- Running GHC, the environment variables of its step, rule keys (`appendToRuleKey`, `@AddToRuleKey`) and logging are not modelled.
- Accessors that only return a field or wrap one in a source path are not modelled: `getSourcePathToOutput`, `getModules`, `getInterfaces`, `getObjectsDir` and `getFlags`.
- Code these classes call but do not contain is a parameter of the model, not a definition. This covers:
  - `SourcePathResolver.getAbsolutePath`;
  - `Tool.getCommandPrefix` and `getDeps`;
  - `PreprocessorFlags.toToolFlags` with `Arg.stringify`;
  - `HaskellDescriptionUtils.PIC_FLAGS` and `PROF_FLAGS`;
  - `BuildTargets.getGenPath`;
  - the `ReactNativeFlavors` switches;
  - `ReactNativeBuckConfig.getPackager`;
  - `AndroidResourceDescription.AAPT2_COMPILE_FLAVOR`;
  - `ReactNativeBundle.getResources`.
- The `AndroidResource`, `Aapt2Compile`, `ReactNativeBundle` and `AndroidReactNativeLibrary` constructors are modelled only by the params, sources, package and switches they are handed. Their other arguments are constants or empty.
- `BuildRuleResolver.addToIndex` is modelled as the ordered list of rules added. Its check against adding the same target twice is not modelled.
- Strings are ordered by code point, whereas Java's `compareTo` compares UTF-16 units. The two differ only for characters above U+FFFF.
- The filesystem has no symbolic links, permissions or concurrent writers. Paths are sequences of names, so `Path.resolve` normalises repeated separators and "." and ".." do not occur.
- The separator is '/', the value of `File.separatorChar` on Unix-like systems. On Windows it is the backslash and paths have drive letters; neither is modelled.
- `GhcCommand` and `PackageArgs` carry no contract of their own, because their layout is stated by `CommandOrder` and `PackageArgsLaidOut`.
- Rm.Execute: any I/O error other than deleting a non-empty directory without recursion is a boolean input. After such an error the filesystem is taken as unchanged, while a real recursive deletion may stop part way through. Deleting the filesystem root is reported as an error.
- HaskellCompile.RunPrepareStep: requires a well-formed filesystem and a non-empty output directory. The rule's directories always lie below the generated-files directory.
- Rm.DescriptionRoundTrip: holds for paths whose names are non-empty and contain neither a separator nor a space. A space in a name makes the description ambiguous, and the source does not quote it.
- Rm.DescriptionInjective: stated for the same plain paths, for the same reason.
- Rm.RecursiveDeletesExactlySubtree: stated for well-formed filesystems. In an ill-formed one an absent path can have entries below it, and recursive deletion of an absent path removes nothing.
- HaskellCompile.ObjectsDistinct: stated for valid module names (non-empty dot-separated names without a separator). "A..B" and "A/B" would otherwise collide.
- HaskellCompile.ModuleOutputPathInjective: stated for valid module names, for the same reason.
- HaskellCompile.IncludeArgSplits: stated for include paths without ':', since the source does not escape the separator.
- HaskellCompile.ObjectDirPreparationDeletesObjects: stated for module names that start with neither a dot nor a separator. The object file of any other name is an absolute path outside the object directory, which the step does not touch.
