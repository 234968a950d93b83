# ApkMatcher: targeting resolution for bundletool build results

This project models `ApkMatcher`, the part of bundletool that decides which APKs of a
`BuildApksResult` are installed on a given device. The model is written in Dafny and covers
three steps:

1. **Variant selection.** Keep the variants whose targeting passes the SDK-version, ABI and
   screen-density variant predicates. No match means nothing is installed. Exactly one match
   means that variant is used. Two or more matches is an error.
2. **APK selection.** Walk the chosen variant's APK sets in module order, and the APKs of
   each set in their order. Keep each APK whose targeting passes all four APK predicates
   (SDK version, ABI, density, language). A split APK must also belong to an allowed module.
3. **Policy.** An allow-list given as an empty set is refused when the matcher is built. A
   non-split APK whose targeting matches while an allow-list is present is a
   conflict, and the conflict aborts the whole resolution.

The four dimension matchers are external: the model proves its properties for any of them.
Each matcher is a datatype holding its predicates (`Targeting.DimensionMatcher`,
`Targeting.LanguageMatcher`). A `MatcherFactory` builds them from an opaque `DeviceSpec`,
standing in for the four matcher constructors. `VariantTargeting`, `ApkTargeting` and
`DeviceSpec` are opaque types.

Files:

- `wrappers.dfy`: `Option` and `Result`.
- `sequences.dfy`: generic order-preserving filter (the stream `filter` of the
  variant selection) described by the increasing list of positions it keeps.
- `targeting.dfy`: the device descriptor, the targeting types and the matcher interface.
- `build_apks.dfy`: `BuildApksResult`, `Variant`, `ApkSet`, `ApkDescription`, and the
  flattening of a variant into `(module, APK)` entries in traversal order.
- `apk_matcher.dfy`: class `ApkMatcher`. Its fields are `const` because the Java fields are
  `final`. Construction is a static method that returns a `Result`. The nested `for` loop of
  `getMatchingApksFromVariant` is a method proved equal to the function `SelectApks`.
- `apk_matcher_properties.dfy`: the lemmas about selection, filtering and conflicts.

Modelling choices:

- Thrown exceptions become `Failure` values of `MatchError`, one per cause:
  - `EmptyAllowedSplitModules` is the `checkArgument` failure;
  - `MultipleVariantsMatched` is the `Iterables.getOnlyElement` failure;
  - `NonSplitApkWithModuleRestriction` is the `CommandExecutionException`.
- `hasSplitApkMetadata()` becomes the boolean field `ApkDescription.isSplit`.
- `apkSet.getModuleMetadata().getName()` becomes `ApkSet.moduleName`.
- Paths are strings; `ZipPath.create` is the identity.
- `SelectApks` reads the APKs from the last one backwards, so that each loop step appends
  one APK. A failure stays a failure (`SelectApksFailurePersists`). This matches the Java
  code, where the first conflict throws and the walk stops.

## Model

All source paths are in `src/main/java/com/android/tools/build/bundletool/device/`, written out in full below.

| member | source | states |
|---|---|---|
| ApkMatching.ApkMatcher.Create | src/main/java/com/android/tools/build/bundletool/device/ApkMatcher.java:49-58 | construction fails, with `EmptyAllowedSplitModules`, if and only if the allow-list is present and empty; otherwise the new matcher holds that allow-list and the four matchers built from the device |
| ApkMatching.ApkMatcher.CreateUnrestricted | src/main/java/com/android/tools/build/bundletool/device/ApkMatcher.java:45-47 | the one-argument constructor always succeeds and has no module restriction |
| ApkMatching.ApkMatcher.Init | src/main/java/com/android/tools/build/bundletool/device/ApkMatcher.java:53-57 | once the guard has passed, each field is the factory's matcher for the device, and the allow-list is the one given |
| ApkMatching.ApkMatcher.MatchesVariantTargeting | src/main/java/com/android/tools/build/bundletool/device/ApkMatcher.java:129-135 | a variant targeting matches if and only if every one of the SDK, ABI and density variant predicates accepts it |
| ApkMatching.ApkMatcher.MatchesApkTargeting | src/main/java/com/android/tools/build/bundletool/device/ApkMatcher.java:137-144 | an APK targeting matches if and only if every one of the SDK, ABI, density and language APK predicates accepts it |
| ApkMatching.ApkMatcher.MatchesApk | src/main/java/com/android/tools/build/bundletool/device/ApkMatcher.java:112-127 | fails if and only if the APK is non-split, its targeting matches and an allow-list is present; returns true if and only if the targeting matches and either the split APK's module is allowed or the non-split APK has no restriction; returns false if and only if the targeting does not match or a split APK's module is not allowed |
| ApkMatching.ApkMatcher.SelectApks | src/main/java/com/android/tools/build/bundletool/device/ApkMatcher.java:88-105 | the traversal fails only with the non-split conflict and only when an allow-list is present; when it succeeds it yields at most one path per APK visited |
| ApkMatching.ApkMatcher.SelectApksFailurePersists | src/main/java/com/android/tools/build/bundletool/device/ApkMatcher.java:98-100 | once an APK has raised the conflict, the APKs visited after it do not change the outcome |
| ApkMatching.ApkMatcher.GetMatchingApksFromVariant | src/main/java/com/android/tools/build/bundletool/device/ApkMatcher.java:88-105 | the nested loop over APK sets and APKs returns exactly what the traversal `SelectApks` of the variant's entries returns, error included |
| ApkMatching.ApkMatcher.GetMatchingVariant | src/main/java/com/android/tools/build/bundletool/device/ApkMatcher.java:74-86 | it fails only with `MultipleVariantsMatched`; a variant it returns is one of the build result's variants and matches the device |
| ApkMatching.ApkMatcher.GetMatchingApks | src/main/java/com/android/tools/build/bundletool/device/ApkMatcher.java:66-72 | it fails only with an ambiguous variant match, or with the non-split conflict while an allow-list is present |
| Sequences.FilterIsKeptIndices | src/main/java/com/android/tools/build/bundletool/device/ApkMatcher.java:75-80 | the filter's output lists the elements at the kept positions; the kept positions are strictly increasing; a position is kept if and only if its element satisfies the predicate |
| Sequences.FilterEmptyIff | src/main/java/com/android/tools/build/bundletool/device/ApkMatcher.java:83-84 | the filter is empty if and only if no element satisfies the predicate |
| Sequences.FilterAtLeastTwoIff | src/main/java/com/android/tools/build/bundletool/device/ApkMatcher.java:82-85 | the filter keeps two or more elements if and only if two distinct positions satisfy the predicate |
| Sequences.FilterSingletonIff | src/main/java/com/android/tools/build/bundletool/device/ApkMatcher.java:85 | the filter keeps exactly position `i` if and only if `i` is the only satisfying position; the single result is then the element at `i` |
| BuildApks.EntriesCount | src/main/java/com/android/tools/build/bundletool/device/ApkMatcher.java:91-94 | the traversal has as many entries as the variant has APKs |
| BuildApks.EntriesAt | src/main/java/com/android/tools/build/bundletool/device/ApkMatcher.java:91-94 | APK `j` of APK set `i` is visited at position (number of APKs in the sets before `i`) + `j`, paired with the name of the module that owns it |
| ApkMatcherProperties.NoVariantSelectedIff | src/main/java/com/android/tools/build/bundletool/device/ApkMatcher.java:75-84 | variant selection returns "no variant", without error, if and only if no variant matches |
| ApkMatcherProperties.AmbiguousVariantsIff | src/main/java/com/android/tools/build/bundletool/device/ApkMatcher.java:82-85 | variant selection fails if and only if two different variants match |
| ApkMatcherProperties.UniqueVariantSelectedIff | src/main/java/com/android/tools/build/bundletool/device/ApkMatcher.java:83-85 | variant `i` is returned if and only if it matches and no other variant does |
| ApkMatcherProperties.SelectApksSucceedsIff | src/main/java/com/android/tools/build/bundletool/device/ApkMatcher.java:94-100 | the traversal succeeds if and only if no visited APK is non-split with matching targeting while an allow-list is present |
| ApkMatcherProperties.SelectApksIsFilter | src/main/java/com/android/tools/build/bundletool/device/ApkMatcher.java:94-104 | on success the traversal yields the paths of exactly the delivered APKs, in traversal order |
| ApkMatcherProperties.SelectApksIsOrderedSelection | src/main/java/com/android/tools/build/bundletool/device/ApkMatcher.java:88-105 | on success the result is a subsequence of the variant's APK paths: it is taken at strictly increasing positions, and a position is among them if and only if its APK is delivered |
| ApkMatcherProperties.MatchingApksFromVariantBounded | src/main/java/com/android/tools/build/bundletool/device/ApkMatcher.java:88-105 | a variant's result is no longer than its number of APKs |
| ApkMatcherProperties.UnrestrictedDeliversMatchingTargeting | src/main/java/com/android/tools/build/bundletool/device/ApkMatcher.java:115-125 | with no allow-list the traversal never fails, and an APK is delivered if and only if its targeting matches |
| ApkMatcherProperties.ModuleNameIrrelevantWithoutRestriction | src/main/java/com/android/tools/build/bundletool/device/ApkMatcher.java:116-118 | with no allow-list, the module name never changes the decision, which is then the targeting match |
| ApkMatcherProperties.NonMatchingNonSplitIsFalse | src/main/java/com/android/tools/build/bundletool/device/ApkMatcher.java:119-125 | a non-split APK whose targeting does not match is not delivered and raises no conflict, even with an allow-list |
| ApkMatcherProperties.OneDimensionRejects | src/main/java/com/android/tools/build/bundletool/device/ApkMatcher.java:137-144 | if any one of the four APK predicates rejects the targeting, the APK is not delivered |
| ApkMatcherProperties.NoVariantNoApks | src/main/java/com/android/tools/build/bundletool/device/ApkMatcher.java:66-72 | a device that no variant matches gets the empty list, without error |
| ApkMatcherProperties.AmbiguousVariantsFail | src/main/java/com/android/tools/build/bundletool/device/ApkMatcher.java:74-85 | two matching variants make the whole resolution fail with `MultipleVariantsMatched` |
| ApkMatcherProperties.UniqueVariantUsed | src/main/java/com/android/tools/build/bundletool/device/ApkMatcher.java:66-85 | with exactly one matching variant, the resolution is that variant's traversal |
| ApkMatcherProperties.ConflictPropagates | src/main/java/com/android/tools/build/bundletool/device/ApkMatcher.java:98-123 | a matching non-split APK in the chosen variant, with an allow-list present, makes the whole resolution fail with the conflict |
| ApkMatcherProperties.GetMatchingApksSuccess | src/main/java/com/android/tools/build/bundletool/device/ApkMatcher.java:66-105 | a successful resolution is either empty because no variant matches, or the delivered paths of the unique matching variant, in order |
| ApkMatcherProperties.ModuleFilterExample | src/main/java/com/android/tools/build/bundletool/device/ApkMatcher.java:115-118 | with allow-list {"base", "feature_x"}, a matching split APK of "feature_x" is delivered and one of "feature_y" is not; with no allow-list both are |
| ApkMatcherProperties.TwoVariantScenario | src/main/java/com/android/tools/build/bundletool/device/ApkMatcher.java:66-105 | with two variants of which only the first matches, its one split APK of module "base" is returned exactly when its targeting matches and "base" is allowed; otherwise the result is empty, not an error |

## Left out

- The internals of `SdkVersionMatcher`, `AbiMatcher`, `ScreenDensityMatcher` and
  `LanguageMatcher` are not part of this model. Each matcher is only its predicates, so every
  property holds for any choice of them.
- The protobuf messages are plain datatypes. Parsing and serialisation are not modelled.
- `ZipPath.create` is not part of this model: a path is kept as the string it was given,
  without normalisation.
- Exception classes, the Guava builders and the exception messages are not modelled. Each
  error is a distinct `MatchError` value.
- The Java code can be called concurrently. Here the matcher's fields are immutable
  constants and every query is a function, so the same inputs always give the same output.
  That determinism is not stated as a separate lemma.
