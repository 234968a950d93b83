/** The targeting resolution engine: which APKs of a build result a device should get. */
module ApkMatching {
  import opened Wrappers
  import opened Targeting
  import opened BuildApks
  import opened Sequences

  /** The three ways the engine refuses to answer. */
  datatype MatchError =
    | EmptyAllowedSplitModules          // an allow-list was given but it is empty
    | MultipleVariantsMatched           // more than one variant matches the device
    | NonSplitApkWithModuleRestriction  // a non-split APK matches while modules are restricted

  /** The construction guard: an allow-list, when present, must not be empty. */
  predicate AllowedSplitModulesAccepted(allowedSplitModules: Option<set<string>>)
  {
    allowedSplitModules.None? || allowedSplitModules.value != {}
  }

  class ApkMatcher {
    const sdkVersionMatcher: DimensionMatcher
    const abiMatcher: DimensionMatcher
    const screenDensityMatcher: DimensionMatcher
    const languageMatcher: LanguageMatcher
    const allowedSplitModules: Option<set<string>>

    /** Builds the matchers for the device once the allow-list has passed the guard. */
    constructor Init(deviceSpec: DeviceSpec, factory: MatcherFactory,
                     allowedSplitModules: Option<set<string>>)
      requires AllowedSplitModulesAccepted(allowedSplitModules)
      ensures sdkVersionMatcher == factory.sdkVersion(deviceSpec)
      ensures abiMatcher == factory.abi(deviceSpec)
      ensures screenDensityMatcher == factory.screenDensity(deviceSpec)
      ensures languageMatcher == factory.language(deviceSpec)
      ensures this.allowedSplitModules == allowedSplitModules
    {
      sdkVersionMatcher := factory.sdkVersion(deviceSpec);
      abiMatcher := factory.abi(deviceSpec);
      screenDensityMatcher := factory.screenDensity(deviceSpec);
      languageMatcher := factory.language(deviceSpec);
      this.allowedSplitModules := allowedSplitModules;
    }

    /** The two-argument constructor: fails exactly when the allow-list is present and empty. */
    static method Create(deviceSpec: DeviceSpec, factory: MatcherFactory,
                         allowedSplitModules: Option<set<string>>)
      returns (r: Result<ApkMatcher, MatchError>)
      ensures r.Failure? <==> allowedSplitModules.Some? && allowedSplitModules.value == {}
      ensures r.Failure? ==> r.error == EmptyAllowedSplitModules
      ensures r.Success? ==> fresh(r.value)
      ensures r.Success? ==> r.value.allowedSplitModules == allowedSplitModules
      ensures r.Success? ==> r.value.sdkVersionMatcher == factory.sdkVersion(deviceSpec)
      ensures r.Success? ==> r.value.abiMatcher == factory.abi(deviceSpec)
      ensures r.Success? ==> r.value.screenDensityMatcher == factory.screenDensity(deviceSpec)
      ensures r.Success? ==> r.value.languageMatcher == factory.language(deviceSpec)
    {
      if !AllowedSplitModulesAccepted(allowedSplitModules) {
        return Failure(EmptyAllowedSplitModules);
      }
      var m := new ApkMatcher.Init(deviceSpec, factory, allowedSplitModules);
      r := Success(m);
    }

    /** The one-argument constructor: no module restriction, so it never fails. */
    static method CreateUnrestricted(deviceSpec: DeviceSpec, factory: MatcherFactory)
      returns (m: ApkMatcher)
      ensures fresh(m) && m.allowedSplitModules == None
      ensures m.sdkVersionMatcher == factory.sdkVersion(deviceSpec)
      ensures m.abiMatcher == factory.abi(deviceSpec)
      ensures m.screenDensityMatcher == factory.screenDensity(deviceSpec)
      ensures m.languageMatcher == factory.language(deviceSpec)
    {
      var r := Create(deviceSpec, factory, None);
      m := r.value;
    }

    /** The variant-level predicates of the dimensions that distinguish variants. */
    function VariantPredicates(): seq<VariantTargeting -> bool>
    {
      [sdkVersionMatcher.variantTargetingPredicate,
       abiMatcher.variantTargetingPredicate,
       screenDensityMatcher.variantTargetingPredicate]
    }

    /** The APK-level predicates of all four dimensions. */
    function ApkPredicates(): seq<ApkTargeting -> bool>
    {
      [sdkVersionMatcher.apkTargetingPredicate,
       abiMatcher.apkTargetingPredicate,
       screenDensityMatcher.apkTargetingPredicate,
       languageMatcher.apkTargetingPredicate]
    }

    /** A variant's targeting matches when every variant-level predicate accepts it. */
    predicate MatchesVariantTargeting(variantTargeting: VariantTargeting)
      ensures MatchesVariantTargeting(variantTargeting) <==>
        forall k :: 0 <= k < |VariantPredicates()| ==> VariantPredicates()[k](variantTargeting)
    {
      assert VariantPredicates()[0] == sdkVersionMatcher.variantTargetingPredicate;
      assert VariantPredicates()[1] == abiMatcher.variantTargetingPredicate;
      assert VariantPredicates()[2] == screenDensityMatcher.variantTargetingPredicate;
      sdkVersionMatcher.variantTargetingPredicate(variantTargeting)
      && abiMatcher.variantTargetingPredicate(variantTargeting)
      && screenDensityMatcher.variantTargetingPredicate(variantTargeting)
    }

    /** An APK's targeting matches when every APK-level predicate accepts it. */
    predicate MatchesApkTargeting(apkTargeting: ApkTargeting)
      ensures MatchesApkTargeting(apkTargeting) <==>
        forall k :: 0 <= k < |ApkPredicates()| ==> ApkPredicates()[k](apkTargeting)
    {
      assert ApkPredicates()[0] == sdkVersionMatcher.apkTargetingPredicate;
      assert ApkPredicates()[1] == abiMatcher.apkTargetingPredicate;
      assert ApkPredicates()[2] == screenDensityMatcher.apkTargetingPredicate;
      assert ApkPredicates()[3] == languageMatcher.apkTargetingPredicate;
      sdkVersionMatcher.apkTargetingPredicate(apkTargeting)
      && abiMatcher.apkTargetingPredicate(apkTargeting)
      && screenDensityMatcher.apkTargetingPredicate(apkTargeting)
      && languageMatcher.apkTargetingPredicate(apkTargeting)
    }

    /** The module filter: without a restriction every module is allowed. */
    predicate SplitModuleAllowed(moduleName: string)
    {
      allowedSplitModules.None? || moduleName in allowedSplitModules.value
    }

    /** Whether one APK is to be delivered; a non-split APK that matches while modules are
        restricted is refused as a conflict rather than answered. */
    function MatchesApk(apkTargeting: ApkTargeting, isSplit: bool, moduleName: string)
      : (r: Result<bool, MatchError>)
      ensures r.Failure? <==> !isSplit && MatchesApkTargeting(apkTargeting) && allowedSplitModules.Some?
      ensures r.Failure? ==> r.error == NonSplitApkWithModuleRestriction
      ensures r == Success(true) <==>
        && MatchesApkTargeting(apkTargeting)
        && (if isSplit then SplitModuleAllowed(moduleName) else allowedSplitModules.None?)
      ensures r == Success(false) <==>
        !MatchesApkTargeting(apkTargeting) || (isSplit && !SplitModuleAllowed(moduleName))
    {
      var matchesTargeting := MatchesApkTargeting(apkTargeting);
      if isSplit then
        Success(matchesTargeting && SplitModuleAllowed(moduleName))
      else if matchesTargeting && allowedSplitModules.Some? then
        Failure(NonSplitApkWithModuleRestriction)
      else
        Success(matchesTargeting)
    }

    /** Whether the traversal delivers this APK. */
    predicate Delivers(e: ApkEntry)
    {
      MatchesApk(e.apk.targeting, e.apk.isSplit, e.moduleName) == Success(true)
    }

    /** The traversal of APKs in order, keeping the delivered ones and stopping at the first
        conflict. */
    function SelectApks(es: seq<ApkEntry>): (r: Result<seq<Path>, MatchError>)
      ensures r.Failure? ==> r.error == NonSplitApkWithModuleRestriction && allowedSplitModules.Some?
      ensures r.Success? ==> |r.value| <= |es|
    {
      if es == [] then Success([])
      else
        var last := es[|es| - 1];
        match SelectApks(es[..|es| - 1])
        case Failure(e) => Failure(e)
        case Success(acc) =>
          match MatchesApk(last.apk.targeting, last.apk.isSplit, last.moduleName)
          case Failure(e) => Failure(e)
          case Success(b) => Success(if b then acc + [last.apk.path] else acc)
    }

    /** What the traversal of a variant yields. */
    function MatchingApksFromVariant(variant: Variant): Result<seq<Path>, MatchError>
    {
      SelectApks(Entries(variant.apkSets))
    }

    /** Once the traversal has hit a conflict, looking at more APKs does not change that. */
    lemma {:induction false} SelectApksFailurePersists(es: seq<ApkEntry>, rest: seq<ApkEntry>)
      requires SelectApks(es).Failure?
      ensures SelectApks(es + rest) == SelectApks(es)
    {
      if rest != [] {
        var n := |rest| - 1;
        assert (es + rest)[..|es + rest| - 1] == es + rest[..n];
        SelectApksFailurePersists(es, rest[..n]);
      } else {
        assert es + rest == es;
      }
    }

    /** Looking at one more APK after a conflict-free prefix. */
    lemma SelectApksStep(es: seq<ApkEntry>, e: ApkEntry, acc: seq<Path>)
      requires SelectApks(es) == Success(acc)
      ensures MatchesApk(e.apk.targeting, e.apk.isSplit, e.moduleName).Failure? ==>
        SelectApks(es + [e]).Failure?
      ensures MatchesApk(e.apk.targeting, e.apk.isSplit, e.moduleName) == Success(true) ==>
        SelectApks(es + [e]) == Success(acc + [e.apk.path])
      ensures MatchesApk(e.apk.targeting, e.apk.isSplit, e.moduleName) == Success(false) ==>
        SelectApks(es + [e]) == Success(acc)
    {
      assert (es + [e])[..|es + [e]| - 1] == es;
    }

    /** One step of the inner loop: the traversal so far, extended by APK `j` of the module. */
    lemma InnerLoopStep(done: seq<ApkEntry>, moduleName: string, apks: seq<ApkDescription>,
                        j: nat, acc: seq<Path>)
      requires j < |apks|
      requires SelectApks(done + SetEntries(moduleName, apks[..j])) == Success(acc)
      ensures var next := SelectApks(done + SetEntries(moduleName, apks[..j + 1]));
        match MatchesApk(apks[j].targeting, apks[j].isSplit, moduleName)
        case Failure(_) => next.Failure?
        case Success(b) => next == Success(if b then acc + [apks[j].path] else acc)
    {
      var before := done + SetEntries(moduleName, apks[..j]);
      var entry := ApkEntry(moduleName, apks[j]);
      assert done + SetEntries(moduleName, apks[..j + 1]) == before + [entry];
      SelectApksStep(before, entry, acc);
    }

    /** A conflict at APK `j` of module `i` is the outcome of the whole variant. */
    lemma ConflictAbortsTraversal(apkSets: seq<ApkSet>, i: nat, j: nat)
      requires i < |apkSets| && j < |apkSets[i].apkDescriptions|
      requires SelectApks(Entries(apkSets[..i])
                 + SetEntries(apkSets[i].moduleName, apkSets[i].apkDescriptions[..j + 1])).Failure?
      ensures SelectApks(Entries(apkSets)) == SelectApks(Entries(apkSets[..i])
                 + SetEntries(apkSets[i].moduleName, apkSets[i].apkDescriptions[..j + 1]))
    {
      var name, apks := apkSets[i].moduleName, apkSets[i].apkDescriptions;
      var done := Entries(apkSets[..i]);
      var head, tail := SetEntries(name, apks[..j + 1]), SetEntries(name, apks[j + 1..]);
      var later := Entries(apkSets[i + 1..]);
      EntriesAround(apkSets, i, j + 1);
      SelectApksFailurePersists(done + head, tail + later);
    }

    /** Walks every module's APK set in declared order and collects the paths of the APKs to
        deliver; a conflict on any APK aborts the walk. */
    method GetMatchingApksFromVariant(variant: Variant) returns (r: Result<seq<Path>, MatchError>)
      ensures r == MatchingApksFromVariant(variant)
    {
      var apkSets := variant.apkSets;
      var matchedApks: seq<Path> := [];
      for i := 0 to |apkSets|
        invariant SelectApks(Entries(apkSets[..i])) == Success(matchedApks)
      {
        var apkSet := apkSets[i];
        var moduleName := apkSet.moduleName;
        var apks := apkSet.apkDescriptions;
        ghost var done := Entries(apkSets[..i]);
        assert done + SetEntries(moduleName, apks[..0]) == done;
        for j := 0 to |apks|
          invariant SelectApks(done + SetEntries(moduleName, apks[..j])) == Success(matchedApks)
        {
          var apkDescription := apks[j];
          InnerLoopStep(done, moduleName, apks, j, matchedApks);
          var matches := MatchesApk(apkDescription.targeting, apkDescription.isSplit, moduleName);
          if matches.Failure? {
            ConflictAbortsTraversal(apkSets, i, j);
            return Failure(matches.error);
          }
          if matches.value {
            matchedApks := matchedApks + [apkDescription.path];
          }
        }
        EntriesStep(apkSets, i);
        assert apks[..|apks|] == apks;
      }
      assert apkSets[..|apkSets|] == apkSets;
      r := Success(matchedApks);
    }

    /** Whether a variant's targeting matches the device. */
    predicate VariantSelected(variant: Variant)
    {
      MatchesVariantTargeting(variant.targeting)
    }

    /** The only variant that matches, none, or a refusal when several match. */
    function GetMatchingVariant(buildApksResult: BuildApksResult)
      : (r: Result<Option<Variant>, MatchError>)
      ensures r.Failure? ==> r.error == MultipleVariantsMatched
      ensures r.Success? && r.value.Some? ==>
        r.value.value in buildApksResult.variants && VariantSelected(r.value.value)
    {
      var matchingVariants := Filter(buildApksResult.variants, VariantSelected);
      if |matchingVariants| == 0 then Success(None)
      else if |matchingVariants| == 1 then
        FilterIsKeptIndices(buildApksResult.variants, VariantSelected);
        Success(Some(matchingVariants[0]))
      else Failure(MultipleVariantsMatched)
    }

    /** All APKs to install on the device: those of the matching variant, or none. */
    function GetMatchingApks(buildApksResult: BuildApksResult): (r: Result<seq<Path>, MatchError>)
      ensures r.Failure? ==>
        (r.error == MultipleVariantsMatched
         || (r.error == NonSplitApkWithModuleRestriction && allowedSplitModules.Some?))
    {
      match GetMatchingVariant(buildApksResult)
      case Failure(e) => Failure(e)
      case Success(None) => Success([])
      case Success(Some(variant)) => MatchingApksFromVariant(variant)
    }
  }
}
