/** What the engine promises about variant selection, APK selection and the conflict rule. */
module ApkMatcherProperties {
  import opened Wrappers
  import opened Targeting
  import opened BuildApks
  import opened Sequences
  import opened ApkMatching

  // ---------------------------------------------------------------- variant selection

  /** No variant is chosen, and no error is raised, exactly when no variant matches. */
  lemma NoVariantSelectedIff(m: ApkMatcher, b: BuildApksResult)
    ensures m.GetMatchingVariant(b) == Success(None) <==>
      forall i :: 0 <= i < |b.variants| ==> !m.VariantSelected(b.variants[i])
  {
    FilterEmptyIff(b.variants, m.VariantSelected);
  }

  /** Selection fails exactly when two different variants match. */
  lemma AmbiguousVariantsIff(m: ApkMatcher, b: BuildApksResult)
    ensures m.GetMatchingVariant(b).Failure? <==>
      exists i, j :: 0 <= i < j < |b.variants|
        && m.VariantSelected(b.variants[i]) && m.VariantSelected(b.variants[j])
  {
    FilterAtLeastTwoIff(b.variants, m.VariantSelected);
  }

  /** The variant at position `i` is chosen exactly when it is the only one that matches. */
  lemma UniqueVariantSelectedIff(m: ApkMatcher, b: BuildApksResult, i: int)
    requires 0 <= i < |b.variants|
    ensures m.GetMatchingVariant(b) == Success(Some(b.variants[i])) <==>
      && m.VariantSelected(b.variants[i])
      && forall j :: 0 <= j < |b.variants| && j != i ==> !m.VariantSelected(b.variants[j])
  {
    var vs, p := b.variants, m.VariantSelected;
    FilterSingletonIff(vs, p, i);
    FilterIsKeptIndices(vs, p);
    if m.GetMatchingVariant(b) == Success(Some(vs[i])) {
      var idx := KeptIndices(vs, p);
      assert Filter(vs, p)[0] == vs[i];
      assert i in idx;
    }
  }

  // ---------------------------------------------------------------- APK selection

  /** The traversal succeeds exactly when no APK it visits is in conflict. */
  lemma {:induction false} SelectApksSucceedsIff(m: ApkMatcher, es: seq<ApkEntry>)
    ensures m.SelectApks(es).Success? <==> forall i :: 0 <= i < |es| ==>
      !(!es[i].apk.isSplit && m.MatchesApkTargeting(es[i].apk.targeting)
        && m.allowedSplitModules.Some?)
  {
    if es != [] {
      var init := es[..|es| - 1];
      SelectApksSucceedsIff(m, init);
      assert forall i :: 0 <= i < |init| ==> init[i] == es[i];
    }
  }

  /** On success the traversal yields the paths of the delivered APKs, in traversal order. */
  lemma {:induction false} SelectApksIsFilter(m: ApkMatcher, es: seq<ApkEntry>)
    requires m.SelectApks(es).Success?
    ensures m.SelectApks(es).value == Paths(Filter(es, m.Delivers))
  {
    if es != [] {
      SelectApksIsFilter(m, es[..|es| - 1]);
    }
  }

  /** On success the result is the ordered selection of the positions whose APK is delivered:
      each path comes from a delivered APK, positions increase, and no delivered APK is missed. */
  lemma SelectApksIsOrderedSelection(m: ApkMatcher, es: seq<ApkEntry>)
    requires m.SelectApks(es).Success?
    ensures var r, idx := m.SelectApks(es).value, KeptIndices(es, m.Delivers);
      && |r| == |idx|
      && StrictlyIncreasing(idx)
      && (forall k :: 0 <= k < |r| ==> idx[k] < |es| && r[k] == es[idx[k]].apk.path)
      && (forall i :: 0 <= i < |es| ==> (m.Delivers(es[i]) <==> i in idx))
  {
    SelectApksIsFilter(m, es);
    FilterIsKeptIndices(es, m.Delivers);
  }

  /** A variant never yields more paths than it has APKs. */
  lemma MatchingApksFromVariantBounded(m: ApkMatcher, v: Variant)
    requires m.MatchingApksFromVariant(v).Success?
    ensures |m.MatchingApksFromVariant(v).value| <= ApkCount(v.apkSets)
  {
    EntriesCount(v.apkSets);
  }

  /** Without a module restriction the traversal never fails and delivers exactly the APKs
      whose targeting matches, whatever module they belong to. */
  lemma UnrestrictedDeliversMatchingTargeting(m: ApkMatcher, es: seq<ApkEntry>)
    requires m.allowedSplitModules.None?
    ensures m.SelectApks(es).Success?
    ensures forall i :: 0 <= i < |es| ==>
      (m.Delivers(es[i]) <==> m.MatchesApkTargeting(es[i].apk.targeting))
  {
    SelectApksSucceedsIff(m, es);
  }

  // ---------------------------------------------------------------- single APK decisions

  /** With no module restriction the module name never changes the decision. */
  lemma ModuleNameIrrelevantWithoutRestriction(m: ApkMatcher, t: ApkTargeting, isSplit: bool,
                                               name1: string, name2: string)
    requires m.allowedSplitModules.None?
    ensures m.MatchesApk(t, isSplit, name1) == m.MatchesApk(t, isSplit, name2)
    ensures m.MatchesApk(t, isSplit, name1) == Success(m.MatchesApkTargeting(t))
  {
  }

  /** A non-split APK whose targeting does not match is simply not delivered, whatever the
      module restriction. */
  lemma NonMatchingNonSplitIsFalse(m: ApkMatcher, t: ApkTargeting, name: string)
    requires !m.MatchesApkTargeting(t)
    ensures m.MatchesApk(t, false, name) == Success(false)
  {
  }

  /** Any single dimension rejecting an APK's targeting keeps the APK from being delivered. */
  lemma OneDimensionRejects(m: ApkMatcher, t: ApkTargeting, isSplit: bool, name: string, k: int)
    requires 0 <= k < |m.ApkPredicates()| && !m.ApkPredicates()[k](t)
    ensures m.MatchesApk(t, isSplit, name) == Success(false)
  {
  }

  // ---------------------------------------------------------------- the whole resolution

  /** A device outside every variant's range gets nothing, and no error. */
  lemma NoVariantNoApks(m: ApkMatcher, b: BuildApksResult)
    requires forall i :: 0 <= i < |b.variants| ==> !m.VariantSelected(b.variants[i])
    ensures m.GetMatchingApks(b) == Success([])
  {
    NoVariantSelectedIff(m, b);
  }

  /** Two matching variants make the whole resolution fail rather than pick one. */
  lemma AmbiguousVariantsFail(m: ApkMatcher, b: BuildApksResult, i: int, j: int)
    requires 0 <= i < j < |b.variants|
    requires m.VariantSelected(b.variants[i]) && m.VariantSelected(b.variants[j])
    ensures m.GetMatchingApks(b) == Failure(MultipleVariantsMatched)
  {
    AmbiguousVariantsIff(m, b);
  }

  /** With exactly one matching variant, the result is that variant's traversal. */
  lemma UniqueVariantUsed(m: ApkMatcher, b: BuildApksResult, i: int)
    requires 0 <= i < |b.variants| && m.VariantSelected(b.variants[i])
    requires forall j :: 0 <= j < |b.variants| && j != i ==> !m.VariantSelected(b.variants[j])
    ensures m.GetMatchingApks(b) == m.MatchingApksFromVariant(b.variants[i])
  {
    UniqueVariantSelectedIff(m, b, i);
  }

  /** A conflicting non-split APK in the chosen variant makes the whole resolution fail;
      the conflict is not turned into "not delivered". */
  lemma ConflictPropagates(m: ApkMatcher, b: BuildApksResult, i: int, k: int)
    requires 0 <= i < |b.variants| && m.VariantSelected(b.variants[i])
    requires forall j :: 0 <= j < |b.variants| && j != i ==> !m.VariantSelected(b.variants[j])
    requires m.allowedSplitModules.Some?
    requires 0 <= k < |Entries(b.variants[i].apkSets)|
    requires var e := Entries(b.variants[i].apkSets)[k];
      !e.apk.isSplit && m.MatchesApkTargeting(e.apk.targeting)
    ensures m.GetMatchingApks(b) == Failure(NonSplitApkWithModuleRestriction)
  {
    UniqueVariantUsed(m, b, i);
    SelectApksSucceedsIff(m, Entries(b.variants[i].apkSets));
  }

  /** A successful resolution is either the empty answer for a device no variant covers,
      or the delivered paths of the one matching variant, in traversal order. */
  lemma GetMatchingApksSuccess(m: ApkMatcher, b: BuildApksResult)
    requires m.GetMatchingApks(b).Success?
    ensures var r := m.GetMatchingApks(b).value;
      || ((forall i :: 0 <= i < |b.variants| ==> !m.VariantSelected(b.variants[i])) && r == [])
      || (exists i :: 0 <= i < |b.variants| && m.VariantSelected(b.variants[i])
           && (forall j :: 0 <= j < |b.variants| && j != i ==> !m.VariantSelected(b.variants[j]))
           && r == Paths(Filter(Entries(b.variants[i].apkSets), m.Delivers)))
  {
    NoVariantSelectedIff(m, b);
    var chosen := m.GetMatchingVariant(b);
    if chosen.Success? && chosen.value.Some? {
      var v := chosen.value.value;
      var i :| 0 <= i < |b.variants| && b.variants[i] == v;
      UniqueVariantSelectedIff(m, b, i);
      SelectApksIsFilter(m, Entries(v.apkSets));
    }
  }

  /** Module filter example: with allow-list {"base", "feature_x"} a matching split APK of
      "feature_x" is delivered and one of "feature_y" is not; with no allow-list both are. */
  lemma ModuleFilterExample(restricted: ApkMatcher, unrestricted: ApkMatcher, t: ApkTargeting)
    requires restricted.allowedSplitModules == Some({"base", "feature_x"})
    requires unrestricted.allowedSplitModules.None?
    requires restricted.MatchesApkTargeting(t) && unrestricted.MatchesApkTargeting(t)
    ensures restricted.MatchesApk(t, true, "feature_x") == Success(true)
    ensures restricted.MatchesApk(t, true, "feature_y") == Success(false)
    ensures unrestricted.MatchesApk(t, true, "feature_x") == Success(true)
    ensures unrestricted.MatchesApk(t, true, "feature_y") == Success(true)
  {
    assert "feature_y" != "base" && "feature_y" != "feature_x";
  }

  /** Two variants, only the first matches the device; its single split APK of module
      "base" is delivered exactly when its targeting matches and "base" is allowed, and
      otherwise the result is empty rather than an error. */
  lemma TwoVariantScenario(m: ApkMatcher, forNew: VariantTargeting, forOld: VariantTargeting,
                           t: ApkTargeting, path: Path)
    requires m.MatchesVariantTargeting(forNew) && !m.MatchesVariantTargeting(forOld)
    ensures var b := BuildApksResult([
        Variant(forNew, [ApkSet("base", [ApkDescription(t, true, path)])]),
        Variant(forOld, [])]);
      m.GetMatchingApks(b) ==
        if m.MatchesApkTargeting(t) && m.SplitModuleAllowed("base") then Success([path])
        else Success([])
  {
    var vA := Variant(forNew, [ApkSet("base", [ApkDescription(t, true, path)])]);
    var b := BuildApksResult([vA, Variant(forOld, [])]);
    UniqueVariantUsed(m, b, 0);
    var sets := vA.apkSets;
    assert sets[..0] == [];
    var e := ApkEntry("base", ApkDescription(t, true, path));
    assert Entries(sets) == [] + [e];
    assert [] + [e] == [e] && [] + [path] == [path];
    m.SelectApksStep([], e, []);
    assert m.MatchingApksFromVariant(vA) == m.SelectApks([e]);
    assert m.GetMatchingApks(b) == m.SelectApks([e]);
  }
}
