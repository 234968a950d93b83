/** The build result the engine reads: variants, each holding one APK set per module. */
module BuildApks {
  import opened Targeting

  type Path = string

  /** One APK: its fine targeting, whether it is a split APK (it carries split metadata)
      or a non-split one, and its location. */
  datatype ApkDescription = ApkDescription(targeting: ApkTargeting, isSplit: bool, path: Path)

  /** The APKs of one module, in declared order. */
  datatype ApkSet = ApkSet(moduleName: string, apkDescriptions: seq<ApkDescription>)

  datatype Variant = Variant(targeting: VariantTargeting, apkSets: seq<ApkSet>)

  datatype BuildApksResult = BuildApksResult(variants: seq<Variant>)

  /** One APK seen during the traversal, together with the module that owns it. */
  datatype ApkEntry = ApkEntry(moduleName: string, apk: ApkDescription)

  /** The APKs of one module paired with its name, in declared order. */
  function SetEntries(moduleName: string, apks: seq<ApkDescription>): (r: seq<ApkEntry>)
    ensures |r| == |apks|
    ensures forall k :: 0 <= k < |r| ==> r[k].moduleName == moduleName && r[k].apk == apks[k]
  {
    seq(|apks|, k requires 0 <= k < |apks| => ApkEntry(moduleName, apks[k]))
  }

  /** Every APK of the given sets, modules in declared order and then APKs in declared order. */
  function Entries(apkSets: seq<ApkSet>): seq<ApkEntry>
  {
    if apkSets == [] then []
    else
      var last := apkSets[|apkSets| - 1];
      Entries(apkSets[..|apkSets| - 1]) + SetEntries(last.moduleName, last.apkDescriptions)
  }

  /** The number of APKs in a variant. */
  function ApkCount(apkSets: seq<ApkSet>): nat
  {
    if apkSets == [] then 0
    else ApkCount(apkSets[..|apkSets| - 1]) + |apkSets[|apkSets| - 1].apkDescriptions|
  }

  /** The locations of the given APKs, in order. */
  function Paths(es: seq<ApkEntry>): (r: seq<Path>)
    ensures |r| == |es|
    ensures forall k :: 0 <= k < |es| ==> r[k] == es[k].apk.path
  {
    seq(|es|, k requires 0 <= k < |es| => es[k].apk.path)
  }

  /** The traversal has as many entries as the variant has APKs. */
  lemma {:induction false} EntriesCount(apkSets: seq<ApkSet>)
    ensures |Entries(apkSets)| == ApkCount(apkSets)
  {
    if apkSets != [] {
      EntriesCount(apkSets[..|apkSets| - 1]);
    }
  }

  /** APK `j` of set `i` is visited at position `ApkCount(apkSets[..i]) + j`, together with
      the name of the module that owns it: modules in declared order, then APKs in declared order. */
  lemma {:induction false} EntriesAt(apkSets: seq<ApkSet>, i: nat, j: nat)
    requires i < |apkSets| && j < |apkSets[i].apkDescriptions|
    ensures ApkCount(apkSets[..i]) + j < |Entries(apkSets)|
    ensures Entries(apkSets)[ApkCount(apkSets[..i]) + j]
      == ApkEntry(apkSets[i].moduleName, apkSets[i].apkDescriptions[j])
  {
    var n := |apkSets| - 1;
    var init := apkSets[..n];
    EntriesCount(init);
    if i == n {
      assert apkSets[..i] == init;
    } else {
      assert init[..i] == apkSets[..i];
      EntriesAt(init, i, j);
    }
  }

  /** Flattening distributes over concatenation of APK-set lists. */
  lemma {:induction false} EntriesAppend(a: seq<ApkSet>, b: seq<ApkSet>)
    ensures Entries(a + b) == Entries(a) + Entries(b)
  {
    if b != [] {
      var n := |b| - 1;
      assert (a + b)[..|a + b| - 1] == a + b[..n];
      EntriesAppend(a, b[..n]);
    } else {
      assert a + b == a;
    }
  }

  /** Extending the list of APK sets by one extends the traversal by that set's APKs. */
  lemma EntriesStep(apkSets: seq<ApkSet>, i: nat)
    requires i < |apkSets|
    ensures Entries(apkSets[..i + 1])
      == Entries(apkSets[..i]) + SetEntries(apkSets[i].moduleName, apkSets[i].apkDescriptions)
  {
    assert apkSets[..i + 1][..i] == apkSets[..i];
  }

  /** An APK set's entries split at any position into the part before and the part after. */
  lemma SetEntriesSplit(moduleName: string, apks: seq<ApkDescription>, j: nat)
    requires j <= |apks|
    ensures SetEntries(moduleName, apks) == SetEntries(moduleName, apks[..j]) + SetEntries(moduleName, apks[j..])
  {
  }

  /** The traversal of all APK sets, cut after set `i`. */
  lemma EntriesSplitAfter(apkSets: seq<ApkSet>, i: nat)
    requires i < |apkSets|
    ensures Entries(apkSets) == Entries(apkSets[..i + 1]) + Entries(apkSets[i + 1..])
  {
    assert apkSets == apkSets[..i + 1] + apkSets[i + 1..];
    EntriesAppend(apkSets[..i + 1], apkSets[i + 1..]);
  }

  lemma Reassociate<T>(a: seq<T>, b: seq<T>, c: seq<T>, d: seq<T>)
    ensures (a + (b + c)) + d == (a + b) + (c + d)
  {
  }

  /** The traversal of all APK sets, cut at APK `j` of set `i`. */
  lemma EntriesAround(apkSets: seq<ApkSet>, i: nat, j: nat)
    requires i < |apkSets| && j <= |apkSets[i].apkDescriptions|
    ensures var name, apks := apkSets[i].moduleName, apkSets[i].apkDescriptions;
      Entries(apkSets)
      == (Entries(apkSets[..i]) + SetEntries(name, apks[..j]))
       + (SetEntries(name, apks[j..]) + Entries(apkSets[i + 1..]))
  {
    var name, apks := apkSets[i].moduleName, apkSets[i].apkDescriptions;
    EntriesSplitAfter(apkSets, i);
    EntriesStep(apkSets, i);
    SetEntriesSplit(name, apks, j);
    Reassociate(Entries(apkSets[..i]), SetEntries(name, apks[..j]), SetEntries(name, apks[j..]),
                Entries(apkSets[i + 1..]));
  }
}
