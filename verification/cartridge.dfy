/** `src/cartridge.ts`: a named cartridge holding bundles by name, with an
    optional filesystem path. */
module Cartridges {
  import opened Wrappers
  import opened Seqs
  import opened OrderedMaps
  import opened Bundles

  datatype Cartridge = Cartridge(name: string, path: Option<string>, bundles: OrderedMap<string, Bundle>)

  /** Every bundle is stored under its own name and is well formed */
  predicate WellFormed(c: Cartridge) {
    forall n | n in c.bundles.items :: c.bundles.items[n].name == n && Bundles.WellFormed(c.bundles.items[n])
  }

  /** `new Cartridge(name, path?)`: the path is set only when truthy */
  function NewCartridge(name: string, path: Option<string>): (c: Cartridge)
    ensures c.name == name && c.bundles.keys == []
    ensures c.path.Some? <==> Truthy(path)
    ensures c.path.Some? ==> c.path == path
  {
    Cartridge(name, if Truthy(path) then path else None, Empty())
  }

  /** `getBundles`: `Object.values(bundles)` */
  function GetBundles(c: Cartridge): (bs: seq<Bundle>)
    ensures |bs| == |c.bundles.keys|
    ensures forall i | 0 <= i < |bs| :: bs[i] == c.bundles.items[c.bundles.keys[i]]
  {
    Values(c.bundles)
  }

  /** `getBundle(name)` */
  function GetBundle(c: Cartridge, name: string): Option<Bundle> {
    Get(c.bundles, name)
  }

  /** `addBundle(bundle)`: stored under the bundle's own name, replacing any
      bundle of that name in place; nothing else changes. */
  function AddBundle(c: Cartridge, b: Bundle): (r: Cartridge)
    ensures r.name == c.name && r.path == c.path
    ensures GetBundle(r, b.name) == Some(b)
    ensures forall n | n != b.name :: GetBundle(r, n) == GetBundle(c, n)
    ensures b.name in c.bundles.items ==> r.bundles.keys == c.bundles.keys
    ensures b.name !in c.bundles.items ==> r.bundles.keys == c.bundles.keys + [b.name]
  {
    Cartridge(c.name, c.path, Put(c.bundles, b.name, b))
  }

  lemma AddBundleWellFormed(c: Cartridge, b: Bundle)
    requires WellFormed(c) && Bundles.WellFormed(b)
    ensures WellFormed(AddBundle(c, b))
  {
  }

  function AddBundles(c: Cartridge, bs: seq<Bundle>): Cartridge
    decreases |bs|
  {
    if bs == [] then c else AddBundles(AddBundle(c, bs[0]), bs[1..])
  }

  function BundleNameOf(b: Bundle): string {
    b.name
  }

  /** After a series of `addBundle` calls, `getBundle(name)` is the bundle
      last added under `name`, or what the cartridge held before. */
  lemma {:induction false} GetAfterAddBundles(c: Cartridge, bs: seq<Bundle>, name: string)
    ensures GetBundle(AddBundles(c, bs), name) ==
      if LastKeyed(bs, BundleNameOf, name).Some? then LastKeyed(bs, BundleNameOf, name) else GetBundle(c, name)
    decreases |bs|
  {
    if bs != [] {
      var n := |bs| - 1;
      AddBundlesSnoc(c, bs[..n], bs[n]);
      assert bs == bs[..n] + [bs[n]];
      GetAfterAddBundles(c, bs[..n], name);
    }
  }

  lemma {:induction false} AddBundlesSnoc(c: Cartridge, bs: seq<Bundle>, b: Bundle)
    ensures AddBundles(c, bs + [b]) == AddBundle(AddBundles(c, bs), b)
    decreases |bs|
  {
    if bs != [] {
      assert (bs + [b])[1..] == bs[1..] + [b];
      AddBundlesSnoc(AddBundle(c, bs[0]), bs[1..], b);
    }
  }

  // ---------------------------------------------------------------------
  // getSummary
  // ---------------------------------------------------------------------

  datatype CartridgeSummary = CartridgeSummary(bundleCount: nat, resourceCount: nat, locales: seq<string>)

  /** The sum of the bundles' entry counts */
  function TotalEntries(bs: seq<Bundle>): nat
    decreases |bs|
  {
    if bs == [] then 0 else EntryCount(bs[0]) + TotalEntries(bs[1..])
  }

  /** Every bundle's locale list, one after the other */
  function AllLocales(bs: seq<Bundle>): (ls: seq<string>)
    ensures forall l :: l in ls <==> exists i | 0 <= i < |bs| :: l in bs[i].locales
    decreases |bs|
  {
    if bs == [] then []
    else
      var rest := AllLocales(bs[1..]);
      assert forall l | l in rest :: exists i | 0 <= i < |bs| :: l in bs[i].locales by {
        forall l | l in rest ensures exists i | 0 <= i < |bs| :: l in bs[i].locales {
          var i :| 0 <= i < |bs[1..]| && l in bs[1..][i].locales;
          assert bs[i + 1] == bs[1..][i];
        }
      }
      assert forall i | 1 <= i < |bs| :: bs[i] == bs[1..][i - 1];
      bs[0].locales + rest
  }

  /** The `reduce` of `getSummary`, one bundle at a time */
  function SummaryFold(acc: CartridgeSummary, bs: seq<Bundle>): (s: CartridgeSummary)
    ensures s.bundleCount == acc.bundleCount + |bs|
    ensures s.resourceCount == acc.resourceCount + TotalEntries(bs)
    ensures s.locales == AddUnique(acc.locales, AllLocales(bs))
    decreases |bs|
  {
    if bs == [] then acc
    else
      var b := bs[0];
      AddUniqueConcat(acc.locales, b.locales, AllLocales(bs[1..]));
      SummaryFold(CartridgeSummary(acc.bundleCount + 1, acc.resourceCount + EntryCount(b),
                                   AddUnique(acc.locales, b.locales)), bs[1..])
  }

  /** `getSummary()`: the number of bundles, the total number of entries,
      and the union of the bundles' locales without duplicates, in
      first-seen order. */
  function Summary(c: Cartridge): (s: CartridgeSummary)
    ensures s.bundleCount == |c.bundles.items.Keys|
    ensures s.resourceCount == TotalEntries(GetBundles(c))
    ensures s.locales == Dedupe(AllLocales(GetBundles(c)))
  {
    SizeIsCardinality(c.bundles);
    SummaryFold(CartridgeSummary(0, 0, []), GetBundles(c))
  }

  /** The summary's locales are each listed once, and are exactly the
      locales of the cartridge's bundles. */
  lemma SummaryLocales(c: Cartridge)
    ensures Distinct(Summary(c).locales)
    ensures forall l :: l in Summary(c).locales <==>
      exists n | n in c.bundles.items :: l in c.bundles.items[n].locales
  {
    var bs := GetBundles(c);
    forall l
      ensures l in Summary(c).locales <==> exists n | n in c.bundles.items :: l in c.bundles.items[n].locales
    {
      if l in Summary(c).locales {
        var i :| 0 <= i < |bs| && l in bs[i].locales;
        assert c.bundles.keys[i] in c.bundles.items;
      }
      if exists n | n in c.bundles.items :: l in c.bundles.items[n].locales {
        var n :| n in c.bundles.items && l in c.bundles.items[n].locales;
        var i := FirstIndex(c.bundles.keys, n);
        assert bs[i] == c.bundles.items[n];
      }
    }
  }

  // ---------------------------------------------------------------------
  // save: delegation to each bundle, with the cartridge path
  // ---------------------------------------------------------------------

  predicate AllFullyTranslated(bs: seq<Bundle>) {
    forall i | 0 <= i < |bs| :: FullyTranslated(bs[i])
  }

  /** The number of locales over several bundles, counted per bundle */
  function LocaleCount(bs: seq<Bundle>): nat
    decreases |bs|
  {
    if bs == [] then 0 else |bs[0].locales| + LocaleCount(bs[1..])
  }

  /** The plans of the bundles, one bundle after the other: a file is
      planned exactly when some bundle plans it, one file per bundle
      locale, a single bundle giving its own plan */
  function BundlePlans(bs: seq<Bundle>, directory: string, ignoreIfEmpty: bool): (plan: seq<FilePlan>)
    requires AllFullyTranslated(bs)
    ensures forall f :: f in plan <==> exists i | 0 <= i < |bs| :: f in Bundles.SavePlan(bs[i], directory, ignoreIfEmpty)
    ensures |plan| == LocaleCount(bs)
    ensures |bs| == 1 ==> plan == Bundles.SavePlan(bs[0], directory, ignoreIfEmpty)
    decreases |bs|
  {
    if bs == [] then []
    else
      var rest := BundlePlans(bs[1..], directory, ignoreIfEmpty);
      assert forall i | 1 <= i < |bs| :: bs[i] == bs[1..][i - 1];
      Bundles.SavePlan(bs[0], directory, ignoreIfEmpty) + rest
  }

  /** The plans of two runs of bundles follow each other: with the
      single-bundle case of `BundlePlans`, each bundle's files appear in
      bundle order, as many times as it has locales */
  lemma {:induction false} BundlePlansAppend(a: seq<Bundle>, b: seq<Bundle>, directory: string, ignoreIfEmpty: bool)
    requires AllFullyTranslated(a + b)
    ensures AllFullyTranslated(a) && AllFullyTranslated(b)
    ensures BundlePlans(a + b, directory, ignoreIfEmpty) == BundlePlans(a, directory, ignoreIfEmpty) + BundlePlans(b, directory, ignoreIfEmpty)
    decreases |a|
  {
    FullyTranslatedParts(a, b);
    if a == [] {
      assert a + b == b;
    } else {
      var ab := a + b;
      assert ab[0] == a[0] && ab[1..] == a[1..] + b;
      FullyTranslatedParts(a[1..], b);
      BundlePlansAppend(a[1..], b, directory, ignoreIfEmpty);
      assert BundlePlans(ab, directory, ignoreIfEmpty)
          == Bundles.SavePlan(a[0], directory, ignoreIfEmpty) + BundlePlans(a[1..] + b, directory, ignoreIfEmpty);
      assert BundlePlans(a, directory, ignoreIfEmpty)
          == Bundles.SavePlan(a[0], directory, ignoreIfEmpty) + BundlePlans(a[1..], directory, ignoreIfEmpty);
    }
  }

  /** Both parts of a fully translated run of bundles are fully translated */
  lemma FullyTranslatedParts(a: seq<Bundle>, b: seq<Bundle>)
    requires AllFullyTranslated(a + b)
    ensures AllFullyTranslated(a) && AllFullyTranslated(b)
  {
    assert forall i | 0 <= i < |a| :: a[i] == (a + b)[i];
    assert forall i | 0 <= i < |b| :: b[i] == (a + b)[|a| + i];
  }

  /** A planned file is the file of some bundle and one of its locales */
  lemma PlannedFileOf(bs: seq<Bundle>, directory: string, ignoreIfEmpty: bool, f: FilePlan)
    requires AllFullyTranslated(bs)
    requires f in BundlePlans(bs, directory, ignoreIfEmpty)
    ensures exists i, l | 0 <= i < |bs| && l in bs[i].locales :: f.path == TargetPath(directory, FileName(bs[i].name, l))
  {
    var i :| 0 <= i < |bs| && f in Bundles.SavePlan(bs[i], directory, ignoreIfEmpty);
    var bp := Bundles.SavePlan(bs[i], directory, ignoreIfEmpty);
    var j :| 0 <= j < |bp| && bp[j] == f;
    assert f.path == TargetPath(directory, FileName(bs[i].name, bs[i].locales[j]));
    assert bs[i].locales[j] in bs[i].locales;
  }

  /** Every bundle plans a file for each of its locales */
  lemma BundleLocalePlanned(bs: seq<Bundle>, directory: string, ignoreIfEmpty: bool, i: nat, l: string)
    requires AllFullyTranslated(bs)
    requires i < |bs| && l in bs[i].locales
    ensures exists f | f in BundlePlans(bs, directory, ignoreIfEmpty) :: f.path == TargetPath(directory, FileName(bs[i].name, l))
  {
    var bp := Bundles.SavePlan(bs[i], directory, ignoreIfEmpty);
    var j :| 0 <= j < |bs[i].locales| && bs[i].locales[j] == l;
    assert bp[j] in bp;
    assert bp[j] in BundlePlans(bs, directory, ignoreIfEmpty);
  }

  /** Every planned file is the file of some bundle and one of its locales */
  predicate OnlyBundleFiles(plan: seq<FilePlan>, bs: seq<Bundle>, directory: string) {
    forall f | f in plan ::
      exists i, l | 0 <= i < |bs| && l in bs[i].locales :: f.path == TargetPath(directory, FileName(bs[i].name, l))
  }

  /** Every bundle and locale of it has a planned file */
  predicate EveryBundleFile(plan: seq<FilePlan>, bs: seq<Bundle>, directory: string) {
    forall i, l | 0 <= i < |bs| && l in bs[i].locales ::
      exists f | f in plan :: f.path == TargetPath(directory, FileName(bs[i].name, l))
  }

  /** The files of several bundles are exactly the files of their locales */
  lemma BundlePlansPaths(bs: seq<Bundle>, directory: string, ignoreIfEmpty: bool)
    requires AllFullyTranslated(bs)
    ensures OnlyBundleFiles(BundlePlans(bs, directory, ignoreIfEmpty), bs, directory)
    ensures EveryBundleFile(BundlePlans(bs, directory, ignoreIfEmpty), bs, directory)
  {
    var plan := BundlePlans(bs, directory, ignoreIfEmpty);
    forall f | f in plan
      ensures exists i, l | 0 <= i < |bs| && l in bs[i].locales :: f.path == TargetPath(directory, FileName(bs[i].name, l))
    {
      PlannedFileOf(bs, directory, ignoreIfEmpty, f);
    }
    forall i, l | 0 <= i < |bs| && l in bs[i].locales
      ensures exists f | f in plan :: f.path == TargetPath(directory, FileName(bs[i].name, l))
    {
      BundleLocalePlanned(bs, directory, ignoreIfEmpty, i, l);
    }
  }

  /** `save(options)`: every bundle saves under the cartridge path, and
      the cartridge plans a file exactly when one of its bundles does, as
      many files as its bundles have locales. Without a path `path.join` rejects the
      `undefined` directory before any file is touched, so nothing is
      planned. */
  function SavePlan(c: Cartridge, ignoreIfEmpty: bool): (plan: seq<FilePlan>)
    requires AllFullyTranslated(GetBundles(c))
    ensures c.path.None? ==> plan == []
    ensures c.path.Some? ==> forall f :: f in plan <==>
      exists i | 0 <= i < |GetBundles(c)| :: f in Bundles.SavePlan(GetBundles(c)[i], c.path.value, ignoreIfEmpty)
    ensures c.path.Some? ==> |plan| == LocaleCount(GetBundles(c))
    ensures c.path.Some? ==> OnlyBundleFiles(plan, GetBundles(c), c.path.value)
    ensures c.path.Some? ==> EveryBundleFile(plan, GetBundles(c), c.path.value)
  {
    if c.path.None? then []
    else
      BundlePlansPaths(GetBundles(c), c.path.value, ignoreIfEmpty);
      BundlePlans(GetBundles(c), c.path.value, ignoreIfEmpty)
  }
}
