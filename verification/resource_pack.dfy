/** `src/resource-pack.ts`: all the cartridges of a project by name, built
    from `.properties` files whose paths say which cartridge, bundle and
    locale they belong to. */
module ResourcePacks {
  import opened Wrappers
  import opened Seqs
  import opened OrderedMaps
  import opened Properties
  import opened BundleEntries
  import opened Bundles
  import opened Cartridges
  import opened PathPatterns
  import opened Util
  import opened JsStrings

  datatype Pack = Pack(cartridges: OrderedMap<string, Cartridge>)

  /** Every cartridge is stored under its own name and is well formed */
  predicate WellFormed(p: Pack) {
    forall n | n in p.cartridges.items :: p.cartridges.items[n].name == n && Cartridges.WellFormed(p.cartridges.items[n])
  }

  /** `new ResourcePack()` with no file */
  function EmptyPack(): (p: Pack)
    ensures p.cartridges.keys == [] && WellFormed(p)
  {
    Pack(Empty())
  }

  /** `getCartridges()`: `Object.values(cartridges)` */
  function GetCartridges(p: Pack): (cs: seq<Cartridge>)
    ensures |cs| == |p.cartridges.keys|
    ensures forall i | 0 <= i < |cs| :: cs[i] == p.cartridges.items[p.cartridges.keys[i]]
  {
    Values(p.cartridges)
  }

  /** `getCartridge(name)` */
  function GetCartridge(p: Pack, name: string): (r: Option<Cartridge>)
    ensures r.Some? <==> name in p.cartridges.items
    ensures r.Some? ==> r.value == p.cartridges.items[name]
  {
    Get(p.cartridges, name)
  }

  /** `createCartridge(name, path?)`: installs a fresh, empty cartridge under
      `name`, replacing any cartridge of that name. */
  function CreateCartridge(p: Pack, name: string, path: Option<string>): (r: Pack)
    ensures GetCartridge(r, name).Some?
    ensures var c := GetCartridge(r, name).value;
      c.name == name && c.bundles.keys == [] && (c.path.Some? <==> Truthy(path)) && (c.path.Some? ==> c.path == path)
    ensures forall n | n != name :: GetCartridge(r, n) == GetCartridge(p, n)
    ensures name in p.cartridges.items ==> r.cartridges.keys == p.cartridges.keys
    ensures name !in p.cartridges.items ==> r.cartridges.keys == p.cartridges.keys + [name]
  {
    Pack(Put(p.cartridges, name, NewCartridge(name, path)))
  }

  /** A bundle with no locale and no entry, as `new Bundle(name)` makes */
  function BlankBundle(name: string): Bundle {
    Bundle(name, [], Empty())
  }

  /** The cartridge a file is added to: the existing one, or a new one of
      that name without a path */
  function BaseCartridge(p: Pack, cartridgeName: string): Cartridge {
    GetCartridge(p, cartridgeName).GetOr(NewCartridge(cartridgeName, None))
  }

  /** The bundle a file's resources are merged into: the existing one, or a
      blank one of that name, as `new Bundle(name)` makes */
  function BaseBundle(p: Pack, cartridgeName: string, bundleName: string): Bundle {
    GetBundle(BaseCartridge(p, cartridgeName), bundleName).GetOr(Bundle(bundleName, [], Empty()))
  }

  /** Whether the cartridge already holds a bundle of that name */
  predicate HasBundle(p: Pack, cartridgeName: string, bundleName: string) {
    GetBundle(BaseCartridge(p, cartridgeName), bundleName).Some?
  }

  /** The bundle `addProperties` stores back */
  function MergedBundle(p: Pack, cartridgeName: string, bundleName: string, locale: string, resources: seq<Property>): Bundle {
    match GetBundle(BaseCartridge(p, cartridgeName), bundleName)
    case None => NewBundle(bundleName, Some(locale), Some(resources))
    case Some(b) => AddTranslations(b, locale, resources)
  }

  /** `addProperties(cartridge, bundle, locale, resources)`: the cartridge
      is created (without a path) when missing; the bundle is created from
      the resources when missing, and merged into otherwise. Other
      cartridges, and the cartridge's other bundles, are untouched. */
  function AddProperties(p: Pack, cartridgeName: string, bundleName: string, locale: string, resources: seq<Property>): (r: Pack)
    ensures forall n | n != cartridgeName :: GetCartridge(r, n) == GetCartridge(p, n)
    ensures cartridgeName in p.cartridges.items ==> r.cartridges.keys == p.cartridges.keys
    ensures cartridgeName !in p.cartridges.items ==> r.cartridges.keys == p.cartridges.keys + [cartridgeName]
    ensures GetCartridge(r, cartridgeName).Some?
  {
    var c := BaseCartridge(p, cartridgeName);
    var c' := AddBundle(c, MergedBundle(p, cartridgeName, bundleName, locale, resources));
    Pack(Put(p.cartridges, cartridgeName, c'))
  }

  /** The touched cartridge keeps its name and path, holds the merged
      bundle, and its other bundles are untouched. */
  lemma AddPropertiesCartridge(p: Pack, cartridgeName: string, bundleName: string, locale: string, resources: seq<Property>)
    requires WellFormed(p)
    ensures var c := GetCartridge(AddProperties(p, cartridgeName, bundleName, locale, resources), cartridgeName).value;
      && c.name == BaseCartridge(p, cartridgeName).name && c.path == BaseCartridge(p, cartridgeName).path
      && GetBundle(c, bundleName) == Some(MergedBundle(p, cartridgeName, bundleName, locale, resources))
      && (forall n | n != bundleName :: GetBundle(c, n) == GetBundle(BaseCartridge(p, cartridgeName), n))
  {
    var r := AddProperties(p, cartridgeName, bundleName, locale, resources);
    var b := MergedBundle(p, cartridgeName, bundleName, locale, resources);
    var c' := AddBundle(BaseCartridge(p, cartridgeName), b);
    assert r.cartridges.items[cartridgeName] == c';
    assert b.name == bundleName;
  }

  /** What `addProperties` does to the bundle it touches, whether it existed
      or not: the bundle keeps its name, gains the locale, and gains the
      resources' keys after its own, in first-seen order; each of those
      keys translates, in that locale, to the last resource with the key.
      The one exception is a new bundle for the empty locale, which
      `new Bundle` leaves empty. */
  lemma AddPropertiesBundle(p: Pack, cartridgeName: string, bundleName: string, locale: string, resources: seq<Property>)
    requires WellFormed(p)
    ensures var base := BaseBundle(p, cartridgeName, bundleName);
      var b := MergedBundle(p, cartridgeName, bundleName, locale, resources);
      && b.name == bundleName
      && (locale == "" && !HasBundle(p, cartridgeName, bundleName) ==> b == base)
      && (locale != "" || HasBundle(p, cartridgeName, bundleName) ==>
            && (forall l :: l in b.locales <==> l in base.locales || l == locale)
            && b.entries.keys == AddUnique(base.entries.keys, KeysOf(resources))
            && (locale != "" ==> forall k | k in KeysOf(resources) ::
                  && k in b.entries.items
                  && GetTranslation(b.entries.items[k], locale, None) == Some(LastWithKey(resources, k).value)))
  {
    var base := BaseBundle(p, cartridgeName, bundleName);
    var c := BaseCartridge(p, cartridgeName);
    if GetBundle(c, bundleName).None? {
      assert base == Bundle(bundleName, [], Empty());
      if locale != "" {
        assert NewBundle(bundleName, Some(locale), Some(resources)) == AddTranslations(base, locale, resources);
      }
    } else {
      assert GetBundle(c, bundleName) == Some(base);
    }
    AddTranslationsEntries(base, locale, resources);
  }

  /** `addProperties` keeps every cartridge and bundle under its own name */
  lemma AddPropertiesWellFormed(p: Pack, cartridgeName: string, bundleName: string, locale: string, resources: seq<Property>)
    requires WellFormed(p)
    ensures WellFormed(AddProperties(p, cartridgeName, bundleName, locale, resources))
  {
    var c := BaseCartridge(p, cartridgeName);
    var b := MergedBundle(p, cartridgeName, bundleName, locale, resources);
    MergedBundleWellFormed(p, cartridgeName, bundleName, locale, resources);
    assert c.name == cartridgeName && Cartridges.WellFormed(c) by {
      if cartridgeName in p.cartridges.items {
        assert c == p.cartridges.items[cartridgeName];
      }
    }
    AddBundleWellFormed(c, b);
    var r := AddProperties(p, cartridgeName, bundleName, locale, resources);
    assert r.cartridges.items == p.cartridges.items[cartridgeName := AddBundle(c, b)];
    forall n | n in r.cartridges.items
      ensures r.cartridges.items[n].name == n && Cartridges.WellFormed(r.cartridges.items[n])
    {
      if n != cartridgeName {
        assert r.cartridges.items[n] == p.cartridges.items[n];
      }
    }
  }

  lemma MergedBundleWellFormed(p: Pack, cartridgeName: string, bundleName: string, locale: string, resources: seq<Property>)
    requires WellFormed(p)
    ensures Bundles.WellFormed(MergedBundle(p, cartridgeName, bundleName, locale, resources))
  {
    var c := BaseCartridge(p, cartridgeName);
    if GetBundle(c, bundleName).None? {
      NewBundleWellFormed(bundleName, Some(locale), Some(resources));
    } else {
      assert Cartridges.WellFormed(c);
      AddTranslationsWellFormed(GetBundle(c, bundleName).value, locale, resources);
    }
  }

  // ---------------------------------------------------------------------
  // getSummary
  // ---------------------------------------------------------------------

  datatype PackSummary = PackSummary(
    cartridges: nat, bundles: nat, locales: seq<string>, resources: nat,
    details: OrderedMap<string, CartridgeSummary>)

  function TotalBundles(cs: seq<Cartridge>): nat
    decreases |cs|
  {
    if cs == [] then 0 else Summary(cs[0]).bundleCount + TotalBundles(cs[1..])
  }

  function TotalResources(cs: seq<Cartridge>): nat
    decreases |cs|
  {
    if cs == [] then 0 else Summary(cs[0]).resourceCount + TotalResources(cs[1..])
  }

  /** Every cartridge summary's locale list, one after the other */
  function SummaryLocales(cs: seq<Cartridge>): seq<string> {
    FlatMap(cs, LocalesOf)
  }

  function LocalesOf(c: Cartridge): seq<string> {
    Summary(c).locales
  }

  function NameOf(c: Cartridge): string {
    c.name
  }

  /** The last cartridge of the list with the given name */
  function LastCartridgeNamed(cs: seq<Cartridge>, name: string): (r: Option<Cartridge>)
    ensures r.Some? ==> r.value in cs && r.value.name == name
    ensures r.None? <==> forall i | 0 <= i < |cs| :: cs[i].name != name
  {
    LastKeyed(cs, NameOf, name)
  }

  /** The `details` part of the `reduce`: each cartridge's summary put
      under its name */
  function DetailsFold(acc: OrderedMap<string, CartridgeSummary>, cs: seq<Cartridge>): OrderedMap<string, CartridgeSummary> {
    PutEach(acc, cs, NameOf, Summary)
  }

  /** The `reduce` of `getSummary`, one cartridge at a time */
  function PackSummaryFold(acc: PackSummary, cs: seq<Cartridge>): (s: PackSummary)
    ensures s.cartridges == acc.cartridges + |cs|
    ensures s.bundles == acc.bundles + TotalBundles(cs)
    ensures s.resources == acc.resources + TotalResources(cs)
    ensures s.locales == AddUnique(acc.locales, SummaryLocales(cs))
    ensures s.details == DetailsFold(acc.details, cs)
    decreases |cs|
  {
    if cs == [] then acc
    else
      var cs0 := Summary(cs[0]);
      AddUniqueConcat(acc.locales, cs0.locales, SummaryLocales(cs[1..]));
      PackSummaryFold(PackSummary(acc.cartridges + 1, acc.bundles + cs0.bundleCount,
                                  AddUnique(acc.locales, cs0.locales), acc.resources + cs0.resourceCount,
                                  Put(acc.details, cs[0].name, cs0)), cs[1..])
  }

  /** The details hold, for each name, the summary of the last cartridge
      folded in under that name */
  lemma DetailsFoldGet(acc: OrderedMap<string, CartridgeSummary>, cs: seq<Cartridge>, name: string)
    ensures Get(DetailsFold(acc, cs), name) ==
      match LastCartridgeNamed(cs, name)
      case None => Get(acc, name)
      case Some(c) => Some(Summary(c))
  {
    PutEachGet(acc, cs, NameOf, Summary, name);
  }

  /** `getSummary()` */
  function GetSummary(p: Pack): (s: PackSummary)
    ensures s.cartridges == |p.cartridges.items.Keys|
    ensures s.bundles == TotalBundles(GetCartridges(p))
    ensures s.resources == TotalResources(GetCartridges(p))
    ensures s.locales == Dedupe(SummaryLocales(GetCartridges(p)))
  {
    SizeIsCardinality(p.cartridges);
    PackSummaryFold(PackSummary(0, 0, [], 0, Empty()), GetCartridges(p))
  }

  /** In a well-formed pack the cartridge list names each cartridge once,
      under its key */
  lemma LastNamedIsLookup(p: Pack, n: string)
    requires WellFormed(p)
    ensures LastCartridgeNamed(GetCartridges(p), n) == GetCartridge(p, n)
  {
    var cs := GetCartridges(p);
    if n in p.cartridges.items {
      var c := LastCartridgeNamed(cs, n).value;
      var j :| 0 <= j < |cs| && cs[j] == c;
      assert p.cartridges.keys[j] in p.cartridges.items;
    } else {
      forall i | 0 <= i < |cs| ensures cs[i].name != n {
        assert p.cartridges.keys[i] in p.cartridges.items;
      }
    }
  }

  /** In a well-formed pack the summary's details hold each cartridge's own
      summary under its name, and nothing else. */
  lemma GetSummaryDetails(p: Pack, n: string)
    requires WellFormed(p)
    ensures Get(GetSummary(p).details, n) ==
            if n in p.cartridges.items then Some(Summary(p.cartridges.items[n])) else None
  {
    var cs := GetCartridges(p);
    assert GetSummary(p).details == DetailsFold(Empty(), cs);
    DetailsFoldGet(Empty(), cs, n);
    LastNamedIsLookup(p, n);
  }

  /** The summary's locales are each listed once, and are exactly the
      locales of some bundle of some cartridge. */
  lemma GetSummaryLocales(p: Pack, l: string)
    requires WellFormed(p)
    ensures Distinct(GetSummary(p).locales)
    ensures l in GetSummary(p).locales <==>
      exists n, b | n in p.cartridges.items && b in p.cartridges.items[n].bundles.items ::
        l in p.cartridges.items[n].bundles.items[b].locales
  {
    var cs := GetCartridges(p);
    SummaryLocalesMembership(cs, l);
    var inSummary := exists i | 0 <= i < |cs| :: l in Summary(cs[i]).locales;
    var inBundle := exists n, b | n in p.cartridges.items && b in p.cartridges.items[n].bundles.items ::
      l in p.cartridges.items[n].bundles.items[b].locales;
    assert inSummary ==> inBundle by {
      if inSummary {
        var i :| 0 <= i < |cs| && l in Summary(cs[i]).locales;
        LocaleOfSomeBundle(p, i, l);
      }
    }
    assert inBundle ==> inSummary by {
      if inBundle {
        var n, b :| n in p.cartridges.items && b in p.cartridges.items[n].bundles.items &&
          l in p.cartridges.items[n].bundles.items[b].locales;
        BundleLocaleInSummary(p, n, b, l);
      }
    }
    assert l in GetSummary(p).locales <==> l in SummaryLocales(cs);
  }

  /** A locale of one of a cartridge's bundles is a locale of that
      cartridge's summary */
  lemma BundleLocaleInSummary(p: Pack, n: string, b: string, l: string)
    requires WellFormed(p) && n in p.cartridges.items && b in p.cartridges.items[n].bundles.items
    requires l in p.cartridges.items[n].bundles.items[b].locales
    ensures exists i | 0 <= i < |GetCartridges(p)| :: l in Summary(GetCartridges(p)[i]).locales
  {
    var cs := GetCartridges(p);
    var i := FirstIndex(p.cartridges.keys, n);
    assert cs[i] == p.cartridges.items[n];
    Cartridges.SummaryLocales(cs[i]);
    assert l in Summary(cs[i]).locales;
  }

  /** A locale of the `i`-th cartridge's summary is a locale of one of its
      bundles */
  lemma LocaleOfSomeBundle(p: Pack, i: int, l: string)
    requires WellFormed(p) && 0 <= i < |GetCartridges(p)| && l in Summary(GetCartridges(p)[i]).locales
    ensures exists n, b | n in p.cartridges.items && b in p.cartridges.items[n].bundles.items ::
      l in p.cartridges.items[n].bundles.items[b].locales
  {
    var c := GetCartridges(p)[i];
    var n := p.cartridges.keys[i];
    assert n in p.cartridges.items && c == p.cartridges.items[n];
    Cartridges.SummaryLocales(c);
    var b :| b in c.bundles.items && l in c.bundles.items[b].locales;
  }

  lemma SummaryLocalesMembership(cs: seq<Cartridge>, l: string)
    ensures l in SummaryLocales(cs) <==> exists i | 0 <= i < |cs| :: l in Summary(cs[i]).locales
  {
    FlatMapHas(cs, LocalesOf, l);
    assert forall i | 0 <= i < |cs| :: LocalesOf(cs[i]) == Summary(cs[i]).locales;
  }

  // ---------------------------------------------------------------------
  // new ResourcePack(filePaths): one addProperties per file
  // ---------------------------------------------------------------------

  /** The cartridge, bundle and locale a `.properties` path stands for */
  datatype Origin = Origin(cartridge: string, bundle: string, locale: string)

  /** `parts ? parts[1] : ''` and so on: the capture groups of
      `PROPERTIES_FILE_PATTERN`, with `default` for a missing locale group,
      or three empty strings when the path does not match. */
  function PathOrigin(path: string): (o: Origin)
    ensures DecodePropertiesPath(path).None? ==> o == Origin("", "", "")
    ensures DecodePropertiesPath(path).Some? ==>
      var (c, b, l) := DecodePropertiesPath(path).value;
      && o == Origin(c, b, if l.Some? then l.value else "default")
      && o.cartridge != "" && o.bundle != "" && '.' !in o.bundle
      && (o.locale == "default" || IsLocaleCode(o.locale))
  {
    match DecodePropertiesPath(path)
    case None => Origin("", "", "")
    case Some((c, b, l)) =>
      var (o, m, e, locale) := MatchProperties(path).value;
      MatchPropertiesFits(path);
      assert PropertiesFits(path, o, m, e, locale);
      assert forall i | 0 <= i < |b| :: b[i] == path[m + |Marker| + i];
      Origin(c, b, l.GetOr("default"))
  }

  /** A file found on disk: its path and the properties read from it */
  datatype SourceFile = SourceFile(path: string, properties: seq<Property>)

  function OriginOf(f: SourceFile): Origin {
    PathOrigin(f.path)
  }

  /** The file's path names cartridge `n` and bundle `b` */
  predicate NamesBundle(f: SourceFile, n: string, b: string) {
    OriginOf(f).cartridge == n && OriginOf(f).bundle == b
  }

  function AddFile(p: Pack, f: SourceFile): Pack {
    var o := OriginOf(f);
    AddProperties(p, o.cartridge, o.bundle, o.locale, f.properties)
  }

  /** The cartridge names the files' paths give, in file order */
  function CartridgeNames(fs: seq<SourceFile>): (ns: seq<string>)
    ensures |ns| == |fs| && forall i | 0 <= i < |fs| :: ns[i] == OriginOf(fs[i]).cartridge
    decreases |fs|
  {
    if fs == [] then [] else [OriginOf(fs[0]).cartridge] + CartridgeNames(fs[1..])
  }

  /** The `forEach` over the files: each file's properties are added under
      the cartridge, bundle and locale its path gives. The cartridges come
      out in the order their names first appear. */
  function AddFiles(p: Pack, fs: seq<SourceFile>): (r: Pack)
    ensures r.cartridges.keys == AddUnique(p.cartridges.keys, CartridgeNames(fs))
    decreases |fs|
  {
    if fs == [] then p
    else
      var n := OriginOf(fs[0]).cartridge;
      assert CartridgeNames(fs) == [n] + CartridgeNames(fs[1..]);
      AddUniqueConcat(p.cartridges.keys, [n], CartridgeNames(fs[1..]));
      AddFiles(AddFile(p, fs[0]), fs[1..])
  }

  /** `new ResourcePack(filePaths)`, with the files already read */
  function FromFiles(fs: seq<SourceFile>): (r: Pack)
    ensures r.cartridges.keys == Dedupe(CartridgeNames(fs))
    ensures forall n :: n in r.cartridges.items <==> exists i | 0 <= i < |fs| :: OriginOf(fs[i]).cartridge == n
  {
    var r := AddFiles(EmptyPack(), fs);
    assert forall n :: n in r.cartridges.items <==> n in CartridgeNames(fs);
    CartridgeNamesHave(fs);
    r
  }

  /** A name is among the cartridge names exactly when some file gives it */
  lemma CartridgeNamesHave(fs: seq<SourceFile>)
    ensures forall n :: n in CartridgeNames(fs) <==> exists i | 0 <= i < |fs| :: OriginOf(fs[i]).cartridge == n
  {
    var ns := CartridgeNames(fs);
    forall n | n in ns ensures exists i | 0 <= i < |fs| :: OriginOf(fs[i]).cartridge == n {
      var i :| 0 <= i < |ns| && ns[i] == n;
      assert OriginOf(fs[i]).cartridge == n;
    }
  }

  /** What one file does to the pack's cartridges and bundles */
  lemma AddFileStep(p: Pack, f: SourceFile)
    requires WellFormed(p)
    ensures var r := AddFile(p, f);
      && WellFormed(r)
      && (forall n | n in r.cartridges.items ::
            r.cartridges.items[n].path == (if n in p.cartridges.items then p.cartridges.items[n].path else None))
  {
    var o := OriginOf(f);
    var r := AddFile(p, f);
    AddPropertiesWellFormed(p, o.cartridge, o.bundle, o.locale, f.properties);
    AddPropertiesCartridge(p, o.cartridge, o.bundle, o.locale, f.properties);
  }

  /** What one file does to cartridge `n` and its bundle `b` */
  lemma AddFileBundle(p: Pack, f: SourceFile, n: string, b: string)
    requires WellFormed(p)
    ensures var r := AddFile(p, f);
      && WellFormed(r)
      && (n in r.cartridges.items <==> n in p.cartridges.items || OriginOf(f).cartridge == n)
      && (n in r.cartridges.items ==>
            (b in r.cartridges.items[n].bundles.items <==>
              || (n in p.cartridges.items && b in p.cartridges.items[n].bundles.items)
              || NamesBundle(f, n, b)))
  {
    var o := OriginOf(f);
    var r := AddFile(p, f);
    AddPropertiesWellFormed(p, o.cartridge, o.bundle, o.locale, f.properties);
    AddPropertiesCartridge(p, o.cartridge, o.bundle, o.locale, f.properties);
    if n != o.cartridge {
      assert GetCartridge(r, n) == GetCartridge(p, n);
    }
    if n in r.cartridges.items {
      assert b in r.cartridges.items[n].bundles.items <==> GetBundle(r.cartridges.items[n], b).Some?;
    }
  }

  /** Adding files keeps the pack well formed, leaves the paths of existing
      cartridges alone and gives new ones none. */
  lemma {:induction false} AddFilesPaths(p: Pack, fs: seq<SourceFile>)
    requires WellFormed(p)
    ensures var r := AddFiles(p, fs);
      && WellFormed(r)
      && (forall n | n in p.cartridges.items :: n in r.cartridges.items)
      && (forall n | n in r.cartridges.items ::
            r.cartridges.items[n].path == (if n in p.cartridges.items then p.cartridges.items[n].path else None))
    decreases |fs|
  {
    if fs != [] {
      AddFileStep(p, fs[0]);
      AddFilesPaths(AddFile(p, fs[0]), fs[1..]);
    }
  }

  /** After adding files, a cartridge holds a bundle exactly when it held it
      before or some file's path names both. */
  lemma {:induction false} AddFilesBundles(p: Pack, fs: seq<SourceFile>, n: string, b: string)
    requires WellFormed(p)
    requires n in AddFiles(p, fs).cartridges.items
    ensures b in AddFiles(p, fs).cartridges.items[n].bundles.items <==>
      || (n in p.cartridges.items && b in p.cartridges.items[n].bundles.items)
      || exists i | 0 <= i < |fs| :: NamesBundle(fs[i], n, b)
    decreases |fs|
  {
    if fs != [] {
      var p' := AddFile(p, fs[0]);
      AddFileBundle(p, fs[0], n, b);
      AddFilesBundles(p', fs[1..], n, b);
      NamesBundleCons(fs, n, b);
    }
  }

  /** Some file names the bundle exactly when the first does or a later one does */
  lemma NamesBundleCons(fs: seq<SourceFile>, n: string, b: string)
    requires fs != []
    ensures (exists i | 0 <= i < |fs| :: NamesBundle(fs[i], n, b)) <==>
      NamesBundle(fs[0], n, b) || exists i | 0 <= i < |fs[1..]| :: NamesBundle(fs[1..][i], n, b)
  {
    if exists i | 0 <= i < |fs[1..]| :: NamesBundle(fs[1..][i], n, b) {
      var i :| 0 <= i < |fs[1..]| && NamesBundle(fs[1..][i], n, b);
      assert fs[i + 1] == fs[1..][i];
    }
    if exists i | 0 <= i < |fs| :: NamesBundle(fs[i], n, b) {
      var i :| 0 <= i < |fs| && NamesBundle(fs[i], n, b);
      if i > 0 {
        assert fs[1..][i - 1] == fs[i];
      }
    }
  }

  /** A pack read from `.properties` files has no cartridge paths, so its
      `save` has nowhere to write: every cartridge plans no file. */
  lemma FromFilesHasNoPaths(fs: seq<SourceFile>)
    ensures WellFormed(FromFiles(fs))
    ensures forall n | n in FromFiles(fs).cartridges.items :: FromFiles(fs).cartridges.items[n].path.None?
  {
    AddFilesPaths(EmptyPack(), fs);
  }

  /** The files' paths name exactly the cartridges and bundles of the pack
      they build. */
  lemma FromFilesBundles(fs: seq<SourceFile>, n: string, b: string)
    requires n in FromFiles(fs).cartridges.items
    ensures b in FromFiles(fs).cartridges.items[n].bundles.items <==>
      exists i | 0 <= i < |fs| :: NamesBundle(fs[i], n, b)
  {
    AddFilesBundles(EmptyPack(), fs, n, b);
  }

  // ---------------------------------------------------------------------
  // The paths `save` writes are the paths the pack is read from
  // ---------------------------------------------------------------------

  /** The optional locale group a file name's locale is read back as */
  function LocaleGroup(l: string): Option<string> {
    if l == "default" then None else Some(l)
  }

  /** A bundle name that survives the trip through a file name: not empty,
      no `.`, `/` or `_`, and no `properties` inside it */
  predicate PlainBundleName(b: string) {
    && b != ""
    && (forall i | 0 <= i < |b| :: b[i] != '.' && b[i] != '/' && b[i] != '_')
    && (forall i | 0 <= i <= |b| :: !OccursAt(b, "properties", i))
  }

  /** While no alternative applies, the lazy group just grows */
  lemma {:induction false} TailFromSkips(s: string, b0: nat, e: nat, end: nat)
    requires b0 < e <= end <= |s| && DotFree(s, b0, end)
    requires forall e' | e <= e' < end :: !AnyGroupAt(s, e')
    ensures TailFrom(s, b0, e) == TailFrom(s, b0, end)
    decreases end - e
  {
    if e < end {
      TailFromStep(s, b0, e, end);
      TailFromSkips(s, b0, e + 1, end);
    }
  }

  /** One step of the lazy group past a position where nothing applies */
  lemma TailFromStep(s: string, b0: nat, e: nat, end: nat)
    requires b0 < e < end <= |s| && DotFree(s, b0, end) && !AnyGroupAt(s, e)
    ensures DotFree(s, b0, e) && DotFree(s, b0, e + 1)
    ensures TailFrom(s, b0, e) == TailFrom(s, b0, e + 1)
  {
    assert s[e] != '.';
  }

  /** `s` from `b0` on reads `FileName(b, l)` */
  predicate FileNameAt(s: string, b0: nat, b: string, l: string) {
    b0 <= |s| && s[b0..] == FileName(b, l)
  }

  lemma FileNameChars(s: string, b0: nat, b: string, l: string)
    requires FileNameAt(s, b0, b, l)
    ensures forall j | 0 <= j < |FileName(b, l)| :: s[b0 + j] == FileName(b, l)[j]
    ensures forall j | 0 <= j < |b| :: s[b0 + j] == b[j]
  {
    var t := FileName(b, l);
    forall j | 0 <= j < |t| ensures s[b0 + j] == t[j] {
      assert s[b0..][j] == s[b0 + j];
    }
    assert forall j | 0 <= j < |b| :: t[j] == b[j];
  }

  /** Inside a plain bundle name none of the three alternatives applies */
  lemma NoGroupInsideBundle(s: string, b0: nat, b: string, l: string, e: nat)
    requires FileNameAt(s, b0, b, l) && PlainBundleName(b)
    requires b0 < e < b0 + |b|
    ensures !AnyGroupAt(s, e) && s[e] != '.'
  {
    var end := b0 + |b|;
    FileNameChars(s, b0, b, l);
    assert s[e] == b[e - b0];
    assert s[end] == '.' || s[end] == '_' by {
      assert s[end] == FileName(b, l)[|b|];
    }
    if e + 11 <= |s| {
      if e + 11 <= end {
        var w := s[e + 1..e + 11];
        assert w == b[e + 1 - b0..e + 11 - b0] by {
          forall j | 0 <= j < 10 ensures w[j] == b[e + 1 - b0 + j] {
            assert s[e + 1 + j] == b[e + 1 + j - b0];
          }
        }
        assert !OccursAt(b, "properties", e + 1 - b0);
      } else {
        var k := end - (e + 1);
        assert s[e + 1..e + 11][k] == s[end];
        assert "properties"[k] != '.' && "properties"[k] != '_';
      }
    }
  }

  /** At the end of the bundle name the locale group reads the locale
      back, and reads nothing for `default` */
  lemma GroupAtBundleEnd(s: string, b0: nat, b: string, l: string)
    requires FileNameAt(s, b0, b, l) && PlainBundleName(b) && (l == "default" || IsLocaleCode(l))
    ensures var end := b0 + |b|;
      && (l == "default" ==> !LongLocaleAt(s, end) && !ShortLocaleAt(s, end) && NoLocaleAt(s, end))
      && (l != "default" && |l| == 5 ==> LongLocaleAt(s, end) && s[end + 1..end + 6] == l)
      && (l != "default" && |l| == 2 ==> !LongLocaleAt(s, end) && ShortLocaleAt(s, end) && s[end + 1..end + 3] == l)
  {
    var t := FileName(b, l);
    var end := b0 + |b|;
    assert s[end..] == t[|b|..];
    if l == "default" {
      assert t[|b|..] == ".properties";
      GroupAtDefault(s, end);
    } else {
      assert t[|b|..] == "_" + l + ".properties";
      if |l| == 2 {
        GroupAtShort(s, end, l);
      } else {
        GroupAtLong(s, end, l);
      }
    }
  }

  /** Before `.properties` no locale group applies, and the empty one does */
  lemma GroupAtDefault(s: string, end: nat)
    requires end <= |s| && s[end..] == ".properties"
    ensures !LongLocaleAt(s, end) && !ShortLocaleAt(s, end) && NoLocaleAt(s, end)
  {
    assert s[end + 1..end + 11] == s[end..][1..11];
  }

  /** Before `_xx.properties` the short locale group reads `xx` */
  lemma GroupAtShort(s: string, end: nat, l: string)
    requires end <= |s| && s[end..] == "_" + l + ".properties" && |l| == 2 && IsLocaleCode(l)
    ensures !LongLocaleAt(s, end) && ShortLocaleAt(s, end) && s[end + 1..end + 3] == l
  {
    var u := s[end..];
    assert s[end + 1..end + 3] == u[1..3] == l;
    assert s[end + 3] == u[3] == '.';
    assert s[end + 4..end + 14] == u[4..14];
    assert IsLower(s[end + 1]) && IsLower(s[end + 2]);
  }

  /** Before `_xx_YY.properties` the long locale group reads `xx_YY` */
  lemma GroupAtLong(s: string, end: nat, l: string)
    requires end <= |s| && s[end..] == "_" + l + ".properties" && |l| == 5 && IsLocaleCode(l)
    ensures LongLocaleAt(s, end) && s[end + 1..end + 6] == l
  {
    var u := s[end..];
    assert s[end + 1..end + 6] == u[1..6] == l;
    assert s[end + 7..end + 17] == u[7..17];
    assert IsLower(s[end + 1]) && IsLower(s[end + 2]) && s[end + 3] == '_';
    assert IsUpper(s[end + 4]) && IsUpper(s[end + 5]);
  }

  /** The part of the pattern after the marker reads a `.properties` file
      name back: the bundle name, and the locale unless it is `default`. */
  lemma TailOfFileName(s: string, b0: nat, b: string, l: string)
    requires FileNameAt(s, b0, b, l)
    requires PlainBundleName(b) && (l == "default" || IsLocaleCode(l))
    ensures Tail(s, b0) == Some((b0 + |b|, LocaleGroup(l)))
  {
    var end := b0 + |b|;
    assert DotFree(s, b0, end) by {
      FileNameChars(s, b0, b, l);
      forall k | b0 <= k < end ensures s[k] != '.' {
        assert s[k] == b[k - b0];
      }
    }
    forall e | b0 + 1 <= e < end ensures !AnyGroupAt(s, e) {
      NoGroupInsideBundle(s, b0, b, l, e);
    }
    TailFromSkips(s, b0, b0 + 1, end);
    assert Tail(s, b0) == TailFrom(s, b0, end);
    GroupAtBundleEnd(s, b0, b, l);
  }

  /** `path.join(directory, 'templates', 'resources', fileName)` of
      non-empty parts is their `/`-separated concatenation */
  lemma TargetPathShape(directory: string, fileName: string)
    requires directory != "" && fileName != ""
    ensures TargetPath(directory, fileName) == directory + "/templates/resources/" + fileName
  {
    var segs := [directory, "templates", "resources", fileName];
    assert segs[1..] == ["templates", "resources", fileName];
    assert segs[1..][1..] == ["resources", fileName];
    assert segs[1..][1..][1..] == [fileName];
    assert segs[1..][1..][1..][1..] == [];
    assert PathJoin([fileName]) == fileName;
    assert PathJoin(["resources", fileName]) == "resources" + "/" + fileName;
    assert PathJoin(["templates", "resources", fileName]) == "templates" + "/" + ("resources" + "/" + fileName);
    assert "templates" + "/" + ("resources" + "/" + fileName) == "templates/resources/" + fileName;
  }

  lemma NoSlashInFileName(b: string, l: string)
    requires PlainBundleName(b) && (l == "default" || IsLocaleCode(l))
    ensures forall j | 0 <= j < |FileName(b, l)| :: FileName(b, l)[j] != '/'
  {
    var t := FileName(b, l);
    var suffix := if l != "default" then "_" + l else "";
    assert t == b + suffix + ".properties";
    forall j | 0 <= j < |t| ensures t[j] != '/' {
      if j < |b| {
        assert t[j] == b[j];
      } else if j < |b| + |suffix| {
        assert t[j] == suffix[j - |b|];
        if j > |b| {
          assert suffix[j - |b|] == l[j - |b| - 1];
        }
      } else {
        assert t[j] == ".properties"[j - |b| - |suffix|];
      }
    }
  }

  /** With no `/` after the marker, the marker is the last one that fits */
  lemma LastMarkerIsIt(s: string, a: string, t: string)
    requires s == a + Marker + t
    requires forall j | 0 <= j < |t| :: t[j] != '/'
    requires Tail(s, |a| + |Marker|).Some?
    ensures LastMarkerBefore(s, |s|) == Some(|a|)
  {
    var m0 := |a|;
    var b0 := m0 + |Marker|;
    assert s[m0..m0 + |Marker|] == Marker;
    assert MarkerFits(s, m0);
    forall i | m0 < i < |s| ensures !MarkerFits(s, i) {
      if i + |Marker| <= |s| {
        assert s[i..i + |Marker|][30] == s[i + 30];
        assert s[i + 30] == t[i + 30 - b0];
      }
    }
  }

  /** The `/` before the cartridge name is the last one before the marker */
  lemma SlashBeforeCartridge(s: string, root: string, c: string, rest: string)
    requires s == root + "/" + c + rest
    requires c != "" && forall i | 0 <= i < |c| :: c[i] != '/'
    ensures LastIndexBefore(s, '/', |root| + |c|) == Some(|root|)
  {
    assert IsAt(s, |root|, '/');
    forall i | |root| < i < |root| + |c| ensures !IsAt(s, i, '/') {
      assert s[i] == c[i - |root| - 1];
    }
  }

  /** After the marker of a saved path the tail reads the file name back */
  lemma SavedPathTail(s: string, root: string, c: string, b: string, l: string)
    requires s == root + "/" + c + Marker + FileName(b, l)
    requires PlainBundleName(b) && (l == "default" || IsLocaleCode(l))
    ensures Tail(s, |root| + 1 + |c| + |Marker|) == Some((|root| + 1 + |c| + |Marker| + |b|, LocaleGroup(l)))
  {
    var b0 := |root| + 1 + |c| + |Marker|;
    assert s[b0..] == FileName(b, l);
    TailOfFileName(s, b0, b, l);
  }

  /** The marker of a saved path is the last one that fits */
  lemma SavedPathMarker(s: string, root: string, c: string, b: string, l: string)
    requires s == root + "/" + c + Marker + FileName(b, l)
    requires PlainBundleName(b) && (l == "default" || IsLocaleCode(l))
    ensures LastMarkerBefore(s, |s|) == Some(|root| + 1 + |c|)
  {
    var a := root + "/" + c;
    assert s == a + Marker + FileName(b, l);
    assert |a| == |root| + 1 + |c|;
    SavedPathTail(s, root, c, b, l);
    NoSlashInFileName(b, l);
    LastMarkerIsIt(s, a, FileName(b, l));
  }

  /** The origin read from a path whose capture groups are known */
  lemma PathOriginOfGroups(path: string, c: string, b: string, locale: Option<string>)
    requires DecodePropertiesPath(path) == Some((c, b, locale))
    ensures PathOrigin(path) == Origin(c, b, locale.GetOr("default"))
  {
  }

  /** A file `save` writes for bundle `b` and locale `l`, in the cartridge
      folder `root/c/cartridge`, is read back as belonging to cartridge
      `c`, bundle `b` and locale `l`, whatever `root` is. */
  lemma SavedPathOrigin(root: string, c: string, b: string, l: string)
    requires root != "" && c != "" && forall i | 0 <= i < |c| :: c[i] != '/'
    requires PlainBundleName(b) && (l == "default" || IsLocaleCode(l))
    ensures PathOrigin(TargetPath(root + "/" + c + "/cartridge", FileName(b, l))) == Origin(c, b, l)
  {
    var s := TargetPath(root + "/" + c + "/cartridge", FileName(b, l));
    var o, m, e := |root|, |root| + 1 + |c|, |root| + 1 + |c| + |Marker| + |b|;
    SavedPathMarkerAt(s, root, c, b, l);
    SavedPathSlashAt(s, root, c, b, l);
    SavedPathTailAt(s, root, c, b, l);
    SavedPathGroups(s, root, c, b, l);
    OriginFromParts(s, o, m, e, LocaleGroup(l), c, b);
  }

  /** `save`'s target path spelled out around the marker */
  lemma SavedPathShape(root: string, c: string, t: string)
    requires root != "" && t != ""
    ensures TargetPath(root + "/" + c + "/cartridge", t) == root + "/" + c + Marker + t
  {
    TargetPathShape(root + "/" + c + "/cartridge", t);
    MarkerSplits();
    assert root + "/" + c + "/cartridge" + "/templates/resources/" + t
        == root + "/" + c + ("/cartridge" + "/templates/resources/") + t;
  }

  lemma MarkerSplits()
    ensures "/cartridge" + "/templates/resources/" == Marker
  {
  }

  /** The last marker of a path `save` writes is the one after the cartridge name */
  lemma SavedPathMarkerAt(s: string, root: string, c: string, b: string, l: string)
    requires s == TargetPath(root + "/" + c + "/cartridge", FileName(b, l))
    requires root != ""
    requires PlainBundleName(b) && (l == "default" || IsLocaleCode(l))
    ensures LastMarkerBefore(s, |s|) == Some(|root| + 1 + |c|)
  {
    SavedPathShape(root, c, FileName(b, l));
    SavedPathMarker(s, root, c, b, l);
  }

  /** The last `/` before the marker of a path `save` writes ends the root */
  lemma SavedPathSlashAt(s: string, root: string, c: string, b: string, l: string)
    requires s == TargetPath(root + "/" + c + "/cartridge", FileName(b, l))
    requires root != "" && c != "" && forall i | 0 <= i < |c| :: c[i] != '/'
    ensures LastIndexBefore(s, '/', |root| + 1 + |c| - 1) == Some(|root|)
  {
    SavedPathShape(root, c, FileName(b, l));
    SavedPathSlash(s, root, c, Marker + FileName(b, l));
  }

  /** The file-name tail of a path `save` writes holds the bundle name and locale */
  lemma SavedPathTailAt(s: string, root: string, c: string, b: string, l: string)
    requires s == TargetPath(root + "/" + c + "/cartridge", FileName(b, l))
    requires root != ""
    requires PlainBundleName(b) && (l == "default" || IsLocaleCode(l))
    ensures Tail(s, |root| + 1 + |c| + |Marker|) == Some((|root| + 1 + |c| + |Marker| + |b|, LocaleGroup(l)))
  {
    SavedPathShape(root, c, FileName(b, l));
    SavedPathTail(s, root, c, b, l);
  }

  /** What the two groups hold on a path `save` writes */
  lemma SavedPathGroups(s: string, root: string, c: string, b: string, l: string)
    requires s == TargetPath(root + "/" + c + "/cartridge", FileName(b, l))
    requires root != "" && c != ""
    ensures |root| + 1 + |c| + |Marker| + |b| <= |s|
    ensures s[|root| + 1..|root| + 1 + |c|] == c
    ensures s[|root| + 1 + |c| + |Marker|..|root| + 1 + |c| + |Marker| + |b|] == b
  {
    var t := FileName(b, l);
    SavedPathShape(root, c, t);
    assert t[..|b|] == b;
    SavedPathSlices(s, root, c, Marker, t, b);
  }

  /** The `/` before the cartridge name of a saved path is the one the
      regex settles on */
  lemma SavedPathSlash(s: string, root: string, c: string, rest: string)
    requires s == root + "/" + c + rest
    requires c != "" && forall i | 0 <= i < |c| :: c[i] != '/'
    ensures LastIndexBefore(s, '/', |root| + 1 + |c| - 1) == Some(|root|)
  {
    SlashBeforeCartridge(s, root, c, rest);
  }

  /** The origin read from a path, given where the three searches stop and
      what the two groups hold */
  lemma OriginFromParts(s: string, o: nat, m: nat, e: nat, locale: Option<string>, c: string, b: string)
    requires LastMarkerBefore(s, |s|) == Some(m)
    requires LastIndexBefore(s, '/', m - 1) == Some(o) && o >= 1
    requires Tail(s, m + |Marker|) == Some((e, locale))
    requires o + 1 <= m && m + |Marker| <= e <= |s| && s[o + 1..m] == c && s[m + |Marker|..e] == b
    ensures PathOrigin(s) == Origin(c, b, locale.GetOr("default"))
  {
    MatchPropertiesFrom(s, o, m, e, locale);
    DecodeFromMatch(s, o, m, e, locale, c, b);
    PathOriginOfGroups(s, c, b, locale);
  }

  /** The parts of `root/c` + `mid` + `t` where `t` starts with `b` */
  lemma SavedPathSlices(s: string, root: string, c: string, mid: string, t: string, b: string)
    requires s == root + "/" + c + mid + t && |b| <= |t| && t[..|b|] == b
    ensures var m := |root| + 1 + |c|;
      s[|root| + 1..m] == c && s[m + |mid|..m + |mid| + |b|] == b
  {
    var m := |root| + 1 + |c|;
    assert s[m + |mid|..] == t;
    assert s[m + |mid|..m + |mid| + |b|] == s[m + |mid|..][..|b|];
  }
}
