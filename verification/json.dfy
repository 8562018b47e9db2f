/** `src/io/json.ts`: `JsonExporter.export` turns a pack into one nested
    object — cartridge name, then bundle name, then resource key, then
    locale, then text — that holds only the entries the exporter includes;
    `JsonParser.parse` is a stub that returns an empty pack. */
module JsonIo {
  import opened Wrappers
  import opened Seqs
  import opened OrderedMaps
  import opened BundleEntries
  import opened Bundles
  import opened Cartridges
  import opened ResourcePacks
  import opened Exporters

  /** `{ [locale: string]: string }` */
  type LocaleTexts = OrderedMap<string, string>
  /** `{ [key: string]: { [locale: string]: string } }` */
  type BundleJson = OrderedMap<string, LocaleTexts>
  /** `{ [bundleName: string]: ... }` */
  type CartridgeJson = OrderedMap<string, BundleJson>
  /** `{ [cartridgeName: string]: ... }` */
  type PackJson = OrderedMap<string, CartridgeJson>

  // ---------------------------------------------------------------------
  // The object one entry becomes
  // ---------------------------------------------------------------------

  /** Filling `obj[c][b][key]` for the given locales in order: a locale is
      set to `getTranslation(locale)` unless that is `null`. */
  function EntryTexts(e: Entry, locales: seq<string>): LocaleTexts
    decreases |locales|
  {
    if locales == [] then Empty()
    else
      var n := |locales| - 1;
      var acc := EntryTexts(e, locales[..n]);
      match GetTranslation(e, locales[n], None)
      case Some(t) => Put(acc, locales[n], t)
      case None => acc
  }

  /** The object an included entry becomes, over `entry.getLocales()` */
  function EntryJson(e: Entry): LocaleTexts {
    EntryTexts(e, Locales(e))
  }

  /** A locale holds a text exactly when it was visited and the entry has a
      translation for it. */
  lemma {:induction false} EntryTextsGet(e: Entry, locales: seq<string>, l: string)
    ensures Get(EntryTexts(e, locales), l) == if l in locales then GetTranslation(e, l, None) else None
    decreases |locales|
  {
    if locales != [] {
      var n := |locales| - 1;
      assert locales == locales[..n] + [locales[n]];
      EntryTextsGet(e, locales[..n], l);
    }
  }

  /** Visiting distinct locales the entry all holds puts them in visiting
      order. */
  lemma {:induction false} EntryTextsKeys(e: Entry, locales: seq<string>)
    requires Distinct(locales)
    requires forall i | 0 <= i < |locales| :: locales[i] in e.dict.items
    ensures EntryTexts(e, locales).keys == locales
    decreases |locales|
  {
    if locales != [] {
      var n := |locales| - 1;
      DistinctSnoc(locales[..n], locales[n]);
      assert locales == locales[..n] + [locales[n]];
      EntryTextsKeys(e, locales[..n]);
    }
  }

  /** The entry's object lists exactly the entry's locales, in the entry's
      order, each mapped to the entry's text for it. */
  lemma EntryJsonIs(e: Entry)
    ensures EntryJson(e).keys == Locales(e)
    ensures forall l :: Get(EntryJson(e), l) ==
                        if l in e.dict.items then Some(e.dict.items[l].text) else None
  {
    EntryTextsKeys(e, e.dict.keys);
    forall l
      ensures Get(EntryJson(e), l) == if l in e.dict.items then Some(e.dict.items[l].text) else None
    {
      EntryTextsGet(e, e.dict.keys, l);
    }
  }

  // ---------------------------------------------------------------------
  // The included entries in visiting order
  // ---------------------------------------------------------------------

  /** One included entry, with the names of the cartridge and bundle it was
      met in */
  datatype JsonItem = JsonItem(cartridge: string, bundle: string, entry: Entry)

  /** Where an item is written: `obj[cartridge][bundle][entry.key]` */
  function Address(it: JsonItem): (string, string, string) {
    (it.cartridge, it.bundle, it.entry.key)
  }

  function ItemsOf(cartridgeName: string, bundleName: string, es: seq<Entry>): (its: seq<JsonItem>)
    ensures |its| == |es|
    ensures forall i | 0 <= i < |es| :: its[i] == JsonItem(cartridgeName, bundleName, es[i])
  {
    seq(|es|, i requires 0 <= i < |es| => JsonItem(cartridgeName, bundleName, es[i]))
  }

  /** The `bundle.getEntries().forEach` loop, keeping the entries that pass
      `shouldInclude` */
  function BundleItems(o: ExportOptions, cartridgeName: string): Bundle -> seq<JsonItem> {
    (b: Bundle) => ItemsOf(cartridgeName, b.name, Included(o, GetEntries(b)))
  }

  /** The `cartridge.getBundles().forEach` loop */
  function CartridgeItems(o: ExportOptions): Cartridge -> seq<JsonItem> {
    (c: Cartridge) => FlatMap(GetBundles(c), BundleItems(o, c.name))
  }

  /** The `pack.getCartridges().forEach` loop: every included entry in the
      order `export` visits it */
  function ExportItems(o: ExportOptions, p: Pack): seq<JsonItem> {
    FlatMap(GetCartridges(p), CartridgeItems(o))
  }

  /** `e` is the entry bundle `b` stores under its key, and is included */
  predicate IncludedEntry(o: ExportOptions, b: Bundle, e: Entry) {
    e.key in b.entries.items && b.entries.items[e.key] == e && ShouldInclude(o, e)
  }

  /** `it` names an included entry of the pack, with the names it is stored
      under */
  predicate PackItem(o: ExportOptions, p: Pack, it: JsonItem) {
    && it.cartridge in p.cartridges.items
    && it.bundle in p.cartridges.items[it.cartridge].bundles.items
    && IncludedEntry(o, p.cartridges.items[it.cartridge].bundles.items[it.bundle], it.entry)
  }

  lemma BundleItemsHave(o: ExportOptions, cartridgeName: string, b: Bundle, it: JsonItem)
    requires Bundles.WellFormed(b)
    ensures it in BundleItems(o, cartridgeName)(b) <==>
      it.cartridge == cartridgeName && it.bundle == b.name && IncludedEntry(o, b, it.entry)
  {
    var es := GetEntries(b);
    var its := BundleItems(o, cartridgeName)(b);
    assert its == ItemsOf(cartridgeName, b.name, Included(o, es));
    if it.cartridge == cartridgeName && it.bundle == b.name && IncludedEntry(o, b, it.entry) {
      var i := FirstIndex(b.entries.keys, it.entry.key);
      assert it.entry == es[i];
      var inc := Included(o, es);
      var j := FirstIndex(inc, it.entry);
      assert its[j] == it;
    }
    if it in its {
      var j :| 0 <= j < |its| && its[j] == it;
      var inc := Included(o, es);
      assert inc[j] in inc;
      var i :| 0 <= i < |es| && es[i] == inc[j];
      assert b.entries.keys[i] in b.entries.items;
    }
  }

  lemma CartridgeItemsHave(o: ExportOptions, c: Cartridge, it: JsonItem)
    requires Cartridges.WellFormed(c)
    ensures it in CartridgeItems(o)(c) <==>
      && it.cartridge == c.name
      && it.bundle in c.bundles.items
      && IncludedEntry(o, c.bundles.items[it.bundle], it.entry)
  {
    var bs := GetBundles(c);
    FlatMapHas(bs, BundleItems(o, c.name), it);
    if it.bundle in c.bundles.items {
      var i := FirstIndex(c.bundles.keys, it.bundle);
      BundleItemsHave(o, c.name, bs[i], it);
    }
    if it in CartridgeItems(o)(c) {
      var i :| 0 <= i < |bs| && it in BundleItems(o, c.name)(bs[i]);
      assert c.bundles.keys[i] in c.bundles.items;
      BundleItemsHave(o, c.name, bs[i], it);
    }
  }

  /** The visited items are exactly the included entries of the pack, each
      with the cartridge and bundle names it is stored under. */
  lemma ExportItemsHave(o: ExportOptions, p: Pack, it: JsonItem)
    requires ResourcePacks.WellFormed(p)
    ensures it in ExportItems(o, p) <==> PackItem(o, p, it)
  {
    var cs := GetCartridges(p);
    FlatMapHas(cs, CartridgeItems(o), it);
    if it.cartridge in p.cartridges.items {
      var i := FirstIndex(p.cartridges.keys, it.cartridge);
      CartridgeItemsHave(o, cs[i], it);
    }
    if it in ExportItems(o, p) {
      var i :| 0 <= i < |cs| && it in CartridgeItems(o)(cs[i]);
      assert p.cartridges.keys[i] in p.cartridges.items;
      CartridgeItemsHave(o, cs[i], it);
    }
  }

  // ---------------------------------------------------------------------
  // Writing the object
  // ---------------------------------------------------------------------

  /** The body of the `if (this.shouldInclude(entry))` branch:
      `obj[c] = obj[c] || {}`, `obj[c][b] = obj[c][b] || {}`, then
      `obj[c][b][key]` set to the entry's object. An empty object is truthy,
      so an existing one is kept. */
  function Store(obj: PackJson, it: JsonItem): PackJson {
    var co := Get(obj, it.cartridge).GetOr(Empty());
    var bo := Get(co, it.bundle).GetOr(Empty());
    Put(obj, it.cartridge, Put(co, it.bundle, Put(bo, it.entry.key, EntryJson(it.entry))))
  }

  /** Storing each item in turn */
  function StoreAll(obj: PackJson, its: seq<JsonItem>): PackJson
    decreases |its|
  {
    if its == [] then obj else Store(StoreAll(obj, its[..|its| - 1]), its[|its| - 1])
  }

  /** `JsonExporter.export` */
  function Export(o: ExportOptions, p: Pack): PackJson {
    StoreAll(Empty(), ExportItems(o, p))
  }

  /** `obj[c][b][k]`, or nothing when some level is missing */
  function Lookup(obj: PackJson, c: string, b: string, k: string): Option<LocaleTexts> {
    match Get(obj, c)
    case None => None
    case Some(co) =>
      match Get(co, b)
      case None => None
      case Some(bo) => Get(bo, k)
  }

  predicate HasCartridge(obj: PackJson, c: string) {
    c in obj.items
  }

  predicate HasBundle(obj: PackJson, c: string, b: string) {
    c in obj.items && b in obj.items[c].items
  }

  /** A missing level reads as an empty object */
  lemma LookupThroughEmpty(obj: PackJson, c: string, b: string, k: string)
    ensures Lookup(obj, c, b, k) == Get(Get(Get(obj, c).GetOr(Empty()), b).GetOr(Empty()), k)
  {
  }

  /** Storing an item sets its own address and leaves every other address
      as it was. */
  lemma StoreLookup(obj: PackJson, it: JsonItem, c: string, b: string, k: string)
    ensures Lookup(Store(obj, it), c, b, k) ==
      if Address(it) == (c, b, k) then Some(EntryJson(it.entry)) else Lookup(obj, c, b, k)
  {
    var co := Get(obj, it.cartridge).GetOr(Empty());
    var bo := Get(co, it.bundle).GetOr(Empty());
    var bo' := Put(bo, it.entry.key, EntryJson(it.entry));
    var co' := Put(co, it.bundle, bo');
    assert Store(obj, it) == Put(obj, it.cartridge, co');
    LookupThroughEmpty(obj, c, b, k);
    LookupThroughEmpty(Store(obj, it), c, b, k);
    GetPut(obj, it.cartridge, co', c);
    if c == it.cartridge {
      GetPut(co, it.bundle, bo', b);
      if b == it.bundle {
        GetPut(bo, it.entry.key, EntryJson(it.entry), k);
      }
    }
  }

  lemma HasThroughEmpty(obj: PackJson, c: string, b: string)
    ensures HasCartridge(obj, c) <==> Get(obj, c).Some?
    ensures HasBundle(obj, c, b) <==> Get(Get(obj, c).GetOr(Empty()), b).Some?
  {
  }

  /** Storing an item adds its cartridge and bundle and nothing else. */
  lemma StoreHas(obj: PackJson, it: JsonItem, c: string, b: string)
    ensures HasCartridge(Store(obj, it), c) <==> HasCartridge(obj, c) || it.cartridge == c
    ensures HasBundle(Store(obj, it), c, b) <==> HasBundle(obj, c, b) || (it.cartridge == c && it.bundle == b)
  {
    var co := Get(obj, it.cartridge).GetOr(Empty());
    var bo' := Put(Get(co, it.bundle).GetOr(Empty()), it.entry.key, EntryJson(it.entry));
    var co' := Put(co, it.bundle, bo');
    assert Store(obj, it) == Put(obj, it.cartridge, co');
    HasThroughEmpty(obj, c, b);
    HasThroughEmpty(Store(obj, it), c, b);
    GetPut(obj, it.cartridge, co', c);
    if c == it.cartridge {
      GetPut(co, it.bundle, bo', b);
    }
  }

  /** Each address holds the object of the last item stored there */
  lemma {:induction false} StoreAllLookup(obj: PackJson, its: seq<JsonItem>, c: string, b: string, k: string)
    ensures Lookup(StoreAll(obj, its), c, b, k) ==
      match LastKeyed(its, Address, (c, b, k))
      case Some(it) => Some(EntryJson(it.entry))
      case None => Lookup(obj, c, b, k)
    decreases |its|
  {
    if its != [] {
      var n := |its| - 1;
      StoreAllLookup(obj, its[..n], c, b, k);
      StoreLookup(StoreAll(obj, its[..n]), its[n], c, b, k);
    }
  }

  function InCartridge(c: string): JsonItem -> bool {
    (it: JsonItem) => it.cartridge == c
  }

  function InBundle(c: string, b: string): JsonItem -> bool {
    (it: JsonItem) => it.cartridge == c && it.bundle == b
  }

  /** A cartridge or bundle object exists exactly when it existed before or
      some stored item belongs to it. */
  lemma {:induction false} StoreAllHas(obj: PackJson, its: seq<JsonItem>, c: string, b: string)
    ensures HasCartridge(StoreAll(obj, its), c) <==> HasCartridge(obj, c) || Any(its, InCartridge(c))
    ensures HasBundle(StoreAll(obj, its), c, b) <==> HasBundle(obj, c, b) || Any(its, InBundle(c, b))
    decreases |its|
  {
    if its != [] {
      var n := |its| - 1;
      StoreAllHas(obj, its[..n], c, b);
      StoreHas(StoreAll(obj, its[..n]), its[n], c, b);
      AnySnoc(its, InCartridge(c));
      AnySnoc(its, InBundle(c, b));
    }
  }

  // ---------------------------------------------------------------------
  // What the exported object holds
  // ---------------------------------------------------------------------

  /** The entry stored at `c`/`b`/`k` of the pack, when there is one */
  function PackEntry(p: Pack, c: string, b: string, k: string): Option<Entry> {
    if c in p.cartridges.items && b in p.cartridges.items[c].bundles.items
       && k in p.cartridges.items[c].bundles.items[b].entries.items
    then Some(p.cartridges.items[c].bundles.items[b].entries.items[k])
    else None
  }

  /** `obj[c][b][k]` is the object of the entry stored under that key when
      it is included, and absent when there is no such entry or it is
      excluded; so removing one entry from the export leaves every other
      address unchanged. */
  lemma ExportLookup(o: ExportOptions, p: Pack, c: string, b: string, k: string)
    requires ResourcePacks.WellFormed(p)
    ensures Lookup(Export(o, p), c, b, k) ==
      match PackEntry(p, c, b, k)
      case Some(e) => if ShouldInclude(o, e) then Some(EntryJson(e)) else None
      case None => None
  {
    var its := ExportItems(o, p);
    StoreAllLookup(Empty(), its, c, b, k);
    match LastKeyed(its, Address, (c, b, k))
    case Some(it) =>
      ExportItemsHave(o, p, it);
    case None =>
      if PackEntry(p, c, b, k).Some? && ShouldInclude(o, PackEntry(p, c, b, k).value) {
        ExportItemsHave(o, p, JsonItem(c, b, PackEntry(p, c, b, k).value));
        assert false;
      }
  }

  /** Bundle `b` of cartridge `c` has some entry that passes `shouldInclude` */
  predicate BundleIncludesSome(o: ExportOptions, p: Pack, c: string, b: string) {
    && c in p.cartridges.items
    && b in p.cartridges.items[c].bundles.items
    && exists k | k in p.cartridges.items[c].bundles.items[b].entries.items ::
         ShouldInclude(o, p.cartridges.items[c].bundles.items[b].entries.items[k])
  }

  lemma AnyInBundle(o: ExportOptions, p: Pack, c: string, b: string)
    requires ResourcePacks.WellFormed(p)
    ensures Any(ExportItems(o, p), InBundle(c, b)) <==> BundleIncludesSome(o, p, c, b)
  {
    var its := ExportItems(o, p);
    if Any(its, InBundle(c, b)) {
      var i :| 0 <= i < |its| && InBundle(c, b)(its[i]);
      ExportItemsHave(o, p, its[i]);
      var e := its[i].entry;
      assert e.key in p.cartridges.items[c].bundles.items[b].entries.items;
    }
    if BundleIncludesSome(o, p, c, b) {
      var k :| k in p.cartridges.items[c].bundles.items[b].entries.items &&
        ShouldInclude(o, p.cartridges.items[c].bundles.items[b].entries.items[k]);
      var it := JsonItem(c, b, p.cartridges.items[c].bundles.items[b].entries.items[k]);
      ExportItemsHave(o, p, it);
      var i :| 0 <= i < |its| && its[i] == it;
      assert InBundle(c, b)(its[i]);
    }
  }

  lemma AnyInCartridge(o: ExportOptions, p: Pack, c: string)
    requires ResourcePacks.WellFormed(p)
    ensures Any(ExportItems(o, p), InCartridge(c)) <==>
      c in p.cartridges.items &&
      exists b | b in p.cartridges.items[c].bundles.items :: BundleIncludesSome(o, p, c, b)
  {
    var its := ExportItems(o, p);
    if Any(its, InCartridge(c)) {
      var i :| 0 <= i < |its| && InCartridge(c)(its[i]);
      AnyInBundle(o, p, c, its[i].bundle);
      assert InBundle(c, its[i].bundle)(its[i]);
    }
    if c in p.cartridges.items &&
       exists b | b in p.cartridges.items[c].bundles.items :: BundleIncludesSome(o, p, c, b) {
      var b :| b in p.cartridges.items[c].bundles.items && BundleIncludesSome(o, p, c, b);
      AnyInBundle(o, p, c, b);
      var i :| 0 <= i < |its| && InBundle(c, b)(its[i]);
      assert InCartridge(c)(its[i]);
    }
  }

  /** A bundle key appears exactly when the bundle has an included entry,
      and a cartridge key exactly when one of its bundles does; a cartridge
      or bundle whose entries are all excluded is left out altogether. */
  lemma ExportKeys(o: ExportOptions, p: Pack, c: string, b: string)
    requires ResourcePacks.WellFormed(p)
    ensures HasBundle(Export(o, p), c, b) <==> BundleIncludesSome(o, p, c, b)
    ensures HasCartridge(Export(o, p), c) <==>
      c in p.cartridges.items &&
      exists b' | b' in p.cartridges.items[c].bundles.items :: BundleIncludesSome(o, p, c, b')
  {
    StoreAllHas(Empty(), ExportItems(o, p), c, b);
    AnyInBundle(o, p, c, b);
    AnyInCartridge(o, p, c);
  }

  // ---------------------------------------------------------------------
  // JsonParser
  // ---------------------------------------------------------------------

  /** `JsonParser.parse`: not implemented; whatever the file and base
      directory, the result is a new, empty pack. */
  function Parse<T>(file: T, baseDir: string): (r: Pack)
    ensures r.cartridges.keys == [] && r.cartridges.items == map[]
    ensures ResourcePacks.WellFormed(r)
  {
    EmptyPack()
  }
}
