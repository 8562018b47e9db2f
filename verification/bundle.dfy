/** `src/bundle.ts`: the aggregated content of every `.properties` file of
    one bundle — its locales in first-seen order and its entries by key. */
module Bundles {
  import opened Wrappers
  import opened Seqs
  import opened OrderedMaps
  import opened Properties
  import opened BundleEntries
  import opened JsStrings

  datatype Bundle = Bundle(name: string, locales: seq<string>, entries: OrderedMap<string, Entry>)

  /** The invariant every reachable bundle keeps: its locale list is
      duplicate-free, each entry is stored under its own key, and every
      locale an entry holds is one of the bundle's locales. */
  predicate WellFormed(b: Bundle) {
    && Distinct(b.locales)
    && (forall k | k in b.entries.items :: b.entries.items[k].key == k)
    && (forall k | k in b.entries.items ::
          forall l | l in b.entries.items[k].dict.items :: l in b.locales)
  }

  /** `registerLocales`: `[...new Set([...locales, ...added])]` */
  function RegisterLocales(current: seq<string>, added: seq<string>): (r: seq<string>)
    ensures Distinct(r)
    ensures forall l :: l in r <==> l in current || l in added
    ensures Distinct(current) ==> |current| <= |r| && r[..|current|] == current
    ensures Distinct(current) ==> r == AddUnique(current, added)
  {
    DedupeAppend(current, added);
    Dedupe(current + added)
  }

  /** The keys of a batch of resources, in order */
  function KeysOf(rs: seq<Property>): (ks: seq<string>)
    ensures |ks| == |rs|
    ensures forall i | 0 <= i < |rs| :: ks[i] == rs[i].key
    decreases |rs|
  {
    if rs == [] then [] else [rs[0].key] + KeysOf(rs[1..])
  }

  /** The last resource in the batch with key `k` */
  function LastWithKey(rs: seq<Property>, k: string): (p: Property)
    requires k in KeysOf(rs)
    ensures p in rs && p.key == k
    decreases |rs|
  {
    if k in KeysOf(rs[1..]) then LastWithKey(rs[1..], k) else rs[0]
  }

  /** The `forEach` of `addTranslations`: each resource either registers
      into the existing entry for its key or creates a new entry; new keys
      are appended in first-seen order and keys outside the batch are left
      alone. */
  function MergeResources(entries: OrderedMap<string, Entry>, locale: string, rs: seq<Property>)
    : (r: OrderedMap<string, Entry>)
    ensures r.keys == AddUnique(entries.keys, KeysOf(rs))
    ensures forall k | k !in KeysOf(rs) :: Get(r, k) == Get(entries, k)
    decreases |rs|
  {
    if rs == [] then entries
    else
      assert KeysOf(rs)[1..] == KeysOf(rs[1..]);
      MergeResources(Put(entries, rs[0].key, MergeOne(entries, locale, rs[0])), locale, rs[1..])
  }

  /** The entry `addTranslations` stores for one resource */
  function MergeOne(entries: OrderedMap<string, Entry>, locale: string, res: Property): Entry {
    match Get(entries, res.key)
    case None => NewEntry(res.key, Some(locale), Some(res))
    case Some(e) => RegisterProperty(e, locale, res)
  }

  /** Whether `addTranslations(locale, rs)` leaves a translation for
      `locale` under key `k`. A truthy locale is always registered. The
      empty locale is registered only through `registerProperty`, that is
      when `k` already had an entry or occurs again later in the batch: a
      new entry registers nothing for a falsy locale. */
  predicate StoresTranslation(entries: OrderedMap<string, Entry>, locale: string, rs: seq<Property>, k: string) {
    locale != "" || k in entries.items || multiset(KeysOf(rs))[k] > 1
  }

  /** What `addTranslations` leaves under a key of the batch: the entry's
      translation for `locale` is the last resource with that key when
      `StoresTranslation` holds and absent otherwise, its other locales are
      those it had before, and it is still stored under its own key. */
  lemma {:induction false} MergedEntry(entries: OrderedMap<string, Entry>, locale: string, rs: seq<Property>, k: string)
    requires k in KeysOf(rs)
    ensures var r := MergeResources(entries, locale, rs);
      && k in r.items
      && r.items[k].key == (if k in entries.items then entries.items[k].key else k)
      && (StoresTranslation(entries, locale, rs, k) ==>
            var p := LastWithKey(rs, k); Get(r.items[k].dict, locale) == Some(Resource(Some(p), p.value)))
      && (!StoresTranslation(entries, locale, rs, k) ==> Get(r.items[k].dict, locale) == None)
      && (forall l | l != locale ::
            Get(r.items[k].dict, l) == (if k in entries.items then Get(entries.items[k].dict, l) else None))
    decreases |rs|
  {
    var e0 := MergeOne(entries, locale, rs[0]);
    var entries' := Put(entries, rs[0].key, e0);
    assert MergeResources(entries, locale, rs) == MergeResources(entries', locale, rs[1..]) by {
      assert KeysOf(rs)[1..] == KeysOf(rs[1..]);
    }
    assert multiset(KeysOf(rs))[k] == (if rs[0].key == k then 1 else 0) + multiset(KeysOf(rs[1..]))[k] by {
      assert KeysOf(rs) == [rs[0].key] + KeysOf(rs[1..]);
    }
    MergeOneFacts(entries, locale, rs[0]);
    if k in KeysOf(rs[1..]) {
      MergedEntry(entries', locale, rs[1..], k);
      assert StoresTranslation(entries, locale, rs, k) == StoresTranslation(entries', locale, rs[1..], k);
      assert LastWithKey(rs, k) == LastWithKey(rs[1..], k);
      assert k in entries'.items <==> k in entries.items || k == rs[0].key;
      assert k in entries'.items ==> entries'.items[k] == if k == rs[0].key then e0 else entries.items[k];
    } else {
      assert k == rs[0].key by {
        assert KeysOf(rs) == [rs[0].key] + KeysOf(rs[1..]);
      }
      assert Get(MergeResources(entries', locale, rs[1..]), k) == Get(entries', k);
      assert LastWithKey(rs, k) == rs[0];
    }
  }

  /** The entry `addTranslations` stores for a single resource */
  lemma MergeOneFacts(entries: OrderedMap<string, Entry>, locale: string, res: Property)
    ensures var e := MergeOne(entries, locale, res);
      && e.key == (if res.key in entries.items then entries.items[res.key].key else res.key)
      && (locale != "" || res.key in entries.items ==> Get(e.dict, locale) == Some(Resource(Some(res), res.value)))
      && (locale == "" && res.key !in entries.items ==> Get(e.dict, locale) == None)
      && (forall l | l != locale ::
            Get(e.dict, l) == (if res.key in entries.items then Get(entries.items[res.key].dict, l) else None))
  {
  }

  /** `addTranslations(locale, resources)` */
  function AddTranslations(b: Bundle, locale: string, resources: seq<Property>): (r: Bundle)
    ensures r.name == b.name
    ensures locale in r.locales
    ensures forall l :: l in r.locales <==> l in b.locales || l == locale
    ensures Distinct(b.locales) ==> r.locales == AddUnique(b.locales, [locale])
    ensures r.entries.keys == AddUnique(b.entries.keys, KeysOf(resources))
    ensures forall k | k !in KeysOf(resources) :: Get(r.entries, k) == Get(b.entries, k)
  {
    Bundle(b.name, RegisterLocales(b.locales, [locale]), MergeResources(b.entries, locale, resources))
  }

  /** Every key of the batch has an entry; when `StoresTranslation` holds
      (always for a truthy locale) its translation is the last resource with
      that key, raw line included, and otherwise it has none for `locale`;
      the entry's other locales are untouched. */
  lemma AddTranslationsEntries(b: Bundle, locale: string, resources: seq<Property>)
    ensures var r := AddTranslations(b, locale, resources);
      forall k | k in KeysOf(resources) ::
        && k in r.entries.items
        && (StoresTranslation(b.entries, locale, resources, k) ==>
              var p := LastWithKey(resources, k);
              GetTranslation(r.entries.items[k], locale, None) == Some(p.value)
              && r.entries.items[k].dict.items[locale].raw == Some(p))
        && (!StoresTranslation(b.entries, locale, resources, k) ==> locale !in r.entries.items[k].dict.items)
        && (forall l | l != locale ::
              Get(r.entries.items[k].dict, l) == (if k in b.entries.items then Get(b.entries.items[k].dict, l) else None))
  {
    forall k | k in KeysOf(resources) {
      MergedEntry(b.entries, locale, resources, k);
    }
  }

  /** A file whose path names no locale is added under the empty locale: a
      new key seen once in the batch gets no translation for it */
  lemma EmptyLocaleSingleKey(b: Bundle, p: Property)
    requires p.key !in b.entries.items
    ensures "" !in AddTranslations(b, "", [p]).entries.items[p.key].dict.items
  {
    assert KeysOf([p]) == [p.key];
    assert multiset(KeysOf([p]))[p.key] == 1;
    MergedEntry(b.entries, "", [p], p.key);
  }

  /** ... while a new key repeated in the batch gets its later resource
      registered under the empty locale */
  lemma EmptyLocaleRepeatedKey(b: Bundle, p: Property, q: Property)
    requires p.key !in b.entries.items && q.key == p.key
    ensures Get(AddTranslations(b, "", [p, q]).entries.items[p.key].dict, "") == Some(Resource(Some(q), q.value))
  {
    assert KeysOf([p, q]) == [p.key, p.key];
    assert multiset(KeysOf([p, q]))[p.key] == 2;
    assert LastWithKey([p, q], p.key) == q by {
      assert [p, q][1..] == [q];
    }
    MergedEntry(b.entries, "", [p, q], p.key);
  }

  /** `queueEntry(entry)`: adopts the entry wholesale under its key and
      unions its locales into the bundle's. */
  function QueueEntry(b: Bundle, e: Entry): (r: Bundle)
    ensures r.name == b.name
    ensures Get(r.entries, e.key) == Some(e)
    ensures forall k | k != e.key :: Get(r.entries, k) == Get(b.entries, k)
    ensures e.key in b.entries.items ==> r.entries.keys == b.entries.keys
    ensures e.key !in b.entries.items ==> r.entries.keys == b.entries.keys + [e.key]
    ensures forall l :: l in r.locales <==> l in b.locales || l in Locales(e)
    ensures Distinct(b.locales) ==> r.locales == AddUnique(b.locales, Locales(e))
  {
    Bundle(b.name, RegisterLocales(b.locales, Locales(e)), Put(b.entries, e.key, e))
  }

  /** `new Bundle(name, locale?, resources?)`: translations are added only
      when the locale is truthy and a resource list is given. */
  function NewBundle(name: string, locale: Option<string>, resources: Option<seq<Property>>): (r: Bundle)
    ensures r.name == name
    ensures Truthy(locale) && resources.Some? ==>
      && r.locales == [locale.value]
      && r.entries.keys == Dedupe(KeysOf(resources.value))
    ensures !(Truthy(locale) && resources.Some?) ==> r.locales == [] && r.entries.keys == []
  {
    var b := Bundle(name, [], Empty());
    if Truthy(locale) && resources.Some? then
      assert AddUnique([], [locale.value]) == AddUnique([locale.value], []);
      AddTranslations(b, locale.value, resources.value)
    else b
  }

  /** `getEntries`: `Object.values(entries)` */
  function GetEntries(b: Bundle): (es: seq<Entry>)
    ensures |es| == |b.entries.keys|
    ensures forall i | 0 <= i < |es| :: es[i] == b.entries.items[b.entries.keys[i]]
  {
    Values(b.entries)
  }

  /** `getEntryCount`: the number of distinct keys */
  function EntryCount(b: Bundle): (n: nat)
    ensures n == |b.entries.items.Keys|
  {
    SizeIsCardinality(b.entries);
    |GetEntries(b)|
  }

  // ---------------------------------------------------------------------
  // The invariant is kept by every operation
  // ---------------------------------------------------------------------

  lemma NewBundleWellFormed(name: string, locale: Option<string>, resources: Option<seq<Property>>)
    ensures WellFormed(NewBundle(name, locale, resources))
  {
    if Truthy(locale) && resources.Some? {
      AddTranslationsWellFormed(Bundle(name, [], Empty()), locale.value, resources.value);
    }
  }

  lemma AddTranslationsWellFormed(b: Bundle, locale: string, resources: seq<Property>)
    requires WellFormed(b)
    ensures WellFormed(AddTranslations(b, locale, resources))
  {
    var r := AddTranslations(b, locale, resources);
    forall k | k in r.entries.items
      ensures r.entries.items[k].key == k
      ensures forall l | l in r.entries.items[k].dict.items :: l in r.locales
    {
      if k in KeysOf(resources) {
        MergedEntry(b.entries, locale, resources, k);
        forall l | l in r.entries.items[k].dict.items
          ensures l in r.locales
        {
          if l != locale {
            assert Get(r.entries.items[k].dict, l).Some?;
          }
        }
      } else {
        assert Get(r.entries, k) == Get(b.entries, k);
      }
    }
  }

  lemma QueueEntryWellFormed(b: Bundle, e: Entry)
    requires WellFormed(b)
    ensures WellFormed(QueueEntry(b, e))
  {
  }

  datatype BundleOp =
    | AddTranslationsOp(locale: string, resources: seq<Property>)
    | QueueEntryOp(entry: Entry)

  function ApplyBundleOp(b: Bundle, op: BundleOp): Bundle {
    match op
    case AddTranslationsOp(l, rs) => AddTranslations(b, l, rs)
    case QueueEntryOp(e) => QueueEntry(b, e)
  }

  function ApplyBundleOps(b: Bundle, ops: seq<BundleOp>): Bundle
    decreases |ops|
  {
    if ops == [] then b else ApplyBundleOps(ApplyBundleOp(b, ops[0]), ops[1..])
  }

  lemma BundleOpKeepsInvariant(b: Bundle, op: BundleOp)
    requires WellFormed(b)
    ensures var r := ApplyBundleOp(b, op);
      WellFormed(r) && |b.locales| <= |r.locales| && r.locales[..|b.locales|] == b.locales
  {
    match op
    case AddTranslationsOp(l, rs) => AddTranslationsWellFormed(b, l, rs);
    case QueueEntryOp(e) => QueueEntryWellFormed(b, e);
  }

  /** After any sequence of `addTranslations` / `queueEntry` calls the
      locale list has only grown at its end, and every entry's locales are
      among the bundle's. */
  lemma {:induction false} BundleOpsKeepInvariant(b: Bundle, ops: seq<BundleOp>)
    requires WellFormed(b)
    ensures var r := ApplyBundleOps(b, ops);
      WellFormed(r) && |b.locales| <= |r.locales| && r.locales[..|b.locales|] == b.locales
    decreases |ops|
  {
    if ops != [] {
      var b' := ApplyBundleOp(b, ops[0]);
      BundleOpKeepsInvariant(b, ops[0]);
      BundleOpsKeepInvariant(b', ops[1..]);
      var r := ApplyBundleOps(b', ops[1..]);
      assert r.locales[..|b.locales|] == r.locales[..|b'.locales|][..|b.locales|];
    }
  }

  // ---------------------------------------------------------------------
  // save: the plan of file writes, without the I/O
  // ---------------------------------------------------------------------

  /** `name + (locale != 'default' ? '_' + locale : '') + '.properties'` */
  function FileName(name: string, locale: string): string {
    name + (if locale != "default" then "_" + locale else "") + ".properties"
  }

  /** `path.join` of the given segments, dropping empty ones */
  function PathJoin(segments: seq<string>): string
    decreases |segments|
  {
    if segments == [] then ""
    else if segments[0] == "" then PathJoin(segments[1..])
    else
      var rest := PathJoin(segments[1..]);
      if rest == "" then segments[0] else segments[0] + "/" + rest
  }

  /** `path.join(directory, 'templates', 'resources', fileName)` */
  function TargetPath(directory: string, fileName: string): string {
    PathJoin([directory, "templates", "resources", fileName])
  }

  datatype Upsert = Upsert(key: string, text: string)

  /** One target file: where it is, what is upserted, and the `changes`
      count reported for it. */
  datatype FilePlan = FilePlan(path: string, upserts: seq<Upsert>, changes: nat)

  /** Every entry holds a translation for every bundle locale, so that
      `getTranslation(locale, '')` never yields `null` inside `save`. */
  predicate FullyTranslated(b: Bundle) {
    forall k | k in b.entries.items :: forall l | l in b.locales :: l in b.entries.items[k].dict.items
  }

  /** Whether `save` upserts a text: when it is non-empty or empty values
      are not ignored */
  predicate Upserted(text: string, ignoreIfEmpty: bool) {
    |text| > 0 || !ignoreIfEmpty
  }

  /** The upserts for one locale, over the entries in key order */
  function UpsertedKeys(us: seq<Upsert>): (ks: seq<string>)
    ensures |ks| == |us| && forall j | 0 <= j < |us| :: ks[j] == us[j].key
    decreases |us|
  {
    if us == [] then [] else [us[0].key] + UpsertedKeys(us[1..])
  }

  function LocaleUpserts(entries: OrderedMap<string, Entry>, keys: seq<string>, locale: string, ignoreIfEmpty: bool)
    : seq<Upsert>
    requires forall k | k in keys :: k in entries.items
    requires forall k | k in entries.items :: locale in entries.items[k].dict.items
    decreases |keys|
  {
    if keys == [] then []
    else
      var rest := LocaleUpserts(entries, keys[1..], locale, ignoreIfEmpty);
      var text := entries.items[keys[0]].dict.items[locale].text;
      if Upserted(text, ignoreIfEmpty) then [Upsert(keys[0], text)] + rest else rest
  }

  /** The upserts for one locale are those of the listed keys whose text is
      upserted, each with that text. */
  lemma LocaleUpsertsFacts(entries: OrderedMap<string, Entry>, keys: seq<string>, locale: string, ignoreIfEmpty: bool)
    requires forall k | k in keys :: k in entries.items
    requires forall k | k in entries.items :: locale in entries.items[k].dict.items
    ensures var us := LocaleUpserts(entries, keys, locale, ignoreIfEmpty);
      && (forall u | u in us :: u.key in keys && u.text == entries.items[u.key].dict.items[locale].text)
      && (forall k :: k in UpsertedKeys(us) <==> k in keys && Upserted(entries.items[k].dict.items[locale].text, ignoreIfEmpty))
  {
    LocaleUpsertsTexts(entries, keys, locale, ignoreIfEmpty);
    LocaleUpsertsKeys(entries, keys, locale, ignoreIfEmpty);
  }

  /** Each upsert is for a listed key and carries that key's text */
  lemma {:induction false} LocaleUpsertsTexts(entries: OrderedMap<string, Entry>, keys: seq<string>, locale: string, ignoreIfEmpty: bool)
    requires forall k | k in keys :: k in entries.items
    requires forall k | k in entries.items :: locale in entries.items[k].dict.items
    ensures forall u | u in LocaleUpserts(entries, keys, locale, ignoreIfEmpty) ::
      u.key in keys && u.text == entries.items[u.key].dict.items[locale].text
    decreases |keys|
  {
    if keys != [] {
      LocaleUpsertsTexts(entries, keys[1..], locale, ignoreIfEmpty);
      var rest := LocaleUpserts(entries, keys[1..], locale, ignoreIfEmpty);
      var text := entries.items[keys[0]].dict.items[locale].text;
      var us := LocaleUpserts(entries, keys, locale, ignoreIfEmpty);
      assert forall k | k in keys[1..] :: k in keys;
      if Upserted(text, ignoreIfEmpty) {
        assert us == [Upsert(keys[0], text)] + rest;
      }
    }
  }

  /** A key is upserted exactly when it is listed and its text is upserted */
  lemma {:induction false} LocaleUpsertsKeys(entries: OrderedMap<string, Entry>, keys: seq<string>, locale: string, ignoreIfEmpty: bool)
    requires forall k | k in keys :: k in entries.items
    requires forall k | k in entries.items :: locale in entries.items[k].dict.items
    ensures forall k :: k in UpsertedKeys(LocaleUpserts(entries, keys, locale, ignoreIfEmpty)) <==>
      k in keys && Upserted(entries.items[k].dict.items[locale].text, ignoreIfEmpty)
    decreases |keys|
  {
    if keys != [] {
      LocaleUpsertsKeys(entries, keys[1..], locale, ignoreIfEmpty);
      var rest := LocaleUpserts(entries, keys[1..], locale, ignoreIfEmpty);
      var text := entries.items[keys[0]].dict.items[locale].text;
      var us := LocaleUpserts(entries, keys, locale, ignoreIfEmpty);
      assert forall k :: k in keys <==> k == keys[0] || k in keys[1..];
      if Upserted(text, ignoreIfEmpty) {
        assert us == [Upsert(keys[0], text)] + rest;
        assert us[1..] == rest;
        assert UpsertedKeys(us) == [keys[0]] + UpsertedKeys(rest);
      } else {
        assert us == rest;
      }
    }
  }

  /** The upserts follow the order of the listed keys, so each key is
      upserted at most once when the keys are distinct */
  lemma {:induction false} LocaleUpsertsOrdered(entries: OrderedMap<string, Entry>, keys: seq<string>, locale: string, ignoreIfEmpty: bool)
    requires Distinct(keys)
    requires forall k | k in keys :: k in entries.items
    requires forall k | k in entries.items :: locale in entries.items[k].dict.items
    ensures InOrderOf(keys, UpsertedKeys(LocaleUpserts(entries, keys, locale, ignoreIfEmpty)))
    decreases |keys|
  {
    if keys != [] {
      var tail := keys[1..];
      assert Distinct(tail);
      assert forall k | k in tail :: k in keys;
      LocaleUpsertsOrdered(entries, tail, locale, ignoreIfEmpty);
      var rest := LocaleUpserts(entries, tail, locale, ignoreIfEmpty);
      var text := entries.items[keys[0]].dict.items[locale].text;
      var us := LocaleUpserts(entries, keys, locale, ignoreIfEmpty);
      if Upserted(text, ignoreIfEmpty) {
        assert us == [Upsert(keys[0], text)] + rest;
        assert us[1..] == rest;
        assert UpsertedKeys(us) == [keys[0]] + UpsertedKeys(rest);
        InOrderOfHead(keys, UpsertedKeys(rest));
      } else {
        assert us == rest;
        InOrderOfTail(keys, UpsertedKeys(rest));
      }
    }
  }

  /** For one locale every entry translates: the upserts are for distinct
      keys, in key order, and there are as many as keys whose text is upserted */
  lemma LocaleUpsertsCount(b: Bundle, l: string, ignoreIfEmpty: bool)
    requires forall k | k in b.entries.items :: l in b.entries.items[k].dict.items
    ensures var ks := UpsertedKeys(LocaleUpserts(b.entries, b.entries.keys, l, ignoreIfEmpty));
      && InOrderOf(b.entries.keys, ks)
      && Distinct(ks)
      && |ks| == |set k | k in b.entries.items && Upserted(b.entries.items[k].dict.items[l].text, ignoreIfEmpty)|
  {
    var ks := UpsertedKeys(LocaleUpserts(b.entries, b.entries.keys, l, ignoreIfEmpty));
    LocaleUpsertsOrdered(b.entries, b.entries.keys, l, ignoreIfEmpty);
    InOrderOfDistinct(b.entries.keys, ks);
    BundleLocaleUpserts(b, l, ignoreIfEmpty);
    DistinctListsSet(ks, set k | k in b.entries.items && Upserted(b.entries.items[k].dict.items[l].text, ignoreIfEmpty));
  }

  /** One plan per locale, in locale order */
  function FilePlans(b: Bundle, locales: seq<string>, directory: string, ignoreIfEmpty: bool): (plan: seq<FilePlan>)
    requires forall k | k in b.entries.items :: forall l | l in locales :: l in b.entries.items[k].dict.items
    ensures |plan| == |locales|
    ensures forall i | 0 <= i < |locales| ::
      && plan[i].path == TargetPath(directory, FileName(b.name, locales[i]))
      && plan[i].upserts == LocaleUpserts(b.entries, b.entries.keys, locales[i], ignoreIfEmpty)
      && plan[i].changes == |plan[i].upserts|
  {
    seq(|locales|, i requires 0 <= i < |locales| =>
      var us := LocaleUpserts(b.entries, b.entries.keys, locales[i], ignoreIfEmpty);
      FilePlan(TargetPath(directory, FileName(b.name, locales[i])), us, |us|))
  }

  /** The upserts of every bundle locale, as `LocaleUpsertsFacts` states them */
  lemma AllLocaleUpserts(b: Bundle, ignoreIfEmpty: bool)
    requires FullyTranslated(b)
    ensures forall i | 0 <= i < |b.locales| ::
      var us := LocaleUpserts(b.entries, b.entries.keys, b.locales[i], ignoreIfEmpty);
      && (forall u | u in us :: u.key in b.entries.items && u.text == b.entries.items[u.key].dict.items[b.locales[i]].text)
      && (forall k :: k in UpsertedKeys(us) <==> k in b.entries.items && Upserted(b.entries.items[k].dict.items[b.locales[i]].text, ignoreIfEmpty))
  {
    forall i | 0 <= i < |b.locales| {
      BundleLocaleUpserts(b, b.locales[i], ignoreIfEmpty);
    }
  }

  /** The upserts of one locale every entry translates, over the bundle's keys */
  lemma BundleLocaleUpserts(b: Bundle, l: string, ignoreIfEmpty: bool)
    requires forall k | k in b.entries.items :: l in b.entries.items[k].dict.items
    ensures var us := LocaleUpserts(b.entries, b.entries.keys, l, ignoreIfEmpty);
      && (forall u | u in us :: u.key in b.entries.items && u.text == b.entries.items[u.key].dict.items[l].text)
      && (forall k :: k in UpsertedKeys(us) <==> k in b.entries.items && Upserted(b.entries.items[k].dict.items[l].text, ignoreIfEmpty))
  {
    assert forall k :: k in b.entries.keys <==> k in b.entries.items;
    LocaleUpsertsFacts(b.entries, b.entries.keys, l, ignoreIfEmpty);
  }

  /** `save(directory, options)`: one target file per bundle locale; in the
      file for locale `l`, key `k` is upserted with its `l` text exactly when
      that text is non-empty or `ignoreIfEmpty` is off, and `changes` counts
      those upserts. Nothing is ever deleted. */
  function SavePlan(b: Bundle, directory: string, ignoreIfEmpty: bool): (plan: seq<FilePlan>)
    requires FullyTranslated(b)
    ensures |plan| == |b.locales|
    ensures forall i | 0 <= i < |plan| ::
      && plan[i].path == TargetPath(directory, FileName(b.name, b.locales[i]))
      && plan[i].changes == |plan[i].upserts|
    ensures forall i, k | 0 <= i < |plan| ::
      k in UpsertedKeys(plan[i].upserts) <==>
        k in b.entries.items && Upserted(b.entries.items[k].dict.items[b.locales[i]].text, ignoreIfEmpty)
    ensures forall i, j | 0 <= i < |plan| && 0 <= j < |plan[i].upserts| :: plan[i].upserts[j].key in b.entries.items
    ensures forall i, j | 0 <= i < |plan| && 0 <= j < |plan[i].upserts| ::
      GetTranslation(b.entries.items[plan[i].upserts[j].key], b.locales[i], Some("")) == Some(plan[i].upserts[j].text)
    ensures forall i | 0 <= i < |plan| :: PlanFollowsKeys(b, plan[i])
    ensures forall i | 0 <= i < |plan| ::
      plan[i].changes == |set k | k in b.entries.items && Upserted(b.entries.items[k].dict.items[b.locales[i]].text, ignoreIfEmpty)|
  {
    AllLocaleUpserts(b, ignoreIfEmpty);
    var plan := FilePlans(b, b.locales, directory, ignoreIfEmpty);
    forall i | 0 <= i < |plan|
      ensures PlanFollowsKeys(b, plan[i])
      ensures plan[i].changes == |set k | k in b.entries.items && Upserted(b.entries.items[k].dict.items[b.locales[i]].text, ignoreIfEmpty)|
    {
      LocaleUpsertsCount(b, b.locales[i], ignoreIfEmpty);
    }
    plan
  }

  /** `for (const key in this.entries)`: a file's upserts are for distinct
      keys of the bundle, in the order the keys were inserted */
  predicate PlanFollowsKeys(b: Bundle, f: FilePlan) {
    Distinct(UpsertedKeys(f.upserts)) && InOrderOf(b.entries.keys, UpsertedKeys(f.upserts))
  }
}
