/** `src/bundle-entry.ts`: one resource key with its translation per locale. */
module BundleEntries {
  import opened Wrappers
  import opened OrderedMaps
  import opened Properties

  /** A translation: resolved from a `.properties` line (`raw` holds the
      line) or queued from the CSV package (no `raw`). */
  datatype Resource = Resource(raw: Option<Property>, text: string)

  datatype Entry = Entry(key: string, dict: OrderedMap<string, Resource>)

  /** `new BundleEntry(key, locale?, property?)`: registers the property only
      when both arguments are truthy. */
  function NewEntry(key: string, locale: Option<string>, property: Option<Property>): (e: Entry)
    ensures e.key == key
    ensures Truthy(locale) && property.Some? ==>
      e.dict.keys == [locale.value] && Get(e.dict, locale.value) == Some(Resource(property, property.value.value))
    ensures !(Truthy(locale) && property.Some?) ==> e.dict.keys == []
  {
    var e := Entry(key, Empty());
    if Truthy(locale) && property.Some? then RegisterProperty(e, locale.value, property.value) else e
  }

  /** `registerProperty`: the locale's translation becomes the property's
      value, with the property kept as its raw source. */
  function RegisterProperty(e: Entry, locale: string, p: Property): (r: Entry)
    ensures r.key == e.key
    ensures Get(r.dict, locale) == Some(Resource(Some(p), p.value))
    ensures forall l | l != locale :: Get(r.dict, l) == Get(e.dict, l)
    ensures locale in e.dict.items ==> r.dict.keys == e.dict.keys
    ensures locale !in e.dict.items ==> r.dict.keys == e.dict.keys + [locale]
  {
    Entry(e.key, Put(e.dict, locale, Resource(Some(p), p.value)))
  }

  /** `queueTranslation`: the locale's translation becomes `text`, with no
      raw source. */
  function QueueTranslation(e: Entry, locale: string, text: string): (r: Entry)
    ensures r.key == e.key
    ensures Get(r.dict, locale) == Some(Resource(None, text))
    ensures forall l | l != locale :: Get(r.dict, l) == Get(e.dict, l)
    ensures locale in e.dict.items ==> r.dict.keys == e.dict.keys
    ensures locale !in e.dict.items ==> r.dict.keys == e.dict.keys + [locale]
  {
    Entry(e.key, Put(e.dict, locale, Resource(None, text)))
  }

  /** `getLocales`: `Object.keys` of the translation dictionary */
  function Locales(e: Entry): seq<string> {
    e.dict.keys
  }

  /** `hasAllLocales`: `locales.every(l => l in dict)` */
  function HasAllLocales(e: Entry, locales: seq<string>): (b: bool)
    ensures b <==> forall i | 0 <= i < |locales| :: locales[i] in e.dict.items
    decreases |locales|
  {
    if locales == [] then true
    else locales[0] in e.dict.items && HasAllLocales(e, locales[1..])
  }

  /** `getTranslation(locale, defaultValue?)`: the stored text when the
      locale is present (even `''`), else `defaultValue || null` — so a
      default of `''` also yields `null` (`None`). */
  function GetTranslation(e: Entry, locale: string, default: Option<string>): (r: Option<string>)
    ensures locale in e.dict.items ==> r == Some(e.dict.items[locale].text)
    ensures locale !in e.dict.items ==> (r.Some? <==> Truthy(default))
    ensures locale !in e.dict.items && r.Some? ==> r == default
  {
    if locale in e.dict.items then Some(e.dict.items[locale].text)
    else if Truthy(default) then default
    else None
  }

  // ---------------------------------------------------------------------
  // Sequences of updates: no cross-locale interference, last write wins
  // ---------------------------------------------------------------------

  datatype EntryOp =
    | RegisterOp(locale: string, property: Property)
    | QueueOp(locale: string, text: string)

  function ApplyOp(e: Entry, op: EntryOp): Entry {
    match op
    case RegisterOp(l, p) => RegisterProperty(e, l, p)
    case QueueOp(l, t) => QueueTranslation(e, l, t)
  }

  function ApplyOps(e: Entry, ops: seq<EntryOp>): Entry
    decreases |ops|
  {
    if ops == [] then e else ApplyOps(ApplyOp(e, ops[0]), ops[1..])
  }

  /** The text an operation writes */
  function OpText(op: EntryOp): string {
    match op
    case RegisterOp(_, p) => p.value
    case QueueOp(_, t) => t
  }

  /** The last operation in `ops` that writes `locale`, found from the end */
  function LastOpFor(ops: seq<EntryOp>, locale: string): (r: Option<EntryOp>)
    ensures r.Some? ==> r.value in ops && r.value.locale == locale
    ensures r.None? <==> forall i | 0 <= i < |ops| :: ops[i].locale != locale
    decreases |ops|
  {
    if ops == [] then None
    else if ops[|ops| - 1].locale == locale then Some(ops[|ops| - 1])
    else LastOpFor(ops[..|ops| - 1], locale)
  }

  /** After any sequence of updates, the translation of each locale is the
      text of the last update to that locale, whatever was done to the
      others; a locale never updated keeps its original translation. */
  lemma {:induction false} TranslationAfterOps(e: Entry, ops: seq<EntryOp>, locale: string, default: Option<string>)
    ensures var r := GetTranslation(ApplyOps(e, ops), locale, default);
      match LastOpFor(ops, locale)
      case Some(op) => r == Some(OpText(op))
      case None => r == GetTranslation(e, locale, default)
    decreases |ops|
  {
    if ops != [] {
      var n := |ops| - 1;
      var pre := ops[..n];
      assert ops == pre + [ops[n]];
      ApplyOpsSnoc(e, pre, ops[n]);
      TranslationAfterOps(e, pre, locale, default);
      ApplyOpTranslation(ApplyOps(e, pre), ops[n], locale, default);
    }
  }

  /** One update sets the text of its own locale and leaves the others */
  lemma ApplyOpTranslation(e: Entry, op: EntryOp, locale: string, default: Option<string>)
    ensures GetTranslation(ApplyOp(e, op), locale, default) ==
      if op.locale == locale then Some(OpText(op)) else GetTranslation(e, locale, default)
  {
  }

  lemma {:induction false} ApplyOpsSnoc(e: Entry, ops: seq<EntryOp>, op: EntryOp)
    ensures ApplyOps(e, ops + [op]) == ApplyOp(ApplyOps(e, ops), op)
    decreases |ops|
  {
    if ops != [] {
      assert (ops + [op])[1..] == ops[1..] + [op];
      ApplyOpsSnoc(ApplyOp(e, ops[0]), ops[1..], op);
    }
  }

  /** `getLocales` lists exactly the locales the entry started with plus
      every locale ever registered or queued. */
  lemma {:induction false} LocalesAfterOps(e: Entry, ops: seq<EntryOp>)
    ensures forall l :: l in Locales(ApplyOps(e, ops)) <==>
      l in Locales(e) || exists i | 0 <= i < |ops| :: ops[i].locale == l
    decreases |ops|
  {
    if ops != [] {
      var e' := ApplyOp(e, ops[0]);
      assert ApplyOps(e, ops) == ApplyOps(e', ops[1..]);
      ApplyOpLocales(e, ops[0]);
      LocalesAfterOps(e', ops[1..]);
      forall l
        ensures l in Locales(ApplyOps(e, ops)) <==>
          l in Locales(e) || exists i | 0 <= i < |ops| :: ops[i].locale == l
      {
        OpsWriteCons(ops, l);
      }
    }
  }

  /** Some update writes `l` exactly when the first does or a later one does */
  lemma OpsWriteCons(ops: seq<EntryOp>, l: string)
    requires ops != []
    ensures (exists i | 0 <= i < |ops| :: ops[i].locale == l) <==>
      ops[0].locale == l || exists i | 0 <= i < |ops[1..]| :: ops[1..][i].locale == l
  {
    if exists i | 0 <= i < |ops| :: ops[i].locale == l {
      var i :| 0 <= i < |ops| && ops[i].locale == l;
      if i > 0 {
        assert ops[1..][i - 1].locale == l;
      }
    }
    if exists i | 0 <= i < |ops[1..]| :: ops[1..][i].locale == l {
      var i :| 0 <= i < |ops[1..]| && ops[1..][i].locale == l;
      assert ops[i + 1].locale == l;
    }
  }

  /** One update adds its own locale and no other. */
  lemma ApplyOpLocales(e: Entry, op: EntryOp)
    ensures forall l :: l in Locales(ApplyOp(e, op)) <==> l in Locales(e) || l == op.locale
  {
    match op
    case RegisterOp(l, p) =>
    case QueueOp(l, t) =>
  }
}
