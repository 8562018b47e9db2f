/** `CsvParser` of `src/io/csv.ts`: rebuilds a resource pack from the
    members of a CSV archive. Each member named `…/<cartridge>/<bundle>.csv`
    becomes one bundle of that cartridge; a cartridge is accepted only when
    the filesystem search for it finds exactly one directory, and a rejected
    cartridge name is remembered so that its later members are skipped.

    The CSV reader itself is not modelled: a member arrives as its header
    row and its data rows, each row a dictionary from column header to cell
    text. The filesystem search is the parameter `lookup`, from a cartridge
    name to the paths found for it. */
module CsvImport {
  import opened Wrappers
  import opened Seqs
  import opened OrderedMaps
  import opened JsStrings
  import opened Util
  import opened PathPatterns
  import opened BundleEntries
  import opened Bundles
  import opened Cartridges
  import opened ResourcePacks
  import CsvExport

  datatype CsvMember = CsvMember(name: string, headers: seq<string>, rows: seq<map<string, string>>)

  // ---------------------------------------------------------------------
  // toBundle: one member's rows as a bundle
  // ---------------------------------------------------------------------

  /** The headers that pass `isValidLocale`, in order */
  function ValidLocales(hs: seq<string>): (ls: seq<string>)
    ensures |ls| <= |hs|
    ensures forall l :: l in ls <==> l in hs && IsValidLocale(l)
    ensures |hs| == 1 ==> ls == if IsValidLocale(hs[0]) then hs else []
    decreases |hs|
  {
    if hs == [] then []
    else
      var rest := ValidLocales(hs[1..]);
      assert forall l :: l in hs <==> l == hs[0] || l in hs[1..];
      if IsValidLocale(hs[0]) then [hs[0]] + rest else rest
  }

  /** The locale columns: every header after the first that passes
      `isValidLocale`; the others are reported and ignored. */
  function HeaderLocales(headers: seq<string>): (ls: seq<string>)
    ensures forall l :: l in ls <==> l in LocaleColumns(headers) && IsValidLocale(l)
    ensures |headers| <= 1 ==> ls == []
  {
    ValidLocales(LocaleColumns(headers))
  }

  /** Filtering distributes over concatenation, so with the one-header case
      of `ValidLocales` the kept headers are fixed, in header order and with
      their multiplicity */
  lemma {:induction false} ValidLocalesAppend(a: seq<string>, b: seq<string>)
    ensures ValidLocales(a + b) == ValidLocales(a) + ValidLocales(b)
    decreases |a|
  {
    if a != [] {
      assert (a + b)[1..] == a[1..] + b;
      ValidLocalesAppend(a[1..], b);
    } else {
      assert a + b == b;
    }
  }

  /** One more header: the `forEach` step that pushes the header when it
      passes `isValidLocale` and otherwise reports it */
  lemma HeaderLocalesPush(headers: seq<string>, h: string)
    requires headers != []
    ensures HeaderLocales(headers + [h]) == HeaderLocales(headers) + (if IsValidLocale(h) then [h] else [])
  {
    assert (headers + [h])[1..] == headers[1..] + [h];
    ValidLocalesAppend(headers[1..], [h]);
  }

  /** Headers that all pass `isValidLocale` are all kept, in order */
  lemma {:induction false} ValidLocalesKeepsValid(hs: seq<string>)
    requires forall i | 0 <= i < |hs| :: IsValidLocale(hs[i])
    ensures ValidLocales(hs) == hs
    decreases |hs|
  {
    if hs != [] {
      ValidLocalesKeepsValid(hs[1..]);
      assert [hs[0]] + hs[1..] == hs;
    }
  }

  /** The header line the exporter writes is read back with the key column
      it wrote and exactly the bundle's locales, when every locale passes
      `isValidLocale` and no column lets the separator begin inside it.
      Without locales the trailing empty column is dropped as invalid. */
  lemma ExportedHeaderReadBack(o: CsvExport.CsvOptions, locales: seq<string>)
    requires o.separator != "" && SepFree(CsvExport.KeyHeader, o.separator)
    requires forall i | 0 <= i < |locales| :: SepFree(locales[i], o.separator) && IsValidLocale(locales[i])
    ensures var headers := Split(CsvExport.HeaderLine(o, locales), o.separator);
      KeyField(headers) == CsvExport.KeyHeader && HeaderLocales(headers) == locales
  {
    CsvExport.HeaderFields(o, locales);
    var headers := Split(CsvExport.HeaderLine(o, locales), o.separator);
    if locales == [] {
      assert LocaleColumns(headers) == [""];
      assert !IsValidLocale("");
      assert ValidLocales([""]) == [];
    } else {
      assert LocaleColumns(headers) == locales;
      ValidLocalesKeepsValid(locales);
    }
  }

  /** `headers.slice(1)`: the columns after the key column */
  function LocaleColumns(headers: seq<string>): seq<string> {
    if headers == [] then [] else headers[1..]
  }

  /** The key column, `headers[0]`. Without headers it is `undefined`, and
      a JavaScript property lookup with `undefined` reads the property named
      "undefined". */
  function KeyField(headers: seq<string>): string {
    if headers == [] then "undefined" else headers[0]
  }

  /** `fields[keyField]`: a row without a key cell yields `undefined`, which
      the bundle then stores under the property name "undefined". */
  function RowKey(headers: seq<string>, row: map<string, string>): string {
    if KeyField(headers) in row then row[KeyField(headers)] else "undefined"
  }

  /** `fields[locale] || ''`: a missing cell reads as the empty text */
  function CellText(row: map<string, string>, locale: string): (t: string)
    ensures locale in row ==> t == row[locale]
    ensures locale !in row ==> t == ""
  {
    if locale in row then row[locale] else ""
  }

  /** The translation queued for each of `locales` */
  function QueuedCells(row: map<string, string>, locales: seq<string>): map<string, Resource> {
    map l | l in locales :: Resource(None, CellText(row, l))
  }

  /** Queuing the cell of `x` and then those of `locales` is queuing the
      cells of `[x] + locales`. */
  lemma QueuedCellsCons(base: map<string, Resource>, row: map<string, string>, x: string, locales: seq<string>)
    ensures base[x := Resource(None, CellText(row, x))] + QueuedCells(row, locales)
      == base + QueuedCells(row, [x] + locales)
  {
    var lhs := base[x := Resource(None, CellText(row, x))] + QueuedCells(row, locales);
    var rhs := base + QueuedCells(row, [x] + locales);
    forall l ensures (l in lhs <==> l in rhs) && (l in lhs ==> lhs[l] == rhs[l]) {
      assert l in [x] + locales <==> l == x || l in locales;
    }
  }

  /** Queues the row's cell for each locale in turn */
  function QueueCells(e: Entry, row: map<string, string>, locales: seq<string>): (r: Entry)
    ensures r.key == e.key
    ensures r.dict.keys == AddUnique(e.dict.keys, locales)
    ensures r.dict.items == e.dict.items + QueuedCells(row, locales)
    decreases |locales|
  {
    if locales == [] then
      assert QueuedCells(row, locales) == map[];
      e
    else
      assert locales == [locales[0]] + locales[1..];
      QueuedCellsCons(e.dict.items, row, locales[0], locales[1..]);
      QueueCells(QueueTranslation(e, locales[0], CellText(row, locales[0])), row, locales[1..])
  }

  /** The entry one data row becomes: keyed by its key cell, with a queued
      translation (no raw line) for every locale column, the empty text
      where the cell is missing, and nothing for any other locale. */
  function RowEntry(headers: seq<string>, row: map<string, string>): (e: Entry)
    ensures e.key == RowKey(headers, row)
    ensures e.dict.keys == Dedupe(HeaderLocales(headers))
    ensures e.dict.items == QueuedCells(row, HeaderLocales(headers))
  {
    var e := NewEntry(RowKey(headers, row), None, None);
    QueueCellsFresh(e, row, HeaderLocales(headers));
    QueueCells(e, row, HeaderLocales(headers))
  }

  /** Queuing cells onto an entry without translations */
  lemma QueueCellsFresh(e: Entry, row: map<string, string>, locales: seq<string>)
    requires e.dict.keys == [] && e.dict.items == map[]
    ensures QueueCells(e, row, locales).dict.keys == Dedupe(locales)
    ensures QueueCells(e, row, locales).dict.items == QueuedCells(row, locales)
  {
    assert map[] + QueuedCells(row, locales) == QueuedCells(row, locales);
  }

  /** Read back through `getTranslation`, a row's entry holds the cell text
      for each locale column and nothing for any other locale; none of its
      translations has a raw `.properties` line. */
  lemma RowEntryTranslation(headers: seq<string>, row: map<string, string>, l: string)
    ensures l in HeaderLocales(headers) ==> GetTranslation(RowEntry(headers, row), l, None) == Some(CellText(row, l))
    ensures l !in HeaderLocales(headers) ==> GetTranslation(RowEntry(headers, row), l, None) == None
    ensures l in RowEntry(headers, row).dict.items ==> RowEntry(headers, row).dict.items[l].raw == None
  {
  }

  /** The keys of the rows, in row order */
  function RowKeys(headers: seq<string>, rows: seq<map<string, string>>): (ks: seq<string>)
    ensures |ks| == |rows| && forall i | 0 <= i < |rows| :: ks[i] == RowKey(headers, rows[i])
  {
    seq(|rows|, i requires 0 <= i < |rows| => RowKey(headers, rows[i]))
  }

  /** The last row whose key is `k` */
  function LastRowWithKey(headers: seq<string>, rows: seq<map<string, string>>, k: string)
    : (r: Option<map<string, string>>)
    ensures r.Some? ==> r.value in rows && RowKey(headers, r.value) == k
    ensures r.None? <==> k !in RowKeys(headers, rows)
    decreases |rows|
  {
    if rows == [] then None
    else
      assert RowKeys(headers, rows) == [RowKey(headers, rows[0])] + RowKeys(headers, rows[1..]);
      var later := LastRowWithKey(headers, rows[1..], k);
      if later.Some? then later
      else if RowKey(headers, rows[0]) == k then Some(rows[0])
      else None
  }

  /** The entry of the last row with key `k`, wrapped for a lookup: `Some`
      of it when there is such a row, nothing otherwise */
  function LastRowEntry(headers: seq<string>, rows: seq<map<string, string>>, k: string): Option<Option<Entry>> {
    match LastRowWithKey(headers, rows, k)
    case Some(row) => Some(Some(RowEntry(headers, row)))
    case None => None
  }

  /** The `data` handler over every row in turn: one `queueEntry` per row */
  function QueueRows(b: Bundle, headers: seq<string>, rows: seq<map<string, string>>): (r: Bundle)
    ensures r.name == b.name
    ensures r.entries.keys == AddUnique(b.entries.keys, RowKeys(headers, rows))
    ensures forall l :: l in r.locales <==> l in b.locales || (rows != [] && l in HeaderLocales(headers))
    decreases |rows|
  {
    if rows == [] then b
    else
      assert RowKeys(headers, rows) == [RowKey(headers, rows[0])] + RowKeys(headers, rows[1..]);
      QueueRows(QueueEntry(b, RowEntry(headers, rows[0])), headers, rows[1..])
  }

  /** The last row with a key wins: its entry replaces whatever an earlier
      row, or the bundle, held under that key. */
  lemma {:induction false} QueueRowsGet(b: Bundle, headers: seq<string>, rows: seq<map<string, string>>, k: string)
    ensures Get(QueueRows(b, headers, rows).entries, k) == LastRowEntry(headers, rows, k).GetOr(Get(b.entries, k))
    decreases |rows|
  {
    if rows != [] {
      var b' := QueueEntry(b, RowEntry(headers, rows[0]));
      assert QueueRows(b, headers, rows) == QueueRows(b', headers, rows[1..]);
      QueueRowsGet(b', headers, rows[1..], k);
      QueueRowGet(b, headers, rows[0], k);
      LastRowEntryCons(headers, rows, k);
    }
  }

  /** Queuing one row's entry replaces what the bundle held under its key */
  lemma QueueRowGet(b: Bundle, headers: seq<string>, row: map<string, string>, k: string)
    ensures Get(QueueEntry(b, RowEntry(headers, row)).entries, k) ==
      if RowKey(headers, row) == k then Some(RowEntry(headers, row)) else Get(b.entries, k)
  {
  }

  /** The last row with key `k` is a later one, or else the first if it has that key */
  lemma LastRowEntryCons(headers: seq<string>, rows: seq<map<string, string>>, k: string)
    requires rows != []
    ensures LastRowEntry(headers, rows, k) ==
      match LastRowEntry(headers, rows[1..], k)
      case Some(e) => Some(e)
      case None => if RowKey(headers, rows[0]) == k then Some(Some(RowEntry(headers, rows[0]))) else None
  {
    var later := LastRowWithKey(headers, rows[1..], k);
    assert LastRowWithKey(headers, rows, k) ==
      if later.Some? then later else if RowKey(headers, rows[0]) == k then Some(rows[0]) else None;
  }

  /** Queuing rows onto a bundle that lists its locales once unions the
      locale columns into its list, in column order. */
  lemma {:induction false} QueueRowsLocales(b: Bundle, headers: seq<string>, rows: seq<map<string, string>>)
    requires Distinct(b.locales)
    ensures QueueRows(b, headers, rows).locales ==
      if rows == [] then b.locales else AddUnique(b.locales, HeaderLocales(headers))
    decreases |rows|
  {
    if rows != [] {
      var ls := HeaderLocales(headers);
      var b' := QueueEntry(b, RowEntry(headers, rows[0]));
      AddUniqueNested(b.locales, [], ls);
      assert AddUnique(b.locales, []) == b.locales;
      assert b'.locales == AddUnique(b.locales, ls);
      QueueRowsLocales(b', headers, rows[1..]);
      if |rows| > 1 {
        AddUniqueAbsorbed(b'.locales, ls);
      }
    }
  }

  lemma {:induction false} QueueRowsWellFormed(b: Bundle, headers: seq<string>, rows: seq<map<string, string>>)
    requires Bundles.WellFormed(b)
    ensures Bundles.WellFormed(QueueRows(b, headers, rows))
    decreases |rows|
  {
    if rows != [] {
      var b' := QueueEntry(b, RowEntry(headers, rows[0]));
      QueueEntryWellFormed(b, RowEntry(headers, rows[0]));
      QueueRowsWellFormed(b', headers, rows[1..]);
    }
  }

  /** `toBundle(name, content)`: a bundle with one entry per distinct row
      key, in first-seen order, each the entry of the LAST row with that
      key; its locales are the locale columns (none when there is no data
      row). */
  function ToBundle(name: string, headers: seq<string>, rows: seq<map<string, string>>): (b: Bundle)
    ensures b.name == name
    ensures Bundles.WellFormed(b)
  {
    var start := NewBundle(name, None, None);
    QueueRowsWellFormed(start, headers, rows);
    QueueRows(start, headers, rows)
  }

  /** What `toBundle` holds: one entry per distinct row key, in first-seen
      order, each the entry of the LAST row with that key; the locale
      columns as its locales, or none when there is no data row. */
  lemma ToBundleContents(name: string, headers: seq<string>, rows: seq<map<string, string>>, k: string)
    ensures var b := ToBundle(name, headers, rows);
      && b.entries.keys == Dedupe(RowKeys(headers, rows))
      && Get(b.entries, k) == LastRowEntry(headers, rows, k).GetOr(None)
      && b.locales == if rows == [] then [] else Dedupe(HeaderLocales(headers))
  {
    var start := NewBundle(name, None, None);
    QueueRowsLocales(start, headers, rows);
    QueueRowsGet(start, headers, rows, k);
  }

  // ---------------------------------------------------------------------
  // parse: the fold over the archive members
  // ---------------------------------------------------------------------

  /** The pack built so far and the cartridge names found invalid */
  datatype ParseState = ParseState(pack: Pack, invalid: seq<string>)

  /** The trimmed cartridge and bundle names of a member path, or nothing
      when the path does not match `/.+\/(.+)\/(.+).csv/` */
  function MemberTarget(name: string): Option<(string, string)> {
    match DecodeMemberName(name)
    case None => None
    case Some((c, b)) => Some((Trim(c), Trim(b)))
  }

  /** `cartridge.addBundle(bundle)` on a cartridge held by the pack */
  function StoreBundle(p: Pack, cartridgeName: string, b: Bundle): (r: Pack)
    requires cartridgeName in p.cartridges.items
    ensures r.cartridges.keys == p.cartridges.keys
    ensures forall n | n != cartridgeName :: GetCartridge(r, n) == GetCartridge(p, n)
    ensures GetCartridge(r, cartridgeName) == Some(AddBundle(p.cartridges.items[cartridgeName], b))
  {
    Pack(Put(p.cartridges, cartridgeName, AddBundle(p.cartridges.items[cartridgeName], b)))
  }

  /** The loop body once the member's cartridge name `cn` is known and
      its bundle `b` is built: skip a cartridge already found invalid;
      otherwise take the cartridge from the pack, or create it when the
      search finds exactly one directory for it, or else record the name
      as invalid. */
  function Accept(lookup: string -> seq<string>, st: ParseState, cn: string, b: Bundle): ParseState {
    if cn in st.invalid then st
    else if cn in st.pack.cartridges.items then ParseState(StoreBundle(st.pack, cn, b), st.invalid)
    else if |lookup(cn)| != 1 then ParseState(st.pack, st.invalid + [cn])
    else ParseState(StoreBundle(CreateCartridge(st.pack, cn, Some(lookup(cn)[0])), cn, b), st.invalid)
  }

  /** One iteration of the `parse` loop: a member whose path does not
      match is skipped. */
  function ParseMember(lookup: string -> seq<string>, st: ParseState, m: CsvMember): ParseState {
    match MemberTarget(m.name)
    case None => st
    case Some((cn, bn)) => Accept(lookup, st, cn, ToBundle(bn, m.headers, m.rows))
  }

  function ParseFrom(lookup: string -> seq<string>, st: ParseState, ms: seq<CsvMember>): ParseState
    decreases |ms|
  {
    if ms == [] then st
    else ParseMember(lookup, ParseFrom(lookup, st, ms[..|ms| - 1]), ms[|ms| - 1])
  }

  /** `parse(archive)`: the members in archive order, from an empty pack */
  function Parse(lookup: string -> seq<string>, ms: seq<CsvMember>): ParseState {
    ParseFrom(lookup, ParseState(EmptyPack(), []), ms)
  }

  /** The path a cartridge created from the search result `found` keeps */
  function FoundPath(found: string): Option<string> {
    if found != "" then Some(found) else None
  }

  /** What every state of the loop satisfies: the pack is well formed;
      every cartridge in it was found exactly once on disk and keeps that
      path; every invalid name is listed once, was not found exactly once,
      and has no cartridge. */
  predicate Invariant(lookup: string -> seq<string>, st: ParseState) {
    && ResourcePacks.WellFormed(st.pack)
    && (forall n | n in st.pack.cartridges.items ::
          |lookup(n)| == 1 && st.pack.cartridges.items[n].path == FoundPath(lookup(n)[0]))
    && Distinct(st.invalid)
    && (forall n | n in st.invalid :: |lookup(n)| != 1 && n !in st.pack.cartridges.items)
  }

  lemma AcceptInvariant(lookup: string -> seq<string>, st: ParseState, cn: string, b: Bundle)
    requires Invariant(lookup, st) && Bundles.WellFormed(b)
    ensures Invariant(lookup, Accept(lookup, st, cn, b))
  {
    if cn !in st.invalid {
      if cn in st.pack.cartridges.items {
        AddBundleWellFormed(st.pack.cartridges.items[cn], b);
        StoreBundleKeeps(lookup, st.pack, cn, b);
      } else if |lookup(cn)| == 1 {
        var p := CreateCartridge(st.pack, cn, Some(lookup(cn)[0]));
        assert GetCartridge(p, cn).Some?;
        assert Invariant(lookup, ParseState(p, st.invalid)) by {
          forall n | n in p.cartridges.items
            ensures p.cartridges.items[n] == (if n == cn then p.cartridges.items[cn] else st.pack.cartridges.items[n])
          {
            assert GetCartridge(p, n).Some?;
          }
        }
        AddBundleWellFormed(p.cartridges.items[cn], b);
        StoreBundleKeeps(lookup, p, cn, b);
      }
    }
  }

  /** Storing a well-formed bundle in a cartridge of a state that keeps the
      invariant keeps it. */
  lemma StoreBundleKeeps(lookup: string -> seq<string>, p: Pack, cn: string, b: Bundle)
    requires cn in p.cartridges.items && Cartridges.WellFormed(AddBundle(p.cartridges.items[cn], b))
    requires ResourcePacks.WellFormed(p)
    requires forall n | n in p.cartridges.items ::
      |lookup(n)| == 1 && p.cartridges.items[n].path == FoundPath(lookup(n)[0])
    ensures var r := StoreBundle(p, cn, b);
      && ResourcePacks.WellFormed(r)
      && (forall n | n in r.cartridges.items ::
            |lookup(n)| == 1 && r.cartridges.items[n].path == FoundPath(lookup(n)[0]))
      && (forall n :: n in r.cartridges.items <==> n in p.cartridges.items)
  {
    var c := AddBundle(p.cartridges.items[cn], b);
    assert StoreBundle(p, cn, b).cartridges.items == p.cartridges.items[cn := c];
    assert c.name == cn && c.path == p.cartridges.items[cn].path;
  }

  lemma {:induction false} ParseInvariant(lookup: string -> seq<string>, ms: seq<CsvMember>)
    ensures Invariant(lookup, Parse(lookup, ms))
    decreases |ms|
  {
    if ms != [] {
      var n := |ms| - 1;
      ParseInvariant(lookup, ms[..n]);
      var st := Parse(lookup, ms[..n]);
      match MemberTarget(ms[n].name)
      case None =>
      case Some((cn, bn)) =>
        AcceptInvariant(lookup, st, cn, ToBundle(bn, ms[n].headers, ms[n].rows));
    }
  }

  /** The member's path names cartridge `n` */
  predicate Targets(m: CsvMember, n: string) {
    MemberTarget(m.name).Some? && MemberTarget(m.name).value.0 == n
  }

  /** A step adds cartridge `cn` to the pack or to the invalid list, as the
      search for it decides, and leaves every other name where it was. */
  lemma AcceptCartridges(lookup: string -> seq<string>, st: ParseState, cn: string, b: Bundle, n: string)
    requires Invariant(lookup, st)
    ensures var r := Accept(lookup, st, cn, b);
      && (n in r.pack.cartridges.items <==> n in st.pack.cartridges.items || (n == cn && |lookup(n)| == 1))
      && (n in r.invalid <==> n in st.invalid || (n == cn && |lookup(n)| != 1))
  {
    if cn !in st.invalid && cn !in st.pack.cartridges.items && |lookup(cn)| == 1 {
      var p := CreateCartridge(st.pack, cn, Some(lookup(cn)[0]));
      assert GetCartridge(p, n).Some? <==> n == cn || n in st.pack.cartridges.items;
      assert GetCartridge(StoreBundle(p, cn, b), n).Some? <==> GetCartridge(p, n).Some?;
    } else if cn in st.pack.cartridges.items && cn !in st.invalid {
      assert GetCartridge(StoreBundle(st.pack, cn, b), n).Some? <==> GetCartridge(st.pack, n).Some?;
    }
  }

  /** Whether a member's path names cartridge `n` */
  function TargetsName(n: string): CsvMember -> bool {
    m => Targets(m, n)
  }

  /** Whether some member's path names cartridge `n` */
  predicate Targeted(ms: seq<CsvMember>, n: string) {
    Any(ms, TargetsName(n))
  }

  /** A cartridge is in the pack exactly when some member names it and the
      search finds it exactly once; it is listed as invalid exactly when
      some member names it and the search does not find it exactly once. */
  lemma {:induction false} ParseCartridges(lookup: string -> seq<string>, ms: seq<CsvMember>, n: string)
    ensures n in Parse(lookup, ms).pack.cartridges.items <==> Targeted(ms, n) && |lookup(n)| == 1
    ensures n in Parse(lookup, ms).invalid <==> Targeted(ms, n) && |lookup(n)| != 1
    decreases |ms|
  {
    if ms != [] {
      var last := |ms| - 1;
      ParseCartridges(lookup, ms[..last], n);
      ParseInvariant(lookup, ms[..last]);
      var st := Parse(lookup, ms[..last]);
      AnySnoc(ms, TargetsName(n));
      match MemberTarget(ms[last].name)
      case None =>
      case Some((cn, bn)) =>
        AcceptCartridges(lookup, st, cn, ToBundle(bn, ms[last].headers, ms[last].rows), n);
    }
  }

  /** The bundle `b` of cartridge `n` in a pack, if both exist */
  function BundleAt(p: Pack, n: string, b: string): Option<Bundle> {
    if n in p.cartridges.items then GetBundle(p.cartridges.items[n], b) else None
  }

  /** A step stores its bundle under cartridge `cn` and the bundle's name
      when the cartridge is valid, and changes no other bundle. */
  lemma AcceptBundles(lookup: string -> seq<string>, st: ParseState, cn: string, b: Bundle, n: string, bn: string)
    requires Invariant(lookup, st) && |lookup(n)| == 1
    ensures BundleAt(Accept(lookup, st, cn, b).pack, n, bn) ==
      if n == cn && bn == b.name then Some(b) else BundleAt(st.pack, n, bn)
  {
    if cn !in st.invalid && cn !in st.pack.cartridges.items && |lookup(cn)| == 1 {
      var p := CreateCartridge(st.pack, cn, Some(lookup(cn)[0]));
      assert GetCartridge(p, cn).Some?;
      assert n != cn ==> GetCartridge(p, n) == GetCartridge(st.pack, n);
      assert GetCartridge(StoreBundle(p, cn, b), n) ==
        if n == cn then Some(AddBundle(p.cartridges.items[cn], b)) else GetCartridge(p, n);
    } else if cn in st.pack.cartridges.items && cn !in st.invalid {
      assert GetCartridge(StoreBundle(st.pack, cn, b), n) ==
        if n == cn then Some(AddBundle(st.pack.cartridges.items[cn], b)) else GetCartridge(st.pack, n);
    } else if cn !in st.invalid {
      assert n != cn;
    }
  }

  /** The last member whose path names cartridge `n` and bundle `b` */
  function LastMemberFor(ms: seq<CsvMember>, n: string, b: string): (r: Option<CsvMember>)
    ensures r.Some? ==> r.value in ms && MemberTarget(r.value.name) == Some((n, b))
    ensures r.None? <==> forall i | 0 <= i < |ms| :: MemberTarget(ms[i].name) != Some((n, b))
  {
    LastKeyed(ms, TargetOf, Some((n, b)))
  }

  /** The cartridge and bundle a member's path names, if any */
  function TargetOf(m: CsvMember): Option<(string, string)> {
    MemberTarget(m.name)
  }

  /** The bundle the last member naming it builds, if there is one */
  function LastMemberBundle(ms: seq<CsvMember>, n: string, b: string): Option<Bundle> {
    match LastMemberFor(ms, n, b)
    case Some(m) => Some(ToBundle(b, m.headers, m.rows))
    case None => None
  }

  /** For a cartridge the search finds exactly once, bundle `b` is the
      bundle built from the LAST member naming that cartridge and bundle;
      a later member for the same bundle replaces it whole. */
  lemma {:induction false} ParseBundles(lookup: string -> seq<string>, ms: seq<CsvMember>, n: string, b: string)
    requires |lookup(n)| == 1
    ensures BundleAt(Parse(lookup, ms).pack, n, b) == LastMemberBundle(ms, n, b)
    decreases |ms|
  {
    if ms != [] {
      var last := |ms| - 1;
      ParseBundles(lookup, ms[..last], n, b);
      ParseInvariant(lookup, ms[..last]);
      var st := Parse(lookup, ms[..last]);
      match MemberTarget(ms[last].name)
      case None =>
      case Some((cn, bn)) =>
        AcceptBundles(lookup, st, cn, ToBundle(bn, ms[last].headers, ms[last].rows), n, b);
    }
  }

  /** The cartridge path is the one the filesystem search found. */
  lemma ParsePaths(lookup: string -> seq<string>, ms: seq<CsvMember>, n: string)
    ensures var p := Parse(lookup, ms).pack;
      n in p.cartridges.items ==> |lookup(n)| == 1 && p.cartridges.items[n].path == FoundPath(lookup(n)[0])
  {
    ParseInvariant(lookup, ms);
  }

  // ---------------------------------------------------------------------
  // Member names written by the exporter are read back
  // ---------------------------------------------------------------------

  /** A name the member pattern's groups give back unchanged after `trim`:
      non-empty, without `/`, and not starting or ending with whitespace. */
  predicate PlainName(s: string) {
    s != [] && '/' !in s && !IsJsWhitespace(s[0]) && !IsJsWhitespace(s[|s| - 1])
  }

  /** The `.csv` the member pattern settles on is the final one */
  lemma CsvAtEnd(s: string, a: string)
    requires s == a + ".csv"
    ensures LastCsvBefore(s, |s|) == Some(|a|)
  {
    assert s[|a| + 1..|a| + 4] == "csv";
    assert CsvAt(s, |a|);
  }

  /** The `.csv` of `outFile/cartridge/bundle.csv` is the final one */
  lemma MemberNameCsv(s: string, outFile: string, c: string, b: string)
    requires s == CsvExport.MemberName(outFile, c, b)
    ensures LastCsvBefore(s, |s|) == Some(|outFile| + 1 + |c| + 1 + |b|)
  {
    assert s == (outFile + "/" + c + "/" + b) + ".csv";
    CsvAtEnd(s, outFile + "/" + c + "/" + b);
  }

  /** The `/` before the bundle name is the last one before the `.csv` */
  lemma MemberNameBundleSlash(s: string, outFile: string, c: string, b: string)
    requires s == CsvExport.MemberName(outFile, c, b) && PlainName(b)
    ensures LastIndexBefore(s, '/', |outFile| + 1 + |c| + 1 + |b| - 1) == Some(|outFile| + 1 + |c|)
  {
    assert s == (outFile + "/" + c) + "/" + b + ".csv";
    SlashBeforeCartridge(s, outFile + "/" + c, b, ".csv");
  }

  /** The `/` before the cartridge name is the last one before the bundle's */
  lemma MemberNameCartridgeSlash(s: string, outFile: string, c: string, b: string)
    requires s == CsvExport.MemberName(outFile, c, b) && PlainName(c)
    ensures LastIndexBefore(s, '/', |outFile| + 1 + |c| - 1) == Some(|outFile|)
  {
    assert s == outFile + "/" + c + ("/" + b + ".csv");
    SlashBeforeCartridge(s, outFile, c, "/" + b + ".csv");
  }

  /** Where the cartridge and bundle names sit in `outFile/cartridge/bundle.csv` */
  lemma MemberNameSlices(s: string, outFile: string, c: string, b: string)
    requires s == CsvExport.MemberName(outFile, c, b)
    ensures |outFile| + 1 + |c| + 1 + |b| <= |s|
    ensures s[|outFile| + 1..|outFile| + 1 + |c|] == c
    ensures s[|outFile| + 1 + |c| + 1..|outFile| + 1 + |c| + 1 + |b|] == b
  {
    assert s == outFile + "/" + c + "/" + b + ".csv";
  }

  /** The groups of a match whose three searches are known */
  lemma DecodeFromSearches(s: string, o: nat, q: nat, p: nat, c: string, b: string)
    requires p <= |s| && LastCsvBefore(s, |s|) == Some(p)
    requires LastIndexBefore(s, '/', p - 1) == Some(q)
    requires LastIndexBefore(s, '/', q - 1) == Some(o) && o >= 1
    requires o + 1 <= q && q + 1 <= p && s[o + 1..q] == c && s[q + 1..p] == b
    ensures DecodeMemberName(s) == Some((c, b))
  {
    MatchMemberFrom(s, o, q, p);
    DecodeMemberFrom(s, o, q, p);
  }

  /** The member pattern's groups on `outFile/cartridge/bundle.csv` */
  lemma DecodeMemberNameOf(outFile: string, c: string, b: string)
    requires outFile != "" && PlainName(c) && PlainName(b)
    ensures DecodeMemberName(CsvExport.MemberName(outFile, c, b)) == Some((c, b))
  {
    var s := CsvExport.MemberName(outFile, c, b);
    var o := |outFile|;
    var q := o + 1 + |c|;
    var p := q + 1 + |b|;
    MemberNameCsv(s, outFile, c, b);
    MemberNameBundleSlash(s, outFile, c, b);
    MemberNameCartridgeSlash(s, outFile, c, b);
    MemberNameSlices(s, outFile, c, b);
    DecodeFromSearches(s, o, q, p, c, b);
  }

  /** The exporter's member name `outFile/cartridge/bundle.csv` reads back
      as that cartridge and bundle, whatever `outFile` holds. */
  lemma MemberNameTarget(outFile: string, c: string, b: string)
    requires outFile != ""
    requires PlainName(c) && PlainName(b)
    ensures MemberTarget(CsvExport.MemberName(outFile, c, b)) == Some((c, b))
  {
    DecodeMemberNameOf(outFile, c, b);
  }
}
