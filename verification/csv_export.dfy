/** `CsvExporter` in `src/io/csv.ts`: a pack becomes an archive holding one
    CSV file per bundle with at least one exported entry. The archive is the
    ordered list of its members. */
module CsvExport {
  import opened Wrappers
  import opened Seqs
  import opened OrderedMaps
  import opened JsStrings
  import opened BundleEntries
  import opened Bundles
  import opened Cartridges
  import opened ResourcePacks
  import opened Exporters
  import opened CsvFields

  datatype CsvOptions = CsvOptions(common: ExportOptions, separator: string, quote: char, escape: char, eol: string)

  const KeyHeader: string := "Resource key"

  // ---------------------------------------------------------------------
  // escapeStr, as written
  // ---------------------------------------------------------------------

  /** The wrap condition of `escapeStr` as written: the separator or the
      line end found past index 0, or `indexOf(quote)` truthy — that is,
      anything but 0, so also -1 when there is no quote at all. */
  predicate WrapsAsWritten(o: CsvOptions, s: string) {
    IndexOf(s, o.separator) > 0 || IndexOf(s, o.eol) > 0 || IndexOf(s, [o.quote]) != 0
  }

  /** `escapeStr(str)`: `null` stays `null`; a wrapped value reads back as
      itself; any other value is left as it is. */
  function EscapeStr(o: CsvOptions, str: Option<string>): (r: Option<string>)
    ensures r.Some? <==> str.Some?
    ensures str.Some? && !WrapsAsWritten(o, str.value) ==> r == str
    ensures str.Some? && WrapsAsWritten(o, str.value) ==>
      && r.value == [o.quote] + DoubleQuotes(str.value, o.quote, o.escape) + [o.quote]
      && ReadField(r.value, o.quote, o.escape) == str.value
  {
    match str
    case None => None
    case Some(s) =>
      if WrapsAsWritten(o, s) then
        WrappedReadsBack(s, o.quote, o.escape);
        Some([o.quote] + DoubleQuotes(s, o.quote, o.escape) + [o.quote])
      else str
  }

  /** Which values `escapeStr` leaves unwrapped, for a separator and line
      end that do not start with the quote: exactly those that start with
      the quote and contain neither the separator nor the line end. */
  lemma UnwrappedValues(o: CsvOptions, s: string)
    requires o.separator != "" && o.eol != "" && o.separator[0] != o.quote && o.eol[0] != o.quote
    ensures !WrapsAsWritten(o, s) <==>
      |s| > 0 && s[0] == o.quote && IndexOf(s, o.separator) < 0 && IndexOf(s, o.eol) < 0
  {
    if |s| > 0 && s[0] == o.quote {
      assert s[0..1] == [o.quote];
      assert OccursAt(s, [o.quote], 0);
      if |o.separator| <= |s| {
        assert s[0..|o.separator|][0] == s[0];
      }
      if |o.eol| <= |s| {
        assert s[0..|o.eol|][0] == s[0];
      }
    }
    if !WrapsAsWritten(o, s) {
      assert OccursAt(s, [o.quote], 0);
      assert s[0..1][0] == s[0];
    }
  }

  /** The discrepancy: with the usual options, a value that is itself in
      quotes is exported unwrapped, and a CSV reader takes its quotes for
      field quoting. */
  lemma QuotedValueIsLost()
    ensures var o := CsvOptions(ExportOptions("out", None), ",", '"', '"', "\n");
      && EscapeStr(o, Some("\"a\"")) == Some("\"a\"")
      && ReadField("\"a\"", '"', '"') == "a"
  {
    var o := CsvOptions(ExportOptions("out", None), ",", '"', '"', "\n");
    var s := "\"a\"";
    forall i | 0 <= i < |s| ensures !OccursAt(s, ",", i) && !OccursAt(s, "\n", i) {
      assert s[i..i + 1][0] == s[i];
    }
    UnwrappedValues(o, s);
    assert s[1..2] == "a";
    assert Undouble("a", '"', '"') == "a";
  }

  // ---------------------------------------------------------------------
  // Lines and files
  // ---------------------------------------------------------------------

  /** One cell: `escapeStr(getTranslation(locale, ''))`, with the `null` of
      a missing translation rendered empty by `join` */
  function Cell(o: CsvOptions, e: Entry, locale: string): (c: string)
    ensures locale !in e.dict.items ==> c == ""
    ensures locale in e.dict.items ==> Some(c) == EscapeStr(o, Some(e.dict.items[locale].text))
  {
    EscapeStr(o, GetTranslation(e, locale, Some(""))).GetOr("")
  }

  function Cells(o: CsvOptions, e: Entry, locales: seq<string>): (cs: seq<string>)
    ensures |cs| == |locales| && forall i | 0 <= i < |locales| :: cs[i] == Cell(o, e, locales[i])
  {
    seq(|locales|, i requires 0 <= i < |locales| => Cell(o, e, locales[i]))
  }

  /** `toCSVLine(entry, locales)`: the key, a separator, then the cells
      joined by the separator — so a bundle without locales still ends
      each line with one separator. */
  function CsvLine(o: CsvOptions, e: Entry, locales: seq<string>): string {
    e.key + o.separator + Join(Cells(o, e, locales), o.separator)
  }

  /** The header line: the key column header, a separator, then the
      locales joined by the separator */
  function HeaderLine(o: CsvOptions, locales: seq<string>): string {
    KeyHeader + o.separator + Join(locales, o.separator)
  }

  /** Read back with the separator, a line gives the key and then one field
      per locale, or a single empty field when there is no locale, from
      the separator every line carries; provided no field lets the
      separator begin inside it. */
  lemma CsvLineFields(o: CsvOptions, e: Entry, locales: seq<string>)
    requires o.separator != "" && SepFree(e.key, o.separator)
    requires forall i | 0 <= i < |locales| :: SepFree(Cell(o, e, locales[i]), o.separator)
    ensures Split(CsvLine(o, e, locales), o.separator) ==
      [e.key] + (if locales == [] then [""] else Cells(o, e, locales))
  {
    var cs := Cells(o, e, locales);
    if locales == [] {
      JoinCons(e.key, [""], o.separator);
      assert [e.key] + [""] == [e.key, ""];
      SplitJoin([e.key, ""], o.separator);
    } else {
      JoinCons(e.key, cs, o.separator);
      SplitJoin([e.key] + cs, o.separator);
    }
  }

  /** Read back with the separator, the header line gives the key column
      header and then the locales, or a single empty column when there is
      no locale */
  lemma HeaderFields(o: CsvOptions, locales: seq<string>)
    requires o.separator != "" && SepFree(KeyHeader, o.separator)
    requires forall i | 0 <= i < |locales| :: SepFree(locales[i], o.separator)
    ensures Split(HeaderLine(o, locales), o.separator) == [KeyHeader] + (if locales == [] then [""] else locales)
  {
    if locales == [] {
      JoinCons(KeyHeader, [""], o.separator);
      assert [KeyHeader] + [""] == [KeyHeader, ""];
      SplitJoin([KeyHeader, ""], o.separator);
    } else {
      JoinCons(KeyHeader, locales, o.separator);
      SplitJoin([KeyHeader] + locales, o.separator);
    }
  }

  function CsvLines(o: CsvOptions, es: seq<Entry>, locales: seq<string>): (ls: seq<string>)
    ensures |ls| == |es| && forall i | 0 <= i < |es| :: ls[i] == CsvLine(o, es[i], locales)
  {
    seq(|es|, i requires 0 <= i < |es| => CsvLine(o, es[i], locales))
  }

  /** `toCSVContent(bundle)`: a header and one line per exported entry, in
      entry order; no line at all, not even the header, when no entry is
      exported. */
  function CsvContent(o: CsvOptions, b: Bundle): (lines: seq<string>)
    ensures var inc := Included(o.common, GetEntries(b));
      && (inc == [] <==> lines == [])
      && (inc != [] ==>
            && |lines| == |inc| + 1 && lines[0] == HeaderLine(o, b.locales)
            && forall i | 0 <= i < |inc| :: lines[i + 1] == CsvLine(o, inc[i], b.locales))
  {
    var lines := CsvLines(o, Included(o.common, GetEntries(b)), b.locales);
    if |lines| > 0 then [HeaderLine(o, b.locales)] + lines else []
  }

  datatype ArchiveMember = ArchiveMember(name: string, content: string)

  /** `outFile + '/' + cartridge.name + '/' + bundle.name + '.csv'` */
  function MemberName(outFile: string, cartridge: string, bundle: string): string {
    outFile + "/" + cartridge + "/" + bundle + ".csv"
  }

  /** The file a bundle contributes, if any: `getEntryCount() > 0` and a
      non-empty content */
  function BundleMember(o: CsvOptions, cartridgeName: string, b: Bundle): Option<ArchiveMember> {
    if EntryCount(b) > 0 then
      var lines := CsvContent(o, b);
      if |lines| > 0 then Some(ArchiveMember(MemberName(o.common.outFile, cartridgeName, b.name), Join(lines, o.eol)))
      else None
    else None
  }

  /** A bundle is written exactly when one of its entries is exported; the
      entry-count test adds nothing to the content test. */
  lemma BundleMemberWhen(o: CsvOptions, cartridgeName: string, b: Bundle)
    ensures BundleMember(o, cartridgeName, b).Some? <==>
      exists k | k in b.entries.items :: ShouldInclude(o.common, b.entries.items[k])
    ensures BundleMember(o, cartridgeName, b).Some? ==>
      && BundleMember(o, cartridgeName, b).value.name == MemberName(o.common.outFile, cartridgeName, b.name)
      && BundleMember(o, cartridgeName, b).value.content == Join(CsvContent(o, b), o.eol)
  {
    assert EntryCount(b) == |GetEntries(b)|;
    IncludedSomeKey(o.common, b);
  }

  /** Read back with the line end, a file gives its lines back: the header
      and then one line per exported entry, provided no line lets the line
      end begin inside it */
  lemma MemberLines(o: CsvOptions, cartridgeName: string, b: Bundle)
    requires o.eol != "" && BundleMember(o, cartridgeName, b).Some?
    requires forall i | 0 <= i < |CsvContent(o, b)| :: SepFree(CsvContent(o, b)[i], o.eol)
    ensures var lines := Split(BundleMember(o, cartridgeName, b).value.content, o.eol);
      && lines == CsvContent(o, b)
      && lines[0] == HeaderLine(o, b.locales)
      && |lines| == |Included(o.common, GetEntries(b))| + 1
  {
    SplitJoin(CsvContent(o, b), o.eol);
  }

  /** Some entry of a bundle is exported exactly when some key's entry passes */
  lemma IncludedSomeKey(o: ExportOptions, b: Bundle)
    ensures Included(o, GetEntries(b)) != [] <==> exists k | k in b.entries.items :: ShouldInclude(o, b.entries.items[k])
  {
    var es := GetEntries(b);
    var inc := Included(o, es);
    if inc != [] {
      assert inc[0] in es;
      var i :| 0 <= i < |es| && es[i] == inc[0];
      assert b.entries.keys[i] in b.entries.items;
    }
    if exists k | k in b.entries.items :: ShouldInclude(o, b.entries.items[k]) {
      var k :| k in b.entries.items && ShouldInclude(o, b.entries.items[k]);
      var i := Seqs.FirstIndex(b.entries.keys, k);
      assert es[i] in inc;
    }
  }

  /** The files of one cartridge's bundles, in bundle order, for a given
      rule `member` deciding the file of a bundle */
  function BundleMembers(member: (string, Bundle) -> Option<ArchiveMember>, cartridgeName: string, bs: seq<Bundle>)
    : seq<ArchiveMember>
  {
    Somes(seq(|bs|, i requires 0 <= i < |bs| => member(cartridgeName, bs[i])))
  }

  /** The files of one cartridge's bundles, for a rule `member` */
  function CartridgeFiles(member: (string, Bundle) -> Option<ArchiveMember>): Cartridge -> seq<ArchiveMember> {
    (c: Cartridge) => BundleMembers(member, c.name, GetBundles(c))
  }

  /** The rule of `export`: a bundle's file under its cartridge's name */
  function BundleFile(o: CsvOptions): (string, Bundle) -> Option<ArchiveMember> {
    (n, b) => BundleMember(o, n, b)
  }

  /** `export(pack)`: cartridge by cartridge, bundle by bundle */
  function Export(o: CsvOptions, p: Pack): seq<ArchiveMember> {
    FlatMap(GetCartridges(p), CartridgeFiles(BundleFile(o)))
  }

  /** A file of one cartridge comes from one of its bundles */
  lemma BundleMembersHave(member: (string, Bundle) -> Option<ArchiveMember>, n: string, bs: seq<Bundle>, m: ArchiveMember)
    ensures m in BundleMembers(member, n, bs) <==> exists j | 0 <= j < |bs| :: member(n, bs[j]) == Some(m)
  {
    var cands := seq(|bs|, i requires 0 <= i < |bs| => member(n, bs[i]));
    assert m in BundleMembers(member, n, bs) <==> Some(m) in cands;
    if Some(m) in cands {
      var j :| 0 <= j < |cands| && cands[j] == Some(m);
      assert member(n, bs[j]) == Some(m);
    }
    if exists j | 0 <= j < |bs| :: member(n, bs[j]) == Some(m) {
      var j :| 0 <= j < |bs| && member(n, bs[j]) == Some(m);
      assert cands[j] == Some(m);
    }
  }

  /** A file of the archive comes from some bundle of some cartridge */
  lemma CartridgeMembersAre(member: (string, Bundle) -> Option<ArchiveMember>, cs: seq<Cartridge>, m: ArchiveMember)
    ensures m in FlatMap(cs, CartridgeFiles(member)) <==>
      exists i, j | 0 <= i < |cs| && 0 <= j < |GetBundles(cs[i])| :: member(cs[i].name, GetBundles(cs[i])[j]) == Some(m)
  {
    var f := CartridgeFiles(member);
    FlatMapHas(cs, f, m);
    if m in FlatMap(cs, f) {
      var i :| 0 <= i < |cs| && m in f(cs[i]);
      BundleMembersHave(member, cs[i].name, GetBundles(cs[i]), m);
    }
    if exists i, j | 0 <= i < |cs| && 0 <= j < |GetBundles(cs[i])| :: member(cs[i].name, GetBundles(cs[i])[j]) == Some(m) {
      var i, j :| 0 <= i < |cs| && 0 <= j < |GetBundles(cs[i])| && member(cs[i].name, GetBundles(cs[i])[j]) == Some(m);
      BundleMembersHave(member, cs[i].name, GetBundles(cs[i]), m);
      assert m in f(cs[i]);
    }
  }

  /** The archive holds exactly one file per bundle of the pack that has an
      exported entry, named after its cartridge and bundle. */
  lemma ExportMembers(o: CsvOptions, p: Pack, m: ArchiveMember)
    requires ResourcePacks.WellFormed(p)
    ensures m in Export(o, p) <==>
      exists n, b | n in p.cartridges.items && b in p.cartridges.items[n].bundles.items ::
        BundleMember(o, n, p.cartridges.items[n].bundles.items[b]) == Some(m)
  {
    var cs := GetCartridges(p);
    CartridgeMembersAre(BundleFile(o), cs, m);
    if m in Export(o, p) {
      var i, j :| 0 <= i < |cs| && 0 <= j < |GetBundles(cs[i])| && BundleMember(o, cs[i].name, GetBundles(cs[i])[j]) == Some(m);
      var n := p.cartridges.keys[i];
      assert n in p.cartridges.items && cs[i].name == n;
      assert cs[i].bundles.keys[j] in cs[i].bundles.items;
    }
    if exists n, b | n in p.cartridges.items && b in p.cartridges.items[n].bundles.items ::
        BundleMember(o, n, p.cartridges.items[n].bundles.items[b]) == Some(m) {
      var n, b :| n in p.cartridges.items && b in p.cartridges.items[n].bundles.items &&
        BundleMember(o, n, p.cartridges.items[n].bundles.items[b]) == Some(m);
      var i := Seqs.FirstIndex(p.cartridges.keys, n);
      var j := Seqs.FirstIndex(cs[i].bundles.keys, b);
      assert GetBundles(cs[i])[j] == p.cartridges.items[n].bundles.items[b];
    }
  }

  // ---------------------------------------------------------------------
  // The archive, bundle by bundle
  // ---------------------------------------------------------------------

  /** A bundle together with the name of the cartridge it is exported under */
  datatype PlacedBundle = PlacedBundle(cartridge: string, bundle: Bundle)

  /** The bundles of one cartridge, in bundle order */
  function CartridgePlaced(c: Cartridge): (pbs: seq<PlacedBundle>)
    ensures |pbs| == |GetBundles(c)|
    ensures forall j | 0 <= j < |pbs| :: pbs[j] == PlacedBundle(c.name, GetBundles(c)[j])
  {
    seq(|GetBundles(c)|, j requires 0 <= j < |GetBundles(c)| => PlacedBundle(c.name, GetBundles(c)[j]))
  }

  /** Every bundle of the pack, cartridge by cartridge */
  function PackBundles(p: Pack): seq<PlacedBundle> {
    FlatMap(GetCartridges(p), CartridgePlaced)
  }

  /** The file of one placed bundle, if it has one, as a list */
  function FileList(o: CsvOptions, pb: PlacedBundle): (ms: seq<ArchiveMember>)
    ensures ms == [] <==> BundleMember(o, pb.cartridge, pb.bundle).None?
    ensures ms != [] ==> ms == [BundleMember(o, pb.cartridge, pb.bundle).value]
  {
    var m := BundleMember(o, pb.cartridge, pb.bundle);
    if m.Some? then [m.value] else []
  }

  /** The files of placed bundles, one after the other: a bundle gives its
      file when it has one and nothing otherwise */
  function PlacedFiles(o: CsvOptions, pbs: seq<PlacedBundle>): (ms: seq<ArchiveMember>)
    ensures |pbs| == 1 ==> ms == FileList(o, pbs[0])
    decreases |pbs|
  {
    if pbs == [] then [] else FileList(o, pbs[0]) + PlacedFiles(o, pbs[1..])
  }

  /** The files of a concatenation are the files of each part, in place */
  lemma {:induction false} PlacedFilesAppend(o: CsvOptions, a: seq<PlacedBundle>, b: seq<PlacedBundle>)
    ensures PlacedFiles(o, a + b) == PlacedFiles(o, a) + PlacedFiles(o, b)
    decreases |a|
  {
    if a != [] {
      assert (a + b)[0] == a[0];
      assert (a + b)[1..] == a[1..] + b;
      PlacedFilesAppend(o, a[1..], b);
    } else {
      assert a + b == b;
    }
  }

  /** The bundles of `bs` placed under cartridge name `n` */
  function Place(n: string, bs: seq<Bundle>): (pbs: seq<PlacedBundle>)
    ensures |pbs| == |bs| && forall j | 0 <= j < |bs| :: pbs[j] == PlacedBundle(n, bs[j])
  {
    seq(|bs|, j requires 0 <= j < |bs| => PlacedBundle(n, bs[j]))
  }

  /** One cartridge's files are the files of its bundles placed under it */
  lemma {:induction false} BundleMembersPlaced(o: CsvOptions, n: string, bs: seq<Bundle>)
    ensures BundleMembers(BundleFile(o), n, bs) == PlacedFiles(o, Place(n, bs))
    decreases |bs|
  {
    if bs != [] {
      var cands := seq(|bs|, i requires 0 <= i < |bs| => BundleFile(o)(n, bs[i]));
      var tail := seq(|bs[1..]|, i requires 0 <= i < |bs[1..]| => BundleFile(o)(n, bs[1..][i]));
      assert cands[1..] == tail;
      assert Place(n, bs)[1..] == Place(n, bs[1..]);
      BundleMembersPlaced(o, n, bs[1..]);
    }
  }

  /** Flattening commutes with taking files */
  lemma {:induction false} FilesOfCartridges(o: CsvOptions, cs: seq<Cartridge>)
    ensures FlatMap(cs, CartridgeFiles(BundleFile(o))) == PlacedFiles(o, FlatMap(cs, CartridgePlaced))
    decreases |cs|
  {
    if cs != [] {
      FilesOfCartridges(o, cs[1..]);
      BundleMembersPlaced(o, cs[0].name, GetBundles(cs[0]));
      assert CartridgePlaced(cs[0]) == Place(cs[0].name, GetBundles(cs[0]));
      PlacedFilesAppend(o, CartridgePlaced(cs[0]), FlatMap(cs[1..], CartridgePlaced));
    }
  }

  /** Bundles listed under distinct names */
  predicate NamesDistinct(bs: seq<Bundle>) {
    forall j1, j2 | 0 <= j1 < j2 < |bs| :: bs[j1].name != bs[j2].name
  }

  /** Cartridges listed under distinct names */
  predicate CartridgeNamesDistinct(cs: seq<Cartridge>) {
    forall i1, i2 | 0 <= i1 < i2 < |cs| :: cs[i1].name != cs[i2].name
  }

  /** With cartridge names distinct and bundle names distinct within each
      cartridge, no bundle is placed twice */
  lemma {:induction false} PlacedDistinct(cs: seq<Cartridge>)
    requires CartridgeNamesDistinct(cs)
    requires forall i | 0 <= i < |cs| :: NamesDistinct(GetBundles(cs[i]))
    ensures Distinct(FlatMap(cs, CartridgePlaced))
    decreases |cs|
  {
    if cs != [] {
      var tail := cs[1..];
      assert CartridgeNamesDistinct(tail) by {
        forall i1, i2 | 0 <= i1 < i2 < |tail| ensures tail[i1].name != tail[i2].name {
          assert tail[i1] == cs[i1 + 1] && tail[i2] == cs[i2 + 1];
        }
      }
      assert forall i | 0 <= i < |tail| :: tail[i] == cs[i + 1];
      PlacedDistinct(tail);
      var head := CartridgePlaced(cs[0]);
      var rest := FlatMap(tail, CartridgePlaced);
      assert NamesDistinct(GetBundles(cs[0]));
      forall y | y in rest ensures y.cartridge != cs[0].name {
        FlatMapHas(tail, CartridgePlaced, y);
        var i :| 0 <= i < |tail| && y in CartridgePlaced(tail[i]);
        assert y.cartridge == tail[i].name && tail[i] == cs[i + 1];
      }
      DistinctAppend(head, rest);
    }
  }

  /** In a well-formed pack each cartridge is stored under its name and
      each bundle under its name, so the names listed are distinct */
  lemma PackNamesDistinct(p: Pack)
    requires ResourcePacks.WellFormed(p)
    ensures CartridgeNamesDistinct(GetCartridges(p))
    ensures forall i | 0 <= i < |GetCartridges(p)| :: NamesDistinct(GetBundles(GetCartridges(p)[i]))
  {
    var cs := GetCartridges(p);
    forall i1, i2 | 0 <= i1 < i2 < |cs| ensures cs[i1].name != cs[i2].name {
      assert p.cartridges.keys[i1] in p.cartridges.items && p.cartridges.keys[i2] in p.cartridges.items;
    }
    forall i | 0 <= i < |cs| ensures NamesDistinct(GetBundles(cs[i])) {
      assert p.cartridges.keys[i] in p.cartridges.items;
      var c := cs[i];
      var bs := GetBundles(c);
      forall j1, j2 | 0 <= j1 < j2 < |bs| ensures bs[j1].name != bs[j2].name {
        assert c.bundles.keys[j1] in c.bundles.items && c.bundles.keys[j2] in c.bundles.items;
      }
    }
  }

  /** A bundle stored in a well-formed pack under its cartridge and its
      own name */
  predicate StoredIn(p: Pack, x: PlacedBundle) {
    && x.cartridge in p.cartridges.items
    && x.bundle.name in p.cartridges.items[x.cartridge].bundles.items
    && p.cartridges.items[x.cartridge].bundles.items[x.bundle.name] == x.bundle
  }

  /** A placed bundle of a well-formed pack is stored in it */
  lemma PlacedIsStored(p: Pack, x: PlacedBundle)
    requires ResourcePacks.WellFormed(p) && x in PackBundles(p)
    ensures StoredIn(p, x)
  {
    var cs := GetCartridges(p);
    FlatMapHas(cs, CartridgePlaced, x);
    var i :| 0 <= i < |cs| && x in CartridgePlaced(cs[i]);
    var n := p.cartridges.keys[i];
    assert n in p.cartridges.items;
    PlacedInCartridge(cs[i], x);
  }

  /** A bundle placed under a well-formed cartridge is stored in it under
      its own name */
  lemma PlacedInCartridge(c: Cartridge, x: PlacedBundle)
    requires Cartridges.WellFormed(c) && x in CartridgePlaced(c)
    ensures x.cartridge == c.name && x.bundle.name in c.bundles.items && c.bundles.items[x.bundle.name] == x.bundle
  {
    var ps := CartridgePlaced(c);
    var j :| 0 <= j < |ps| && ps[j] == x;
    var k := c.bundles.keys[j];
    assert k in c.bundles.items;
    assert x == PlacedBundle(c.name, c.bundles.items[k]);
  }

  /** Every bundle stored in a well-formed pack is placed */
  lemma StoredIsPlaced(p: Pack, x: PlacedBundle)
    requires ResourcePacks.WellFormed(p) && StoredIn(p, x)
    ensures x in PackBundles(p)
  {
    var cs := GetCartridges(p);
    var i := Seqs.FirstIndex(p.cartridges.keys, x.cartridge);
    var j := Seqs.FirstIndex(cs[i].bundles.keys, x.bundle.name);
    assert CartridgePlaced(cs[i])[j] == x;
    FlatMapHas(cs, CartridgePlaced, x);
  }

  /** The placed bundles of a well-formed pack are exactly its stored bundles */
  lemma PackBundlesHave(p: Pack, x: PlacedBundle)
    requires ResourcePacks.WellFormed(p)
    ensures x in PackBundles(p) <==> StoredIn(p, x)
  {
    if x in PackBundles(p) {
      PlacedIsStored(p, x);
    }
    if StoredIn(p, x) {
      StoredIsPlaced(p, x);
    }
  }

  /** The archive is the files of the pack's bundles, cartridge by
      cartridge and bundle by bundle, each bundle listed once: one file per
      bundle that has an exported entry, in that order. */
  lemma ExportInBundleOrder(o: CsvOptions, p: Pack)
    requires ResourcePacks.WellFormed(p)
    ensures Export(o, p) == PlacedFiles(o, PackBundles(p))
    ensures Distinct(PackBundles(p))
  {
    FilesOfCartridges(o, GetCartridges(p));
    PackNamesDistinct(p);
    PlacedDistinct(GetCartridges(p));
  }
}
