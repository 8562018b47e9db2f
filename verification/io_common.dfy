/** `src/io/common.ts`: the options every exporter shares, and the entry
    filter they all apply. */
module Exporters {
  import opened Wrappers
  import opened BundleEntries

  datatype ExportOptions = ExportOptions(outFile: string, ifNotLocales: Option<seq<string>>)

  /** `excludeIfAll`: the `ifNotLocales` option when given (an empty array
      is still given), no locale otherwise */
  function ExcludeIfAll(o: ExportOptions): seq<string> {
    if o.ifNotLocales.Some? then o.ifNotLocales.value else []
  }

  /** `shouldInclude(entry)`: with no locale to check every entry is
      exported; otherwise an entry is exported exactly when it lacks a
      translation for one of the locales. */
  function ShouldInclude(o: ExportOptions, e: Entry): (b: bool)
    ensures ExcludeIfAll(o) == [] ==> b
    ensures ExcludeIfAll(o) != [] ==>
      (b <==> exists i | 0 <= i < |ExcludeIfAll(o)| :: ExcludeIfAll(o)[i] !in e.dict.items)
  {
    var excl := ExcludeIfAll(o);
    if |excl| > 0 then !HasAllLocales(e, excl) else true
  }

  /** The included entries, in their order */
  function Included(o: ExportOptions, es: seq<Entry>): (r: seq<Entry>)
    ensures |r| <= |es|
    ensures forall e :: e in r <==> e in es && ShouldInclude(o, e)
    ensures |es| == 1 ==> r == if ShouldInclude(o, es[0]) then es else []
    decreases |es|
  {
    if es == [] then []
    else if ShouldInclude(o, es[0]) then [es[0]] + Included(o, es[1..])
    else Included(o, es[1..])
  }

  /** `filter` keeps the order: filtering a concatenation filters each part
      and keeps them in place. */
  lemma {:induction false} IncludedAppend(o: ExportOptions, a: seq<Entry>, b: seq<Entry>)
    ensures Included(o, a + b) == Included(o, a) + Included(o, b)
    decreases |a|
  {
    if a != [] {
      assert (a + b)[0] == a[0];
      assert (a + b)[1..] == a[1..] + b;
      IncludedAppend(o, a[1..], b);
    } else {
      assert a + b == b;
    }
  }
}
