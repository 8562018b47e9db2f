# sfcc-properties-tools: the resource model and its CSV and JSON transcoders, in Dafny

This project models the core of `sfcc-properties-tools`. That library reads
the `.properties` resource bundles of Salesforce Commerce Cloud (SFCC)
cartridges into one in-memory resource pack, and transcodes the pack:

- out to a ZIP archive of CSV files, or to one JSON object;
- back in from the CSV archive;
- and back to `.properties` files.

The model is functional. Every JavaScript object used as a dictionary is an
insertion-ordered map: a key sequence plus a `map`. Every class is an
immutable datatype, and every mutating method is a function that returns the
updated value.

| file | module | what it models |
|---|---|---|
| `wrappers.dfy` | `Wrappers` | `Option` for `null`/`undefined`; truthiness of optional strings |
| `seqs.dfy` | `Seqs` | duplicate-free lists, `[...new Set(...)]` as a first-seen fold, flattening |
| `js_strings.dfy` | `JsStrings` | `indexOf`, clamped `slice`, `join`, `split` and `trim` with JavaScript semantics |
| `ordered_maps.dfy` | `OrderedMaps` | objects as insertion-ordered maps: `obj[k]`, `obj[k] = v`, `Object.values` |
| `properties.dfy` | `Properties` | the parsed `.properties` line the core consumes |
| `util.dfy` | `Util` | `isValidLocale`, `restoreLineBreaks` |
| `path_patterns.dfy` | `PathPatterns` | the two path regexes as backtracking searches |
| `bundle_entry.dfy` | `BundleEntries` | `BundleEntry` |
| `bundle.dfy` | `Bundles` | `Bundle`, with `save` as a plan of upserts |
| `cartridge.dfy` | `Cartridges` | `Cartridge` |
| `resource_pack.dfy` | `ResourcePacks` | `ResourcePack`: path decoding, `addProperties`, `createCartridge`, `getSummary` |
| `io_common.dfy` | `Exporters` | `Exporter` options and `shouldInclude` |
| `csv_fields.dfy` | `CsvFields` | quote doubling, a reference reading of a quoted field, the corrected quoting rule |
| `csv_export.dfy` | `CsvExport` | `CsvExporter`: `escapeStr`, lines, content, archive members |
| `csv_import.dfy` | `CsvImport` | `CsvParser`: `toBundle` and the `parse` loop as a fold over archive members |
| `json.dfy` | `JsonIo` | `JsonExporter.export`, and the `JsonParser.parse` stub |

Three modelling choices shape the contracts.

- **Well-formedness invariants.** Each level of the tree carries one, stated
  as a predicate:
  - every cartridge, bundle and entry is stored under its own name or key;
  - a bundle lists its locales once each;
  - every locale an entry holds is one of its bundle's locales.

  Each operation is proved to preserve its level's invariant.
- **Regexes as searches.** Each regex the core uses is written as the search
  a backtracking engine performs: a greedy quantifier takes the last feasible
  position, a lazy one the first. A separate lemma proves that the search
  finds a match exactly when the regex has one.
- **Inputs for what the core cannot see.** The filesystem search of CSV
  ingest is an input function from a cartridge name to the paths found. Each
  CSV member arrives as its header row and its data rows.

The bundle's locale list is at least the union of its entries' locales, and
can be more. `addTranslations(l, [])` records `l` although no entry holds it
(src/bundle.ts:38). So the invariant proved (`Bundles.WellFormed`) is
inclusion, not equality.

## Model

| member | source | states |
|---|---|---|
| Seqs.Dedupe | src/bundle.ts:57 | `[...new Set(xs)]` is duplicate-free and holds exactly the elements of `xs` |
| Seqs.DedupeFirstSeenOrder | src/bundle.ts:57 | the elements of `[...new Set(xs)]` come in the order of their first occurrence in `xs` |
| Seqs.DedupeAppend | src/bundle.ts:57 | for a duplicate-free `cur`, `[...new Set([...cur, ...xs])]` keeps `cur` unchanged as a prefix and appends only the new elements |
| Seqs.AddUnique | src/cartridge.ts:62-66 | appending the elements not yet present keeps the list as a prefix, adds only elements of the input not already there, and keeps it duplicate-free |
| JsStrings.IndexOf | src/io/csv.ts:125 | `indexOf` is the first index of an occurrence, or -1 when there is none |
| JsStrings.Slice | src/util.ts:12 | `slice(start, end)` within bounds is the substring; out-of-range offsets are clamped instead of failing |
| JsStrings.Trim | src/io/csv.ts:182 | `trim` removes leading and trailing whitespace and keeps the middle; a string without such whitespace is unchanged |
| JsStrings.Join | src/io/csv.ts:114 | `join` of no element is `''`, and of one element is that element |
| JsStrings.JoinSnoc | src/io/csv.ts:114 | joining one more element appends the separator and then that element |
| JsStrings.Split | src/io/csv.ts:227 | splitting at a non-empty separator gives at least one piece, and joining the pieces with the separator gives the string back |
| JsStrings.SplitJoin | src/io/csv.ts:227 | splitting what `join` wrote gives the pieces back, when no separator can begin inside any piece |
| OrderedMaps.Put | src/bundle-entry.ts:29 | `obj[k] = v` sets `k`, keeps every other key, and appends `k` to the key order only when it is new |
| OrderedMaps.Values | src/bundle.ts:65 | `Object.values` lists the values in key insertion order |
| OrderedMaps.PutEachGet | src/resource-pack.ts:221 | filling an object in a loop leaves each key holding the value of the last element with that key |
| Util.ValidLocaleCharacterisation | src/util.ts:26-28 | `isValidLocale(s)` holds exactly when `s` starts with `default`, or ends with two lower-case letters, optionally followed by `_` and two upper-case letters (the alternation is unanchored) |
| Util.LocaleCodesAreValid | src/util.ts:27 | every `xx` and `xx_YY` code is accepted, and so is `default` |
| Util.ValidLocaleExamples | src/util.ts:27 | `en`, `fr_FR`, `default`, `Notes` and `Resource key` are accepted; `''`, `EN` and `f` are rejected |
| Util.SearchCodeTailFinds | src/util.ts:27 | the unanchored search for the second alternative succeeds exactly when some start index matches it |
| Util.RestoreLineBreaks | src/util.ts:4-19 | without known line-break positions, or with a zero separator position or length, the result is the property value |
| Util.Chunks | src/util.ts:8-15 | one more piece than there are line-break positions |
| Util.ChunksTile | src/util.ts:9-15 | for ascending positions, the pieces concatenated are the content from the start offset to the end: nothing is lost or repeated |
| Util.RestoreLineBreaksTiles | src/util.ts:8-16 | the result is the pieces joined by `eolChar`, and without the `eolChar`s the pieces are exactly the text after the separator |
| PathPatterns.MatchMemberIsRegexMatch | src/io/csv.ts:175 | the search for `/.+\/(.+)\/(.+).csv/` finds a match exactly when one exists, and what it finds satisfies the pattern |
| PathPatterns.DecodeMemberName | src/io/csv.ts:175 | the two groups are present exactly when the member pattern matches, and are the slices between the matched positions |
| PathPatterns.MatchPropertiesIsRegexMatch | src/resource-pack.ts:30 | the search for `PROPERTIES_FILE_PATTERN` finds a match exactly when one exists, and what it finds satisfies the pattern |
| PathPatterns.FitBeaten | src/resource-pack.ts:30 | whenever the pattern matches, the search finds a match, and it is the engine's preferred one: greedy positions at least as far right as any other match's, the lazy bundle group no longer |
| PathPatterns.DecodePropertiesPath | src/resource-pack.ts:30 | the three groups are present exactly when the pattern matches, and are the slices between the matched positions |
| PathPatterns.TailFacts | src/resource-pack.ts:30 | the lazy bundle group stops at the first end from which one of the locale alternatives completes the match |
| BundleEntries.NewEntry | src/bundle-entry.ts:21-26 | the constructor registers the property only when the locale is truthy and a property is given; otherwise the entry has no locale |
| BundleEntries.RegisterProperty | src/bundle-entry.ts:28-33 | the locale's translation becomes the property's value with the property as raw; every other locale is unchanged |
| BundleEntries.QueueTranslation | src/bundle-entry.ts:35-37 | the locale's translation becomes the text with no raw reference; every other locale is unchanged |
| BundleEntries.HasAllLocales | src/bundle-entry.ts:43-45 | holds exactly when every listed locale is a key of the dictionary, whatever its text; vacuously true for no locale |
| BundleEntries.GetTranslation | src/bundle-entry.ts:47-54 | a present locale yields its text, even `''`; an absent one yields the default when truthy and `null` otherwise, so a default of `''` yields `null` |
| BundleEntries.TranslationAfterOps | src/bundle-entry.ts:28-37 | after any sequence of register/queue calls, each locale's translation is the text of the last call for it, or the original one if there was none |
| BundleEntries.LocalesAfterOps | src/bundle-entry.ts:39-41 | `getLocales` lists exactly the original locales plus every locale ever registered or queued |
| Bundles.RegisterLocales | src/bundle.ts:56-58 | the list stays duplicate-free, holds the old and the added locales, keeps the old order as a prefix and appends new ones in first-seen order |
| Bundles.AddTranslations | src/bundle.ts:36-49 | the locale is recorded even for an empty batch; the batch's new keys are appended in first-seen order; keys outside the batch keep their entries |
| Bundles.AddTranslationsEntries | src/bundle.ts:40-48 | after the batch, each of its keys has an entry. For a truthy locale, and for the empty locale when the key had an entry or occurs again later in the batch (`registerProperty`), the entry holds the value and raw line of the last resource with that key. For the empty locale and a new key seen once it holds nothing, because the constructor ignores a falsy locale. Other locales are untouched |
| Bundles.MergedEntry | src/bundle.ts:40-48 | under each batch key, the entry holds the last resource with that key, as text and raw, whenever the locale is truthy or the key reaches `registerProperty` (it already had an entry, or it occurs again in the batch); otherwise, for the empty locale on a new key, it holds nothing for that locale. Its other locales are those the existing entry had, or none for a new key |
| Bundles.EmptyLocaleSingleKey | src/bundle-entry.ts:23 | a new key added once under the empty locale gets no translation for it, because the constructor tests the locale for truthiness |
| Bundles.EmptyLocaleRepeatedKey | src/bundle.ts:44-45 | a new key added twice in one batch under the empty locale gets the second resource registered under `""`, because the second occurrence goes through `registerProperty` |
| Bundles.QueueEntry | src/bundle.ts:51-54 | the entry replaces whatever was under its key, other keys are untouched, and its locales are unioned into the bundle's |
| Bundles.NewBundle | src/bundle.ts:29-34 | translations are added only when the locale is truthy and resources are given; otherwise the bundle is empty |
| Bundles.EntryCount | src/bundle.ts:100-102 | `getEntryCount` is the number of distinct keys |
| Bundles.GetEntries | src/bundle.ts:64-66 | the entries in key insertion order |
| Bundles.NewBundleWellFormed | src/bundle.ts:29-34 | a new bundle satisfies the bundle invariant |
| Bundles.AddTranslationsWellFormed | src/bundle.ts:36-49 | `addTranslations` preserves the bundle invariant |
| Bundles.QueueEntryWellFormed | src/bundle.ts:51-54 | `queueEntry` preserves the bundle invariant |
| Bundles.BundleOpsKeepInvariant | src/bundle.ts:36-58 | after any sequence of `addTranslations`/`queueEntry` calls the locale list is duplicate-free, never loses a locale, and covers every entry's locales |
| Bundles.LocaleUpsertsFacts | src/bundle.ts:85-92 | for one locale, a key is upserted exactly when its text is non-empty or `ignoreIfEmpty` is off, and each upsert carries that key's text |
| Bundles.LocaleUpsertsOrdered | src/bundle.ts:86-91 | the upserts for one locale follow the order of the keys they walk, so each key is upserted at most once |
| Bundles.LocaleUpsertsCount | src/bundle.ts:85-92 | for one locale the upserted keys are distinct and in key insertion order, and there are as many upserts as keys whose text qualifies |
| Bundles.SavePlan | src/bundle.ts:68-98 | one file per bundle locale, at `directory/templates/resources/name[_locale].properties`. In each file, a key is upserted exactly when its text is non-empty or `ignoreIfEmpty` is off. Each key appears at most once, in key insertion order, with its text. `changes` is the number of qualifying keys |
| Cartridges.NewCartridge | src/cartridge.ts:25-30 | the cartridge starts with no bundle, and its path is set only when a truthy path is given |
| Cartridges.GetBundles | src/cartridge.ts:32-34 | the bundles in name insertion order |
| Cartridges.AddBundle | src/cartridge.ts:40-42 | the bundle is stored under its own name, replacing an earlier one of that name; other bundles are untouched |
| Cartridges.AddBundleWellFormed | src/cartridge.ts:40-42 | adding a well-formed bundle preserves the cartridge invariant |
| Cartridges.GetAfterAddBundles | src/cartridge.ts:36-42 | after any sequence of `addBundle` calls, `getBundle(n)` is the last bundle added under `n`, or the original one if none was added |
| Cartridges.Summary | src/cartridge.ts:50-70 | `bundleCount` is the number of bundles, `resourceCount` the sum of their entry counts, `locales` the first-seen union of their locales |
| Cartridges.SummaryFold | src/cartridge.ts:57-69 | each step of the `reduce` adds one bundle, its entry count, and its not-yet-listed locales |
| Cartridges.SummaryLocales | src/cartridge.ts:62-66 | the summary lists each locale once, and exactly the locales of some bundle |
| Cartridges.BundlePlans | src/cartridge.ts:45-47 | a file is planned exactly when the save plan of some bundle plans it under the given directory. There are as many files as the bundles have locales, and a single bundle gives exactly its own plan |
| Cartridges.BundlePlansAppend | src/cartridge.ts:45-47 | the plans of two runs of bundles follow each other. With the single-bundle case this fixes the plan: each bundle's files in bundle order, as the `for-in` loop saves them |
| Cartridges.BundlePlansPaths | src/cartridge.ts:45-47 | every planned path is the file of some bundle for one of its locales, and every bundle and locale of it has a planned file with that path. This is membership only: two different bundle and locale pairs can name the same path |
| Cartridges.SavePlan | src/cartridge.ts:44-48 | without a path nothing is written. With a path, a file is planned exactly when some bundle's own save plan under the cartridge path plans it; there are as many files as the bundles have locales; and the planned paths are exactly the bundles' files for their locales |
| ResourcePacks.EmptyPack | src/resource-pack.ts:47-51 | a pack made without files has no cartridge and is well formed |
| ResourcePacks.GetCartridges | src/resource-pack.ts:178-180 | the cartridges in name insertion order |
| ResourcePacks.GetCartridge | src/resource-pack.ts:187-189 | the cartridge stored under the name, or nothing |
| ResourcePacks.CreateCartridge | src/resource-pack.ts:197-201 | installs a fresh, empty cartridge under the name, replacing any existing one, with the path only when truthy; other cartridges are unchanged |
| ResourcePacks.AddProperties | src/resource-pack.ts:154-172 | the cartridge exists afterwards; other cartridges are unchanged; a new cartridge name is appended to the key order |
| ResourcePacks.AddPropertiesCartridge | src/resource-pack.ts:156-171 | the touched cartridge keeps its name and path, holds the merged bundle, and keeps its other bundles |
| ResourcePacks.AddPropertiesBundle | src/resource-pack.ts:162-169 | an existing bundle is merged through `addTranslations`; a new one is built from the locale and resources, and stays empty for an empty locale |
| ResourcePacks.AddPropertiesWellFormed | src/resource-pack.ts:154-172 | `addProperties` preserves the pack invariant |
| ResourcePacks.PathOrigin | src/resource-pack.ts:57-60 | a path that does not match yields `''` for cartridge, bundle and locale. A match yields its cartridge and bundle groups and its locale group, or `default` when the locale group is absent |
| ResourcePacks.SavedPathOrigin | src/resource-pack.ts:30 | a path `save` writes for bundle `b` and locale `l` in cartridge `c` decodes back to `c`, `b` and `l` |
| ResourcePacks.AddFiles | src/resource-pack.ts:55-69 | the cartridge names of the files are appended in first-seen order |
| ResourcePacks.AddFilesBundles | src/resource-pack.ts:55-69 | after adding files, a cartridge holds a bundle exactly when it held it before or some file's path names that cartridge and bundle |
| ResourcePacks.FromFiles | src/resource-pack.ts:47-73 | the pack's cartridges are the cartridge names the file paths give, in first-seen order |
| ResourcePacks.FromFilesHasNoPaths | src/resource-pack.ts:158-160 | a pack read from `.properties` files is well formed and none of its cartridges has a path |
| ResourcePacks.FromFilesBundles | src/resource-pack.ts:55-69 | a cartridge of the pack holds exactly the bundles some file path names for it |
| ResourcePacks.PackSummaryFold | src/resource-pack.ts:217-232 | each step of the `reduce` adds one cartridge, its bundle and resource counts, its summary under its name, and its not-yet-listed locales |
| ResourcePacks.GetSummary | src/resource-pack.ts:207-233 | `cartridges` counts the cartridges; `bundles` and `resources` sum the cartridge summaries; `locales` is their first-seen union |
| ResourcePacks.GetSummaryDetails | src/resource-pack.ts:221 | `details` holds, under each cartridge name, that cartridge's own summary, and nothing under other names |
| ResourcePacks.GetSummaryLocales | src/resource-pack.ts:225-229 | the pack summary lists each locale once, and exactly the locales of some bundle of some cartridge |
| Exporters.ShouldInclude | src/io/common.ts:36-44 | with no or an empty `ifNotLocales` every entry is included; otherwise an entry is included iff it lacks a key for at least one listed locale |
| Exporters.Included | src/io/csv.ts:94-95 | the filter keeps exactly the entries that pass `shouldInclude`; a single entry is kept or dropped by `shouldInclude` alone |
| Exporters.IncludedAppend | src/io/csv.ts:94-95 | the filter keeps the order: filtering a concatenation filters each part in place |
| CsvFields.UndoubleDouble | src/io/csv.ts:127 | a reader that reads an escaped quote as a quote undoes the quote doubling exactly |
| CsvFields.WrappedReadsBack | src/io/csv.ts:127-130 | a value that is doubled and then wrapped in quotes reads back as itself |
| CsvFields.DoubleQuotes | src/io/csv.ts:127 | each quote becomes escape + quote and every other character is kept: a single character maps so, and a string without the quote is unchanged |
| CsvFields.DoubleQuotesAppend | src/io/csv.ts:127 | the global replacement works character by character: replacing in a concatenation replaces in each part |
| CsvFields.EscapeField | src/io/csv.ts:123-133 | corrected quoting rule: the escaped field always reads back as the value, and a value holding a quote is never left bare |
| CsvExport.EscapeStr | src/io/csv.ts:123-133 | `null` stays `null`. When the as-written condition holds, the result is exactly quote + the value with every quote escaped + quote, and it reads back as the value. Otherwise the value is unchanged |
| CsvExport.UnwrappedValues | src/io/csv.ts:125 | as written, the values left unwrapped are exactly those that start with the quote and hold neither separator nor line end; every quote-free value, `''` included, is wrapped |
| CsvExport.QuotedValueIsLost | src/io/csv.ts:125 | the value `"a"` is exported bare and read back as `a` |
| CsvExport.Cell | src/io/csv.ts:113 | a missing translation gives an empty cell; a present one gives its escaped text |
| CsvExport.CsvLineFields | src/io/csv.ts:111-116 | read back at the separator, a line gives the key and then one field per locale, or one empty field when the bundle has no locale; provided no field lets the separator begin inside it |
| CsvExport.HeaderFields | src/io/csv.ts:99 | read back at the separator, the header gives `Resource key` and then the locales, or one empty column when there is no locale |
| CsvExport.CsvContent | src/io/csv.ts:92-103 | no line at all when no entry passes the filter; otherwise the header `Resource key` + locales, then one line per included entry in order |
| CsvExport.BundleMemberWhen | src/io/csv.ts:71-79 | a bundle yields a file exactly when one of its entries passes the filter. The file is named `outFile/cartridge/bundle.csv` and holds the bundle's CSV lines joined by `eol` |
| CsvExport.MemberLines | src/io/csv.ts:77 | read back at `eol`, a file gives back its header and then one line per exported entry, when no line lets `eol` begin inside it |
| CsvExport.IncludedSomeKey | src/io/csv.ts:94-98 | the filtered entry list is non-empty exactly when some key's entry passes the filter |
| CsvExport.ExportMembers | src/io/csv.ts:65-85 | a file is in the archive exactly when it is the file of some bundle stored in the pack |
| CsvExport.PlacedFiles | src/io/csv.ts:69-81 | a single bundle contributes its file when it has one, and nothing otherwise |
| CsvExport.PlacedFilesAppend | src/io/csv.ts:69-81 | the files of a concatenation of bundles are the files of each part, in place |
| CsvExport.PackBundlesHave | src/io/csv.ts:69-70 | the bundles the export visits are exactly the bundles stored in the pack, each under its cartridge and its own name |
| CsvExport.ExportInBundleOrder | src/io/csv.ts:65-85 | the archive is the files of the pack's bundles, cartridge by cartridge and bundle by bundle, with each bundle visited once, so there is one file per bundle with an exported entry, in that order |
| CsvImport.ValidLocales | src/io/csv.ts:234-240 | exactly the headers that pass `isValidLocale` are kept. A single header is kept exactly when it passes |
| CsvImport.ValidLocalesAppend | src/io/csv.ts:234-240 | the filter distributes over concatenation. With the one-header case this fixes the result: the valid headers in header order, each as often as it occurs |
| CsvImport.HeaderLocales | src/io/csv.ts:231-241 | the locale columns are the headers after the first that pass `isValidLocale`; the first column is the key column whatever its text, so one header or none gives no locale |
| CsvImport.HeaderLocalesPush | src/io/csv.ts:234-240 | one more header is pushed onto the locale columns when it passes `isValidLocale`, and dropped otherwise, as the `forEach` does |
| CsvImport.ExportedHeaderReadBack | src/io/csv.ts:231-241 | the header line the exporter writes is read back with `Resource key` as the key column and exactly the bundle's locales, when they all pass `isValidLocale` and hold no separator |
| CsvImport.CellText | src/io/csv.ts:246 | a missing cell reads as `''` |
| CsvImport.QueueCells | src/io/csv.ts:245-247 | each locale in turn gets its cell text as a queued translation; its locales are appended in first-seen order |
| CsvImport.RowEntry | src/io/csv.ts:243-247 | a row's entry is keyed by its key cell, and holds each accepted locale, once, with its cell text |
| CsvImport.RowEntryTranslation | src/io/csv.ts:242-249 | through `getTranslation`, an accepted locale yields the cell text, any other locale `null`, and no translation has a raw reference |
| CsvImport.QueueRows | src/io/csv.ts:242-249 | the rows' keys are appended in first-seen order, and the header locales are added once there is a data row |
| CsvImport.QueueRowsGet | src/io/csv.ts:248 | the last row with a key wins: its entry replaces whatever an earlier row or the bundle held |
| CsvImport.QueueRowsWellFormed | src/io/csv.ts:242-249 | queuing the rows preserves the bundle invariant |
| CsvImport.ToBundleContents | src/io/csv.ts:220-256 | one entry per distinct row key, in first-seen order, each the entry of the last row with that key; the locale columns as locales, or none without data rows |
| CsvImport.StoreBundle | src/io/csv.ts:212 | the bundle is added to the named cartridge; the other cartridges are unchanged |
| CsvImport.AcceptInvariant | src/io/csv.ts:184-212 | one loop step keeps the pack well formed, keeps each cartridge's found path, and keeps invalid names listed once and out of the pack |
| CsvImport.ParseInvariant | src/io/csv.ts:173-215 | the whole loop keeps that invariant |
| CsvImport.AcceptCartridges | src/io/csv.ts:184-205 | one step adds the cartridge to the pack when the search finds exactly one directory, and to the invalid list otherwise |
| CsvImport.ParseCartridges | src/io/csv.ts:173-215 | a cartridge ends in the pack exactly when some member names it and the search finds it exactly once; in the invalid list exactly when some member names it and the search does not |
| CsvImport.AcceptBundles | src/io/csv.ts:205-212 | a step stores its bundle under its cartridge and name, and changes no other bundle |
| CsvImport.ParseBundles | src/io/csv.ts:173-215 | for an accepted cartridge, each bundle is the one built from the last member naming it |
| CsvImport.ParsePaths | src/io/csv.ts:190-205 | a cartridge of the pack keeps the single path the search found for it |
| CsvImport.MemberNameTarget | src/io/csv.ts:175-182 | the member name the exporter writes, `outFile/cartridge/bundle.csv`, decodes back to that cartridge and bundle |
| JsonIo.EntryJsonIs | src/io/json.ts:24-30 | an included entry's object lists the entry's locales in order, each mapped to its translation text |
| JsonIo.ExportItemsHave | src/io/json.ts:16-21 | the entries the loops store are exactly the included entries of the pack, with their cartridge and bundle names |
| JsonIo.StoreLookup | src/io/json.ts:22-24 | storing one entry sets its own address and leaves every other address as it was |
| JsonIo.StoreHas | src/io/json.ts:22-23 | storing one entry adds its cartridge and bundle objects and no other |
| JsonIo.StoreAllLookup | src/io/json.ts:16-34 | after the loops each address holds the object of the last entry stored there |
| JsonIo.StoreAllHas | src/io/json.ts:16-34 | after the loops a cartridge or bundle object exists exactly when some stored entry belongs to it |
| JsonIo.ExportLookup | src/io/json.ts:12-37 | `obj[c][b][k]` is the object of the entry under that key when it is included, and absent when the entry is missing or excluded |
| JsonIo.ExportKeys | src/io/json.ts:21-23 | a bundle key appears exactly when the bundle has an included entry, a cartridge key exactly when one of its bundles does |
| JsonIo.Parse | src/io/json.ts:46-49 | whatever the input, the result is an empty, well-formed pack |

## Findings

| source | as written | input that shows it | evidently intended | confidence | as-written member | corrected member |
|---|---|---|---|---|---|---|
| src/io/csv.ts:125 | `str.indexOf(this.quote)` is used as a truth value, so the value is wrapped whenever its first quote is not at index 0, and also when it has no quote at all | with separator `,`, quote and escape `"`, eol `\n`: the value `"a"` is exported bare, and a CSV reader reads it as `a` | wrap whenever the value holds a quote (`indexOf(quote) >= 0`), so that every exported field reads back as the value | not executed; the failing input follows from the condition as written | CsvExport.QuotedValueIsLost | CsvFields.EscapeField |

The exporter model keeps the as-written `escapeStr`, because the archive
model must hold what the code writes. `CsvFields.EscapeField` is the
corrected rule, with its round trip proved for every value.

## Left out

- Files, streams, encodings, `Buffer`, the ZIP library and the event emitter are not modelled. The emitter's events affect no returned value.
- The `.properties` parser and `PropertiesEditor` are not modelled. A file arrives as its parsed properties, and `Bundle.save` is modelled as the plan of upserts it performs. The non-awaited `writeFile` and its `trim` are not modelled.
- `cli.js`, `src/io/index.ts` and `ResourcePack.fromCartridges`, `fromCsvPack`, `save`, `toCsvPack`, `toJson` and `on` are not modelled. These are orchestration wrappers that call modelled operations and emit events.
- `fast-glob` is not modelled. The directory search of CSV ingest is the input function `lookup`, from a cartridge name to the paths found.
- The `csv-parser` tokenisation, with its own quote and escape handling, is not modelled. A CSV member arrives as its header row and its rows, each row a map from header to cell. A row without a key cell gets the key `undefined`, the string JavaScript makes of a missing property used as a key.
- Asynchrony is not modelled. `parse` awaits each step in order, so the fold is over archive members in archive order.
- Each member's bundle is built before the cartridge is looked up, and a skipped member's bundle is discarded. This is equivalent, because building a bundle has no effect outside it.
- JavaScript object quirks are not modelled. `Object.keys`/`Object.values` list integer-like keys first, and `in` sees inherited properties. Maps here keep plain insertion order.
- PathPatterns.DecodePropertiesPath: takes the regex `.` to match every character. JavaScript's `.` does not match line terminators, so paths holding one are not modelled faithfully.
- PathPatterns.DecodeMemberName: same assumption about `.` as above.
- CsvFields.DoubleQuotes: the quote and escape are single characters, and the quote is taken literally. `new RegExp(quote, 'g')` would treat a regex metacharacter as a pattern, and a `$` in the escape would be read as a replacement pattern.
- Bundles.SavePlan: requires every entry to hold a translation for every bundle locale (`FullyTranslated`). Otherwise `getTranslation(locale, '')` returns `null`, and `text.length` throws inside `save`.
- Bundles.TargetPath: `path.join` is modelled as joining the non-empty segments with `/`. Its normalisation of `.`, `..` and repeated separators is left out.
- Cartridges.SavePlan: with no cartridge path, `path.join` rejects `undefined` before any file is read. The plan is then empty, and the unhandled rejections are not modelled.
- Util.IsValidLocale: a JavaScript string is a sequence of UTF-16 code units; here it is a sequence of Dafny `char`s.
- The full content round trip of CSV export followed by CSV ingest is not proved. What is proved: the member name round trip (`CsvImport.MemberNameTarget`); the header read back as the bundle's locales (`CsvImport.ExportedHeaderReadBack`); and files and lines read back at the line end and the separator when no field holds them (`CsvExport.MemberLines`, `CsvExport.CsvLineFields`). The as-written `escapeStr` does not round-trip (see Findings), and quoted fields depend on the unmodelled CSV reader.
- JsStrings.Split: takes a non-empty separator and does no quote handling. It stands for reading one unquoted CSV line, not for `csv-parser`.
- The `bundleName` that the `unpack:beforeParseEntry` event reports before it is assigned only affects an event, and is not modelled.
