/** `src/util.ts`: the locale-code predicate used to filter CSV header
    columns, and the helper that rebuilds a value with its original line
    breaks. */
module Util {
  import opened Wrappers
  import opened JsStrings
  import opened Properties

  predicate IsLower(c: char) { 'a' <= c <= 'z' }
  predicate IsUpper(c: char) { 'A' <= c <= 'Z' }

  // ---------------------------------------------------------------------
  // isValidLocale: /^default|[a-z]{2}(?:_[A-Z]{2})?$/ on a truthy string.
  // The alternation is not grouped, so `^` anchors only the first branch
  // and `$` only the second.
  // ---------------------------------------------------------------------

  /** The second branch, `[a-z]{2}(?:_[A-Z]{2})?$`, matches from index `i` */
  predicate CodeTailAt(s: string, i: nat) {
    && i + 2 <= |s| && IsLower(s[i]) && IsLower(s[i + 1])
    && (i + 2 == |s|
        || (i + 5 == |s| && s[i + 2] == '_' && IsUpper(s[i + 3]) && IsUpper(s[i + 4])))
  }

  /** The regex search tries every start index from `i` on */
  predicate SearchCodeTail(s: string, i: nat)
    decreases |s| - i
  {
    i <= |s| && (CodeTailAt(s, i) || (i < |s| && SearchCodeTail(s, i + 1)))
  }

  /** `locale && /^default|[a-z]{2}(?:_[A-Z]{2})?$/.test(locale)`, read for
      its truthiness */
  predicate IsValidLocale(s: string) {
    s != "" && ((|s| >= 7 && s[..7] == "default") || SearchCodeTail(s, 0))
  }

  /** A locale code proper: two lower-case letters, optionally `_` and two
      upper-case letters */
  predicate IsLocaleCode(s: string) {
    CodeTailAt(s, 0)
  }

  lemma {:induction false} SearchCodeTailFinds(s: string, i: nat)
    requires i <= |s|
    ensures SearchCodeTail(s, i) <==> exists j | i <= j <= |s| :: CodeTailAt(s, j)
    decreases |s| - i
  {
    if i < |s| {
      SearchCodeTailFinds(s, i + 1);
    }
  }

  /** What the unanchored alternation really accepts: a string that starts
      with `default`, or that ends with two lower-case letters, optionally
      followed by `_` and two upper-case letters. */
  lemma ValidLocaleCharacterisation(s: string)
    ensures IsValidLocale(s) <==>
      || (|s| >= 7 && s[..7] == "default")
      || (|s| >= 2 && IsLower(s[|s| - 2]) && IsLower(s[|s| - 1]))
      || (|s| >= 5 && IsLower(s[|s| - 5]) && IsLower(s[|s| - 4]) && s[|s| - 3] == '_'
          && IsUpper(s[|s| - 2]) && IsUpper(s[|s| - 1]))
  {
    SearchCodeTailFinds(s, 0);
    if |s| >= 2 && IsLower(s[|s| - 2]) && IsLower(s[|s| - 1]) {
      assert CodeTailAt(s, |s| - 2);
    }
    if |s| >= 5 && IsLower(s[|s| - 5]) && IsLower(s[|s| - 4]) && s[|s| - 3] == '_'
      && IsUpper(s[|s| - 2]) && IsUpper(s[|s| - 1]) {
      assert CodeTailAt(s, |s| - 5);
    }
  }

  /** Every locale code proper is accepted, and so is `default` */
  lemma LocaleCodesAreValid(s: string)
    requires IsLocaleCode(s) || s == "default"
    ensures IsValidLocale(s)
  {
    if IsLocaleCode(s) {
      assert SearchCodeTail(s, 0);
    }
  }

  /** The accepted and rejected examples of the predicate */
  lemma ValidLocaleExamples()
    ensures IsValidLocale("en") && IsValidLocale("fr_FR") && IsValidLocale("default")
    ensures IsValidLocale("Notes") && IsValidLocale("Resource key")
    ensures !IsValidLocale("") && !IsValidLocale("EN") && !IsValidLocale("f")
  {
    ValidLocaleCharacterisation("Notes");
    ValidLocaleCharacterisation("Resource key");
    ValidLocaleCharacterisation("EN");
    ValidLocaleCharacterisation("f");
    ValidLocaleCharacterisation("en");
    ValidLocaleCharacterisation("fr_FR");
  }

  // ---------------------------------------------------------------------
  // restoreLineBreaks
  // ---------------------------------------------------------------------

  /** The pieces of `linesContent` between consecutive line-break positions:
      the first starts at `previous`, each one ends where the next begins,
      and the last runs to the end (JavaScript `slice` semantics). */
  function Chunks(content: string, previous: int, positions: seq<int>): (cs: seq<string>)
    ensures |cs| == |positions| + 1
    decreases |positions|
  {
    if positions == [] then [Slice(content, previous, |content|)]
    else [Slice(content, previous, positions[0])] + Chunks(content, positions[0], positions[1..])
  }

  /** The guard of `restoreLineBreaks`: line-break positions are known and
      both separator fields are truthy (non-zero) */
  predicate HasLineLayout(p: Property) {
    p.newlinePositions.Some? && |p.newlinePositions.value| > 0
    && p.separatorPosition != 0 && p.separatorLength != 0
  }

  function RestoreLineBreaks(p: Property, eol: string): (r: string)
    ensures !HasLineLayout(p) ==> r == p.value
  {
    if HasLineLayout(p) then
      Join(Chunks(p.linesContent, p.separatorPosition + p.separatorLength, p.newlinePositions.value), eol)
    else p.value
  }

  predicate Ascending(start: int, positions: seq<int>) {
    && (forall i | 0 <= i < |positions| :: start <= positions[i])
    && (forall i, j | 0 <= i < j < |positions| :: positions[i] <= positions[j])
  }

  /** For non-negative ascending positions, the chunks tile the rest of the
      content: nothing is lost or duplicated. */
  lemma {:induction false} ChunksTile(content: string, previous: int, positions: seq<int>)
    requires 0 <= previous && Ascending(previous, positions)
    ensures Concat(Chunks(content, previous, positions)) == content[SliceIndex(previous, |content|)..]
    decreases |positions|
  {
    var n := |content|;
    if positions == [] {
      assert Chunks(content, previous, positions) == [Slice(content, previous, n)];
    } else {
      var p := positions[0];
      assert Ascending(p, positions[1..]);
      ChunksTile(content, p, positions[1..]);
      var a := SliceIndex(previous, n);
      var b := SliceIndex(p, n);
      assert a <= b;
      assert Slice(content, previous, p) == content[a..b];
      assert content[a..b] + content[b..] == content[a..];
    }
  }

  /** The pieces `restoreLineBreaks` joins: the logical line after the
      separator, cut at each recorded line-break position */
  function LineChunks(p: Property): (cs: seq<string>)
    requires p.newlinePositions.Some?
    ensures |cs| == |p.newlinePositions.value| + 1
  {
    Chunks(p.linesContent, p.separatorPosition + p.separatorLength, p.newlinePositions.value)
  }

  /** `restoreLineBreaks` re-inserts `eol` between the pieces of the logical
      line that follows the separator; without the `eol`s those pieces are
      that text itself. */
  lemma RestoreLineBreaksTiles(p: Property, eol: string)
    requires HasLineLayout(p)
    requires p.separatorPosition + p.separatorLength >= 0
    requires Ascending(p.separatorPosition + p.separatorLength, p.newlinePositions.value)
    ensures RestoreLineBreaks(p, eol) == Join(LineChunks(p), eol)
    ensures Concat(LineChunks(p)) == p.linesContent[SliceIndex(p.separatorPosition + p.separatorLength, |p.linesContent|)..]
  {
    ChunksTile(p.linesContent, p.separatorPosition + p.separatorLength, p.newlinePositions.value);
  }
}
