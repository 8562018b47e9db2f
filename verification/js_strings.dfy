/** The JavaScript string and array primitives the source relies on, with the
    semantics of the language rather than of any idealised string library:
    `indexOf` (an empty pattern is found at 0), clamped `slice` with negative
    offsets counted from the end, `Array.prototype.join` and `trim`. */
module JsStrings {

  /** `pat` occurs in `s` starting at index `i` */
  predicate OccursAt(s: string, pat: string, i: int) {
    0 <= i && i + |pat| <= |s| && s[i..i + |pat|] == pat
  }

  /** `String.prototype.indexOf`: the first index at which `pat` occurs,
      or -1. */
  function IndexOf(s: string, pat: string): (r: int)
    ensures -1 <= r <= |s|
    ensures r >= 0 ==> OccursAt(s, pat, r)
    ensures forall i | 0 <= i && (r < 0 || i < r) :: !OccursAt(s, pat, i)
  {
    IndexOfFrom(s, pat, 0)
  }

  function IndexOfFrom(s: string, pat: string, from: nat): (r: int)
    requires from <= |s| + 1
    ensures r == -1 || from <= r <= |s|
    ensures r >= 0 ==> OccursAt(s, pat, r)
    ensures forall i | from <= i && (r < 0 || i < r) :: !OccursAt(s, pat, i)
    decreases |s| + 1 - from
  {
    if from + |pat| > |s| then -1
    else if s[from..from + |pat|] == pat then from
    else IndexOfFrom(s, pat, from + 1)
  }

  /** `Array.prototype.join(sep)` on strings */
  function Join(xs: seq<string>, sep: string): (r: string)
    ensures xs == [] ==> r == ""
    ensures |xs| == 1 ==> r == xs[0]
    decreases |xs|
  {
    if xs == [] then ""
    else if |xs| == 1 then xs[0]
    else xs[0] + sep + Join(xs[1..], sep)
  }

  /** Joining one more element puts the separator and the element after
      what the others join to */
  lemma {:induction false} JoinSnoc(xs: seq<string>, x: string, sep: string)
    requires xs != []
    ensures Join(xs + [x], sep) == Join(xs, sep) + sep + x
    decreases |xs|
  {
    if |xs| == 1 {
      assert (xs + [x])[1..] == [x];
    } else {
      assert (xs + [x])[1..] == xs[1..] + [x];
      JoinSnoc(xs[1..], x, sep);
    }
  }

  lemma JoinCons(x: string, xs: seq<string>, sep: string)
    requires xs != []
    ensures Join([x] + xs, sep) == x + sep + Join(xs, sep)
  {
    assert ([x] + xs)[1..] == xs;
  }

  /** `String.prototype.split(sep)` for a non-empty separator: the pieces
      between the occurrences of `sep`, found from the left; what a reader
      of one unquoted CSV line does with the field separator. */
  function Split(s: string, sep: string): (r: seq<string>)
    requires sep != ""
    ensures r != []
    ensures Join(r, sep) == s
    decreases |s|
  {
    var i := IndexOf(s, sep);
    if i < 0 then [s]
    else
      var rest := Split(s[i + |sep|..], sep);
      JoinCons(s[..i], rest, sep);
      assert s == s[..i] + sep + s[i + |sep|..];
      [s[..i]] + rest
  }

  /** `sep` does not begin inside `x`, not even running into a separator
      written after it */
  predicate SepFree(x: string, sep: string) {
    forall i | 0 <= i < |x| :: !OccursAt(x + sep, sep, i)
  }

  /** A one-character separator is free of a piece that does not hold it */
  lemma SepFreeChar(x: string, c: char)
    requires c !in x
    ensures SepFree(x, [c])
  {
    forall i | 0 <= i < |x| ensures !OccursAt(x + [c], [c], i) {
      assert (x + [c])[i..i + 1][0] == x[i];
    }
  }

  /** The first separator after a separator-free piece is the one right
      after it */
  lemma FirstSepAfter(x: string, sep: string, t: string)
    requires sep != "" && SepFree(x, sep)
    ensures IndexOf(x + sep + t, sep) == |x|
  {
    var s := x + sep + t;
    assert s[|x|..|x| + |sep|] == sep;
    assert OccursAt(s, sep, |x|);
    assert s[..|x| + |sep|] == x + sep;
    forall i | 0 <= i < |x| ensures !OccursAt(s, sep, i) {
      assert !OccursAt(x + sep, sep, i);
      assert s[i..i + |sep|] == s[..|x| + |sep|][i..i + |sep|];
    }
  }

  /** A separator-free piece holds no separator at all */
  lemma NoSepIn(x: string, sep: string)
    requires sep != "" && SepFree(x, sep)
    ensures IndexOf(x, sep) == -1
  {
    assert (x + sep)[..|x|] == x;
    forall i | 0 <= i <= |x| ensures !OccursAt(x, sep, i) {
      if i + |sep| <= |x| {
        assert !OccursAt(x + sep, sep, i);
        assert x[i..i + |sep|] == (x + sep)[..|x|][i..i + |sep|];
      }
    }
  }

  /** Splitting what was joined gives the pieces back, when no piece lets a
      separator begin inside it */
  lemma {:induction false} SplitJoin(xs: seq<string>, sep: string)
    requires sep != "" && xs != []
    requires forall i | 0 <= i < |xs| :: SepFree(xs[i], sep)
    ensures Split(Join(xs, sep), sep) == xs
    decreases |xs|
  {
    if |xs| == 1 {
      NoSepIn(xs[0], sep);
    } else {
      var rest := xs[1..];
      var t := Join(rest, sep);
      JoinCons(xs[0], rest, sep);
      assert [xs[0]] + rest == xs;
      var s := xs[0] + sep + t;
      FirstSepAfter(xs[0], sep, t);
      assert s[..|xs[0]|] == xs[0];
      assert s[|xs[0]| + |sep|..] == t;
      SplitJoin(rest, sep);
    }
  }

  /** Concatenation of all parts, with no separator */
  function Concat(xs: seq<string>): string
    decreases |xs|
  {
    if xs == [] then "" else xs[0] + Concat(xs[1..])
  }

  /** Resolves a `slice` offset: negative counts from the end, the result is
      clamped to `[0, len]`. */
  function SliceIndex(i: int, len: nat): (r: nat)
    ensures r <= len
    ensures 0 <= i <= len ==> r == i
  {
    if i < 0 then (if len + i < 0 then 0 else len + i)
    else if i > len then len
    else i
  }

  /** `String.prototype.slice(start, end)`: never fails, an empty result when
      the resolved start is not before the resolved end. */
  function Slice(s: string, start: int, end: int): (r: string)
    ensures 0 <= start <= end <= |s| ==> r == s[start..end]
  {
    var a := SliceIndex(start, |s|);
    var b := SliceIndex(end, |s|);
    if a < b then s[a..b] else ""
  }

  /** Characters removed by `String.prototype.trim`: the ECMAScript
      WhiteSpace and LineTerminator code points. */
  predicate IsJsWhitespace(c: char) {
    var n := c as int;
    n == 0x09 || n == 0x0A || n == 0x0B || n == 0x0C || n == 0x0D || n == 0x20
    || n == 0xA0 || n == 0x1680 || (0x2000 <= n <= 0x200A)
    || n == 0x2028 || n == 0x2029 || n == 0x202F || n == 0x205F
    || n == 0x3000 || n == 0xFEFF
  }

  /** The first index at or after `i` that holds no whitespace */
  function SkipWhitespace(s: string, i: nat): (k: nat)
    requires i <= |s|
    ensures i <= k <= |s|
    ensures forall m | i <= m < k :: IsJsWhitespace(s[m])
    ensures k == |s| || !IsJsWhitespace(s[k])
    decreases |s| - i
  {
    if i < |s| && IsJsWhitespace(s[i]) then SkipWhitespace(s, i + 1) else i
  }

  /** The end of `s[lo..j]` once trailing whitespace is dropped */
  function SkipWhitespaceBack(s: string, lo: nat, j: nat): (k: nat)
    requires lo <= j <= |s|
    ensures lo <= k <= j
    ensures forall m | k <= m < j :: IsJsWhitespace(s[m])
    ensures k == lo || !IsJsWhitespace(s[k - 1])
    decreases j
  {
    if lo < j && IsJsWhitespace(s[j - 1]) then SkipWhitespaceBack(s, lo, j - 1) else j
  }

  /** `String.prototype.trim`: strips leading and trailing whitespace and
      keeps everything in between. */
  function Trim(s: string): (r: string)
    ensures exists i, j | 0 <= i <= j <= |s| ::
      && r == s[i..j]
      && (forall m | 0 <= m < i :: IsJsWhitespace(s[m]))
      && (forall m | j <= m < |s| :: IsJsWhitespace(s[m]))
    ensures r == [] || (!IsJsWhitespace(r[0]) && !IsJsWhitespace(r[|r| - 1]))
    ensures (s == [] || (!IsJsWhitespace(s[0]) && !IsJsWhitespace(s[|s| - 1]))) ==> r == s
  {
    var a := SkipWhitespace(s, 0);
    var b := SkipWhitespaceBack(s, a, |s|);
    assert a == |s| ==> b == |s|;
    s[a..b]
  }
}
