/** The two path regexes of the core, as the searches a backtracking regex
    engine performs: a greedy quantifier settles on the LAST position from
    which the rest of the pattern still matches, a lazy one on the FIRST.

    - the CSV archive member pattern `/.+\/(.+)\/(.+).csv/` (src/io/csv.ts)
    - `PROPERTIES_FILE_PATTERN` (src/resource-pack.ts):
      `/.+\/(.+)\/cartridge\/templates\/resources\/([^.]+?)(?:_([a-z]{2}(?:_[A-Z]{2})?))?.properties/`

    Both patterns are unanchored and start with `.+`, so a match, if there is
    one, can always start at index 0. A regex `.` is taken to match every
    character. */
module PathPatterns {
  import opened Wrappers
  import opened JsStrings
  import opened Util

  /** `s` holds `c` at index `i` */
  predicate IsAt(s: string, i: int, c: char) {
    0 <= i < |s| && s[i] == c
  }

  /** The largest index below `hi` holding `c` */
  function LastIndexBefore(s: string, c: char, hi: int): (r: Option<nat>)
    requires hi <= |s|
    ensures r.Some? ==> r.value < hi && IsAt(s, r.value, c)
    ensures r.Some? ==> forall i | r.value < i < hi :: !IsAt(s, i, c)
    ensures r.None? ==> forall i | 0 <= i < hi :: !IsAt(s, i, c)
    decreases hi
  {
    if hi <= 0 then None
    else if s[hi - 1] == c then Some(hi - 1)
    else LastIndexBefore(s, c, hi - 1)
  }

  // ---------------------------------------------------------------------
  // /.+\/(.+)\/(.+).csv/
  // ---------------------------------------------------------------------

  /** `.csv` (any character, then `csv`) matches at `p` */
  predicate CsvAt(s: string, p: int) {
    0 <= p && p + 4 <= |s| && s[p + 1..p + 4] == "csv"
  }

  /** The pattern matches with the first `/` at `o`, the second at `q` and
      the `.csv` at `p`: both groups are non-empty and `.+` has at least one
      character before `o`. */
  predicate MemberFits(s: string, o: int, q: int, p: int) {
    && 1 <= o && o < |s| && s[o] == '/'
    && o + 2 <= q && q < |s| && s[q] == '/'
    && q + 2 <= p && CsvAt(s, p)
  }

  function LastCsvBefore(s: string, hi: int): (r: Option<nat>)
    requires hi <= |s|
    ensures r.Some? ==> r.value < hi && CsvAt(s, r.value)
    ensures r.Some? ==> forall i | r.value < i < hi :: !CsvAt(s, i)
    ensures r.None? ==> forall i | 0 <= i < hi :: !CsvAt(s, i)
    decreases hi
  {
    if hi <= 0 then None
    else if CsvAt(s, hi - 1) then Some(hi - 1)
    else LastCsvBefore(s, hi - 1)
  }

  /** The positions `(o, q, p)` the regex engine settles on */
  function MatchMember(s: string): Option<(nat, nat, nat)> {
    match LastCsvBefore(s, |s|)
    case None => None
    case Some(p) =>
      match LastIndexBefore(s, '/', p - 1)
      case None => None
      case Some(q) =>
        match LastIndexBefore(s, '/', q - 1)
        case None => None
        case Some(o) => if o >= 1 then Some((o, q, p)) else None
  }

  /** The match when the three searches are known */
  lemma MatchMemberFrom(s: string, o: nat, q: nat, p: nat)
    requires LastCsvBefore(s, |s|) == Some(p)
    requires LastIndexBefore(s, '/', p - 1) == Some(q)
    requires LastIndexBefore(s, '/', q - 1) == Some(o) && o >= 1
    ensures MatchMember(s) == Some((o, q, p))
  {
  }

  /** The two capture groups of a match: cartridge and bundle name, untrimmed */
  function DecodeMemberName(s: string): (r: Option<(string, string)>)
    ensures r.Some? <==> MatchMember(s).Some?
    ensures r.Some? ==> var (o, q, p) := MatchMember(s).value;
      MemberFits(s, o, q, p) && r.value == (s[o + 1..q], s[q + 1..p])
  {
    match MatchMember(s)
    case None => None
    case Some((o, q, p)) => Some((s[o + 1..q], s[q + 1..p]))
  }

  /** The groups of a match whose positions are known */
  lemma DecodeMemberFrom(s: string, o: nat, q: nat, p: nat)
    requires MatchMember(s) == Some((o, q, p))
    ensures o + 1 <= q && q + 1 <= p <= |s|
    ensures DecodeMemberName(s) == Some((s[o + 1..q], s[q + 1..p]))
  {
    assert MemberFits(s, o, q, p);
  }

  /** The search agrees with the regex: it finds a match exactly when one
      exists, and the one it finds is the engine's preferred one — the
      last possible first `/`, then the last possible second `/`, then the
      last possible `.csv`. */
  lemma MatchMemberIsRegexMatch(s: string)
    ensures MatchMember(s).None? <==> forall o, q, p :: !MemberFits(s, o, q, p)
    ensures MatchMember(s).Some? ==> var (o, q, p) := MatchMember(s).value;
      && MemberFits(s, o, q, p)
      && (forall o', q', p' | o' > o :: !MemberFits(s, o', q', p'))
      && (forall q', p' | q' > q :: !MemberFits(s, o, q', p'))
      && (forall p' | p' > p :: !MemberFits(s, o, q, p'))
  {
    forall o', q', p' | MemberFits(s, o', q', p')
      ensures MatchMember(s).Some?
      ensures var (o, q, p) := MatchMember(s).value; o' <= o && (o' == o ==> q' <= q) && (o' == o && q' == q ==> p' <= p)
    {
      var p := LastCsvBefore(s, |s|).value;
      assert p' <= p;
      assert IsAt(s, q', '/') && IsAt(s, o', '/');
      var q := LastIndexBefore(s, '/', p - 1).value;
      assert q' <= q;
      var o := LastIndexBefore(s, '/', q - 1).value;
      assert o' <= o;
    }
    if MatchMember(s).Some? {
      var (o, q, p) := MatchMember(s).value;
      assert MemberFits(s, o, q, p);
    }
  }

  // ---------------------------------------------------------------------
  // PROPERTIES_FILE_PATTERN
  // ---------------------------------------------------------------------

  const Marker: string := "/cartridge/templates/resources/"

  /** `_xx_YY` then any character then `properties`, from `e` */
  predicate LongLocaleAt(s: string, e: int) {
    && 0 <= e && e + 17 <= |s| && s[e] == '_' && IsLower(s[e + 1]) && IsLower(s[e + 2])
    && s[e + 3] == '_' && IsUpper(s[e + 4]) && IsUpper(s[e + 5]) && s[e + 7..e + 17] == "properties"
  }

  /** `_xx` then any character then `properties`, from `e` */
  predicate ShortLocaleAt(s: string, e: int) {
    && 0 <= e && e + 14 <= |s| && s[e] == '_' && IsLower(s[e + 1]) && IsLower(s[e + 2])
    && s[e + 4..e + 14] == "properties"
  }

  /** No locale group: any character then `properties`, from `e` */
  predicate NoLocaleAt(s: string, e: int) {
    0 <= e && e + 11 <= |s| && s[e + 1..e + 11] == "properties"
  }

  /** Whichever of the three alternatives applies at `e` */
  predicate AnyGroupAt(s: string, e: int) {
    LongLocaleAt(s, e) || ShortLocaleAt(s, e) || NoLocaleAt(s, e)
  }

  /** The optional locale group as the engine resolves it at bundle end `e`:
      the long form first, then the short form, then no group at all */
  predicate LocaleGroupAt(s: string, e: int, locale: Option<string>) {
    match locale
    case Some(l) =>
      || (LongLocaleAt(s, e) && l == s[e + 1..e + 6])
      || (!LongLocaleAt(s, e) && ShortLocaleAt(s, e) && l == s[e + 1..e + 3])
    case None => !LongLocaleAt(s, e) && !ShortLocaleAt(s, e) && NoLocaleAt(s, e)
  }

  /** `[^.]` holds for every character in `[i, j)` */
  predicate DotFree(s: string, i: int, j: int)
    requires 0 <= i && j <= |s|
  {
    forall k | i <= k < j :: s[k] != '.'
  }

  /** The lazy `([^.]+?)` starting at `b0` has been extended to end at `e`;
      at each end the optional group is tried with its long form, its short
      form, and absent, in that order. What the result means is stated by
      `TailFromFacts`. */
  function TailFrom(s: string, b0: nat, e: nat): (r: Option<(nat, Option<string>)>)
    requires b0 < e <= |s| && DotFree(s, b0, e)
    ensures r.Some? ==> e <= r.value.0 <= |s|
    decreases |s| - e
  {
    if LongLocaleAt(s, e) then Some((e, Some(s[e + 1..e + 6])))
    else if ShortLocaleAt(s, e) then Some((e, Some(s[e + 1..e + 3])))
    else if NoLocaleAt(s, e) then Some((e, None))
    else if e < |s| && s[e] != '.' then TailFrom(s, b0, e + 1)
    else None
  }

  /** The lazy group stops at the first end from which a locale group
      matches, without crossing a `.`, and resolves the group there; it
      fails only when no such end exists. */
  lemma TailFromFacts(s: string, b0: nat, e: nat)
    requires b0 < e <= |s| && DotFree(s, b0, e)
    ensures var r := TailFrom(s, b0, e);
      && (r.Some? ==> DotFree(s, b0, r.value.0) && LocaleGroupAt(s, r.value.0, r.value.1))
      && (r.Some? ==> forall e' | e <= e' < r.value.0 :: !AnyGroupAt(s, e'))
      && (r.None? ==> forall e' | e <= e' <= |s| && DotFree(s, b0, e') :: !AnyGroupAt(s, e'))
  {
    TailFromFound(s, b0, e);
    TailFromMissing(s, b0, e);
  }

  lemma {:induction false} TailFromFound(s: string, b0: nat, e: nat)
    requires b0 < e <= |s| && DotFree(s, b0, e)
    ensures var r := TailFrom(s, b0, e);
      r.Some? ==> && DotFree(s, b0, r.value.0) && LocaleGroupAt(s, r.value.0, r.value.1)
                  && forall e' | e <= e' < r.value.0 :: !AnyGroupAt(s, e')
    decreases |s| - e
  {
    if LongLocaleAt(s, e) {
      assert LocaleGroupAt(s, e, Some(s[e + 1..e + 6]));
    } else if ShortLocaleAt(s, e) {
      assert LocaleGroupAt(s, e, Some(s[e + 1..e + 3]));
    } else if NoLocaleAt(s, e) {
      assert LocaleGroupAt(s, e, None);
    } else if e < |s| && s[e] != '.' {
      assert DotFree(s, b0, e + 1);
      assert TailFrom(s, b0, e) == TailFrom(s, b0, e + 1);
      TailFromFound(s, b0, e + 1);
    }
  }

  lemma {:induction false} TailFromMissing(s: string, b0: nat, e: nat)
    requires b0 < e <= |s| && DotFree(s, b0, e)
    ensures TailFrom(s, b0, e).None? ==>
      forall e' | e <= e' <= |s| && DotFree(s, b0, e') :: !AnyGroupAt(s, e')
    decreases |s| - e
  {
    if !AnyGroupAt(s, e) && e < |s| && s[e] != '.' {
      assert DotFree(s, b0, e + 1);
      assert TailFrom(s, b0, e) == TailFrom(s, b0, e + 1);
      TailFromMissing(s, b0, e + 1);
    }
  }

  /** The part of the pattern after the marker, from `b0`: the shortest
      bundle name after which a locale group matches, and that group */
  function Tail(s: string, b0: nat): (r: Option<(nat, Option<string>)>)
    ensures r.Some? ==> b0 < r.value.0 <= |s|
  {
    if b0 < |s| && s[b0] != '.' then TailFrom(s, b0, b0 + 1) else None
  }

  /** What `Tail` finds: a non-empty `[^.]` run after which the locale
      group matches, the shortest one; and nothing only when no run works */
  lemma TailFacts(s: string, b0: nat)
    ensures var r := Tail(s, b0);
      && (r.Some? ==> DotFree(s, b0, r.value.0) && LocaleGroupAt(s, r.value.0, r.value.1))
      && (r.Some? ==> forall e' | b0 < e' < r.value.0 :: !AnyGroupAt(s, e'))
      && (r.None? ==> forall e' | b0 < e' <= |s| && DotFree(s, b0, e') :: !AnyGroupAt(s, e'))
  {
    if b0 < |s| && s[b0] != '.' {
      TailFromFacts(s, b0, b0 + 1);
    }
  }

  /** The marker occurs at `m` and the rest of the pattern matches after it */
  predicate MarkerFits(s: string, m: int) {
    OccursAt(s, Marker, m) && Tail(s, m + |Marker|).Some?
  }

  /** The last index below `hi` at which `fits` holds */
  function LastWhere(fits: int -> bool, hi: int): (r: Option<nat>)
    ensures r.Some? ==> r.value < hi && fits(r.value)
    ensures r.Some? ==> forall i | r.value < i < hi :: !fits(i)
    ensures r.None? ==> forall i | 0 <= i < hi :: !fits(i)
    decreases hi
  {
    if hi <= 0 then None
    else if fits(hi - 1) then Some(hi - 1)
    else LastWhere(fits, hi - 1)
  }

  /** The greedy `(.+)` before the marker: the last marker that is followed
      by a matching tail */
  function LastMarkerBefore(s: string, hi: int): (r: Option<nat>)
    ensures r.Some? ==> r.value < hi && MarkerFits(s, r.value)
    ensures r.Some? ==> forall i | r.value < i < hi :: !MarkerFits(s, i)
    ensures r.None? ==> forall i | 0 <= i < hi :: !MarkerFits(s, i)
  {
    var fits := (i: int) => MarkerFits(s, i);
    assert forall i :: fits(i) == MarkerFits(s, i);
    LastWhere(fits, hi)
  }

  /** The pattern matches with the `/` after the leading `.+` at `o`, the
      marker at `m`, the bundle name ending at `e` and locale group `locale` */
  predicate PropertiesFits(s: string, o: int, m: int, e: int, locale: Option<string>) {
    && 1 <= o && o < |s| && s[o] == '/' && o + 2 <= m
    && OccursAt(s, Marker, m)
    && m + |Marker| < e <= |s| && DotFree(s, m + |Marker|, e)
    && LocaleGroupAt(s, e, locale)
  }

  /** The positions `(o, m, e)` and the locale group the engine settles on */
  function MatchProperties(s: string): (r: Option<(nat, nat, nat, Option<string>)>)
    ensures r.Some? ==> var (o, m, e, _) := r.value;
      1 <= o && o + 2 <= m && m + |Marker| < e <= |s|
  {
    match LastMarkerBefore(s, |s|)
    case None => None
    case Some(m) => MatchAtMarker(s, m)
  }

  /** The rest of the match once the marker is placed at `m`: the last `/`
      before it that leaves `(.+)` non-empty, and the tail after it */
  function MatchAtMarker(s: string, m: nat): (r: Option<(nat, nat, nat, Option<string>)>)
    requires MarkerFits(s, m)
    ensures r.Some? ==> var (o, m', e, _) := r.value;
      1 <= o && o + 2 <= m == m' && m + |Marker| < e <= |s|
  {
    match LastIndexBefore(s, '/', m - 1)
    case None => None
    case Some(o) =>
      if o >= 1 then
        var (e, locale) := Tail(s, m + |Marker|).value;
        Some((o, m, e, locale))
      else None
  }

  /** The match, assembled from its three searches */
  lemma MatchPropertiesFrom(s: string, o: nat, m: nat, e: nat, locale: Option<string>)
    requires LastMarkerBefore(s, |s|) == Some(m)
    requires LastIndexBefore(s, '/', m - 1) == Some(o) && o >= 1
    requires Tail(s, m + |Marker|) == Some((e, locale))
    ensures MatchProperties(s) == Some((o, m, e, locale))
  {
    assert MatchProperties(s) == MatchAtMarker(s, m);
  }

  /** The capture groups: cartridge, bundle and, if present, locale */
  function DecodePropertiesPath(s: string): (r: Option<(string, string, Option<string>)>)
    ensures r.Some? <==> MatchProperties(s).Some?
    ensures r.Some? ==> var (o, m, e, locale) := MatchProperties(s).value;
      r.value == (s[o + 1..m], s[m + |Marker|..e], locale)
  {
    match MatchProperties(s)
    case None => None
    case Some((o, m, e, locale)) => Some((s[o + 1..m], s[m + |Marker|..e], locale))
  }

  /** Whatever the search finds is a match of the pattern */
  lemma MatchPropertiesFits(s: string)
    ensures MatchProperties(s).Some? ==> var (o, m, e, locale) := MatchProperties(s).value;
      PropertiesFits(s, o, m, e, locale)
  {
    if MatchProperties(s).Some? {
      var m := LastMarkerBefore(s, |s|).value;
      assert MatchProperties(s) == MatchAtMarker(s, m);
      MatchAtMarkerFits(s, m);
    }
  }

  lemma MatchAtMarkerFits(s: string, m: nat)
    requires MarkerFits(s, m)
    ensures MatchAtMarker(s, m).Some? ==> var (o, m', e, locale) := MatchAtMarker(s, m).value;
      PropertiesFits(s, o, m, e, locale)
  {
    if MatchAtMarker(s, m).Some? {
      var o := LastIndexBefore(s, '/', m - 1).value;
      var (e, locale) := Tail(s, m + |Marker|).value;
      assert MatchAtMarker(s, m).value == (o, m, e, locale);
      TailFacts(s, m + |Marker|);
    }
  }

  /** The capture groups of a match whose positions are known */
  lemma DecodeFromMatch(s: string, o: nat, m: nat, e: nat, locale: Option<string>, c: string, b: string)
    requires MatchProperties(s) == Some((o, m, e, locale))
    requires o + 1 <= m && m + |Marker| <= e <= |s| && s[o + 1..m] == c && s[m + |Marker|..e] == b
    ensures DecodePropertiesPath(s) == Some((c, b, locale))
  {
  }

  /** The search agrees with the regex: it finds a match exactly when one
      exists, and the one it finds is the engine's preferred one — the last
      possible `/` after the leading `.+`, then the last possible marker,
      then the shortest bundle name (the group's own preference order is in
      `LocaleGroupAt`). */
  lemma MatchPropertiesIsRegexMatch(s: string)
    ensures MatchProperties(s).None? <==> forall o, m, e, l :: !PropertiesFits(s, o, m, e, l)
    ensures MatchProperties(s).Some? ==> var (o, m, e, locale) := MatchProperties(s).value;
      && PropertiesFits(s, o, m, e, locale)
      && (forall o', m', e', l' | o' > o :: !PropertiesFits(s, o', m', e', l'))
      && (forall m', e', l' | m' > m :: !PropertiesFits(s, o, m', e', l'))
      && (forall e', l' | e' < e :: !PropertiesFits(s, o, m, e', l'))
  {
    forall o', m', e', l' | PropertiesFits(s, o', m', e', l')
      ensures MatchProperties(s).Some?
      ensures var (o, m, e, locale) := MatchProperties(s).value;
        o' <= o && (o' == o ==> m' <= m) && (o' == o && m' == m ==> e <= e')
    {
      FitBeaten(s, o', m', e', l');
    }
    MatchPropertiesFits(s);
  }

  /** Any match of the pattern leads the search to a match at least as
      preferred */
  lemma FitBeaten(s: string, o': int, m': int, e': int, l': Option<string>)
    requires PropertiesFits(s, o', m', e', l')
    ensures MatchProperties(s).Some?
    ensures var (o, m, e, locale) := MatchProperties(s).value;
      o' <= o && (o' == o ==> m' <= m) && (o' == o && m' == m ==> e <= e')
  {
    var b0' := m' + |Marker|;
    assert AnyGroupAt(s, e');
    assert MarkerFits(s, m') by {
      TailFacts(s, b0');
    }
    var m := LastMarkerBefore(s, |s|).value;
    assert m' <= m;
    assert IsAt(s, o', '/');
    var o := LastIndexBefore(s, '/', m - 1).value;
    assert o' <= o;
    var (e, locale) := Tail(s, m + |Marker|).value;
    assert MatchProperties(s) == Some((o, m, e, locale)) by {
      assert MatchProperties(s) == MatchAtMarker(s, m);
    }
    if o' == o && m' == m {
      TailFacts(s, b0');
    }
  }
}
