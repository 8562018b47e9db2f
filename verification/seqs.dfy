/** Sequence helpers shared by the resource model: duplicate-freedom and the
    "append unless already present" fold that the source uses both through
    `[...new Set(xs)]` and through `if (acc.indexOf(x) < 0) acc.push(x)`. */
module Seqs {

  predicate Distinct<T(==,!new)>(s: seq<T>) {
    forall i, j | 0 <= i < j < |s| :: s[i] != s[j]
  }

  /** Appends each element of `xs`, in order, to `acc` unless it is already
      there. */
  function AddUnique<T(==,!new)>(acc: seq<T>, xs: seq<T>): (r: seq<T>)
    ensures |acc| <= |r| && r[..|acc|] == acc
    ensures forall x :: x in r <==> x in acc || x in xs
    ensures forall j | |acc| <= j < |r| :: r[j] !in acc && r[j] in xs
    ensures Distinct(acc) ==> Distinct(r)
    decreases |xs|
  {
    if xs == [] then acc
    else AddUnique(if xs[0] in acc then acc else acc + [xs[0]], xs[1..])
  }

  /** The first-seen-order, duplicate-free version of `xs`
      (JavaScript's `[...new Set(xs)]`). */
  function Dedupe<T(==,!new)>(xs: seq<T>): (r: seq<T>)
    ensures Distinct(r)
    ensures forall x :: x in r <==> x in xs
  {
    AddUnique([], xs)
  }

  /** Index of the first occurrence of `x` in `xs` */
  function FirstIndex<T(==,!new)>(xs: seq<T>, x: T): (i: nat)
    requires x in xs
    ensures i < |xs| && xs[i] == x && x !in xs[..i]
  {
    if xs[0] == x then 0 else 1 + FirstIndex(xs[1..], x)
  }

  /** `ys` takes elements of `xs` in the order they first occur there */
  predicate InOrderOf<T(==,!new)>(xs: seq<T>, ys: seq<T>) {
    && (forall j | 0 <= j < |ys| :: ys[j] in xs)
    && (forall j1, j2 | 0 <= j1 < j2 < |ys| :: FirstIndex(xs, ys[j1]) < FirstIndex(xs, ys[j2]))
  }

  /** What follows the head of a duplicate-free list keeps its order in the whole list */
  lemma InOrderOfTail<T(!new)>(xs: seq<T>, ys: seq<T>)
    requires Distinct(xs) && xs != [] && InOrderOf(xs[1..], ys)
    ensures InOrderOf(xs, ys) && xs[0] !in ys
  {
    forall j | 0 <= j < |ys| ensures ys[j] in xs && ys[j] != xs[0] && FirstIndex(xs, ys[j]) == 1 + FirstIndex(xs[1..], ys[j]) {
      var i :| 0 <= i < |xs[1..]| && xs[1..][i] == ys[j];
      assert xs[i + 1] == ys[j] && xs[0] != xs[i + 1];
    }
  }

  /** The head of a duplicate-free list comes before everything after it */
  lemma InOrderOfHead<T(!new)>(xs: seq<T>, ys: seq<T>)
    requires Distinct(xs) && xs != [] && InOrderOf(xs[1..], ys)
    ensures InOrderOf(xs, [xs[0]] + ys)
  {
    InOrderOfTail(xs, ys);
    var zs := [xs[0]] + ys;
    forall j1, j2 | 0 <= j1 < j2 < |zs| ensures FirstIndex(xs, zs[j1]) < FirstIndex(xs, zs[j2]) {
      assert zs[j2] == ys[j2 - 1];
      if j1 > 0 {
        assert zs[j1] == ys[j1 - 1];
      }
    }
  }

  /** Taking elements in a strict order takes each at most once */
  lemma InOrderOfDistinct<T(!new)>(xs: seq<T>, ys: seq<T>)
    requires InOrderOf(xs, ys)
    ensures Distinct(ys)
  {
    forall j1, j2 | 0 <= j1 < j2 < |ys| ensures ys[j1] != ys[j2] {
      assert FirstIndex(xs, ys[j1]) < FirstIndex(xs, ys[j2]);
    }
  }

  /** Two duplicate-free lists with no element in common concatenate to a
      duplicate-free list */
  lemma DistinctAppend<T(!new)>(a: seq<T>, b: seq<T>)
    requires Distinct(a) && Distinct(b)
    requires forall x | x in a :: x !in b
    ensures Distinct(a + b)
  {
    var s := a + b;
    forall i, j | 0 <= i < j < |s| ensures s[i] != s[j] {
      if j < |a| {
        assert s[i] == a[i] && s[j] == a[j];
      } else if i >= |a| {
        assert s[i] == b[i - |a|] && s[j] == b[j - |a|];
      } else {
        assert s[i] == a[i] && s[j] == b[j - |a|];
        assert a[i] in a && b[j - |a|] in b;
      }
    }
  }

  /** Folding `xs + ys` is folding `xs`, then `ys`. */
  lemma {:induction false} AddUniqueConcat<T(!new)>(acc: seq<T>, xs: seq<T>, ys: seq<T>)
    ensures AddUnique(acc, xs + ys) == AddUnique(AddUnique(acc, xs), ys)
    decreases |xs|
  {
    if xs == [] {
      assert xs + ys == ys;
    } else {
      var acc' := if xs[0] in acc then acc else acc + [xs[0]];
      assert (xs + ys)[0] == xs[0];
      assert (xs + ys)[1..] == xs[1..] + ys;
      AddUniqueConcat(acc', xs[1..], ys);
    }
  }

  /** Folding one more element appends it unless it is already there. */
  lemma AddUniqueSnoc<T(!new)>(acc: seq<T>, xs: seq<T>, x: T)
    ensures var a := AddUnique(acc, xs);
      AddUnique(acc, xs + [x]) == if x in a then a else a + [x]
  {
    AddUniqueConcat(acc, xs, [x]);
    var a := AddUnique(acc, xs);
    assert AddUnique(a, [x]) == AddUnique(if x in a then a else a + [x], []);
  }

  /** Folding elements that are all present already changes nothing. */
  lemma {:induction false} AddUniqueAbsorbed<T(!new)>(acc: seq<T>, xs: seq<T>)
    requires forall x | x in xs :: x in acc
    ensures AddUnique(acc, xs) == acc
    decreases |xs|
  {
    if xs != [] {
      assert xs[0] in xs;
      assert forall x | x in xs[1..] :: x in xs;
      AddUniqueAbsorbed(acc, xs[1..]);
    }
  }

  /** Folding the fold of `xs` onto `d` is folding `d`, then `xs`; in
      particular folding `Dedupe(xs)` is folding `xs`. */
  lemma {:induction false} AddUniqueNested<T(!new)>(acc: seq<T>, d: seq<T>, xs: seq<T>)
    ensures AddUnique(acc, AddUnique(d, xs)) == AddUnique(AddUnique(acc, d), xs)
    decreases |xs|
  {
    if xs != [] {
      var d' := if xs[0] in d then d else d + [xs[0]];
      AddUniqueNested(acc, d', xs[1..]);
      if xs[0] !in d {
        AddUniqueConcat(acc, d, [xs[0]]);
        var a := AddUnique(acc, d);
        assert AddUnique(a, [xs[0]]) == AddUnique(if xs[0] in a then a else a + [xs[0]], []);
      }
    }
  }

  /** A duplicate-free sequence splits into a duplicate-free prefix and a
      last element the prefix does not hold. */
  lemma DistinctSnoc<T(!new)>(p: seq<T>, x: T)
    requires Distinct(p + [x])
    ensures Distinct(p) && x !in p
  {
    var s := p + [x];
    forall i, j | 0 <= i < j < |p| ensures p[i] != p[j] {
      assert s[i] == p[i] && s[j] == p[j];
    }
    forall i | 0 <= i < |p| ensures p[i] != x {
      assert s[i] == p[i] && s[|p|] == x;
    }
  }

  /** A duplicate-free sequence is its own first-seen deduplication. */
  lemma {:induction false} DedupeDistinct<T(!new)>(xs: seq<T>)
    requires Distinct(xs)
    ensures Dedupe(xs) == xs
    decreases |xs|
  {
    if xs != [] {
      var n := |xs| - 1;
      var p, x := xs[..n], xs[n];
      assert xs == p + [x];
      DistinctSnoc(p, x);
      DedupeDistinct(p);
      AddUniqueSnoc([], p, x);
    }
  }

  /** `[...new Set([...cur, ...xs])]` on a duplicate-free `cur` keeps `cur`
      as it is and appends the new elements of `xs` in first-seen order. */
  lemma DedupeAppend<T(!new)>(cur: seq<T>, xs: seq<T>)
    ensures Distinct(cur) ==> Dedupe(cur + xs) == AddUnique(cur, xs)
  {
    if Distinct(cur) {
      AddUniqueConcat([], cur, xs);
      DedupeDistinct(cur);
    }
  }

  /** The elements `AddUnique` appends come in the order of their first
      occurrence in `xs`. */
  lemma {:induction false} AddUniqueFirstSeenOrder<T(!new)>(acc: seq<T>, xs: seq<T>, r: seq<T>)
    requires r == AddUnique(acc, xs)
    ensures forall i, j | |acc| <= i < j < |r| :: FirstIndex(xs, r[i]) < FirstIndex(xs, r[j])
    decreases |xs|
  {
    if xs != [] {
      var acc' := if xs[0] in acc then acc else acc + [xs[0]];
      assert r == AddUnique(acc', xs[1..]);
      AddUniqueFirstSeenOrder(acc', xs[1..], r);
      forall i, j | |acc| <= i < j < |r|
        ensures FirstIndex(xs, r[i]) < FirstIndex(xs, r[j])
      {
        assert r[j] in xs[1..];
        assert r[j] != xs[0] by {
          assert j >= |acc'|;
          assert xs[0] in acc';
        }
        FirstIndexTail(xs, r[j]);
        if i < |acc'| {
          assert i == |acc| && acc' == acc + [xs[0]];
          assert r[i] == acc'[i] == xs[0];
        } else {
          assert r[i] in xs[1..] && r[i] != xs[0] by {
            assert xs[0] in acc';
          }
          FirstIndexTail(xs, r[i]);
        }
      }
    }
  }

  lemma FirstIndexTail<T(!new)>(xs: seq<T>, x: T)
    requires |xs| > 0 && x in xs[1..] && x != xs[0]
    ensures FirstIndex(xs, x) == 1 + FirstIndex(xs[1..], x)
  {
  }

  /** `Dedupe` lists every element once, in order of first occurrence. */
  lemma DedupeFirstSeenOrder<T(!new)>(xs: seq<T>)
    ensures forall i, j | 0 <= i < j < |Dedupe(xs)| ::
      FirstIndex(xs, Dedupe(xs)[i]) < FirstIndex(xs, Dedupe(xs)[j])
  {
    AddUniqueFirstSeenOrder([], xs, Dedupe(xs));
  }

  /** The lists `f` gives for the elements, one after the other */
  /** Whether some element of `xs` satisfies `p` */
  predicate Any<T>(xs: seq<T>, p: T -> bool) {
    exists i | 0 <= i < |xs| :: p(xs[i])
  }

  /** Some element satisfies `p` exactly when the last does or an earlier one does */
  lemma AnySnoc<T>(xs: seq<T>, p: T -> bool)
    requires xs != []
    ensures Any(xs, p) <==> p(xs[|xs| - 1]) || Any(xs[..|xs| - 1], p)
  {
    var last := |xs| - 1;
    if Any(xs, p) {
      var i :| 0 <= i < |xs| && p(xs[i]);
      if i < last {
        assert xs[..last][i] == xs[i];
      }
    }
    if Any(xs[..last], p) {
      var i :| 0 <= i < last && p(xs[..last][i]);
      assert xs[i] == xs[..last][i];
    }
  }

  function FlatMap<T, U>(xs: seq<T>, f: T -> seq<U>): seq<U>
    decreases |xs|
  {
    if xs == [] then [] else f(xs[0]) + FlatMap(xs[1..], f)
  }

  /** An element of the flattened list comes from the list of some element */
  lemma {:induction false} FlatMapHas<T, U>(xs: seq<T>, f: T -> seq<U>, u: U)
    ensures u in FlatMap(xs, f) <==> exists i | 0 <= i < |xs| :: u in f(xs[i])
    decreases |xs|
  {
    if xs != [] {
      FlatMapHas(xs[1..], f, u);
      if exists i | 0 <= i < |xs[1..]| :: u in f(xs[1..][i]) {
        var i :| 0 <= i < |xs[1..]| && u in f(xs[1..][i]);
        assert xs[i + 1] == xs[1..][i];
      }
      if exists i | 0 <= i < |xs| :: u in f(xs[i]) {
        var i :| 0 <= i < |xs| && u in f(xs[i]);
        if i > 0 {
          assert xs[1..][i - 1] == xs[i];
        }
      }
    }
  }
}
