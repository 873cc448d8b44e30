/** Searching, filtering and counting over sequences: the list operations the scripts
    write as `for ... if ...: return`, list comprehensions and `sum(1 for ...)`. */
module Seqs {
  import opened Results

  /** The position of the first element satisfying `p`, if any. */
  function FirstIndex<T>(xs: seq<T>, p: T -> bool): (r: Option<nat>)
    ensures r.Some? ==> r.value < |xs| && p(xs[r.value])
    ensures r.Some? ==> forall j :: 0 <= j < r.value ==> !p(xs[j])
    ensures r.None? <==> forall j :: 0 <= j < |xs| ==> !p(xs[j])
  {
    if |xs| == 0 then None
    else if p(xs[0]) then Some(0)
    else
      match FirstIndex(xs[1..], p)
      case None => None
      case Some(i) => Some(i + 1)
  }

  /** Any position satisfying the first-match characterisation is the one found. */
  lemma FirstIndexUnique<T>(xs: seq<T>, p: T -> bool, i: nat)
    requires i < |xs| && p(xs[i])
    requires forall j :: 0 <= j < i ==> !p(xs[j])
    ensures FirstIndex(xs, p) == Some(i)
  {
  }

  /** The list comprehension `[x for x in xs if p(x)]`. */
  function Filter<T>(xs: seq<T>, p: T -> bool): (r: seq<T>)
    ensures |r| <= |xs|
    ensures forall i :: 0 <= i < |r| ==> p(r[i])
  {
    if |xs| == 0 then []
    else if p(xs[0]) then [xs[0]] + Filter(xs[1..], p)
    else Filter(xs[1..], p)
  }

  /** The comprehension keeps exactly the elements that satisfy the condition. */
  lemma {:induction false} FilterMembers<T>(xs: seq<T>, p: T -> bool, x: T)
    ensures x in Filter(xs, p) <==> x in xs && p(x)
    decreases |xs|
  {
    if |xs| > 0 {
      FilterMembers(xs[1..], p, x);
      assert xs == [xs[0]] + xs[1..];
    }
  }

  /** Filtering distributes over concatenation, so kept elements keep their order. */
  lemma {:induction false} FilterAppend<T>(xs: seq<T>, ys: seq<T>, p: T -> bool)
    ensures Filter(xs + ys, p) == Filter(xs, p) + Filter(ys, p)
    decreases |xs|
  {
    if |xs| == 0 {
      assert xs + ys == ys;
    } else {
      assert (xs + ys)[1..] == xs[1..] + ys;
      FilterAppend(xs[1..], ys, p);
    }
  }

  /** The number of elements satisfying `p`. */
  function Count<T>(xs: seq<T>, p: T -> bool): (n: nat)
    ensures n <= |xs|
  {
    if |xs| == 0 then 0 else (if p(xs[0]) then 1 else 0) + Count(xs[1..], p)
  }

  /** Counting is the length of the filtered list. */
  lemma {:induction false} CountIsFilterLength<T>(xs: seq<T>, p: T -> bool)
    ensures Count(xs, p) == |Filter(xs, p)|
    decreases |xs|
  {
    if |xs| > 0 {
      CountIsFilterLength(xs[1..], p);
    }
  }

  lemma {:induction false} CountAppend<T>(xs: seq<T>, ys: seq<T>, p: T -> bool)
    ensures Count(xs + ys, p) == Count(xs, p) + Count(ys, p)
    decreases |xs|
  {
    if |xs| == 0 {
      assert xs + ys == ys;
    } else {
      assert (xs + ys)[1..] == xs[1..] + ys;
      CountAppend(xs[1..], ys, p);
    }
  }

  /** One more element adds one to the count exactly when it satisfies `p`. */
  lemma CountSnoc<T>(xs: seq<T>, x: T, p: T -> bool)
    ensures Count(xs + [x], p) == Count(xs, p) + (if p(x) then 1 else 0)
  {
    CountAppend(xs, [x], p);
    assert [x][1..] == [];
  }

  /** A stronger condition holds of no more elements than a weaker one. */
  lemma {:induction false} CountMonotone<T>(xs: seq<T>, p: T -> bool, q: T -> bool)
    requires forall x :: p(x) ==> q(x)
    ensures Count(xs, p) <= Count(xs, q)
    decreases |xs|
  {
    if |xs| > 0 {
      CountMonotone(xs[1..], p, q);
    }
  }

  /** Position by position, `p` on `xs` implies `q` on `ys`: so `p` counts no more. */
  lemma {:induction false} CountPointwise<T, U>(xs: seq<T>, ys: seq<U>, p: T -> bool, q: U -> bool)
    requires |xs| == |ys|
    requires forall i :: 0 <= i < |xs| && p(xs[i]) ==> q(ys[i])
    ensures Count(xs, p) <= Count(ys, q)
    decreases |xs|
  {
    if |xs| > 0 {
      assert forall i :: 0 <= i < |xs| - 1 && p(xs[1..][i]) ==> q(ys[1..][i]) by {
        forall i | 0 <= i < |xs| - 1 && p(xs[1..][i]) ensures q(ys[1..][i]) {
          assert xs[1..][i] == xs[i + 1] && ys[1..][i] == ys[i + 1];
        }
      }
      CountPointwise(xs[1..], ys[1..], p, q);
    }
  }

  function Sum(xs: seq<nat>): nat {
    if |xs| == 0 then 0 else xs[0] + Sum(xs[1..])
  }

  /** Adding one to one entry adds one to the total. */
  lemma {:induction false} SumBump(xs: seq<nat>, j: nat)
    requires j < |xs|
    ensures Sum(xs[j := xs[j] + 1]) == Sum(xs) + 1
    decreases |xs|
  {
    if j > 0 {
      assert xs[j := xs[j] + 1][1..] == xs[1..][j - 1 := xs[1..][j - 1] + 1];
      SumBump(xs[1..], j - 1);
    }
  }

  lemma {:induction false} SumZeros(n: nat)
    ensures Sum(seq(n, _ => 0)) == 0
  {
    if n > 0 {
      assert seq(n, _ => 0)[1..] == seq(n - 1, _ => 0);
      SumZeros(n - 1);
    }
  }

  /** The positions `0 .. n-1` in order. */
  function Indices(n: nat): (r: seq<nat>)
    ensures |r| == n && forall i :: 0 <= i < n ==> r[i] == i
  {
    seq(n, i requires 0 <= i < n => i)
  }

  /** `[f(x) for x in xs]`. */
  function Map<T, U>(xs: seq<T>, f: T -> U): (r: seq<U>)
    ensures |r| == |xs| && forall i :: 0 <= i < |xs| ==> r[i] == f(xs[i])
  {
    seq(|xs|, i requires 0 <= i < |xs| => f(xs[i]))
  }

  /** Mapping one more element appends its image. */
  lemma MapSnoc<T, U>(xs: seq<T>, i: nat, f: T -> U)
    requires i < |xs|
    ensures Map(xs[..i + 1], f) == Map(xs[..i], f) + [f(xs[i])]
  {
  }

  /** Filtering and mapping one more element appends its image exactly when it passes. */
  lemma FilterMapSnoc<T, U>(xs: seq<T>, i: nat, p: T -> bool, f: T -> U)
    requires i < |xs|
    ensures Map(Filter(xs[..i + 1], p), f) == Map(Filter(xs[..i], p), f) + (if p(xs[i]) then [f(xs[i])] else [])
  {
    assert xs[..i + 1] == xs[..i] + [xs[i]];
    FilterAppend(xs[..i], [xs[i]], p);
    assert Filter([xs[i]], p) == if p(xs[i]) then [xs[i]] else [];
  }

  /** `y` is among the images of the kept elements exactly when some element that
      satisfies `p` maps to it. */
  lemma FilterMapMembers<T, U>(xs: seq<T>, p: T -> bool, f: T -> U, y: U)
    ensures y in Map(Filter(xs, p), f) <==> exists i :: 0 <= i < |xs| && p(xs[i]) && f(xs[i]) == y
  {
    var kept := Filter(xs, p);
    var ys := Map(kept, f);
    if y in ys {
      var k :| 0 <= k < |ys| && ys[k] == y;
      FilterMembers(xs, p, kept[k]);
      var i :| 0 <= i < |xs| && xs[i] == kept[k];
      assert p(xs[i]) && f(xs[i]) == y;
    }
    if exists i :: 0 <= i < |xs| && p(xs[i]) && f(xs[i]) == y {
      var i :| 0 <= i < |xs| && p(xs[i]) && f(xs[i]) == y;
      FilterMembers(xs, p, xs[i]);
      var k :| 0 <= k < |kept| && kept[k] == xs[i];
      assert ys[k] == y;
    }
  }

  /** Python's `max(xs, key=key)`: the position of the first element with the largest key. */
  function ArgMaxBy<T>(xs: seq<T>, key: T -> real): (r: nat)
    requires |xs| > 0
    ensures r < |xs|
    ensures forall j :: 0 <= j < |xs| ==> key(xs[j]) <= key(xs[r])
    ensures forall j :: 0 <= j < r ==> key(xs[j]) < key(xs[r])
  {
    if |xs| == 1 then 0
    else
      var k := ArgMaxBy(xs[1..], key) + 1;
      if key(xs[0]) >= key(xs[k]) then 0 else k
  }

  /** Python's `min(xs, key=key)`: the position of the first element with the smallest key. */
  function ArgMinBy<T>(xs: seq<T>, key: T -> real): (r: nat)
    requires |xs| > 0
    ensures r < |xs|
    ensures forall j :: 0 <= j < |xs| ==> key(xs[r]) <= key(xs[j])
    ensures forall j :: 0 <= j < r ==> key(xs[r]) < key(xs[j])
  {
    if |xs| == 1 then 0
    else
      var k := ArgMinBy(xs[1..], key) + 1;
      if key(xs[0]) <= key(xs[k]) then 0 else k
  }

  /** `xs` with `x` put at position `p`. */
  function InsertAt<T>(xs: seq<T>, p: nat, x: T): (r: seq<T>)
    requires p <= |xs|
    ensures |r| == |xs| + 1 && r[p] == x
    ensures forall j :: 0 <= j < p ==> r[j] == xs[j]
    ensures forall j :: p < j < |r| ==> r[j] == xs[j - 1]
    ensures multiset(r) == multiset(xs) + multiset{x}
  {
    assert xs == xs[..p] + xs[p..];
    xs[..p] + [x] + xs[p..]
  }
}
