/** Position-based list edits shared by the frame list and the duration list. Each is applied
    to the two lists separately, because the source can let them drift apart in length. */
module Lists {

  function Min(a: int, b: int): int { if a <= b then a else b }
  function Max(a: int, b: int): int { if a >= b then a else b }

  function Sum(xs: seq<int>): int
  {
    if xs == [] then 0 else xs[0] + Sum(xs[1..])
  }

  lemma {:induction false} SumConcat(a: seq<int>, b: seq<int>)
    ensures Sum(a + b) == Sum(a) + Sum(b)
  {
    if a == [] {
      assert a + b == b;
    } else {
      assert (a + b)[1..] == a[1..] + b;
      SumConcat(a[1..], b);
    }
  }

  /** Python's `xs[::-1]`. */
  function Reversed<T>(xs: seq<T>): seq<T>
  {
    seq(|xs|, k requires 0 <= k < |xs| => xs[|xs| - 1 - k])
  }

  lemma ReversedTwice<T>(xs: seq<T>)
    ensures Reversed(Reversed(xs)) == xs
  {
  }

  lemma ReversedConcat<T>(a: seq<T>, b: seq<T>)
    ensures Reversed(a + b) == Reversed(b) + Reversed(a)
  {
  }

  /** The element pairs of two lists of equal length. */
  function Zip<A, B>(a: seq<A>, b: seq<B>): (z: seq<(A, B)>)
    requires |a| == |b|
  {
    seq(|a|, k requires 0 <= k < |a| => (a[k], b[k]))
  }

  /** The positions of `s` in [lo, hi). */
  function InRange(s: set<int>, lo: int, hi: int): set<int>
  {
    set i | i in s && lo <= i < hi
  }

  /** The integers in [lo, hi): Python's `set(range(lo, hi))`. */
  function Range(lo: int, hi: int): (r: set<int>)
    ensures forall i :: i in r <==> lo <= i < hi
    ensures |r| == if lo <= hi then hi - lo else 0
    decreases hi - lo
  {
    if hi <= lo then {} else Range(lo, hi - 1) + {hi - 1}
  }

  /** The elements of `xs` whose position, counting from `off`, is NOT in `s`, in order. */
  function KeptAt<T>(xs: seq<T>, s: set<int>, off: int): seq<T>
    decreases |xs|
  {
    if xs == [] then [] else (if off in s then [] else [xs[0]]) + KeptAt(xs[1..], s, off + 1)
  }

  /** The elements of `xs` whose position, counting from `off`, IS in `s`, in order. */
  function PickedAt<T>(xs: seq<T>, s: set<int>, off: int): seq<T>
    decreases |xs|
  {
    if xs == [] then [] else (if off in s then [xs[0]] else []) + PickedAt(xs[1..], s, off + 1)
  }

  lemma {:induction false} KeptSplit<T>(a: seq<T>, b: seq<T>, s: set<int>, off: int)
    ensures KeptAt(a + b, s, off) == KeptAt(a, s, off) + KeptAt(b, s, off + |a|)
    decreases |a|
  {
    if a == [] {
      assert a + b == b;
    } else {
      assert (a + b)[1..] == a[1..] + b;
      KeptSplit(a[1..], b, s, off + 1);
    }
  }

  lemma {:induction false} PickedSplit<T>(a: seq<T>, b: seq<T>, s: set<int>, off: int)
    ensures PickedAt(a + b, s, off) == PickedAt(a, s, off) + PickedAt(b, s, off + |a|)
    decreases |a|
  {
    if a == [] {
      assert a + b == b;
    } else {
      assert (a + b)[1..] == a[1..] + b;
      PickedSplit(a[1..], b, s, off + 1);
    }
  }

  /** Positions outside `s` keep everything and pick nothing. */
  lemma {:induction false} OutsideUntouched<T>(xs: seq<T>, s: set<int>, off: int)
    requires forall i :: i in s ==> !(off <= i < off + |xs|)
    ensures KeptAt(xs, s, off) == xs && PickedAt(xs, s, off) == []
    decreases |xs|
  {
    if xs != [] {
      OutsideUntouched(xs[1..], s, off + 1);
    }
  }

  /** Only the positions of `s` inside the list matter. */
  lemma {:induction false} OnlyInRangeMatters<T>(xs: seq<T>, s: set<int>, off: int)
    ensures KeptAt(xs, s, off) == KeptAt(xs, InRange(s, off, off + |xs|), off)
    ensures PickedAt(xs, s, off) == PickedAt(xs, InRange(s, off, off + |xs|), off)
    decreases |xs|
  {
    if xs != [] {
      OnlyInRangeMatters(xs[1..], s, off + 1);
      assert InRange(InRange(s, off, off + |xs|), off + 1, off + |xs|) == InRange(s, off + 1, off + |xs|);
      OnlyInRangeMatters(xs[1..], InRange(s, off, off + |xs|), off + 1);
    }
  }

  lemma {:induction false} KeptPickedLength<T>(xs: seq<T>, s: set<int>, off: int)
    ensures |KeptAt(xs, s, off)| + |PickedAt(xs, s, off)| == |xs|
    decreases |xs|
  {
    if xs != [] {
      KeptPickedLength(xs[1..], s, off + 1);
    }
  }

  /** Keeping and picking split the list: together they hold every element exactly once. */
  lemma {:induction false} KeptPickedPartition<T>(xs: seq<T>, s: set<int>, off: int)
    ensures multiset(KeptAt(xs, s, off)) + multiset(PickedAt(xs, s, off)) == multiset(xs)
    decreases |xs|
  {
    if xs != [] {
      KeptPickedPartition(xs[1..], s, off + 1);
      assert xs == [xs[0]] + xs[1..];
    }
  }

  /** As many elements are picked as `s` has positions inside the list. */
  lemma {:induction false} PickedCount<T>(xs: seq<T>, s: set<int>, off: int)
    ensures |PickedAt(xs, s, off)| == |InRange(s, off, off + |xs|)|
    decreases |xs|
  {
    if xs == [] {
      assert InRange(s, off, off) == {};
    } else {
      PickedCount(xs[1..], s, off + 1);
      var here := if off in s then {off} else {};
      assert InRange(s, off, off + |xs|) == here + InRange(s, off + 1, off + |xs|);
      assert here !! InRange(s, off + 1, off + |xs|);
    }
  }

  /** Keeping and picking commute with pairing two lists position by position. */
  lemma {:induction false} ZipKept<A, B>(a: seq<A>, b: seq<B>, s: set<int>, off: int)
    requires |a| == |b|
    ensures |KeptAt(a, s, off)| == |KeptAt(b, s, off)|
    ensures Zip(KeptAt(a, s, off), KeptAt(b, s, off)) == KeptAt(Zip(a, b), s, off)
    decreases |a|
  {
    if a != [] {
      ZipKept(a[1..], b[1..], s, off + 1);
      var z := Zip(a, b);
      assert z[1..] == Zip(a[1..], b[1..]);
      var ha: seq<A> := if off in s then [] else [a[0]];
      var hb: seq<B> := if off in s then [] else [b[0]];
      assert Zip(ha, hb) == if off in s then [] else [z[0]];
      ZipConcat(ha, hb, KeptAt(a[1..], s, off + 1), KeptAt(b[1..], s, off + 1));
    }
  }

  lemma {:induction false} ZipPicked<A, B>(a: seq<A>, b: seq<B>, s: set<int>, off: int)
    requires |a| == |b|
    ensures |PickedAt(a, s, off)| == |PickedAt(b, s, off)|
    ensures Zip(PickedAt(a, s, off), PickedAt(b, s, off)) == PickedAt(Zip(a, b), s, off)
    decreases |a|
  {
    if a != [] {
      ZipPicked(a[1..], b[1..], s, off + 1);
      var z := Zip(a, b);
      assert z[1..] == Zip(a[1..], b[1..]);
      var ha: seq<A> := if off in s then [a[0]] else [];
      var hb: seq<B> := if off in s then [b[0]] else [];
      assert Zip(ha, hb) == if off in s then [z[0]] else [];
      ZipConcat(ha, hb, PickedAt(a[1..], s, off + 1), PickedAt(b[1..], s, off + 1));
    }
  }

  lemma ZipConcat<A, B>(a: seq<A>, b: seq<B>, c: seq<A>, d: seq<B>)
    requires |a| == |b| && |c| == |d|
    ensures Zip(a + c, b + d) == Zip(a, b) + Zip(c, d)
  {
  }

  lemma ZipSlices<A, B>(a: seq<A>, b: seq<B>, p: nat)
    requires |a| == |b| && p <= |a|
    ensures Zip(a[..p], b[..p]) == Zip(a, b)[..p] && Zip(a[p..], b[p..]) == Zip(a, b)[p..]
  {
  }

  /** Python's `xs.insert(p, x)` for p >= 0: a position past the end appends. */
  function Insert<T>(xs: seq<T>, p: nat, x: T): seq<T>
  {
    var q := Min(p, |xs|);
    xs[..q] + [x] + xs[q..]
  }

  /** Python's `del xs[p]`. */
  function Removed<T>(xs: seq<T>, p: nat): seq<T>
    requires p < |xs|
  {
    xs[..p] + xs[p + 1..]
  }

  /** The reorder edit: the elements at the positions of `s` are taken out (keeping their order)
      and re-inserted as one block at `target`, counted in the list after the removal; a target
      past its end appends the block. */
  function Moved<T>(xs: seq<T>, s: set<int>, target: nat): seq<T>
  {
    var kept := KeptAt(xs, s, 0);
    var p := Min(target, |kept|);
    kept[..p] + PickedAt(xs, s, 0) + kept[p..]
  }

  /** Moving a block is a permutation: same length and the same elements. */
  lemma MovedPermutes<T>(xs: seq<T>, s: set<int>, target: nat)
    ensures |Moved(xs, s, target)| == |xs|
    ensures multiset(Moved(xs, s, target)) == multiset(xs)
  {
    var kept := KeptAt(xs, s, 0);
    var p := Min(target, |kept|);
    KeptPickedLength(xs, s, 0);
    KeptPickedPartition(xs, s, 0);
    assert kept == kept[..p] + kept[p..];
    assert multiset(kept) == multiset(kept[..p]) + multiset(kept[p..]);
  }

  /** Where the block lands: the picked elements sit at [p, p + k) with p = min(target, n - k),
      and the rest of the list is the kept elements in order. */
  lemma MovedBlock<T>(xs: seq<T>, s: set<int>, target: nat)
    ensures var k := |InRange(s, 0, |xs|)|;
            var p := Min(target, |xs| - k);
            var ys := Moved(xs, s, target);
            |ys| == |xs| && 0 <= p <= p + k <= |xs| &&
            ys[p..p + k] == PickedAt(xs, s, 0) &&
            ys[..p] + ys[p + k..] == KeptAt(xs, s, 0)
  {
    PickedCount(xs, s, 0);
    KeptPickedLength(xs, s, 0);
    MovedSlices(KeptAt(xs, s, 0), PickedAt(xs, s, 0), Min(target, |KeptAt(xs, s, 0)|));
  }

  lemma MovedSlices<T>(kept: seq<T>, picked: seq<T>, p: nat)
    requires p <= |kept|
    ensures var ys := kept[..p] + picked + kept[p..];
            ys[p..p + |picked|] == picked && ys[..p] + ys[p + |picked|..] == kept
  {
    var ys := kept[..p] + picked + kept[p..];
    assert ys[..p] == kept[..p];
    assert ys[p + |picked|..] == kept[p..];
    assert kept == kept[..p] + kept[p..];
  }

  /** Moving the position-wise pairs is the same as moving both lists: they stay in lock-step. */
  lemma MovedLockStep<A, B>(a: seq<A>, b: seq<B>, s: set<int>, target: nat)
    requires |a| == |b|
    ensures |Moved(a, s, target)| == |Moved(b, s, target)|
    ensures Zip(Moved(a, s, target), Moved(b, s, target)) == Moved(Zip(a, b), s, target)
  {
    ZipKept(a, b, s, 0);
    ZipPicked(a, b, s, 0);
    var ka, kb := KeptAt(a, s, 0), KeptAt(b, s, 0);
    var p := Min(target, |ka|);
    ZipSlices(ka, kb, p);
    ZipConcat(ka[..p], kb[..p], PickedAt(a, s, 0), PickedAt(b, s, 0));
    ZipConcat(ka[..p] + PickedAt(a, s, 0), kb[..p] + PickedAt(b, s, 0), ka[p..], kb[p..]);
  }

  /** Python's `[x] * n`. */
  function Repeat<T>(x: T, n: nat): (r: seq<T>)
  {
    seq(n, _ => x)
  }

  /** The largest element of a non-empty set: Python's `sorted(s)[-1]`. */
  function SetMax(s: set<int>): (m: int)
    requires s != {}
    ensures m in s && forall y :: y in s ==> y <= m
  {
    MaxExists(s);
    var m :| m in s && forall y :: y in s ==> y <= m;
    m
  }

  lemma {:induction false} MaxExists(s: set<int>)
    requires s != {}
    ensures exists m :: m in s && forall y :: y in s ==> y <= m
    decreases s
  {
    assert (forall y :: y !in s) ==> s == {};
    var x :| x in s;
    if s != {x} {
      MaxExists(s - {x});
      var m :| m in s - {x} && forall y :: y in s - {x} ==> y <= m;
      var top := if x <= m then m else x;
      forall y | y in s
        ensures y <= top
      {
        if y != x {
          assert y in s - {x};
        }
      }
      assert top in s;
    } else {
      forall y | y in s
        ensures y <= x
      {
        assert y in {x};
      }
    }
  }

  // ---------------------------------------------------------------- sorted index lists

  /** The integers of a list, as a set. */
  function Elems(xs: seq<int>): set<int>
  {
    set x | x in xs
  }

  predicate Increasing(xs: seq<int>)
  {
    forall a, b :: 0 <= a < b < |xs| ==> xs[a] < xs[b]
  }

  /** Python's `sorted(s)`: the elements of `s` in strictly increasing order. */
  function Ascending(s: set<int>): (r: seq<int>)
    ensures |r| == |s| && Elems(r) == s && Increasing(r)
    decreases |s|
  {
    if s == {} then []
    else
      var m := SetMax(s);
      var rest := Ascending(s - {m});
      SnocIncreasing(rest, m);
      assert Elems(rest + [m]) == Elems(rest) + {m};
      rest + [m]
  }

  lemma SnocIncreasing(xs: seq<int>, m: int)
    requires Increasing(xs) && forall x :: x in Elems(xs) ==> x < m
    ensures Increasing(xs + [m])
  {
    forall a | 0 <= a < |xs|
      ensures xs[a] < m
    {
      assert xs[a] in Elems(xs);
    }
  }

  /** In an increasing list, element k splits the others into smaller ones before it and larger
      ones after it. */
  lemma IncreasingSplit(xs: seq<int>, k: int)
    requires Increasing(xs) && 0 <= k < |xs|
    ensures Elems(xs[..k + 1]) == Elems(xs[..k]) + {xs[k]}
    ensures Elems(xs[k..]) == Elems(xs[k + 1..]) + {xs[k]}
    ensures var lo := Elems(xs[..k]); forall x :: x in lo ==> x < xs[k]
    ensures var hi := Elems(xs[k + 1..]); forall x :: x in hi ==> x > xs[k]
  {
    assert xs[..k + 1] == xs[..k] + [xs[k]];
    assert xs[k..] == [xs[k]] + xs[k + 1..];
    var lo, hi, tail := Elems(xs[..k]), Elems(xs[k + 1..]), xs[k + 1..];
    forall x | x in lo
      ensures x < xs[k]
    {
      var a :| 0 <= a < k && xs[a] == x;
    }
    forall x | x in hi
      ensures x > xs[k]
    {
      var a :| 0 <= a < |tail| && tail[a] == x;
      assert tail[a] == xs[k + 1 + a];
    }
  }

  /** `del` at a position below every position already removed takes out the element that was
      there in the original list. */
  lemma RemovedKept<T>(xs: seq<T>, d: set<int>, p: int)
    requires 0 <= p < |xs| && forall j :: j in d ==> j > p
    ensures p < |KeptAt(xs, d, 0)|
    ensures Removed(KeptAt(xs, d, 0), p) == KeptAt(xs, d + {p}, 0)
  {
    var a, b := xs[..p], xs[p..];
    assert xs == a + b;
    KeptSplit(a, b, d, 0);
    KeptSplit(a, b, d + {p}, 0);
    OutsideUntouched(a, d, 0);
    OutsideUntouched(a, d + {p}, 0);
    OnlyInRangeMatters(b[1..], d, p + 1);
    OnlyInRangeMatters(b[1..], d + {p}, p + 1);
    assert InRange(d, p + 1, p + |b|) == InRange(d + {p}, p + 1, p + |b|);
    assert KeptAt(b, d, p) == [b[0]] + KeptAt(b[1..], d, p + 1);
  }

  /** Picking one more position, above all picked so far, appends its element. */
  lemma PickedSnoc<T>(xs: seq<T>, s: set<int>, q: int)
    requires 0 <= q < |xs| && forall j :: j in s ==> j < q
    ensures PickedAt(xs, s + {q}, 0) == PickedAt(xs, s, 0) + [xs[q]]
  {
    var a, b := xs[..q], xs[q..];
    assert xs == a + b;
    var t := s + {q};
    assert PickedAt(a, t, 0) == PickedAt(a, s, 0) by {
      OnlyInRangeMatters(a, s, 0);
      OnlyInRangeMatters(a, t, 0);
      assert InRange(s, 0, q) == InRange(t, 0, q);
    }
    assert PickedAt(b, t, q) == [xs[q]] by {
      OutsideUntouched(b[1..], t, q + 1);
      assert PickedAt(b, t, q) == [b[0]] + PickedAt(b[1..], t, q + 1);
    }
    assert PickedAt(b, s, q) == [] by {
      OutsideUntouched(b, s, q);
    }
    PickedSplit(a, b, s, 0);
    PickedSplit(a, b, t, 0);
  }

}
