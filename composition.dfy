/** Folding the second sequence into the first: the duration rescaling used before a merge,
    the size arithmetic shared by merge and concatenation, the two-cursor merge sweep, and
    the padded concatenation. */
module Composition {
  import opened Lists
  import opened Frames

  // ---------------------------------------------------------------- rounding and rescaling

  /** `custom_round` applied to the non-negative quotient num / den: the integer part, plus one
      when the fractional part is one half or more. */
  function CustomRound(num: int, den: int): (r: int)
    requires num >= 0 && den > 0
    ensures r >= 0
    ensures (2 * r - 1) * den <= 2 * num < (2 * r + 1) * den
  {
    var q := (2 * num + den) / (2 * den);
    assert 2 * den * q <= 2 * num + den < 2 * den * q + 2 * den;
    q
  }

  /** The characterisation pins the value down: any r with the same bracket is the result. */
  lemma CustomRoundUnique(num: int, den: int, r: int)
    requires num >= 0 && den > 0
    requires (2 * r - 1) * den <= 2 * num < (2 * r + 1) * den
    ensures CustomRound(num, den) == r
  {
    var c := CustomRound(num, den);
    MulMono(2 * c + 1, 2 * r - 1, den);
    MulMono(2 * r + 1, 2 * c - 1, den);
  }

  lemma Distrib(a: int, b: int, c: int)
    ensures a * c + b * c == (a + b) * c
  {
  }

  /** Exact quotients are kept. */
  lemma CustomRoundExact(k: int, den: int)
    requires k >= 0 && den > 0
    ensures k * den >= 0 && CustomRound(k * den, den) == k
  {
    Distrib(2 * k, -1, den);
    Distrib(2 * k, 1, den);
    CustomRoundUnique(k * den, den, k);
  }

  /** Halves round up, smaller fractions round down. */
  lemma CustomRoundExamples()
    ensures CustomRound(5, 2) == 3 && CustomRound(7, 3) == 2 && CustomRound(8, 3) == 3
  {
    CustomRoundUnique(5, 2, 3);
    CustomRoundUnique(7, 3, 2);
    CustomRoundUnique(8, 3, 3);
  }

  /** A larger numerator never rounds lower. */
  lemma CustomRoundMonotone(a: int, b: int, den: int)
    requires 0 <= a <= b && den > 0
    ensures CustomRound(a, den) <= CustomRound(b, den)
  {
    var ra := CustomRound(a, den);
    var rb := CustomRound(b, den);
    MulMono(2 * rb + 1, 2 * ra - 1, den);
  }

  /** `custom_round(other * (x / own))`: the rounded share of `other` that x out of `own` is. */
  function Share(x: int, own: int, other: int): (r: int)
    requires x >= 0 && own > 0 && other >= 0
    ensures r >= 0
    ensures (2 * r - 1) * own <= 2 * (other * x) < (2 * r + 1) * own
  {
    MulNonNegative(other, x);
    CustomRound(other * x, own)
  }

  /** A share of an equal total is the amount itself. */
  lemma ShareOfEqual(x: int, own: int)
    requires x >= 0 && own > 0
    ensures Share(x, own, own) == x
  {
    CustomRoundExact(x, own);
  }

  lemma ShareMonotone(x: int, y: int, own: int, other: int)
    requires 0 <= x <= y && own > 0 && other >= 0
    ensures Share(x, own, other) <= Share(y, own, other)
  {
    MulMono(x, y, other);
    MulNonNegative(other, x);
    CustomRoundMonotone(other * x, other * y, own);
  }

  predicate NonNegative(ds: seq<int>)
  {
    forall k :: 0 <= k < |ds| ==> ds[k] >= 0
  }

  /** One list rescaled by `adjust_frame_durations`: entry d becomes custom_round(other * d / own). */
  function Rescaled(ds: seq<int>, own: int, other: int): (r: seq<int>)
    requires own > 0 && other >= 0 && NonNegative(ds)
    ensures |r| == |ds|
  {
    seq(|ds|, k requires 0 <= k < |ds| => Share(ds[k], own, other))
  }

  /** `adjust_frame_durations`: the list with the smaller total (the first one on a tie) is
      rescaled to the other's total; the other list is returned as it was. */
  function Adjusted(d1: seq<int>, d2: seq<int>): (seq<int>, seq<int>)
    requires NonNegative(d1) && NonNegative(d2)
    requires Sum(d1) > Sum(d2) ==> Sum(d2) > 0
    requires Sum(d1) <= Sum(d2) ==> Sum(d1) > 0
  {
    if Sum(d1) > Sum(d2) then (d1, Rescaled(d2, Sum(d2), Sum(d1)))
    else (Rescaled(d1, Sum(d1), Sum(d2)), d2)
  }

  lemma {:induction false} SumNonNegative(ds: seq<int>)
    requires NonNegative(ds)
    ensures Sum(ds) >= 0
    decreases |ds|
  {
    if ds != [] {
      SumNonNegative(ds[1..]);
    }
  }

  /** Exactly one list is rewritten, its length kept and each entry replaced by its rounded share
      of the other total; the other list is untouched, and on equal totals nothing changes. */
  lemma AdjustedEffect(d1: seq<int>, d2: seq<int>)
    requires NonNegative(d1) && NonNegative(d2)
    requires Sum(d1) > Sum(d2) ==> Sum(d2) > 0
    requires Sum(d1) <= Sum(d2) ==> Sum(d1) > 0
    ensures var (n1, n2) := Adjusted(d1, d2);
            |n1| == |d1| && |n2| == |d2| &&
            (Sum(d1) > Sum(d2) ==>
               n1 == d1 && forall k :: 0 <= k < |d2| ==> n2[k] == Share(d2[k], Sum(d2), Sum(d1))) &&
            (Sum(d1) <= Sum(d2) ==>
               n2 == d2 && forall k :: 0 <= k < |d1| ==> n1[k] == Share(d1[k], Sum(d1), Sum(d2))) &&
            (Sum(d1) == Sum(d2) ==> n1 == d1 && n2 == d2)
  {
    if Sum(d1) == Sum(d2) {
      RescaledIdentity(d1, Sum(d1));
    }
  }

  /** Rescaling a list to its own total changes nothing. */
  lemma RescaledIdentity(ds: seq<int>, total: int)
    requires total > 0 && NonNegative(ds)
    ensures Rescaled(ds, total, total) == ds
  {
    forall k | 0 <= k < |ds|
      ensures Share(ds[k], total, total) == ds[k]
    {
      ShareOfEqual(ds[k], total);
    }
  }

  /** Against a 200 ms sequence, [30, 70] becomes [60, 140]. */
  lemma AdjustedExample()
    ensures Adjusted([30, 70], [150, 50]) == ([60, 140], [150, 50])
  {
    assert [30, 70][1..] == [70] && [150, 50][1..] == [50];
    assert Sum([30, 70]) == 100;
    assert Sum([150, 50]) == 200;
    CustomRoundUnique(200 * 30, 100, 60);
    CustomRoundUnique(200 * 70, 100, 140);
    assert Share(30, 100, 200) == 60 && Share(70, 100, 200) == 140;
    assert Rescaled([30, 70], 100, 200) == [60, 140];
  }

  /** The rounding error of one share, scaled by two: at most one `own` either way. */
  lemma ShareError(x: int, own: int, other: int)
    requires x >= 0 && own > 0 && other >= 0
    ensures -own <= 2 * (other * x) - 2 * (own * Share(x, own, other)) < own
  {
    var r := Share(x, own, other);
    Distrib(2 * r, -1, own);
    Distrib(2 * r, 1, own);
  }

  /** The rounding errors do not cancel, and nothing corrects them: the rescaled total only lies
      within half a millisecond per entry of the target. */
  lemma RescaledDrift(ds: seq<int>, own: int, other: int)
    requires own > 0 && other >= 0 && NonNegative(ds) && Sum(ds) == own
    ensures 2 * Sum(Rescaled(ds, own, other)) - |ds| <= 2 * other <= 2 * Sum(Rescaled(ds, own, other)) + |ds|
  {
    DriftScaled(ds, own, other);
    DriftDivide(other, Sum(Rescaled(ds, own, other)), own, |ds|);
  }

  lemma DriftDivide(other: int, s: int, own: int, n: int)
    requires own > 0
    requires -(n * own) <= 2 * (other * own) - 2 * (own * s) <= n * own
    ensures 2 * s - n <= 2 * other <= 2 * s + n
  {
    var x := 2 * other - 2 * s;
    assert x * own == 2 * (other * own) - 2 * (own * s);
    MulMono(x, -n - 1, own);
    MulMono(n + 1, x, own);
  }

  /** The bracket of `RescaledDrift` before dividing by `own`, for any list total. */
  lemma {:induction false} DriftScaled(ds: seq<int>, own: int, other: int)
    requires own > 0 && other >= 0 && NonNegative(ds)
    ensures -(|ds| * own) <= 2 * (other * Sum(ds)) - 2 * (own * Sum(Rescaled(ds, own, other))) <= |ds| * own
    decreases |ds|
  {
    if ds != [] {
      var r := Rescaled(ds, own, other);
      assert Rescaled(ds[1..], own, other) == r[1..];
      DriftScaled(ds[1..], own, other);
      ShareError(ds[0], own, other);
      var t, s := Sum(ds[1..]), Sum(r[1..]);
      DriftStep(other, ds[0], t, own, r[0], s, |ds|);
    }
  }

  /** One more entry adds at most one `own` of error to the bracket. */
  lemma DriftStep(other: int, d: int, t: int, own: int, c: int, s: int, n: int)
    requires -own <= 2 * (other * d) - 2 * (own * c) < own
    requires -((n - 1) * own) <= 2 * (other * t) - 2 * (own * s) <= (n - 1) * own
    ensures -(n * own) <= 2 * (other * (d + t)) - 2 * (own * (c + s)) <= n * own
  {
    assert other * (d + t) == other * d + other * t;
    assert own * (c + s) == own * c + own * s;
    assert n * own == own + (n - 1) * own;
  }

  /** Three 1 ms frames rescaled to 10 ms become 3 ms each: 9 ms, one short of the target. */
  lemma RescaledDriftExample()
    ensures Rescaled([1, 1, 1], 3, 10) == [3, 3, 3]
    ensures Sum(Rescaled([1, 1, 1], 3, 10)) == 9
  {
    CustomRoundUnique(10, 3, 3);
    assert Rescaled([1, 1, 1], 3, 10) == [3, 3, 3];
    assert [3, 3, 3][1..] == [3, 3] && [3, 3][1..] == [3];
  }

  /** Rescaling by rounding running totals instead of single entries: entry k is the rounded
      share of the first k+1 entries minus that of the first k, so the rounding errors do not
      accumulate. `acc` is the total of the entries before `ds`. */
  function RescaledCumulative(ds: seq<int>, acc: int, own: int, other: int): (r: seq<int>)
    requires own > 0 && other >= 0 && acc >= 0 && NonNegative(ds)
    ensures |r| == |ds|
    decreases |ds|
  {
    if ds == [] then []
    else [Share(acc + ds[0], own, other) - Share(acc, own, other)] + RescaledCumulative(ds[1..], acc + ds[0], own, other)
  }

  /** The running-total rescaling telescopes to the rounded share of everything, entry by entry
      non-negative. */
  lemma {:induction false} CumulativeTelescopes(ds: seq<int>, acc: int, own: int, other: int)
    requires own > 0 && other >= 0 && acc >= 0 && NonNegative(ds)
    ensures Sum(ds) >= 0
    ensures Sum(RescaledCumulative(ds, acc, own, other)) ==
            Share(acc + Sum(ds), own, other) - Share(acc, own, other)
    ensures NonNegative(RescaledCumulative(ds, acc, own, other))
    decreases |ds|
  {
    SumNonNegative(ds);
    if ds != [] {
      CumulativeTelescopes(ds[1..], acc + ds[0], own, other);
      ShareMonotone(acc, acc + ds[0], own, other);
      var r := RescaledCumulative(ds, acc, own, other);
      assert r[1..] == RescaledCumulative(ds[1..], acc + ds[0], own, other);
    }
  }

  /** With running totals the rescaled list hits the target total exactly, no entry is negative,
      and rescaling to an equal total is still the identity. */
  lemma CumulativeExact(ds: seq<int>, own: int, other: int)
    requires own > 0 && other >= 0 && NonNegative(ds) && Sum(ds) == own
    ensures Sum(RescaledCumulative(ds, 0, own, other)) == other
    ensures NonNegative(RescaledCumulative(ds, 0, own, other))
    ensures other == own ==> RescaledCumulative(ds, 0, own, other) == ds
  {
    CumulativeTelescopes(ds, 0, own, other);
    CustomRoundExact(other, own);
    CustomRoundExact(0, own);
    assert other * own == own * other;
    if other == own {
      CumulativeIdentity(ds, 0, own);
    }
  }

  lemma {:induction false} CumulativeIdentity(ds: seq<int>, acc: int, own: int)
    requires own > 0 && acc >= 0 && NonNegative(ds)
    ensures RescaledCumulative(ds, acc, own, own) == ds
    decreases |ds|
  {
    if ds != [] {
      CumulativeIdentity(ds[1..], acc + ds[0], own);
      assert Share(acc + ds[0], own, own) - Share(acc, own, own) == ds[0] by {
        ShareOfEqual(acc + ds[0], own);
        ShareOfEqual(acc, own);
      }
      assert [ds[0]] + ds[1..] == ds;
    }
  }

  /** The example that loses a millisecond above comes out exact. */
  lemma CumulativeExample()
    ensures RescaledCumulative([1, 1, 1], 0, 3, 10) == [3, 4, 3]
  {
    var last := RescaledCumulative([1], 2, 3, 10);
    assert last == [3] by {
      assert Share(3, 3, 10) == 10 by { CustomRoundUnique(30, 3, 10); }
      assert Share(2, 3, 10) == 7 by { CustomRoundUnique(20, 3, 7); }
    }
    var two := RescaledCumulative([1, 1], 1, 3, 10);
    assert two == [4] + last by {
      assert [1, 1][1..] == [1];
      assert Share(2, 3, 10) == 7 by { CustomRoundUnique(20, 3, 7); }
      assert Share(1, 3, 10) == 3 by { CustomRoundUnique(10, 3, 3); }
    }
    assert RescaledCumulative([1, 1, 1], 0, 3, 10) == [3] + two by {
      assert [1, 1, 1][1..] == [1, 1];
      assert Share(1, 3, 10) == 3 by { CustomRoundUnique(10, 3, 3); }
      assert Share(0, 3, 10) == 0 by { CustomRoundUnique(0, 3, 0); }
    }
  }

  // ---------------------------------------------------------------- common size

  /** What `calc_resizing_metrics` returns: both target sizes and whether the first side is the
      one to resample. */
  datatype Metrics = Metrics(w1: int, h1: int, w2: int, h2: int, resizeFirst: bool)

  /** Both sides are brought to the taller height; the taller side (the first on a tie) keeps its
      size, the other keeps its aspect ratio with the width rounded down. */
  function ResizingMetrics(w1: int, h1: int, w2: int, h2: int): (m: Metrics)
    requires w1 > 0 && h1 > 0 && w2 > 0 && h2 > 0
    ensures m.h1 == m.h2 == Max(h1, h2)
    ensures m.resizeFirst <==> h2 > h1
    ensures m.resizeFirst ==> m.w2 == w2 && m.w1 * h1 <= m.h1 * w1 < (m.w1 + 1) * h1
    ensures !m.resizeFirst ==> m.w1 == w1 && m.w2 * h2 <= m.h2 * w2 < (m.w2 + 1) * h2
    ensures m.w1 >= 0 && m.w2 >= 0
  {
    var height := Max(h1, h2);
    if height == h1 then Metrics(w1, h1, ScaledWidth(w2, h2, height), height, false)
    else Metrics(ScaledWidth(w1, h1, height), height, w2, h2, true)
  }

  /** Equal heights change nothing. */
  lemma ResizingMetricsEqualHeights(w1: int, w2: int, h: int)
    requires w1 > 0 && w2 > 0 && h > 0
    ensures ResizingMetrics(w1, h, w2, h) == Metrics(w1, h, w2, h, false)
  {
  }

  /** The metrics for two frame sequences, read from their first frames. */
  function MetricsOf(f1: seq<Frame>, f2: seq<Frame>): Metrics
    requires f1 != [] && f2 != []
    requires Width(f1[0]) > 0 && Height(f1[0]) > 0 && Width(f2[0]) > 0 && Height(f2[0]) > 0
  {
    ResizingMetrics(Width(f1[0]), Height(f1[0]), Width(f2[0]), Height(f2[0]))
  }

  /** Every frame resampled to w x h (`resize_frames` with the width already computed). */
  function ResizedAll(fs: seq<Frame>, w: int, h: int): (r: seq<Frame>)
    ensures |r| == |fs|
    ensures forall k :: 0 <= k < |fs| ==> r[k] == Resized(fs[k], w, h)
  {
    seq(|fs|, k requires 0 <= k < |fs| => Resized(fs[k], w, h))
  }

  /** All frames of a sequence share one size. */
  predicate Uniform(fs: seq<Frame>, w: int, h: int)
  {
    forall k :: 0 <= k < |fs| ==> Width(fs[k]) == w && Height(fs[k]) == h
  }

  // ---------------------------------------------------------------- the merge sweep

  /** The single-frame broadcast of `handle_merge`: a side with exactly one frame (the first side
      if both have one) is repeated to the other side's length and takes the other's
      durations; otherwise the durations are adjusted. */
  function Broadcast(f1: seq<Frame>, d1: seq<int>, f2: seq<Frame>, d2: seq<int>)
    : (r: (seq<Frame>, seq<int>, seq<Frame>, seq<int>))
    requires |f1| != 1 && |f2| != 1 ==>
               NonNegative(d1) && NonNegative(d2) &&
               (Sum(d1) > Sum(d2) ==> Sum(d2) > 0) && (Sum(d1) <= Sum(d2) ==> Sum(d1) > 0)
    ensures f1 != [] && f2 != [] ==> r.0 != [] && r.2 != [] && r.0[0] == f1[0] && r.2[0] == f2[0]
    ensures |f1| <= |d1| && |f2| <= |d2| ==> |r.0| <= |r.1| && |r.2| <= |r.3|
    ensures |f1| == |d1| && |f2| == |d2| ==> |r.0| == |r.1| && |r.2| == |r.3|
  {
    if |f1| == 1 then (Repeat(f1[0], |f2|), d2, f2, d2)
    else if |f2| == 1 then (f1, d1, Repeat(f2[0], |f1|), d1)
    else
      var (n1, n2) := Adjusted(d1, d2);
      (f1, n1, f2, n2)
  }

  /** After the broadcast a single-frame side has the other side's length and the very same
      duration list. */
  lemma BroadcastEffect(f1: seq<Frame>, d1: seq<int>, f2: seq<Frame>, d2: seq<int>)
    requires |f1| == 1 || |f2| == 1
    ensures var (g1, e1, g2, e2) := Broadcast(f1, d1, f2, d2);
            |g1| == |g2| && e1 == e2 &&
            (|f1| == 1 ==> g2 == f2 && e2 == d2 && forall k :: 0 <= k < |g1| ==> g1[k] == f1[0]) &&
            (|f1| != 1 ==> g1 == f1 && e1 == d1 && forall k :: 0 <= k < |g2| ==> g2[k] == f2[0])
  {
  }

  /** One frame of the merge: the frame indices of both sides and the milliseconds it lasts. */
  datatype Step = Step(i: nat, j: nat, consumed: int)

  /** A remainder list with c taken off the entry under the cursor. */
  function Take(d: seq<int>, i: nat, c: int): (r: seq<int>)
    requires i < |d|
    ensures |r| == |d| && r[i] == d[i] - c
    ensures forall k :: 0 <= k < |d| && k != i ==> r[k] == d[k]
  {
    d[i := d[i] - c]
  }

  /** The cursor after c was taken off: it advances when the remainder reaches zero. */
  function Next(d: seq<int>, i: nat, c: int): (r: nat)
    requires i < |d|
    ensures r == i || r == i + 1
  {
    if d[i] - c == 0 then i + 1 else i
  }

  /** The steps of the merge sweep from cursor positions (i, j) over the remaining durations:
      each step lasts as long as the shorter of the two current remainders, both remainders
      shrink by that much, and every cursor whose remainder reaches zero advances. The sweep
      stops as soon as one side is used up. */
  function Sweep(d1: seq<int>, d2: seq<int>, i: nat, j: nat): (r: seq<Step>)
    requires i <= |d1| && j <= |d2|
    ensures forall k :: 0 <= k < |r| ==> i <= r[k].i < |d1| && j <= r[k].j < |d2|
    decreases |d1| - i + |d2| - j
  {
    if i == |d1| || j == |d2| then []
    else
      var c := Min(d1[i], d2[j]);
      assert Next(d1, i, c) == i + 1 || Next(d2, j, c) == j + 1;
      [Step(i, j, c)] + Sweep(Take(d1, i, c), Take(d2, j, c), Next(d1, i, c), Next(d2, j, c))
  }

  /** The duration of every step. */
  function Consumed(steps: seq<Step>): (r: seq<int>)
    ensures |r| == |steps|
    ensures forall k :: 0 <= k < |steps| ==> r[k] == steps[k].consumed
  {
    seq(|steps|, k requires 0 <= k < |steps| => steps[k].consumed)
  }

  /** The frames a sweep emits: side one at x = 0 and side two at x = split on a black canvas. */
  function Emitted(steps: seq<Step>, f1: seq<Frame>, f2: seq<Frame>, split: int, cw: int, ch: int): (r: seq<Frame>)
    requires forall k :: 0 <= k < |steps| ==> steps[k].i < |f1| && steps[k].j < |f2|
    ensures |r| == |steps|
    ensures forall k :: 0 <= k < |steps| ==> r[k] == SideBySide(f1[steps[k].i], f2[steps[k].j], split, cw, ch)
  {
    seq(|steps|, k requires 0 <= k < |steps| => SideBySide(f1[steps[k].i], f2[steps[k].j], split, cw, ch))
  }

  lemma SuffixSum(d: seq<int>, i: nat)
    requires i < |d|
    ensures Sum(d[i..]) == d[i] + Sum(d[i + 1..])
  {
    assert d[i..][1..] == d[i + 1..];
  }

  lemma {:induction false} SumPositive(d: seq<int>)
    requires d != [] && forall k :: 0 <= k < |d| ==> d[k] > 0
    ensures Sum(d) > 0
  {
    SumNonNegative(d[1..]);
  }

  /** The remainder still ahead of the cursor loses exactly what the step consumed. */
  lemma StepSums(d: seq<int>, i: nat, c: int)
    requires i < |d|
    ensures Sum(Take(d, i, c)[Next(d, i, c)..]) == Sum(d[i..]) - c
    ensures Take(d, i, c)[i + 1..] == d[i + 1..]
  {
    var a := Take(d, i, c);
    SuffixSum(d, i);
    SuffixSum(a, i);
    assert a[i + 1..] == d[i + 1..];
  }

  /** Durations of a sweep that starts with one given step. */
  lemma ConsumedCons(step: Step, rest: seq<Step>)
    ensures Sum(Consumed([step] + rest)) == step.consumed + Sum(Consumed(rest))
  {
    assert Consumed([step] + rest) == [step.consumed] + Consumed(rest);
    assert ([step.consumed] + Consumed(rest))[1..] == Consumed(rest);
  }

  /** For non-negative durations the sweep lasts exactly as long as the shorter sequence. */
  lemma {:induction false} SweepTotal(d1: seq<int>, d2: seq<int>, i: nat, j: nat)
    requires i <= |d1| && j <= |d2|
    requires forall k :: i <= k < |d1| ==> d1[k] >= 0
    requires forall k :: j <= k < |d2| ==> d2[k] >= 0
    ensures Sum(Consumed(Sweep(d1, d2, i, j))) == Min(Sum(d1[i..]), Sum(d2[j..]))
    decreases |d1| - i + |d2| - j
  {
    if i == |d1| || j == |d2| {
      assert NonNegative(d1[i..]) && NonNegative(d2[j..]);
      SumNonNegative(d1[i..]);
      SumNonNegative(d2[j..]);
    } else {
      var c := Min(d1[i], d2[j]);
      var a, b := Take(d1, i, c), Take(d2, j, c);
      var i', j' := Next(d1, i, c), Next(d2, j, c);
      StepSums(d1, i, c);
      StepSums(d2, j, c);
      SweepTotal(a, b, i', j');
      ConsumedCons(Step(i, j, c), Sweep(a, b, i', j'));
    }
  }

  /** Every step advances at least one cursor, so a sweep emits at most len1 + len2 - 1 frames. */
  lemma {:induction false} SweepCount(d1: seq<int>, d2: seq<int>, i: nat, j: nat)
    requires i < |d1| && j < |d2|
    ensures |Sweep(d1, d2, i, j)| <= (|d1| - i) + (|d2| - j) - 1
    decreases |d1| - i + |d2| - j
  {
    var c := Min(d1[i], d2[j]);
    var a, b := Take(d1, i, c), Take(d2, j, c);
    var i', j' := Next(d1, i, c), Next(d2, j, c);
    if i' < |d1| && j' < |d2| {
      SweepCount(a, b, i', j');
    }
  }

  /** When both sequences last equally long and no duration is zero, the sweep runs both sides to
      the end, so it emits at least as many frames as the longer side has. */
  lemma {:induction false} SweepCoversBoth(d1: seq<int>, d2: seq<int>, i: nat, j: nat)
    requires i <= |d1| && j <= |d2|
    requires forall k :: i <= k < |d1| ==> d1[k] > 0
    requires forall k :: j <= k < |d2| ==> d2[k] > 0
    requires Sum(d1[i..]) == Sum(d2[j..])
    ensures |Sweep(d1, d2, i, j)| >= |d1| - i && |Sweep(d1, d2, i, j)| >= |d2| - j
    decreases |d1| - i + |d2| - j
  {
    if i == |d1| {
      if j < |d2| {
        SumPositive(d2[j..]);
      }
    } else if j == |d2| {
      SumPositive(d1[i..]);
    } else {
      var c := Min(d1[i], d2[j]);
      var a, b := Take(d1, i, c), Take(d2, j, c);
      var i', j' := Next(d1, i, c), Next(d2, j, c);
      StepSums(d1, i, c);
      StepSums(d2, j, c);
      SweepCoversBoth(a, b, i', j');
    }
  }

  /** Unequal totals cut the longer side short: one 10 ms frame against three 5 ms frames gives
      two merged frames, and the third frame of the second side is never shown. */
  lemma SweepTruncates()
    ensures Sweep([10], [5, 5, 5], 0, 0) == [Step(0, 0, 5), Step(0, 1, 5)]
  {
    assert Sweep([0], [0, 0, 5], 1, 2) == [];
    assert Sweep([5], [0, 5, 5], 0, 1) == [Step(0, 1, 5)];
  }

  /** Sweeping a duration list against itself, as after a broadcast, pairs frame k with frame k
      and keeps every duration, zero-length frames included. */
  lemma {:induction false} SweepBroadcast(d: seq<int>, i: nat)
    requires i <= |d|
    ensures var r := Sweep(d, d, i, i);
            |r| == |d| - i && forall k :: 0 <= k < |r| ==> r[k] == Step(i + k, i + k, d[i + k])
    decreases |d| - i
  {
    if i < |d| {
      var a := Take(d, i, d[i]);
      SweepBroadcast(a, i + 1);
      assert Sweep(d, d, i, i) == [Step(i, i, d[i])] + Sweep(a, a, i + 1, i + 1);
    }
  }

  /** After a broadcast the merged durations are exactly the other side's list. */
  lemma BroadcastMergeDurations(d: seq<int>)
    ensures Consumed(Sweep(d, d, 0, 0)) == d
  {
    SweepBroadcast(d, 0);
  }

  /** One step of the sweep, unfolded. */
  lemma SweepUnfold(d1: seq<int>, d2: seq<int>, i: nat, j: nat)
    requires i < |d1| && j < |d2|
    ensures var c := Min(d1[i], d2[j]);
            Sweep(d1, d2, i, j) == [Step(i, j, c)] + Sweep(Take(d1, i, c), Take(d2, j, c), Next(d1, i, c), Next(d2, j, c))
  {
  }

  /** Emitting one more step appends one frame and one duration. */
  lemma EmitSnoc(done: seq<Step>, step: Step, f1: seq<Frame>, f2: seq<Frame>, split: int, cw: int, ch: int)
    requires forall k :: 0 <= k < |done| ==> done[k].i < |f1| && done[k].j < |f2|
    requires step.i < |f1| && step.j < |f2|
    ensures Consumed(done + [step]) == Consumed(done) + [step.consumed]
    ensures Emitted(done + [step], f1, f2, split, cw, ch) ==
            Emitted(done, f1, f2, split, cw, ch) + [SideBySide(f1[step.i], f2[step.j], split, cw, ch)]
  {
  }

  /** `merge_images`' loop: two cursors walk copies of the duration lists while both are inside
      their frame lists, and every step appends one side-by-side frame and its duration. Only the
      first |f1| and |f2| durations are ever read, so the copies are taken of those. */
  method MergeSweep(f1: seq<Frame>, d1: seq<int>, f2: seq<Frame>, d2: seq<int>, split: int, cw: int, ch: int)
    returns (frames: seq<Frame>, durations: seq<int>)
    requires |f1| <= |d1| && |f2| <= |d2|
    ensures var steps := Sweep(d1[..|f1|], d2[..|f2|], 0, 0);
            durations == Consumed(steps) && frames == Emitted(steps, f1, f2, split, cw, ch)
  {
    var durs1 := d1[..|f1|];
    var durs2 := d2[..|f2|];
    var i, j := 0, 0;
    frames, durations := [], [];
    ghost var done: seq<Step> := [];
    while i < |durs1| && j < |durs2|
      invariant 0 <= i <= |durs1| == |f1| && 0 <= j <= |durs2| == |f2|
      invariant forall k :: 0 <= k < |done| ==> done[k].i < |f1| && done[k].j < |f2|
      invariant done + Sweep(durs1, durs2, i, j) == Sweep(d1[..|f1|], d2[..|f2|], 0, 0)
      invariant durations == Consumed(done) && frames == Emitted(done, f1, f2, split, cw, ch)
      decreases |durs1| - i + |durs2| - j
    {
      var consumed := Min(durs1[i], durs2[j]);
      SweepUnfold(durs1, durs2, i, j);
      EmitSnoc(done, Step(i, j, consumed), f1, f2, split, cw, ch);
      ghost var t1, t2 := Take(durs1, i, consumed), Take(durs2, j, consumed);
      ghost var n1, n2 := Next(durs1, i, consumed), Next(durs2, j, consumed);
      ghost var rest := Sweep(t1, t2, n1, n2);
      assert (done + [Step(i, j, consumed)]) + rest == done + Sweep(durs1, durs2, i, j) by {
        assert Sweep(durs1, durs2, i, j) == [Step(i, j, consumed)] + rest;
      }
      done := done + [Step(i, j, consumed)];
      frames := frames + [SideBySide(f1[i], f2[j], split, cw, ch)];
      durations := durations + [consumed];
      durs1 := durs1[i := durs1[i] - consumed];
      durs2 := durs2[j := durs2[j] - consumed];
      if durs1[i] == 0 {
        i := i + 1;
      }
      if durs2[j] == 0 {
        j := j + 1;
      }
      assert durs1 == t1 && durs2 == t2 && i == n1 && j == n2;
    }
  }

  /** What `handle_merge` needs to run without an exception: two non-empty sequences whose first
      frames have a size, a duration for every frame, and (when neither side is a single frame)
      the non-zero totals the proportional adjustment divides by. */
  predicate MergeReady(f1: seq<Frame>, d1: seq<int>, f2: seq<Frame>, d2: seq<int>)
  {
    f1 != [] && f2 != [] && |f1| <= |d1| && |f2| <= |d2| &&
    Width(f1[0]) > 0 && Height(f1[0]) > 0 && Width(f2[0]) > 0 && Height(f2[0]) > 0 &&
    (|f1| != 1 && |f2| != 1 ==>
       NonNegative(d1) && NonNegative(d2) &&
       (Sum(d1) > Sum(d2) ==> Sum(d2) > 0) && (Sum(d1) <= Sum(d2) ==> Sum(d1) > 0))
  }

  /** `merge_images`: the shorter side is resampled to the common height, then the sweep pastes
      the two current frames side by side, the second at x = width1, on a canvas width1 + width2
      wide. */
  function SweepMerged(f1: seq<Frame>, d1: seq<int>, f2: seq<Frame>, d2: seq<int>): (seq<Frame>, seq<int>)
    requires f1 != [] && f2 != [] && |f1| <= |d1| && |f2| <= |d2|
    requires Width(f1[0]) > 0 && Height(f1[0]) > 0 && Width(f2[0]) > 0 && Height(f2[0]) > 0
  {
    var m := MetricsOf(f1, f2);
    var r1 := if m.resizeFirst then ResizedAll(f1, m.w1, m.h1) else f1;
    var r2 := if m.resizeFirst then f2 else ResizedAll(f2, m.w2, m.h2);
    var steps := Sweep(d1[..|r1|], d2[..|r2|], 0, 0);
    (Emitted(steps, r1, r2, m.w1, m.w1 + m.w2, m.h1), Consumed(steps))
  }

  /** `handle_merge`: the single-frame broadcast or the duration adjustment, then `merge_images`. */
  function Merged(f1: seq<Frame>, d1: seq<int>, f2: seq<Frame>, d2: seq<int>): (seq<Frame>, seq<int>)
    requires MergeReady(f1, d1, f2, d2)
  {
    var (g1, e1, g2, e2) := Broadcast(f1, d1, f2, d2);
    SweepMerged(g1, e1, g2, e2)
  }

  /** Merging with a single-frame side yields exactly the other side's durations, one merged frame
      per frame of the other side. */
  lemma MergedBroadcast(f1: seq<Frame>, d1: seq<int>, f2: seq<Frame>, d2: seq<int>)
    requires MergeReady(f1, d1, f2, d2) && (|f1| == 1 || |f2| == 1)
    requires |f1| == 1 ==> |f2| == |d2|
    requires |f1| != 1 ==> |f1| == |d1|
    ensures var r := Merged(f1, d1, f2, d2);
            (|f1| == 1 ==> r.1 == d2 && |r.0| == |f2|) &&
            (|f1| != 1 ==> r.1 == d1 && |r.0| == |f1|)
  {
    var d := if |f1| == 1 then d2 else d1;
    BroadcastEffect(f1, d1, f2, d2);
    assert d[..|d|] == d;
    BroadcastMergeDurations(d);
    SweepBroadcast(d, 0);
  }

  /** In general the merged total is the smaller of the two (adjusted) totals, and there are at
      most n1 + n2 - 1 merged frames, one duration each. */
  lemma MergedTotal(f1: seq<Frame>, d1: seq<int>, f2: seq<Frame>, d2: seq<int>)
    requires MergeReady(f1, d1, f2, d2) && |f1| == |d1| && |f2| == |d2|
    requires NonNegative(d1) && NonNegative(d2)
    ensures var (g1, e1, g2, e2) := Broadcast(f1, d1, f2, d2);
            var r := Merged(f1, d1, f2, d2);
            Sum(r.1) == Min(Sum(e1), Sum(e2)) && |r.0| == |r.1| && |r.1| <= |g1| + |g2| - 1
  {
    var (g1, e1, g2, e2) := Broadcast(f1, d1, f2, d2);
    assert e1[..|g1|] == e1 && e2[..|g2|] == e2;
    assert NonNegative(e1) && NonNegative(e2);
    SweepTotal(e1, e2, 0, 0);
    SweepCount(e1, e2, 0, 0);
  }

  /** Every merged frame is a canvas of the combined width and the common height, holding a frame
      of each side with the second pasted at x = width1. */
  lemma MergedGeometry(f1: seq<Frame>, d1: seq<int>, f2: seq<Frame>, d2: seq<int>)
    requires MergeReady(f1, d1, f2, d2)
    ensures var (g1, e1, g2, e2) := Broadcast(f1, d1, f2, d2);
            var m := MetricsOf(g1, g2);
            var fs := Merged(f1, d1, f2, d2).0;
            m.h1 == Max(Height(f1[0]), Height(f2[0])) &&
            forall k :: 0 <= k < |fs| ==>
              fs[k].Canvas? && fs[k].w == m.w1 + m.w2 && fs[k].h == m.h1 && |fs[k].layers| == 2 &&
              fs[k].layers[0].x == 0 && fs[k].layers[1].x == m.w1
  {
  }

  // ---------------------------------------------------------------- concatenation

  /** Every frame centred on a black cw x ch canvas. */
  function Padded(fs: seq<Frame>, cw: int, ch: int, w: int): (r: seq<Frame>)
    requires 0 <= w <= cw
    ensures |r| == |fs|
    ensures forall k :: 0 <= k < |fs| ==> r[k] == Letterboxed(fs[k], cw, ch, CenterOffset(cw, w))
  {
    seq(|fs|, k requires 0 <= k < |fs| => Letterboxed(fs[k], cw, ch, CenterOffset(cw, w)))
  }

  /** One of `handle_concat`'s padding loops. */
  method PadFrames(fs: seq<Frame>, cw: int, ch: int, w: int) returns (out: seq<Frame>)
    requires 0 <= w <= cw
    ensures out == Padded(fs, cw, ch, w)
  {
    out := [];
    var k := 0;
    while k < |fs|
      invariant 0 <= k <= |fs|
      invariant out == Padded(fs[..k], cw, ch, w)
    {
      out := out + [Letterboxed(fs[k], cw, ch, CenterOffset(cw, w))];
      k := k + 1;
    }
    assert fs[..k] == fs;
  }

  /** Frames and durations of the concatenated sequence. Both sides are brought to the taller
      height; the container is as wide as the wider side; the resampled side is always padded
      onto the container, the other side only when it is narrower than the container. */
  function Concatenated(f1: seq<Frame>, d1: seq<int>, f2: seq<Frame>, d2: seq<int>): (r: (seq<Frame>, seq<int>))
    requires f1 != [] && f2 != []
    requires Width(f1[0]) > 0 && Height(f1[0]) > 0 && Width(f2[0]) > 0 && Height(f2[0]) > 0
  {
    var m := MetricsOf(f1, f2);
    var cw := Max(m.w1, m.w2);
    var ch := m.h1;
    if m.resizeFirst then
      var side2 := if cw > m.w2 then Padded(f2, cw, ch, m.w2) else f2;
      (Padded(ResizedAll(f1, m.w1, ch), cw, ch, m.w1) + side2, d1 + d2)
    else
      var side1 := if cw > m.w1 then Padded(f1, cw, ch, m.w1) else f1;
      (side1 + Padded(ResizedAll(f2, m.w2, ch), cw, ch, m.w2), d1 + d2)
  }

  /** Concatenation appends the durations and keeps every frame; when each side's frames share
      their first frame's size (as decoded animations do), every output frame has the container's
      size, which is as wide as the wider side and as tall as the taller one. */
  lemma ConcatenatedShape(f1: seq<Frame>, d1: seq<int>, f2: seq<Frame>, d2: seq<int>)
    requires f1 != [] && f2 != []
    requires Width(f1[0]) > 0 && Height(f1[0]) > 0 && Width(f2[0]) > 0 && Height(f2[0]) > 0
    ensures var (frames, durations) := Concatenated(f1, d1, f2, d2);
            var m := MetricsOf(f1, f2);
            durations == d1 + d2 && |frames| == |f1| + |f2| &&
            m.h1 == m.h2 == Max(Height(f1[0]), Height(f2[0])) &&
            (Uniform(f1, Width(f1[0]), Height(f1[0])) && Uniform(f2, Width(f2[0]), Height(f2[0])) ==>
               Uniform(frames, Max(m.w1, m.w2), m.h1))
  {
  }

  /** Every paste offset keeps the pasted frame inside the container. */
  lemma ConcatenatedOffsets(f1: seq<Frame>, f2: seq<Frame>)
    requires f1 != [] && f2 != []
    requires Width(f1[0]) > 0 && Height(f1[0]) > 0 && Width(f2[0]) > 0 && Height(f2[0]) > 0
    ensures var m := MetricsOf(f1, f2); var cw := Max(m.w1, m.w2);
            0 <= CenterOffset(cw, m.w1) && CenterOffset(cw, m.w1) + m.w1 <= cw &&
            0 <= CenterOffset(cw, m.w2) && CenterOffset(cw, m.w2) + m.w2 <= cw
  {
  }
}
