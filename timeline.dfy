/** The state of one frame sequence (one `MainDropLabel`) as a value, and every edit of it as
    a function of that value. The class `App.Sequence` performs these edits in place and is
    proved to agree with them; the lemmas here state what the edits promise. */
module Timeline {
  import opened Lists
  import opened Frames
  import opened Wrappers
  import opened Formats

  /** frames, durations (ms), `current_frame_index` and `selected_indices`. */
  datatype View = View(frames: seq<Frame>, durations: seq<int>, cur: int, sel: set<int>)

  /** The state `reset` leaves behind. */
  const Empty: View := View([], [], 0, {})

  /** The two lists have the same length. */
  predicate Paired(v: View)
  {
    |v.frames| == |v.durations|
  }

  /** The invariant of a sequence at rest: lists of equal length, every duration
      at least 1 ms, a current index inside the list (0 when it is empty), selected indices
      inside the list. */
  predicate WellFormed(v: View)
  {
    Paired(v) &&
    (forall k :: 0 <= k < |v.durations| ==> v.durations[k] >= 1) &&
    (if v.frames == [] then v.cur == 0 else 0 <= v.cur < |v.frames|) &&
    (forall i :: i in v.sel ==> 0 <= i < |v.frames|)
  }

  /** A sequence without frames is the reset state. */
  predicate Settled(v: View)
  {
    v.frames == [] ==> v == Empty
  }

  lemma WellFormedSettled(v: View)
    requires WellFormed(v)
    ensures Settled(v)
  {
    if v.frames == [] {
      assert v.sel == {} by {
        assert (forall i :: i !in v.sel) ==> v.sel == {};
      }
    }
  }

  // ---------------------------------------------------------------- loading

  /** One decoded frame and the duration the container gave it, if any. */
  datatype DecodedFrame = DecodedFrame(image: Frame, duration: Option<int>)

  /** Default duration of a frame whose container carries no timing. */
  const DefaultDuration := 100

  /** The frames and durations a successful decode appends to the reset sequence. */
  function FromDecoder(decoded: seq<DecodedFrame>): (r: View)
    ensures Paired(r) && |r.frames| == |decoded| && r.cur == 0 && r.sel == {}
    ensures forall k :: 0 <= k < |decoded| ==>
              r.frames[k] == decoded[k].image &&
              r.durations[k] == (if decoded[k].duration.Some? then decoded[k].duration.value else DefaultDuration)
  {
    View(seq(|decoded|, k requires 0 <= k < |decoded| => decoded[k].image),
         seq(|decoded|, k requires 0 <= k < |decoded| =>
               match decoded[k].duration case Some(d) => d case None => DefaultDuration),
         0, {})
  }

  /** `load_animation` on the replace path: a file whose extension is not an image format leaves
      the sequence alone; otherwise it is reset and filled from the decoder. */
  function Load(v: View, ext: string, decoded: seq<DecodedFrame>): View
  {
    if ext in LoadExtensions then FromDecoder(decoded) else v
  }

  /** Loading replaces the whole state exactly when the extension is accepted, and gives a
      well-formed sequence when every duration the decoder reports is positive. */
  lemma LoadEffect(v: View, ext: string, decoded: seq<DecodedFrame>)
    requires forall k :: 0 <= k < |decoded| && decoded[k].duration.Some? ==> decoded[k].duration.value >= 1
    ensures ext !in LoadExtensions ==> Load(v, ext, decoded) == v
    ensures ext in LoadExtensions ==>
              (WellFormed(Load(v, ext, decoded)) && |Load(v, ext, decoded).frames| == |decoded| &&
               forall k :: 0 <= k < |decoded| && decoded[k].duration.None? ==>
                 Load(v, ext, decoded).durations[k] == DefaultDuration)
  {
  }

  /** A `.bmp` file is refused. */
  lemma LoadRejectsBitmap(v: View, decoded: seq<DecodedFrame>)
    ensures Load(v, ".bmp", decoded) == v
  {
  }

  // ---------------------------------------------------------------- reverse and pendulum

  /** `reverse_frames`: position i moves to n-1-i in both lists, in the selection and in the
      current index; without frames nothing happens. */
  function Reverse(v: View): View
  {
    if v.frames == [] then v
    else
      var n := |v.frames|;
      View(Reversed(v.frames), Reversed(v.durations), n - 1 - v.cur, set i | i in v.sel :: n - 1 - i)
  }

  lemma ReverseMapsPositions(v: View, i: int)
    requires Paired(v) && 0 <= i < |v.frames|
    ensures var n := |v.frames|; var r := Reverse(v);
            Paired(r) && |r.frames| == n &&
            r.frames[n - 1 - i] == v.frames[i] && r.durations[n - 1 - i] == v.durations[i] &&
            (i in v.sel <==> n - 1 - i in r.sel) && r.cur == n - 1 - v.cur
  {
    var n := |v.frames|;
    var r := Reverse(v);
    if n - 1 - i in r.sel {
      var j :| j in v.sel && n - 1 - i == n - 1 - j;
      assert j == i;
    }
  }

  /** Reversing twice restores the whole state. */
  lemma ReverseTwice(v: View)
    ensures Reverse(Reverse(v)) == v
  {
    if v.frames != [] {
      var n := |v.frames|;
      var r := Reverse(v);
      ReversedTwice(v.frames);
      ReversedTwice(v.durations);
      var back := set i | i in r.sel :: n - 1 - i;
      forall i
        ensures i in back <==> i in v.sel
      {
        if i in v.sel {
          assert n - 1 - i in r.sel;
        }
      }
      assert back == v.sel;
    }
  }

  lemma ReverseWellFormed(v: View)
    requires WellFormed(v)
    ensures WellFormed(Reverse(v))
  {
    if v.frames != [] {
      var n := |v.frames|;
      var r := Reverse(v);
      forall i | i in r.sel
        ensures 0 <= i < n
      {
        var j :| j in v.sel && i == n - 1 - j;
      }
    }
  }

  /** `pendulum_frames`: each list `xs` becomes `xs + reversed(xs)`. */
  function Pendulum(v: View): View
  {
    if v.frames == [] then v
    else v.(frames := v.frames + Reversed(v.frames), durations := v.durations + Reversed(v.durations))
  }

  /** The pendulum doubles the length, keeps the original as its first half, reads the same
      backwards, and leaves selection and current index alone. */
  lemma PendulumShape(v: View)
    requires v.frames != []
    ensures var r := Pendulum(v); var n := |v.frames|;
            |r.frames| == 2 * n && |r.durations| == 2 * |v.durations| &&
            r.frames[..n] == v.frames && r.durations[..|v.durations|] == v.durations &&
            Reversed(r.frames) == r.frames && Reversed(r.durations) == r.durations &&
            r.sel == v.sel && r.cur == v.cur
  {
    var r := Pendulum(v);
    ReversedConcat(v.frames, Reversed(v.frames));
    ReversedTwice(v.frames);
    ReversedConcat(v.durations, Reversed(v.durations));
    ReversedTwice(v.durations);
  }

  lemma PendulumWellFormed(v: View)
    requires WellFormed(v)
    ensures WellFormed(Pendulum(v))
  {
  }

  // ---------------------------------------------------------------- selection by clicking

  /** The keyboard modifiers of a click, as `frame_clicked` compares them: exactly Shift, exactly
      Control, none, or any other combination (which behaves like a plain click). */
  datatype Modifiers = NoModifier | ShiftOnly | ControlOnly | OtherModifiers

  /** `frame_clicked`: Shift with a selection extends it to the range between its largest index
      and the click; Control toggles the clicked index; anything else selects only it. Control and
      plain clicks also make it the current frame. */
  function Click(v: View, index: int, mods: Modifiers): View
  {
    if mods == ShiftOnly && v.sel != {} then
      var last := SetMax(v.sel);
      v.(sel := Range(Min(last, index), Max(last, index) + 1))
    else if mods == ControlOnly then
      v.(sel := if index in v.sel then v.sel - {index} else v.sel + {index}, cur := index)
    else
      v.(sel := {index}, cur := index)
  }

  lemma ClickPlain(v: View, index: int, mods: Modifiers)
    requires mods == NoModifier || mods == OtherModifiers || (mods == ShiftOnly && v.sel == {})
    ensures Click(v, index, mods) == v.(sel := {index}, cur := index)
  {
  }

  /** A Control click toggles membership of the clicked index, so two of them restore the selection. */
  lemma ClickControlToggles(v: View, index: int)
    ensures (index in Click(v, index, ControlOnly).sel) == (index !in v.sel)
    ensures forall i :: i != index ==> (i in Click(v, index, ControlOnly).sel <==> i in v.sel)
    ensures Click(Click(v, index, ControlOnly), index, ControlOnly) == v.(cur := index)
  {
    var once := Click(v, index, ControlOnly);
    var twice := Click(once, index, ControlOnly);
    assert twice.sel == v.sel;
  }

  /** A Shift click selects exactly the contiguous range from the largest selected index to the
      clicked one (in either order), and keeps the current frame. */
  lemma ClickShiftRange(v: View, index: int)
    requires v.sel != {}
    ensures var r := Click(v, index, ShiftOnly); var last := SetMax(v.sel);
            index in r.sel && last in r.sel && r.cur == v.cur && r.frames == v.frames &&
            forall i :: i in r.sel <==> Min(last, index) <= i <= Max(last, index)
  {
  }

  lemma ClickWellFormed(v: View, index: int, mods: Modifiers)
    requires WellFormed(v) && 0 <= index < |v.frames|
    ensures WellFormed(Click(v, index, mods))
  {
    if mods == ShiftOnly && v.sel != {} {
      var last := SetMax(v.sel);
      assert 0 <= last < |v.frames|;
    }
  }

  // ---------------------------------------------------------------- reorder

  /** The indices `reorder_frames` moves: the selection, or the dragged frame if none is selected. */
  function Moving(v: View, source: int): set<int>
  {
    if v.sel == {} then {source} else v.sel
  }

  /** Every moving position lies inside both lists, so collecting them does not raise. */
  predicate ReorderInRange(v: View, source: int)
  {
    forall i :: i in Moving(v, source) ==> i < |v.frames| && i < |v.durations|
  }

  /** `reorder_frames`: the moving indices are lifted out of both lists and re-inserted as a block
      at `target`; the selection becomes `range(target, target + k)` for k moving frames. */
  function Reorder(v: View, source: int, target: nat): View
  {
    var s := Moving(v, source);
    View(Moved(v.frames, s, target), Moved(v.durations, s, target), v.cur, Range(target, target + |s|))
  }

  /** Reordering keeps both lists' lengths and contents, moves them in lock-step (the pairs of
      frame and duration move as the frames do), and selects `range(target, target + k)`. */
  lemma ReorderPermutes(v: View, source: int, target: nat)
    requires Paired(v)
    requires forall i :: i in Moving(v, source) ==> 0 <= i < |v.frames|
    ensures var r := Reorder(v, source, target); var s := Moving(v, source);
            Paired(r) && |r.frames| == |v.frames| &&
            multiset(r.frames) == multiset(v.frames) && multiset(r.durations) == multiset(v.durations) &&
            Zip(r.frames, r.durations) == Moved(Zip(v.frames, v.durations), s, target) &&
            r.sel == Range(target, target + |s|) && r.cur == v.cur
  {
    var s := Moving(v, source);
    MovedPermutes(v.frames, s, target);
    MovedPermutes(v.durations, s, target);
    MovedLockStep(v.frames, v.durations, s, target);
  }

  /** The moved block, in ascending source order, lands at min(target, n - k) in both lists, and
      around it stand the other entries in their original order. */
  lemma ReorderLandsBlock(v: View, source: int, target: nat)
    requires Paired(v)
    requires forall i :: i in Moving(v, source) ==> 0 <= i < |v.frames|
    ensures var r := Reorder(v, source, target); var s := Moving(v, source);
            var k := |s|; var p := Min(target, |v.frames| - k);
            0 <= p <= p + k <= |v.frames| == |r.frames| == |r.durations| &&
            r.frames[p..p + k] == PickedAt(v.frames, s, 0) &&
            r.durations[p..p + k] == PickedAt(v.durations, s, 0) &&
            r.frames[..p] + r.frames[p + k..] == KeptAt(v.frames, s, 0) &&
            r.durations[..p] + r.durations[p + k..] == KeptAt(v.durations, s, 0)
  {
    var s := Moving(v, source);
    assert InRange(s, 0, |v.frames|) == s;
    MovedBlock(v.frames, s, target);
    MovedBlock(v.durations, s, target);
  }

  /** A worked example: [f0, f1, f2, f3] with {0, 2} selected, dropped on 3,
      gives [f1, f3, f0, f2] and the selection {3, 4}. */
  lemma ReorderExample(f0: Frame, f1: Frame, f2: Frame, f3: Frame)
    ensures var v := View([f0, f1, f2, f3], [10, 11, 12, 13], 0, {0, 2});
            var r := Reorder(v, 0, 3);
            r.frames == [f1, f3, f0, f2] && r.durations == [11, 13, 10, 12] && r.sel == {3, 4}
  {
    MovedExample(f0, f1, f2, f3);
    MovedExample(10, 11, 12, 13);
    assert |{0, 2}| == 2;
    assert Range(3, 5) == {3, 4};
  }

  /** The list work of that example, for either list. */
  lemma MovedExample<T>(a: T, b: T, c: T, d: T)
    ensures Moved([a, b, c, d], {0, 2}, 3) == [b, d, a, c]
  {
    var xs := [a, b, c, d];
    var s := {0, 2};
    assert KeptAt(xs[3..], s, 3) == [d];
    assert KeptAt(xs[2..], s, 2) == [d];
    assert KeptAt(xs[1..], s, 1) == [b, d];
    assert KeptAt(xs, s, 0) == [b, d];
    assert PickedAt(xs[3..], s, 3) == [];
    assert PickedAt(xs[2..], s, 2) == [c];
    assert PickedAt(xs[1..], s, 1) == [c];
    assert PickedAt(xs, s, 0) == [a, c];
  }

  /** As written, the new selection is not clamped like the block is: in the example above it
      holds index 4 of a four-frame list, and misses index 2 where a moved frame landed. */
  lemma ReorderSelectionEscapes(f0: Frame, f1: Frame, f2: Frame, f3: Frame)
    ensures var v := View([f0, f1, f2, f3], [10, 11, 12, 13], 0, {0, 2});
            var r := Reorder(v, 0, 3);
            WellFormed(v) && !WellFormed(r) && 4 in r.sel && 2 !in r.sel && |r.frames| == 4 && r.frames[2] == f0
  {
    ReorderExample(f0, f1, f2, f3);
  }

  /** Reorder with the selection following the block to where it actually landed. */
  function ReorderClamped(v: View, source: int, target: nat): (r: View)
  {
    var s := Moving(v, source);
    var p := Min(target, |v.frames| - |InRange(s, 0, |v.frames|)|);
    View(Moved(v.frames, s, target), Moved(v.durations, s, target), v.cur,
         Range(p, p + |InRange(s, 0, |v.frames|)|))
  }

  /** With the clamp, the selection is exactly the positions of the moved frames and the sequence
      stays well formed. */
  lemma ReorderClampedWellFormed(v: View, source: int, target: nat)
    requires WellFormed(v)
    requires forall i :: i in Moving(v, source) ==> 0 <= i < |v.frames|
    ensures var r := ReorderClamped(v, source, target); var s := Moving(v, source);
            WellFormed(r) && r.frames == Reorder(v, source, target).frames &&
            forall i :: i in r.sel <==> Min(target, |v.frames| - |s|) <= i < Min(target, |v.frames| - |s|) + |s|
  {
    var s := Moving(v, source);
    var n := |v.frames|;
    assert InRange(s, 0, n) == s;
    var k := |s|;
    assert k <= n by {
      PickedCount(v.frames, s, 0);
      KeptPickedLength(v.frames, s, 0);
    }
    var p := Min(target, n - k);
    var r := ReorderClamped(v, source, target);
    assert r.sel == Range(p, p + k);
    assert |r.frames| == n && |r.durations| == n by {
      MovedPermutes(v.frames, s, target);
      MovedPermutes(v.durations, s, target);
    }
    assert forall i :: i in r.sel ==> 0 <= i < n;
    MovedFloor(v.durations, s, target);
  }

  /** Moving entries around keeps a floor on all of them. */
  lemma MovedFloor(ds: seq<int>, s: set<int>, target: nat)
    requires forall k :: 0 <= k < |ds| ==> ds[k] >= 1
    ensures forall k :: 0 <= k < |Moved(ds, s, target)| ==> Moved(ds, s, target)[k] >= 1
  {
    var ms := Moved(ds, s, target);
    MovedPermutes(ds, s, target);
    forall k | 0 <= k < |ms|
      ensures ms[k] >= 1
    {
      assert ms[k] in multiset(ds);
    }
  }

  // ---------------------------------------------------------------- duplicate and delete

  /** `duplicate_frame`: a copy of frame `index` and its duration is inserted right after it;
      an index outside the list changes nothing. */
  function Duplicate(v: View, index: int): View
    requires |v.frames| <= |v.durations|
  {
    if 0 <= index < |v.frames| then
      v.(frames := Insert(v.frames, index + 1, v.frames[index]),
         durations := Insert(v.durations, index + 1, v.durations[index]))
    else v
  }

  lemma DuplicateShape(v: View, index: int)
    requires Paired(v) && 0 <= index < |v.frames|
    ensures var r := Duplicate(v, index);
            Paired(r) && |r.frames| == |v.frames| + 1 &&
            r.frames == v.frames[..index + 1] + [v.frames[index]] + v.frames[index + 1..] &&
            r.durations == v.durations[..index + 1] + [v.durations[index]] + v.durations[index + 1..] &&
            r.cur == v.cur && r.sel == v.sel
  {
  }

  lemma DuplicateWellFormed(v: View, index: int)
    requires WellFormed(v)
    ensures WellFormed(Duplicate(v, index))
  {
    if 0 <= index < |v.frames| {
      var r := Duplicate(v, index);
      forall k | 0 <= k < |r.durations|
        ensures r.durations[k] >= 1
      {
        if k > index + 1 {
          assert r.durations[k] == v.durations[k - 1];
        }
      }
    }
  }

  /** `delete_frame` as written: the index leaves the selection; when it is a position of a
      sequence with more than one frame, that frame is removed and the current index clamped.
      The duration list is left as it is and higher selected indices are not shifted. */
  function DeleteFrame(v: View, index: int): View
  {
    var sel := v.sel - {index};
    var n := |v.frames|;
    if 0 <= index < n && n > 1 then
      View(Removed(v.frames, index), v.durations, if v.cur >= n - 1 then n - 2 else v.cur, sel)
    else v.(sel := sel)
  }

  /** The last remaining frame is never deleted. */
  lemma DeleteFrameKeepsLast(v: View, index: int)
    requires |v.frames| == 1
    ensures DeleteFrame(v, index).frames == v.frames
  {
  }

  /** As written, deleting a frame breaks the pairing of frames and durations, and can leave a
      selected index pointing past the end. */
  lemma DeleteFrameUnpairs(a: Frame, b: Frame, c: Frame)
    ensures var v := View([a, b, c], [10, 20, 30], 0, {2});
            var r := DeleteFrame(v, 0);
            WellFormed(v) && r.frames == [b, c] && r.durations == [10, 20, 30] &&
            !Paired(r) && 2 in r.sel && !WellFormed(r)
  {
  }

  /** Delete with the paired duration removed too and the selection shifted past the gap. */
  function DeleteFramePaired(v: View, index: int): View
  {
    var n := |v.frames|;
    if 0 <= index < n && n > 1 && index < |v.durations| then
      View(Removed(v.frames, index), Removed(v.durations, index),
           if v.cur >= n - 1 then n - 2 else v.cur,
           (set i | i in v.sel && i != index :: if i > index then i - 1 else i))
    else v.(sel := v.sel - {index})
  }

  /** The corrected delete keeps the sequence well formed and still never removes the last frame. */
  lemma DeleteFramePairedWellFormed(v: View, index: int)
    requires WellFormed(v)
    ensures var r := DeleteFramePaired(v, index);
            WellFormed(r) && (|v.frames| == 1 ==> r.frames == v.frames) &&
            (0 <= index < |v.frames| && |v.frames| > 1 ==>
               |r.frames| == |v.frames| - 1 && r.frames == DeleteFrame(v, index).frames)
  {
    var n := |v.frames|;
    var r := DeleteFramePaired(v, index);
    if 0 <= index < n && n > 1 {
      forall k | 0 <= k < |r.durations|
        ensures r.durations[k] >= 1
      {
        if k >= index {
          assert r.durations[k] == v.durations[k + 1];
        }
      }
      forall i | i in r.sel
        ensures 0 <= i < n - 1
      {
        var j :| j in v.sel && j != index && i == (if j > index then j - 1 else j);
      }
    }
  }

  /** `deleteSelectedFrames`: the frames at selected positions are removed from both lists
      (indices outside the frame list are ignored), the selection is cleared and the current index
      clamped; if no frame is left, showing the sequence resets it. An empty selection is a no-op. */
  function DeleteSelected(v: View): View
    requires forall i :: i in v.sel && 0 <= i < |v.frames| ==> i < |v.durations|
  {
    if v.sel == {} then v
    else
      var s := InRange(v.sel, 0, |v.frames|);
      var frames := KeptAt(v.frames, s, 0);
      if frames == [] then Empty
      else View(frames, KeptAt(v.durations, s, 0), Min(v.cur, |frames| - 1), {})
  }

  /** Deleting the selection filters both lists to the unselected positions, in order, and in
      lock-step. */
  lemma DeleteSelectedShape(v: View)
    requires Paired(v) && v.sel != {}
    ensures var r := DeleteSelected(v); var s := InRange(v.sel, 0, |v.frames|);
            Paired(r) && r.sel == {} &&
            |r.frames| == |v.frames| - |s| &&
            r.frames == KeptAt(v.frames, v.sel, 0) && r.durations == KeptAt(v.durations, v.sel, 0) &&
            Zip(r.frames, r.durations) == KeptAt(Zip(v.frames, v.durations), v.sel, 0) &&
            (r.frames != [] ==> r.cur == Min(v.cur, |r.frames| - 1)) &&
            (r.frames == [] ==> r == Empty)
  {
    var s := InRange(v.sel, 0, |v.frames|);
    PickedCount(v.frames, v.sel, 0);
    KeptPickedLength(v.frames, s, 0);
    OnlyInRangeMatters(v.frames, v.sel, 0);
    OnlyInRangeMatters(v.durations, v.sel, 0);
    OnlyInRangeMatters(Zip(v.frames, v.durations), v.sel, 0);
    ZipKept(v.frames, v.durations, s, 0);
    assert InRange(s, 0, |v.frames|) == s;
    ZipKept(v.frames, v.durations, v.sel, 0);
  }

  lemma DeleteSelectedWellFormed(v: View)
    requires WellFormed(v)
    ensures WellFormed(DeleteSelected(v))
  {
    if v.sel != {} {
      var s := InRange(v.sel, 0, |v.frames|);
      var r := DeleteSelected(v);
      if r.frames != [] {
        ZipKept(v.frames, v.durations, s, 0);
        KeptPositive(v.durations, s, 0);
      }
    }
  }

  /** Filtering keeps only entries of the original list, so a floor on them survives. */
  lemma KeptPositive(ds: seq<int>, s: set<int>, off: int)
    requires forall k :: 0 <= k < |ds| ==> ds[k] >= 1
    ensures forall k :: 0 <= k < |KeptAt(ds, s, off)| ==> KeptAt(ds, s, off)[k] >= 1
  {
    var kept := KeptAt(ds, s, off);
    KeptPickedPartition(ds, s, off);
    forall k | 0 <= k < |kept|
      ensures kept[k] >= 1
    {
      assert kept[k] in multiset(kept);
      assert kept[k] in multiset(ds);
    }
  }

  // ---------------------------------------------------------------- durations and playback

  /** The new value of one selected duration: a positive change is added, any other change is
      added with a floor of 1 ms. */
  function Bumped(d: int, delta: int): int
  {
    if delta > 0 then d + delta else Max(1, d + delta)
  }

  /** The new value of a duration that `count` selected indices reach: the changes add up, and
      a non-positive one still stops at 1 ms. */
  function BumpedTimes(d: int, delta: int, count: nat): (r: int)
    ensures count == 0 ==> r == d
    ensures delta > 0 ==> r == d + count * delta
    ensures delta <= 0 && count > 0 ==> r == Max(1, d + count * delta)
    ensures count > 0 && d >= 0 ==> r >= 1
  {
    if count == 0 then d else Bumped(BumpedTimes(d, delta, count - 1), delta)
  }

  /** How many indices of `s` reach position k of an n-long list under Python's indexing, where
      an index i in [-n, 0) stands for position i + n. */
  function Hits(s: set<int>, k: int, n: int): nat
  {
    (if k in s then 1 else 0) + (if k - n in s then 1 else 0)
  }

  /** `update_frame_durations`: every selected index, a negative one counted from the end,
      changes its duration by `delta`; nothing happens without a selection. */
  function UpdateDurations(v: View, delta: int): View
    requires forall i :: i in v.sel ==> -|v.durations| <= i < |v.durations|
  {
    var n := |v.durations|;
    if v.sel == {} then v
    else v.(durations := seq(n, k requires 0 <= k < n => BumpedTimes(v.durations[k], delta, Hits(v.sel, k, n))))
  }

  /** Only reached durations change; a duration reached by i and by i - n is changed twice; every
      touched one ends at 1 ms or more (for a non-negative original); a non-positive change
      lands exactly on max(1, d + delta). */
  lemma UpdateDurationsEffect(v: View, delta: int)
    requires forall i :: i in v.sel ==> -|v.durations| <= i < |v.durations|
    ensures var r := UpdateDurations(v, delta); var n := |v.durations|;
            r.frames == v.frames && r.cur == v.cur && r.sel == v.sel && |r.durations| == n &&
            forall k :: 0 <= k < n ==>
              (k !in v.sel && k - n !in v.sel ==> r.durations[k] == v.durations[k]) &&
              ((k in v.sel || k - n in v.sel) && v.durations[k] >= 0 ==> r.durations[k] >= 1) &&
              ((k in v.sel) != (k - n in v.sel) && delta > 0 ==> r.durations[k] == v.durations[k] + delta) &&
              (k in v.sel && k - n in v.sel && delta > 0 ==> r.durations[k] == v.durations[k] + 2 * delta) &&
              ((k in v.sel || k - n in v.sel) && delta <= 0 ==> r.durations[k] == Max(1, v.durations[k] + Hits(v.sel, k, n) * delta))
  {
  }

  /** A 50 ms frame lowered by 10000 ms is held at 1 ms. */
  lemma UpdateDurationsFloor(f: Frame)
    ensures UpdateDurations(View([f], [50], 0, {0}), -10000).durations == [1]
  {
  }

  /** A negative selected index counts from the end: {0, -1} in a four-frame list changes the
      first and the last duration, and {3, -1} changes the last one twice. */
  lemma UpdateDurationsNegative(a: Frame, b: Frame, c: Frame, d: Frame)
    ensures UpdateDurations(View([a, b, c, d], [10, 10, 10, 10], 0, {0, -1}), 5).durations == [15, 10, 10, 15]
    ensures UpdateDurations(View([a, b, c, d], [10, 10, 10, 10], 0, {3, -1}), 5).durations == [10, 10, 10, 20]
  {
    var v1 := View([a, b, c, d], [10, 10, 10, 10], 0, {0, -1});
    var v2 := View([a, b, c, d], [10, 10, 10, 10], 0, {3, -1});
    assert Hits(v1.sel, 0, 4) == 1 && Hits(v1.sel, 1, 4) == 0 && Hits(v1.sel, 2, 4) == 0 && Hits(v1.sel, 3, 4) == 1;
    assert Hits(v2.sel, 0, 4) == 0 && Hits(v2.sel, 1, 4) == 0 && Hits(v2.sel, 2, 4) == 0 && Hits(v2.sel, 3, 4) == 2;
  }

  /** On a well-formed sequence no index is negative, so each selected duration changes once. */
  lemma UpdateDurationsWellFormed(v: View, delta: int)
    requires WellFormed(v)
    ensures WellFormed(UpdateDurations(v, delta))
    ensures forall k :: 0 <= k < |v.durations| ==>
              UpdateDurations(v, delta).durations[k] == if k in v.sel then Bumped(v.durations[k], delta) else v.durations[k]
  {
  }

  /** `play_next_frame`: the tick advances the current index cyclically. */
  function PlayNext(v: View): (r: View)
    requires v.frames != []
    ensures 0 <= r.cur < |v.frames|
    ensures r == v.(cur := r.cur)
    ensures 0 <= v.cur < |v.frames| ==> r.cur == if v.cur + 1 == |v.frames| then 0 else v.cur + 1
  {
    v.(cur := (v.cur + 1) % |v.frames|)
  }

  /** `count` successive ticks. */
  function Ticks(v: View, count: nat): View
    requires v.frames != []
    decreases count
  {
    if count == 0 then v else Ticks(PlayNext(v), count - 1)
  }

  /** Up to n ticks move the current index that many places forward, wrapping once past the end. */
  lemma {:induction false} TicksAdvance(v: View, count: nat)
    requires v.frames != [] && 0 <= v.cur < |v.frames| && count <= |v.frames|
    ensures var n := |v.frames|;
            Ticks(v, count) == v.(cur := if v.cur + count < n then v.cur + count else v.cur + count - n)
    decreases count
  {
    if count > 0 {
      TicksAdvance(PlayNext(v), count - 1);
    }
  }

  /** After n ticks the current frame is the one playback started from. */
  lemma TicksCycle(v: View)
    requires v.frames != [] && 0 <= v.cur < |v.frames|
    ensures Ticks(v, |v.frames|) == v
  {
    TicksAdvance(v, |v.frames|);
  }

  lemma PlayNextWellFormed(v: View)
    requires WellFormed(v) && v.frames != []
    ensures WellFormed(PlayNext(v))
  {
  }

  // ---------------------------------------------------------------- frame geometry edits

  /** The confirmed crop: the box chosen on screen, clamped to the current frame, cuts every frame. */
  function Crop(v: View, left: int, top: int, right: int, bottom: int): View
    requires 0 <= v.cur < |v.frames|
    requires Width(v.frames[v.cur]) >= 0 && Height(v.frames[v.cur]) >= 0
  {
    var box := ClampBox(left, top, right, bottom, Width(v.frames[v.cur]), Height(v.frames[v.cur]));
    v.(frames := seq(|v.frames|, k requires 0 <= k < |v.frames| => Cropped(v.frames[k], box)))
  }

  /** Every frame is cut by one common non-empty box; durations, index and selection stay. */
  lemma CropEffect(v: View, left: int, top: int, right: int, bottom: int)
    requires WellFormed(v) && v.frames != []
    requires Width(v.frames[v.cur]) >= 0 && Height(v.frames[v.cur]) >= 0
    ensures var r := Crop(v, left, top, right, bottom);
            WellFormed(r) && |r.frames| == |v.frames| &&
            r.durations == v.durations && r.cur == v.cur && r.sel == v.sel &&
            exists box: Box :: box.left < box.right && box.top < box.bottom &&
              forall k :: 0 <= k < |r.frames| ==> r.frames[k] == Cropped(v.frames[k], box)
  {
    var box := ClampBox(left, top, right, bottom, Width(v.frames[v.cur]), Height(v.frames[v.cur]));
    var r := Crop(v, left, top, right, bottom);
    assert forall k :: 0 <= k < |r.frames| ==> r.frames[k] == Cropped(v.frames[k], box);
  }

  /** `resize_frames`: the new width follows the first frame's aspect ratio and every frame is
      resampled to that one width and the requested height. */
  function Resize(v: View, height: int): View
    requires v.frames != [] && Width(v.frames[0]) > 0 && Height(v.frames[0]) > 0 && height >= 0
  {
    var w := ScaledWidth(Width(v.frames[0]), Height(v.frames[0]), height);
    v.(frames := seq(|v.frames|, k requires 0 <= k < |v.frames| => Resized(v.frames[k], w, height)))
  }

  /** After a resize all frames share one size, whose width keeps the first frame's aspect
      ratio, rounded down. */
  lemma ResizeEffect(v: View, height: int)
    requires WellFormed(v) && v.frames != [] && Width(v.frames[0]) > 0 && Height(v.frames[0]) > 0 && height >= 0
    ensures var r := Resize(v, height); var w := Width(r.frames[0]);
            WellFormed(r) && |r.frames| == |v.frames| && r.durations == v.durations &&
            w * Height(v.frames[0]) <= height * Width(v.frames[0]) < (w + 1) * Height(v.frames[0]) &&
            forall k :: 0 <= k < |r.frames| ==> Width(r.frames[k]) == w && Height(r.frames[k]) == height
  {
  }
}
