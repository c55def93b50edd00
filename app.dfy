/** The two stateful classes of `main.py`: `MainDropLabel` (one frame sequence, here `Sequence`)
    and `AnimatedImageEditor` (the undo and redo stacks and the two sequences, here `Editor`).
    Every method changes its object in place, as the source does, and is proved to leave exactly
    the state that the value-level functions of Timeline, History, Composition and Export give. */
module App {
  import opened Lists
  import opened Frames
  import opened Wrappers
  import opened Formats
  import opened Timeline
  import opened History
  import opened Composition
  import opened Export

  /** A workspace after `save_state(i)` followed by an edit that leaves sequence i as `v`. */
  function SavedEdit(w: Workspace, i: ViewIndex, v: View): (r: Workspace)
    ensures r.undo == SaveStep(w, i).undo && r.redo == []
    ensures Get(r, i) == v && Get(r, 1 - i) == Get(w, 1 - i)
  {
    Put(SaveStep(w, i), i, v)
  }

  /** `display_frame` as far as state goes: a sequence without frames is reset. The result is
      settled, keeps the frames, and is the sequence itself whenever that was settled already. */
  function Shown(v: View): (r: View)
    ensures Settled(r) && r.frames == v.frames
    ensures Settled(v) ==> r == v
  {
    if v.frames == [] then Empty else v
  }

  class Sequence {
    var frames: seq<Frame>
    var durations: seq<int>
    var cur: int
    var sel: set<int>
    /** `MDL_index`: which of the editor's two sequences this is. */
    const index: ViewIndex
    /** Whether the `durations` attribute exists: a new label has none until its first `reset`,
        and saving, capturing or overwriting its state raises `AttributeError` until then. */
    var hasDurations: bool

    function State(): View
      reads this
    {
      View(frames, durations, cur, sel)
    }

    constructor (i: ViewIndex)
      ensures State() == Empty && index == i && !hasDurations
    {
      frames, durations, cur, sel := [], [], 0, {};
      index := i;
      hasDurations := false;
    }

    /** `reset`, which also creates the `durations` attribute. */
    method Reset()
      modifies this
      ensures State() == Empty && hasDurations
    {
      frames := [];
      durations := [];
      cur := 0;
      sel := {};
      hasDurations := true;
    }

    /** A new `MainDropLabel` put in this one's place: the state the constructor leaves. */
    method Renew()
      modifies this
      ensures State() == Empty && !hasDurations
    {
      frames, durations, cur, sel := [], [], 0, {};
      hasDurations := false;
    }

    /** `display_frame`: showing a sequence without frames resets it. */
    method DisplayFrame(i: int)
      modifies this
      ensures State() == Shown(old(State()))
      ensures hasDurations == (old(hasDurations) || old(frames) == [])
    {
      if frames == [] {
        Reset();
      }
    }

    /** `get_current_state`; `None` stands for the `AttributeError` of a label without durations. */
    method GetCurrentState() returns (r: Option<Snapshot>)
      ensures hasDurations ==> r == Some(Capture(index, State()))
      ensures hasDurations ==> r.value.frames == frames && r.value.durations == durations && r.value.cur == cur
      ensures !hasDurations ==> r == None
    {
      if !hasDurations {
        return None;
      }
      r := Some(Snapshot(index, frames, durations, cur));
    }

    /** `overwrite_state`: lists and index are replaced, the selection stays. On a label without
        durations the frame list is cleared and the call raises (`ok` is false). */
    method OverwriteState(fs: seq<Frame>, ds: seq<int>, c: int) returns (ok: bool)
      modifies this
      ensures ok == old(hasDurations) && hasDurations == old(hasDurations)
      ensures ok ==> State() == View(fs, ds, c, old(sel))
      ensures !ok ==> State() == old(State()).(frames := [])
    {
      if !hasDurations {
        frames := [];
        return false;
      }
      frames, durations, cur := fs, ds, c;
      return true;
    }

    /** `load_animation` on the replace path: the extension is checked, then the sequence is reset
        and every decoded frame and its duration (100 ms when the container gives none) appended. */
    method LoadAnimation(ext: string, decoded: seq<DecodedFrame>)
      modifies this
      ensures State() == Load(old(State()), ext, decoded)
      ensures hasDurations == (old(hasDurations) || ext in LoadExtensions)
    {
      if ext !in LoadExtensions {
        return;
      }
      Reset();
      var k := 0;
      while k < |decoded|
        invariant 0 <= k <= |decoded|
        invariant State() == View(FromDecoder(decoded[..k]).frames, FromDecoder(decoded[..k]).durations, 0, {})
        invariant hasDurations
      {
        var d := match decoded[k].duration case Some(ms) => ms case None => DefaultDuration;
        frames := frames + [decoded[k].image];
        durations := durations + [d];
        k := k + 1;
      }
      assert decoded[..k] == decoded;
      cur := 0;
      DisplayFrame(cur);
    }

    /** `resize_frames`: the width follows the first frame's aspect ratio; each frame in turn is
        replaced by its resampled copy. Without a first frame (`IndexError`) or with a first frame
        of zero width or height (`ZeroDivisionError`) the call raises before changing anything,
        and `ok` is false. */
    method ResizeFrames(height: int) returns (ok: bool)
      requires height >= 0
      requires frames != [] ==> Width(frames[0]) >= 0 && Height(frames[0]) >= 0
      modifies this
      ensures ok == (old(frames) != [] && Width(old(frames)[0]) > 0 && Height(old(frames)[0]) > 0)
      ensures ok ==> State() == Resize(old(State()), height)
      ensures !ok ==> State() == old(State())
      ensures hasDurations == old(hasDurations)
    {
      if frames == [] || Width(frames[0]) == 0 || Height(frames[0]) == 0 {
        return false;
      }
      ok := true;
      var w := ScaledWidth(Width(frames[0]), Height(frames[0]), height);
      ghost var before := frames;
      var fs := frames;
      var k := 0;
      while k < |fs|
        invariant 0 <= k <= |fs| == |before|
        invariant forall t :: 0 <= t < k ==> fs[t] == Resized(before[t], w, height)
        invariant forall t :: k <= t < |fs| ==> fs[t] == before[t]
      {
        fs := fs[k := Resized(fs[k], w, height)];
        k := k + 1;
      }
      frames := fs;
    }

    /** `update_frame_durations`: with a selection, the state is saved and every selected index,
        a negative one counting from the end as Python's indexing does, has its duration changed
        by `delta` (a non-positive change stops at 1 ms). A failed save ends the call. */
    method UpdateFrameDurations(ed: Editor, delta: int)
      requires ed.Valid() && ed.Holds(this)
      requires forall i :: i in sel ==> -|durations| <= i < |durations|
      modifies this, ed
      ensures sel == {} || !old(hasDurations) ==> ed.Workspace() == old(ed.Workspace())
      ensures sel != {} && old(hasDurations) ==>
                ed.Workspace() == SavedEdit(old(ed.Workspace()), index, UpdateDurations(old(State()), delta))
      ensures ed.dual == old(ed.dual) && hasDurations == old(hasDurations)
    {
      if sel == {} {
        return;
      }
      var saved := ed.SaveState(index);
      if !saved {
        return;
      }
      durations := BumpSelected(durations, sel, delta);
    }

    /** The loop of `update_frame_durations`: the selected indices are taken in any order, and
        each changes the duration at the position it names (i + n for a negative i). */
    static method BumpSelected(ds: seq<int>, selected: set<int>, delta: int) returns (out: seq<int>)
      requires forall i :: i in selected ==> -|ds| <= i < |ds|
      ensures |out| == |ds|
      ensures forall k :: 0 <= k < |ds| ==> out[k] == BumpedTimes(ds[k], delta, Hits(selected, k, |ds|))
    {
      var n := |ds|;
      out := ds;
      var todo := selected;
      while todo != {}
        invariant todo <= selected
        invariant |out| == n
        invariant forall k :: 0 <= k < n ==> out[k] == BumpedTimes(ds[k], delta, Hits(selected - todo, k, n))
        decreases |todo|
      {
        assert (forall y :: y !in todo) ==> todo == {};
        var i :| i in todo;
        var p := if i < 0 then i + n else i;
        assert Hits(selected - (todo - {i}), p, n) == Hits(selected - todo, p, n) + 1;
        assert forall k :: 0 <= k < n && k != p ==> Hits(selected - (todo - {i}), k, n) == Hits(selected - todo, k, n);
        if delta > 0 {
          out := out[p := out[p] + delta];
        } else {
          out := out[p := Max(1, out[p] + delta)];
        }
        todo := todo - {i};
      }
      assert selected - todo == selected;
    }

    /** `reverse_frames`: without frames nothing happens; otherwise the state is saved and both
        lists, the selection and the current index are mirrored. */
    method ReverseFrames(ed: Editor)
      requires ed.Valid() && ed.Holds(this)
      modifies this, ed
      ensures old(frames) == [] || !old(hasDurations) ==> ed.Workspace() == old(ed.Workspace())
      ensures old(frames) != [] && old(hasDurations) ==>
                ed.Workspace() == SavedEdit(old(ed.Workspace()), index, Reverse(old(State())))
      ensures ed.dual == old(ed.dual) && hasDurations == old(hasDurations)
    {
      if frames == [] {
        return;
      }
      var saved := ed.SaveState(index);
      if !saved {
        return;
      }
      var n := |frames|;
      frames := Reversed(frames);
      durations := Reversed(durations);
      sel := set i | i in sel :: n - 1 - i;
      cur := n - 1 - cur;
      DisplayFrame(cur);
    }

    /** `pendulum_frames`: without frames nothing happens; otherwise the state is saved and each
        list is extended by its own reverse. */
    method PendulumFrames(ed: Editor)
      requires ed.Valid() && ed.Holds(this)
      modifies this, ed
      ensures old(frames) == [] || !old(hasDurations) ==> ed.Workspace() == old(ed.Workspace())
      ensures old(frames) != [] && old(hasDurations) ==>
                ed.Workspace() == SavedEdit(old(ed.Workspace()), index, Pendulum(old(State())))
      ensures ed.dual == old(ed.dual) && hasDurations == old(hasDurations)
    {
      if frames == [] {
        return;
      }
      var saved := ed.SaveState(index);
      if !saved {
        return;
      }
      frames := frames + Reversed(frames);
      durations := durations + Reversed(durations);
      DisplayFrame(cur);
    }

    /** `frame_clicked`: the selection state machine; Control and plain clicks also show the
        clicked frame. */
    method FrameClicked(i: int, mods: Modifiers)
      modifies this
      ensures mods == ShiftOnly && old(sel) != {} ==> State() == Click(old(State()), i, mods)
      ensures !(mods == ShiftOnly && old(sel) != {}) ==> State() == Shown(Click(old(State()), i, mods))
    ensures hasDurations == (old(hasDurations) || (old(frames) == [] && !(mods == ShiftOnly && old(sel) != {})))
    {
      if mods == ShiftOnly && sel != {} {
        var last := SetMax(sel);
        sel := Range(Min(last, i), Max(last, i) + 1);
      } else if mods == ControlOnly {
        if i in sel {
          sel := sel - {i};
        } else {
          sel := sel + {i};
        }
        cur := i;
        DisplayFrame(i);
      } else {
        sel := {i};
        cur := i;
        DisplayFrame(i);
      }
    }

    /** `reorder_frames`: the state is saved, an empty selection becomes {source}, and the moving
        positions, in ascending order, are collected, deleted from the highest down, and inserted
        one by one from `target` on. A failed save raises and ends the call; so does a moving
        position past the end of either list (`IndexError` while collecting), after the save and
        the new selection but before either list changes. `ok` is false on both paths. */
    method ReorderFrames(ed: Editor, source: int, target: nat) returns (ok: bool)
      requires ed.Valid() && ed.Holds(this)
      requires forall i :: i in Moving(State(), source) ==> 0 <= i
      modifies this, ed
      ensures ok == (old(hasDurations) && ReorderInRange(old(State()), source))
      ensures !old(hasDurations) ==> ed.Workspace() == old(ed.Workspace())
      ensures old(hasDurations) && !ok ==>
                ed.Workspace() == SavedEdit(old(ed.Workspace()), index, old(State()).(sel := Moving(old(State()), source)))
      ensures ok ==>
                ed.Workspace() == SavedEdit(old(ed.Workspace()), index, Reorder(old(State()), source, target))
      ensures ed.dual == old(ed.dual) && hasDurations == old(hasDurations)
    {
      ok := ed.SaveState(index);
      if !ok {
        return;
      }
      assert State() == old(State());
      var moving := if sel == {} then {source} else sel;
      if !(forall i :: i in moving ==> i < |frames| && i < |durations|) {
        assert moving == Moving(old(State()), source);
        assert !ReorderInRange(old(State()), source);
        sel := moving;
        return false;
      }
      ApplyReorder(source, target);
    }

    /** The edit `reorder_frames` makes after saving the state, once every moving position is
        known to lie inside both lists. */
    method ApplyReorder(source: int, target: nat)
      requires forall i :: i in Moving(State(), source) ==> 0 <= i
      requires ReorderInRange(State(), source)
      modifies this
      ensures State() == Reorder(old(State()), source, target)
      ensures hasDurations == old(hasDurations)
    {
      ghost var v := State();
      ghost var moving := Moving(v, source);
      assert |Moved(frames, moving, target)| == |frames| > 0 by {
        if v.sel == {} {
          assert source in moving;
        } else {
          var some :| some in v.sel;
          assert some in moving;
        }
        MovedPermutes(frames, moving, target);
      }
      if sel == {} {
        sel := {source};
      }
      var selected := Ascending(sel);
      var fs, ds := MoveBlock(frames, durations, selected, target);
      frames, durations, sel := fs, ds, Range(target, target + |selected|);
      DisplayFrame(cur);
    }

    /** The list work of `reorder_frames`: the entries at the ascending positions `selected` are
        collected, deleted from the highest position down, and inserted one by one from `target` on. */
    static method MoveBlock(xs: seq<Frame>, ds: seq<int>, selected: seq<int>, target: nat)
      returns (fs: seq<Frame>, dd: seq<int>)
      requires Increasing(selected)
      requires forall i :: i in Elems(selected) ==> 0 <= i < |xs| && i < |ds|
      ensures fs == Moved(xs, Elems(selected), target) && dd == Moved(ds, Elems(selected), target)
    {
      ghost var s := Elems(selected);
      assert forall k :: 0 <= k < |selected| ==> selected[k] in s;
      var moving, movingDurations := CollectMoving(xs, ds, selected);
      fs, dd := DeleteDescending(xs, ds, selected);
      PickedCount(xs, s, 0);
      PickedCount(ds, s, 0);
      assert InRange(s, 0, |xs|) == s && InRange(s, 0, |ds|) == s;
      fs, dd := InsertBlock(fs, dd, moving, movingDurations, target);
    }

    /** Collects the frames, and alongside them the durations, found at the `selected` positions. */
    static method CollectMoving(xs: seq<Frame>, ds: seq<int>, selected: seq<int>)
      returns (moving: seq<Frame>, movingDurations: seq<int>)
      requires Increasing(selected)
      requires forall k :: 0 <= k < |selected| ==> 0 <= selected[k] < |xs| && selected[k] < |ds|
      ensures moving == PickedAt(xs, Elems(selected), 0)
      ensures movingDurations == PickedAt(ds, Elems(selected), 0)
    {
      moving, movingDurations := [], [];
      var k := 0;
      assert Elems(selected[..0]) == {};
      OutsideUntouched(xs, {}, 0);
      OutsideUntouched(ds, {}, 0);
      while k < |selected|
        invariant 0 <= k <= |selected|
        invariant moving == PickedAt(xs, Elems(selected[..k]), 0)
        invariant movingDurations == PickedAt(ds, Elems(selected[..k]), 0)
      {
        IncreasingSplit(selected, k);
        PickedSnoc(xs, Elems(selected[..k]), selected[k]);
        PickedSnoc(ds, Elems(selected[..k]), selected[k]);
        moving := moving + [xs[selected[k]]];
        movingDurations := movingDurations + [ds[selected[k]]];
        k := k + 1;
      }
      assert selected[..k] == selected;
    }

    /** Deletes the entries at the `selected` positions from both lists, the highest position first. */
    static method DeleteDescending(xs: seq<Frame>, ds: seq<int>, selected: seq<int>)
      returns (fs: seq<Frame>, dur: seq<int>)
      requires Increasing(selected)
      requires forall k :: 0 <= k < |selected| ==> 0 <= selected[k] < |xs| && selected[k] < |ds|
      ensures fs == KeptAt(xs, Elems(selected), 0) && dur == KeptAt(ds, Elems(selected), 0)
    {
      fs, dur := xs, ds;
      OutsideUntouched(xs, {}, 0);
      OutsideUntouched(ds, {}, 0);
      var k := |selected|;
      assert Elems(selected[k..]) == {};
      while k > 0
        invariant 0 <= k <= |selected|
        invariant fs == KeptAt(xs, Elems(selected[k..]), 0) && dur == KeptAt(ds, Elems(selected[k..]), 0)
      {
        k := k - 1;
        var i := selected[k];
        IncreasingSplit(selected, k);
        RemovedKept(xs, Elems(selected[k + 1..]), i);
        RemovedKept(ds, Elems(selected[k + 1..]), i);
        fs := Removed(fs, i);
        dur := Removed(dur, i);
      }
      assert selected[0..] == selected;
    }

    /** Inserts the collected frames and durations one by one, the i-th at position target + i. */
    static method InsertBlock(fs: seq<Frame>, ds: seq<int>, moving: seq<Frame>, movingDurations: seq<int>, target: nat)
      returns (out: seq<Frame>, dout: seq<int>)
      requires |moving| == |movingDurations|
      ensures var p := Min(target, |fs|); out == fs[..p] + moving + fs[p..]
      ensures var p := Min(target, |ds|); dout == ds[..p] + movingDurations + ds[p..]
    {
      var p, q := Min(target, |fs|), Min(target, |ds|);
      out, dout := fs, ds;
      var t := 0;
      while t < |moving|
        invariant 0 <= t <= |moving|
        invariant out == fs[..p] + moving[..t] + fs[p..]
        invariant dout == ds[..q] + movingDurations[..t] + ds[q..]
      {
        assert Min(target + t, |out|) == p + t;
        assert Min(target + t, |dout|) == q + t;
        assert moving[..t + 1] == moving[..t] + [moving[t]];
        assert movingDurations[..t + 1] == movingDurations[..t] + [movingDurations[t]];
        out := Insert(out, target + t, moving[t]);
        dout := Insert(dout, target + t, movingDurations[t]);
        t := t + 1;
      }
      assert moving[..t] == moving && movingDurations[..t] == movingDurations;
    }

    /** `play_next_frame`. The timer keeps firing after the sequence is emptied; the tick then
        divides by zero (`ZeroDivisionError`) before changing anything, and `ok` is false. */
    method PlayNextFrame() returns (ok: bool)
      modifies this
      ensures ok == (old(frames) != [])
      ensures ok ==> State() == PlayNext(old(State()))
      ensures !ok ==> State() == old(State())
      ensures hasDurations == old(hasDurations)
    {
      if frames == [] {
        return false;
      }
      cur := (cur + 1) % |frames|;
      DisplayFrame(cur);
      return true;
    }

    /** The mouse release that ends a crop: without frames nothing happens; otherwise the box is
        clamped to the current frame and, once the preview is accepted, the state is saved and
        every frame cut by the box. A declined preview or a failed save changes nothing. */
    method CropFrames(ed: Editor, left: int, top: int, right: int, bottom: int, accepted: bool)
      requires ed.Valid() && ed.Holds(this)
      requires frames != [] ==> 0 <= cur < |frames| && Width(frames[cur]) >= 0 && Height(frames[cur]) >= 0
      modifies this, ed
      ensures old(frames) == [] || !accepted || !old(hasDurations) ==> ed.Workspace() == old(ed.Workspace())
      ensures old(frames) != [] && accepted && old(hasDurations) ==>
                ed.Workspace() == SavedEdit(old(ed.Workspace()), index, Crop(old(State()), left, top, right, bottom))
      ensures ed.dual == old(ed.dual) && hasDurations == old(hasDurations)
    {
      if frames == [] {
        return;
      }
      var image := frames[cur];
      var box := ClampBox(left, top, right, bottom, Width(image), Height(image));
      if !accepted {
        return;
      }
      var saved := ed.SaveState(index);
      if !saved {
        return;
      }
      var fs := frames;
      frames := seq(|fs|, k requires 0 <= k < |fs| => Cropped(fs[k], box));
      DisplayFrame(cur);
    }

    /** `duplicate_frame`: the state is saved, then a valid index gets its copy right after it.
        A failed save ends the call. */
    method DuplicateFrame(ed: Editor, i: int)
      requires ed.Valid() && ed.Holds(this)
      requires |frames| <= |durations|
      modifies this, ed
      ensures !old(hasDurations) ==> ed.Workspace() == old(ed.Workspace())
      ensures old(hasDurations) ==> ed.Workspace() == SavedEdit(old(ed.Workspace()), index, Duplicate(old(State()), i))
      ensures ed.dual == old(ed.dual) && hasDurations == old(hasDurations)
    {
      var saved := ed.SaveState(index);
      if !saved {
        return;
      }
      if 0 <= i < |frames| {
        var copy := frames[i];
        frames := Insert(frames, i + 1, copy);
        durations := Insert(durations, i + 1, durations[i]);
      }
    }

    /** `delete_frame`, as written: the state is saved, the index leaves the selection, and the
        frame (only the frame) is deleted unless it is the last one. A failed save ends the call. */
    method DeleteFrame(ed: Editor, i: int)
      requires ed.Valid() && ed.Holds(this)
      modifies this, ed
      ensures !old(hasDurations) ==> ed.Workspace() == old(ed.Workspace())
      ensures old(hasDurations) ==>
                ed.Workspace() == SavedEdit(old(ed.Workspace()), index, Timeline.DeleteFrame(old(State()), i))
      ensures ed.dual == old(ed.dual) && hasDurations == old(hasDurations)
    {
      var saved := ed.SaveState(index);
      if !saved {
        return;
      }
      if i in sel {
        sel := sel - {i};
      }
      if 0 <= i < |frames| && |frames| > 1 {
        frames := Removed(frames, i);
        if cur >= |frames| {
          cur := |frames| - 1;
        }
        DisplayFrame(cur);
      }
    }

    /** `deleteSelectedFrames`: the state is saved; with a selection, its indices are deleted from
        the highest down (those outside the frame list skipped), the selection cleared, the
        current index clamped, and an emptied sequence reset. A failed save raises out of the
        call, and `ok` is false. */
    method DeleteSelectedFrames(ed: Editor) returns (ok: bool)
      requires ed.Valid() && ed.Holds(this)
      requires forall i :: i in sel && 0 <= i < |frames| ==> i < |durations|
      modifies this, ed
      ensures ok == old(hasDurations) && hasDurations == old(hasDurations)
      ensures !ok ==> ed.Workspace() == old(ed.Workspace())
      ensures ok ==> ed.Workspace() == SavedEdit(old(ed.Workspace()), index, DeleteSelected(old(State())))
      ensures ed.dual == old(ed.dual)
    {
      ok := ed.SaveState(index);
      if !ok {
        return;
      }
      ApplyDeleteSelected();
    }

    /** The edit `deleteSelectedFrames` makes after saving the state. */
    method ApplyDeleteSelected()
      requires forall i :: i in sel && 0 <= i < |frames| ==> i < |durations|
      modifies this
      ensures State() == DeleteSelected(old(State()))
      ensures hasDurations == (old(hasDurations) || (old(sel) != {} && frames == []))
    {
      if sel == {} {
        return;
      }
      var toDelete := Ascending(sel);
      var fs, ds := DeleteInRange(frames, durations, toDelete);
      OnlyInRangeMatters(frames, sel, 0);
      OnlyInRangeMatters(durations, sel, 0);
      frames, durations := fs, ds;
      sel := {};
      cur := Min(cur, |frames| - 1);
      DisplayFrame(cur);
    }

    /** Walks the indices to delete from the highest down and deletes the entry of both lists at
        each index that lies inside the frame list: exactly those positions go. */
    static method DeleteInRange(xs: seq<Frame>, ds0: seq<int>, toDelete: seq<int>)
      returns (fs: seq<Frame>, ds: seq<int>)
      requires Increasing(toDelete)
      requires forall i :: i in Elems(toDelete) && 0 <= i < |xs| ==> i < |ds0|
      ensures fs == KeptAt(xs, InRange(Elems(toDelete), 0, |xs|), 0)
      ensures ds == KeptAt(ds0, InRange(Elems(toDelete), 0, |xs|), 0)
    {
      ghost var n := |xs|;
      fs, ds := xs, ds0;
      OutsideUntouched(xs, {}, 0);
      OutsideUntouched(ds0, {}, 0);
      var k := |toDelete|;
      assert InRange(Elems(toDelete[k..]), 0, n) == {};
      while k > 0
        invariant 0 <= k <= |toDelete|
        invariant fs == KeptAt(xs, InRange(Elems(toDelete[k..]), 0, n), 0)
        invariant ds == KeptAt(ds0, InRange(Elems(toDelete[k..]), 0, n), 0)
      {
        k := k - 1;
        var i := toDelete[k];
        IncreasingSplit(toDelete, k);
        ghost var done := InRange(Elems(toDelete[k + 1..]), 0, n);
        KeptPickedLength(xs, done, 0);
        if 0 <= i < n {
          RemovedKept(xs, done, i);
        }
        if 0 <= i < |fs| {
          assert i in Elems(toDelete) && i < n && i < |ds0|;
          RemovedKept(xs, done, i);
          RemovedKept(ds0, done, i);
          assert InRange(Elems(toDelete[k..]), 0, n) == done + {i};
          fs := Removed(fs, i);
          ds := Removed(ds, i);
        } else {
          assert InRange(Elems(toDelete[k..]), 0, n) == done;
        }
      }
      assert toDelete[0..] == toDelete;
    }
  }

  class Editor {
    var undo: seq<Snapshot>
    var redo: seq<Snapshot>
    /** `isDualModeOn`. */
    var dual: bool
    const first: Sequence
    const second: Sequence

    predicate Valid()
    {
      first != second && first.index == 0 && second.index == 1
    }

    /** The sequence a snapshot tag names. */
    function Of(i: ViewIndex): Sequence
    {
      if i == 0 then first else second
    }

    predicate Holds(s: Sequence)
    {
      Of(s.index) == s
    }

    function Workspace(): Workspace
      reads this, first, second
    {
      History.Workspace(undo, redo, first.State(), second.State())
    }

    /** The sequences `undo` and `redo` can resolve: the second only while its widget is in the
        layout (dual mode), and either only once it has a durations list. */
    function Live(): set<ViewIndex>
      reads this, first, second
    {
      (if first.hasDurations then {0} else {}) + (if dual && second.hasDurations then {1} else {})
    }

    constructor ()
      ensures Valid() && !dual && fresh(first) && fresh(second)
      ensures !first.hasDurations && !second.hasDurations && Live() == {}
      ensures Workspace() == History.Workspace([], [], Empty, Empty)
    {
      undo, redo, dual := [], [], false;
      first := new Sequence(0);
      second := new Sequence(1);
    }

    /** `save_state(i)`. Reading the durations of a sequence that has none raises before anything
        is pushed, and `ok` is false. */
    method SaveState(i: ViewIndex) returns (ok: bool)
      modifies this
      ensures ok == Of(i).hasDurations
      ensures ok ==> Workspace() == SaveStep(old(Workspace()), i)
      ensures !ok ==> Workspace() == old(Workspace())
      ensures dual == old(dual)
    {
      var mdl := Of(i);
      if !mdl.hasDurations {
        return false;
      }
      ok := true;
      undo := undo + [Snapshot(i, mdl.frames, mdl.durations, mdl.cur)];
      if |undo| > Cap {
        undo := undo[1..];
      }
      redo := [];
    }

    /** `undo`: the top snapshot is popped; when its sequence can be resolved, that sequence's
        current state goes on the redo stack and the snapshot is restored into it. */
    method Undo()
      requires Valid()
      modifies this, first, second
      ensures Workspace() == UndoIn(old(Workspace()), old(Live()))
      ensures dual == old(dual) && first.hasDurations == old(first.hasDurations)
      ensures second.hasDurations == old(second.hasDurations)
    {
      if undo == [] {
        return;
      }
      var state := undo[|undo| - 1];
      undo := undo[..|undo| - 1];
      if state.tag == 1 && !dual {
        return;
      }
      var mdl := Of(state.tag);
      var now := mdl.GetCurrentState();
      if now.None? {
        return;
      }
      redo := redo + [now.value];
      var _ := mdl.OverwriteState(state.frames, state.durations, state.cur);
      mdl.DisplayFrame(state.cur);
    }

    /** `redo`: the mirror image of `undo`. */
    method Redo()
      requires Valid()
      modifies this, first, second
      ensures Workspace() == RedoIn(old(Workspace()), old(Live()))
      ensures dual == old(dual) && first.hasDurations == old(first.hasDurations)
      ensures second.hasDurations == old(second.hasDurations)
    {
      if redo == [] {
        return;
      }
      var state := redo[|redo| - 1];
      redo := redo[..|redo| - 1];
      if state.tag == 1 && !dual {
        return;
      }
      var mdl := Of(state.tag);
      var now := mdl.GetCurrentState();
      if now.None? {
        return;
      }
      undo := undo + [now.value];
      var _ := mdl.OverwriteState(state.frames, state.durations, state.cur);
      mdl.DisplayFrame(state.cur);
    }

    /** The Delete key: `deleteSelectedFrames` on the first sequence, then on the second in dual
        mode. A failed save on the first raises out of the key handler before the second is
        reached. */
    method DeletePressed()
      requires Valid()
      requires forall i :: i in first.sel && 0 <= i < |first.frames| ==> i < |first.durations|
      requires forall i :: i in second.sel && 0 <= i < |second.frames| ==> i < |second.durations|
      modifies this, first, second
      ensures !old(first.hasDurations) ==> Workspace() == old(Workspace())
      ensures old(first.hasDurations) ==>
                var w := SavedEdit(old(Workspace()), 0, DeleteSelected(old(first.State())));
                Workspace() == if old(dual) && old(second.hasDurations) then SavedEdit(w, 1, DeleteSelected(old(second.State()))) else w
      ensures dual == old(dual)
    ensures first.hasDurations == old(first.hasDurations) && second.hasDurations == old(second.hasDurations)
    {
      var ok := first.DeleteSelectedFrames(this);
      if ok && dual {
        ok := second.DeleteSelectedFrames(this);
      }
    }

    /** `enable_dual_mode`: dual mode goes on, a new second sequence is created and loaded, and its
        state saved. When the extension is refused the new sequence never gets a durations list,
        so the save raises (the caller reports it) and the history stays as it was. */
    method EnableDualMode(ext: string, decoded: seq<DecodedFrame>)
      requires Valid()
      modifies this, second
      ensures dual
      ensures ext in LoadExtensions ==>
                Workspace() == SaveStep(old(Workspace()).(second := Load(Empty, ext, decoded)), 1) && second.hasDurations
      ensures ext !in LoadExtensions ==> Workspace() == old(Workspace()).(second := Empty) && !second.hasDurations
    {
      dual := true;
      second.Renew();
      second.LoadAnimation(ext, decoded);
      var _ := SaveState(1);
    }

    /** `adjust_frame_durations`: the list with the smaller total is rewritten entry by entry. */
    method AdjustFrameDurations()
      requires Valid()
      requires NonNegative(first.durations) && NonNegative(second.durations)
      requires Sum(first.durations) > Sum(second.durations) ==> Sum(second.durations) > 0
      requires Sum(first.durations) <= Sum(second.durations) ==> Sum(first.durations) > 0
      modifies first, second
      ensures (first.durations, second.durations) == Adjusted(old(first.durations), old(second.durations))
      ensures first.State() == old(first.State()).(durations := first.durations)
      ensures second.State() == old(second.State()).(durations := second.durations)
      ensures first.hasDurations == old(first.hasDurations) && second.hasDurations == old(second.hasDurations)
    {
      var sum1, sum2 := Sum(first.durations), Sum(second.durations);
      if sum1 > sum2 {
        second.durations := RescaleOne(second.durations, sum2, sum1);
      } else {
        first.durations := RescaleOne(first.durations, sum1, sum2);
      }
    }

    /** One of the two rewriting loops: each entry d becomes custom_round(other * d / own). */
    static method RescaleOne(ds: seq<int>, own: int, other: int) returns (out: seq<int>)
      requires own > 0 && other >= 0 && NonNegative(ds)
      ensures out == Rescaled(ds, own, other)
    {
      out := ds;
      var k := 0;
      while k < |out|
        invariant 0 <= k <= |out| == |ds|
        invariant forall t :: 0 <= t < k ==> out[t] == Share(ds[t], own, other)
        invariant forall t :: k <= t < |out| ==> out[t] == ds[t]
      {
        out := out[k := Share(out[k], own, other)];
        k := k + 1;
      }
    }

    /** The first step of `merge_images`: the side `calc_resizing_metrics` names is resized to
        the common height; nothing else changes. */
    method ResizeShorter() returns (m: Metrics)
      requires Valid()
      requires first.frames != [] && second.frames != []
      requires Width(first.frames[0]) > 0 && Height(first.frames[0]) > 0
      requires Width(second.frames[0]) > 0 && Height(second.frames[0]) > 0
      modifies first, second
      ensures m == MetricsOf(old(first.frames), old(second.frames))
      ensures first.frames == if m.resizeFirst then ResizedAll(old(first.frames), m.w1, m.h1) else old(first.frames)
      ensures second.frames == if m.resizeFirst then old(second.frames) else ResizedAll(old(second.frames), m.w2, m.h2)
      ensures first.State() == old(first.State()).(frames := first.frames)
      ensures second.State() == old(second.State()).(frames := second.frames)
      ensures first.hasDurations == old(first.hasDurations) && second.hasDurations == old(second.hasDurations)
    {
      m := MetricsOf(first.frames, second.frames);
      if m.resizeFirst {
        var _ := first.ResizeFrames(m.h1);
      } else {
        var _ := second.ResizeFrames(m.h2);
      }
    }

    /** `merge_images`: the shorter side is resized in place, the sweep builds the merged frames,
        which replace the first sequence's lists (current index 0); the second is reset. */
    method MergeImages()
      requires Valid()
      requires first.hasDurations
      requires first.frames != [] && second.frames != []
      requires |first.frames| <= |first.durations| && |second.frames| <= |second.durations|
      requires Width(first.frames[0]) > 0 && Height(first.frames[0]) > 0
      requires Width(second.frames[0]) > 0 && Height(second.frames[0]) > 0
      modifies first, second
      ensures var r := SweepMerged(old(first.frames), old(first.durations), old(second.frames), old(second.durations));
              first.State() == Shown(View(r.0, r.1, 0, old(first.sel))) && second.State() == Empty
    ensures first.hasDurations && second.hasDurations
    {
      var m := ResizeShorter();
      var frames, durations := MergeSweep(first.frames, first.durations, second.frames, second.durations,
                                          m.w1, m.w1 + m.w2, m.h1);
      var _ := first.OverwriteState(frames, durations, 0);
      first.DisplayFrame(0);
      second.Reset();
    }

    /** `handle_merge`: the single-frame broadcast or the duration adjustment, then the merge, then
        back to single mode. */
    method HandleMerge()
      requires Valid()
      requires first.hasDurations
      requires MergeReady(first.frames, first.durations, second.frames, second.durations)
      modifies this, first, second
      ensures var r := Merged(old(first.frames), old(first.durations), old(second.frames), old(second.durations));
              first.State() == Shown(View(r.0, r.1, 0, old(first.sel))) && second.State() == Empty
      ensures undo == old(undo) && redo == old(redo) && !dual
      ensures first.hasDurations && second.hasDurations
    {
      if |first.frames| == 1 {
        first.frames := Repeat(first.frames[0], |second.frames|);
        first.durations := second.durations;
      } else if |second.frames| == 1 {
        second.frames := Repeat(second.frames[0], |first.frames|);
        second.durations := first.durations;
      } else {
        AdjustFrameDurations();
      }
      MergeImages();
      dual := false;
    }

    /** `handle_concat`: both sides are brought to the common height and padded onto a container
        as wide as the wider side; the first sequence gets all frames and both duration lists. */
    method HandleConcat()
      requires Valid()
      requires first.hasDurations
      requires first.frames != [] && second.frames != []
      requires Width(first.frames[0]) > 0 && Height(first.frames[0]) > 0
      requires Width(second.frames[0]) > 0 && Height(second.frames[0]) > 0
      modifies this, first, second
      ensures var r := Concatenated(old(first.frames), old(first.durations), old(second.frames), old(second.durations));
              first.State() == View(r.0, r.1, 0, old(first.sel)) && second.State() == Empty
      ensures undo == old(undo) && redo == old(redo) && !dual
      ensures first.hasDurations && second.hasDurations
    {
      var m := MetricsOf(first.frames, second.frames);
      var cw := Max(m.w1, m.w2);
      var ch := m.h1;
      var resized1, resized2;
      if m.resizeFirst {
        if cw > m.w2 {
          resized2 := PadFrames(second.frames, cw, ch, m.w2);
        } else {
          resized2 := second.frames;
        }
        var _ := first.ResizeFrames(m.h1);
        resized1 := PadFrames(first.frames, cw, ch, m.w1);
      } else {
        if cw > m.w1 {
          resized1 := PadFrames(first.frames, cw, ch, m.w1);
        } else {
          resized1 := first.frames;
        }
        var _ := second.ResizeFrames(m.h2);
        resized2 := PadFrames(second.frames, cw, ch, m.w2);
      }
      var d := first.durations + second.durations;
      var _ := first.OverwriteState(resized1 + resized2, d, 0);
      first.DisplayFrame(0);
      second.Reset();
      dual := false;
    }

    /** `export_animation` up to the encoder: what would be written, or why nothing is. `chosen`
        is the lower-cased extension of the path from the save dialog, `None` if it was cancelled. */
    method ExportAnimation(chosen: Option<string>) returns (r: Result<Encoding, ExportError>)
      ensures r == Exported(dual, first.frames, first.durations, chosen)
    {
      var frames := if dual then [] else first.frames;
      if frames == [] {
        return Err(NoFrames);
      }
      if chosen.None? {
        return Err(Cancelled);
      }
      var ext := chosen.value;
      if ext !in ExportExtensions {
        return Err(InvalidFormat);
      }
      if ext == ".webp" {
        return Ok(Encoding(WebP, seq(|frames|, k requires 0 <= k < |frames| => AsIs(frames[k])), first.durations));
      }
      var exportFrames := QuantizeChunks(frames);
      return Ok(Encoding(Gif, exportFrames, first.durations));
    }
  }
}
