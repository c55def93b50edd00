/** The editor's undo and redo stacks over its two sequences, as values. `App.Editor` keeps
    the same stacks in fields and is proved to follow these functions. */
module History {
  import opened Frames
  import opened Timeline

  /** Which of the two sequences a snapshot belongs to (`MDL_index`, 0 or 1). */
  type ViewIndex = i: nat | i < 2

  /** What `get_current_state` records: the sequence's index, copies of both lists, and the
      current index. The selection is not part of a snapshot. */
  datatype Snapshot = Snapshot(tag: ViewIndex, frames: seq<Frame>, durations: seq<int>, cur: int)

  /** Longest undo history `save_state` keeps. */
  const Cap := 50

  /** Both sequences and both stacks; the last element of a stack is its top. */
  datatype Workspace = Workspace(undo: seq<Snapshot>, redo: seq<Snapshot>, first: View, second: View)

  function Get(w: Workspace, i: ViewIndex): View
  {
    if i == 0 then w.first else w.second
  }

  function Put(w: Workspace, i: ViewIndex, v: View): (r: Workspace)
    ensures Get(r, i) == v
    ensures forall j: ViewIndex :: j != i ==> Get(r, j) == Get(w, j)
    ensures r.undo == w.undo && r.redo == w.redo
  {
    if i == 0 then w.(first := v) else w.(second := v)
  }

  function Capture(i: ViewIndex, v: View): Snapshot
  {
    Snapshot(i, v.frames, v.durations, v.cur)
  }

  /** `overwrite_state` followed by `display_frame`: the snapshot's lists and index replace the
      sequence's, the selection stays; an empty snapshot leaves the sequence reset. */
  function Restore(v: View, s: Snapshot): View
  {
    if s.frames == [] then Empty else View(s.frames, s.durations, s.cur, v.sel)
  }

  /** Push onto the undo stack, dropping the oldest entry once it holds more than `Cap`. */
  function Pushed(stack: seq<Snapshot>, s: Snapshot): (r: seq<Snapshot>)
    ensures |r| > 0 && r[|r| - 1] == s
    ensures |stack| < Cap ==> r == stack + [s]
    ensures |stack| >= Cap ==> r == stack[1..] + [s] && |r| == |stack|
  {
    var grown := stack + [s];
    if |grown| > Cap then grown[1..] else grown
  }

  /** `save_state(i)`: a snapshot of sequence i goes on the undo stack and the redo stack empties. */
  function SaveStep(w: Workspace, i: ViewIndex): Workspace
  {
    w.(undo := Pushed(w.undo, Capture(i, Get(w, i))), redo := [])
  }

  /** `undo`: the top snapshot is popped, the current state of its sequence goes on the redo
      stack and the snapshot is restored; with an empty undo stack nothing happens. */
  function UndoStep(w: Workspace): Workspace
  {
    if w.undo == [] then w
    else
      var s := w.undo[|w.undo| - 1];
      var v := Get(w, s.tag);
      Put(w.(undo := w.undo[..|w.undo| - 1], redo := w.redo + [Capture(s.tag, v)]), s.tag, Restore(v, s))
  }

  /** `redo`: the mirror image of `undo`; the undo stack it pushes onto is not capped. */
  function RedoStep(w: Workspace): Workspace
  {
    if w.redo == [] then w
    else
      var s := w.redo[|w.redo| - 1];
      var v := Get(w, s.tag);
      Put(w.(redo := w.redo[..|w.redo| - 1], undo := w.undo + [Capture(s.tag, v)]), s.tag, Restore(v, s))
  }

  /** `undo` as the editor performs it. The top snapshot is always popped, but when the sequence
      it names cannot be reached (its tag is not in `live`: the second sequence's widget is gone
      after a return to single mode, or the sequence has no durations list yet) resolving it
      raises, and the step ends with the snapshot lost. */
  function UndoIn(w: Workspace, live: set<ViewIndex>): Workspace
  {
    if w.undo != [] && w.undo[|w.undo| - 1].tag !in live then w.(undo := w.undo[..|w.undo| - 1])
    else UndoStep(w)
  }

  /** `redo` as the editor performs it, in the same sense. */
  function RedoIn(w: Workspace, live: set<ViewIndex>): Workspace
  {
    if w.redo != [] && w.redo[|w.redo| - 1].tag !in live then w.(redo := w.redo[..|w.redo| - 1])
    else RedoStep(w)
  }

  // ---------------------------------------------------------------- the history bound

  /** Together the two stacks never hold more than `Cap` snapshots. */
  predicate Bounded(w: Workspace)
  {
    |w.undo| + |w.redo| <= Cap
  }

  lemma SaveStepBounded(w: Workspace, i: ViewIndex)
    requires |w.undo| <= Cap
    ensures Bounded(SaveStep(w, i)) && SaveStep(w, i).redo == []
  {
  }

  /** A save on a full history forgets exactly the oldest snapshot. */
  lemma SaveStepDropsOldest(w: Workspace, i: ViewIndex)
    requires |w.undo| == Cap
    ensures SaveStep(w, i).undo == w.undo[1..] + [Capture(i, Get(w, i))]
  {
  }

  /** Undo and redo move one snapshot from one stack to the other, so the bound survives them:
      the undo stack cannot outgrow `Cap` even though `redo` pushes without the cap. */
  lemma StepsKeepBounded(w: Workspace)
    requires Bounded(w)
    ensures Bounded(UndoStep(w)) && Bounded(RedoStep(w))
    ensures |RedoStep(w).undo| <= Cap
    ensures w.undo != [] ==> |UndoStep(w).undo| == |w.undo| - 1 && |UndoStep(w).redo| == |w.redo| + 1
    ensures w.redo != [] ==> |RedoStep(w).redo| == |w.redo| - 1 && |RedoStep(w).undo| == |w.undo| + 1
  {
  }

  // ---------------------------------------------------------------- undo and redo are inverse

  /** A snapshot of an empty sequence is the snapshot of the reset state. */
  predicate CoherentSnapshot(s: Snapshot)
  {
    s.frames == [] ==> s.durations == [] && s.cur == 0
  }

  /** Both sequences settled and every stored snapshot coherent. */
  predicate Coherent(w: Workspace)
  {
    Settled(w.first) && Settled(w.second) &&
    (forall k :: 0 <= k < |w.undo| ==> CoherentSnapshot(w.undo[k])) &&
    (forall k :: 0 <= k < |w.redo| ==> CoherentSnapshot(w.redo[k]))
  }

  lemma CaptureCoherent(i: ViewIndex, v: View)
    requires Settled(v)
    ensures CoherentSnapshot(Capture(i, v))
  {
  }

  /** Restoring a coherent snapshot and capturing the result gives the snapshot back. */
  lemma CaptureRestore(v: View, s: Snapshot)
    requires CoherentSnapshot(s)
    ensures Capture(s.tag, Restore(v, s)) == s
    ensures Settled(Restore(v, s))
  {
  }

  /** Restoring what was captured from a settled sequence gives that sequence back, as long as
      the selection it had is still there (an empty intermediate state clears it). */
  lemma RestoreCapture(v: View, mid: View, i: ViewIndex)
    requires Settled(v)
    requires v.frames == [] || mid.sel == v.sel
    ensures Restore(mid, Capture(i, v)) == v
  {
  }

  /** Redo undoes an undo: both stacks, the other sequence, and the frames, durations and
      current index of the tagged sequence are as before; the whole workspace is, unless the
      restored snapshot was empty and the sequence had a selection, which the reset cleared. */
  lemma RedoAfterUndo(w: Workspace)
    requires Coherent(w) && w.undo != []
    ensures var r := RedoStep(UndoStep(w)); var s := w.undo[|w.undo| - 1];
            r.undo == w.undo && r.redo == w.redo && Get(r, 1 - s.tag) == Get(w, 1 - s.tag) &&
            Capture(s.tag, Get(r, s.tag)) == Capture(s.tag, Get(w, s.tag)) &&
            (s.frames != [] || Get(w, s.tag).sel == {} ==> r == w)
  {
    var s := w.undo[|w.undo| - 1];
    var v := Get(w, s.tag);
    var u := UndoStep(w);
    CaptureRestore(v, s);
    if v.frames == [] || Restore(v, s).sel == v.sel {
      RestoreCapture(v, Restore(v, s), s.tag);
    }
    assert u.redo[|u.redo| - 1] == Capture(s.tag, v);
    assert u.undo + [s] == w.undo;
    var r := RedoStep(u);
    assert Get(r, 1 - s.tag) == Get(w, 1 - s.tag);
  }

  /** Undo undoes a redo, in the same sense. */
  lemma UndoAfterRedo(w: Workspace)
    requires Coherent(w) && w.redo != []
    ensures var r := UndoStep(RedoStep(w)); var s := w.redo[|w.redo| - 1];
            r.undo == w.undo && r.redo == w.redo && Get(r, 1 - s.tag) == Get(w, 1 - s.tag) &&
            Capture(s.tag, Get(r, s.tag)) == Capture(s.tag, Get(w, s.tag)) &&
            (s.frames != [] || Get(w, s.tag).sel == {} ==> r == w)
  {
    var s := w.redo[|w.redo| - 1];
    var v := Get(w, s.tag);
    var u := RedoStep(w);
    CaptureRestore(v, s);
    if v.frames == [] || Restore(v, s).sel == v.sel {
      RestoreCapture(v, Restore(v, s), s.tag);
    }
    assert u.undo[|u.undo| - 1] == Capture(s.tag, v);
    assert u.redo + [s] == w.redo;
    var r := UndoStep(u);
    assert Get(r, 1 - s.tag) == Get(w, 1 - s.tag);
  }

  /** The steps keep the workspace coherent. */
  lemma StepsKeepCoherent(w: Workspace, i: ViewIndex)
    requires Coherent(w)
    ensures Coherent(SaveStep(w, i)) && Coherent(UndoStep(w)) && Coherent(RedoStep(w))
  {
    var sv := SaveStep(w, i);
    CaptureCoherent(i, Get(w, i));
    assert forall k :: 0 <= k < |sv.undo| ==> CoherentSnapshot(sv.undo[k]);
    if w.undo != [] {
      var s := w.undo[|w.undo| - 1];
      CaptureRestore(Get(w, s.tag), s);
      CaptureCoherent(s.tag, Get(w, s.tag));
      var u := UndoStep(w);
      assert forall k :: 0 <= k < |u.redo| ==> CoherentSnapshot(u.redo[k]);
    }
    if w.redo != [] {
      var s := w.redo[|w.redo| - 1];
      CaptureRestore(Get(w, s.tag), s);
      CaptureCoherent(s.tag, Get(w, s.tag));
      var r := RedoStep(w);
      assert forall k :: 0 <= k < |r.undo| ==> CoherentSnapshot(r.undo[k]);
    }
  }

  /** Save, edit, undo: the edited sequence gets back the frames, durations and current index it
      had at the save (keeping the selection the edit left), the edited state is what redo
      offers, and the undo stack is as before the save when it was not full. */
  lemma UndoRevertsEdit(w: Workspace, i: ViewIndex, edited: View)
    requires Settled(Get(w, i)) && |w.undo| < Cap
    ensures var before := Get(w, i);
            var r := UndoStep(Put(SaveStep(w, i), i, edited));
            r.undo == w.undo && r.redo == [Capture(i, edited)] &&
            Get(r, 1 - i) == Get(w, 1 - i) &&
            (before.frames == [] ==> Get(r, i) == Empty) &&
            (before.frames != [] ==> Get(r, i) == before.(sel := edited.sel))
  {
    var before := Get(w, i);
    var saved := SaveStep(w, i);
    assert saved.undo == w.undo + [Capture(i, before)];
    var e := Put(saved, i, edited);
    assert e.undo[|e.undo| - 1] == Capture(i, before);
    assert e.undo[..|e.undo| - 1] == w.undo;
  }

  /** With both sequences reachable the editor's steps are the plain ones. When the top snapshot's
      sequence cannot be reached, the step loses that snapshot: the two stacks hold one snapshot
      fewer, neither sequence changes, and the other stack does not receive it. */
  lemma StepsInDropUnreachable(w: Workspace, live: set<ViewIndex>)
    ensures live == {0, 1} ==> UndoIn(w, live) == UndoStep(w) && RedoIn(w, live) == RedoStep(w)
    ensures w.undo != [] && w.undo[|w.undo| - 1].tag !in live ==>
              var r := UndoIn(w, live);
              |r.undo| + |r.redo| == |w.undo| + |w.redo| - 1 && r.redo == w.redo &&
              r.first == w.first && r.second == w.second && r.undo + [w.undo[|w.undo| - 1]] == w.undo
    ensures w.redo != [] && w.redo[|w.redo| - 1].tag !in live ==>
              var r := RedoIn(w, live);
              |r.undo| + |r.redo| == |w.undo| + |w.redo| - 1 && r.undo == w.undo &&
              r.first == w.first && r.second == w.second && r.redo + [w.redo[|w.redo| - 1]] == w.redo
  {
    if live == {0, 1} {
      assert forall t: ViewIndex :: t in live;
    }
  }

  /** The editor's steps keep the history bound and the coherence of the workspace. */
  lemma StepsInKeepInvariants(w: Workspace, live: set<ViewIndex>)
    requires Bounded(w) && Coherent(w)
    ensures Bounded(UndoIn(w, live)) && Bounded(RedoIn(w, live))
    ensures Coherent(UndoIn(w, live)) && Coherent(RedoIn(w, live))
  {
    StepsKeepBounded(w);
    StepsKeepCoherent(w, 0);
    if w.undo != [] {
      var u := w.undo[..|w.undo| - 1];
      assert forall k :: 0 <= k < |u| ==> u[k] == w.undo[k];
    }
    if w.redo != [] {
      var d := w.redo[..|w.redo| - 1];
      assert forall k :: 0 <= k < |d| ==> d[k] == w.redo[k];
    }
  }
}
