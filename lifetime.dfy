/** Image objects behind a frame list, and `close()`. The frame lists of `main.py` hold Pillow
    image objects, and one list can hold the same object at several positions:
    `pendulum_frames` extends a list by its own reverse, and the broadcast of `handle_merge`
    repeats a single frame. A closed object raises `ValueError` when it is resampled or pasted.
    Here an object is a number, and two positions hold one object exactly when they hold the
    same number; `closed` is the set of objects already closed. */
module Lifetime {
  import opened Lists

  type Obj = int

  /** No object is closed, and none occurs at two positions. */
  predicate Fresh(objs: seq<Obj>, closed: set<Obj>)
  {
    (forall i :: 0 <= i < |objs| ==> objs[i] !in closed) &&
    (forall i, j :: 0 <= i < j < |objs| ==> objs[i] != objs[j])
  }

  /** How far the loops of `resize_frames` and of the padding in `handle_concat` get as written:
      each position's object is used and then closed, so the loop raises at the first position
      whose object is closed already. */
  function Reached(objs: seq<Obj>, closed: set<Obj>): (r: nat)
    ensures r <= |objs|
    decreases |objs|
  {
    if objs == [] || objs[0] in closed then 0 else 1 + Reached(objs[1..], closed + {objs[0]})
  }

  /** The loop gets through exactly the fresh prefix: it reaches the end if and only if the list
      is fresh, and otherwise stops at an object that is closed or met before. */
  lemma {:induction false} ReachedStops(objs: seq<Obj>, closed: set<Obj>)
    ensures Fresh(objs[..Reached(objs, closed)], closed)
    ensures Reached(objs, closed) < |objs| ==>
              objs[Reached(objs, closed)] in closed + Elems(objs[..Reached(objs, closed)])
    ensures Reached(objs, closed) == |objs| <==> Fresh(objs, closed)
    decreases |objs|
  {
    if objs == [] || objs[0] in closed {
      assert objs[..0] == [];
      return;
    }
    var rest := objs[1..];
    var c := closed + {objs[0]};
    ReachedStops(rest, c);
    var r := Reached(objs, closed);
    assert r == 1 + Reached(rest, c);
    assert objs[..r] == [objs[0]] + rest[..r - 1];
    assert Elems(objs[..r]) == {objs[0]} + Elems(rest[..r - 1]);
    if r == |objs| {
      assert Fresh(objs, closed) by {
        assert objs[..r] == objs;
      }
    } else {
      assert objs[r] == rest[r - 1];
      assert !Fresh(objs, closed) by {
        var x := objs[r];
        if x !in closed {
          var k :| 0 <= k < r && objs[..r][k] == x;
          assert objs[k] == objs[r];
        }
      }
    }
  }

  /** The as-written loop: each position's object is used (resampled or pasted) and then closed.
      `done` positions are replaced; `ok` is false when the next object was closed already, which
      raises `ValueError`. */
  method UseAndClose(objs: seq<Obj>, closed0: set<Obj>) returns (done: nat, closed: set<Obj>, ok: bool)
    ensures done == Reached(objs, closed0) && ok == (done == |objs|)
    ensures closed == closed0 + Elems(objs[..done])
  {
    done, closed := 0, closed0;
    while done < |objs|
      invariant 0 <= done <= |objs|
      invariant closed == closed0 + Elems(objs[..done])
      invariant Reached(objs, closed0) == done + Reached(objs[done..], closed)
      decreases |objs| - done
    {
      if objs[done] in closed {
        return done, closed, false;
      }
      assert objs[done..][1..] == objs[done + 1..];
      assert Elems(objs[..done + 1]) == Elems(objs[..done]) + {objs[done]} by {
        assert objs[..done + 1] == objs[..done] + [objs[done]];
      }
      closed := closed + {objs[done]};
      done := done + 1;
    }
    ok := true;
  }

  /** The loop with every object used first and all of them closed afterwards (closing an object
      twice is harmless): it raises only at an object closed before the call, so a list that
      holds one live object at several positions goes through. */
  method UseAllThenClose(objs: seq<Obj>, closed0: set<Obj>) returns (done: nat, closed: set<Obj>, ok: bool)
    ensures ok == (forall i :: 0 <= i < |objs| ==> objs[i] !in closed0)
    ensures ok ==> done == |objs| && closed == closed0 + Elems(objs)
    ensures !ok ==> done < |objs| && objs[done] in closed0 && closed == closed0
    ensures forall i :: 0 <= i < done ==> objs[i] !in closed0
  {
    done, closed := 0, closed0;
    while done < |objs| && objs[done] !in closed0
      invariant 0 <= done <= |objs|
      invariant forall i :: 0 <= i < done ==> objs[i] !in closed0
    {
      done := done + 1;
    }
    ok := done == |objs|;
    if ok {
      closed := closed0 + Elems(objs);
    }
  }

  /** As written, resizing a pendulum of distinct live objects resamples the original half and
      raises at the first position of the mirrored half, which holds the last object again. */
  lemma PendulumResizeRaises(objs: seq<Obj>)
    requires objs != [] && Fresh(objs, {})
    ensures Reached(objs + Reversed(objs), {}) == |objs| < |objs + Reversed(objs)|
  {
    var p := objs + Reversed(objs);
    var n := |objs|;
    ReachedAtLeast(p, {}, n);
    assert p[n] == objs[n - 1] && p[..n][n - 1] == objs[n - 1];
    ReachedAtMost(p, {}, n);
  }

  /** The loop gets at least through a fresh prefix. */
  lemma {:induction false} ReachedAtLeast(objs: seq<Obj>, closed: set<Obj>, k: nat)
    requires k <= |objs|
    requires forall i :: 0 <= i < k ==> objs[i] !in closed
    requires forall i, j :: 0 <= i < j < k ==> objs[i] != objs[j]
    ensures Reached(objs, closed) >= k
    decreases k
  {
    if k > 0 {
      var c := closed + {objs[0]};
      assert forall i :: 0 <= i < k - 1 ==> objs[1..][i] == objs[i + 1] && objs[0] != objs[i + 1];
      ReachedAtLeast(objs[1..], c, k - 1);
    }
  }

  /** The loop stops at the latest at a position whose object is closed or met before. */
  lemma {:induction false} ReachedAtMost(objs: seq<Obj>, closed: set<Obj>, k: nat)
    requires k < |objs| && objs[k] in closed + Elems(objs[..k])
    ensures Reached(objs, closed) <= k
    decreases k
  {
    if objs[0] !in closed {
      assert k > 0;
      assert objs[..k] == [objs[0]] + objs[1..][..k - 1];
      assert Elems(objs[..k]) == {objs[0]} + Elems(objs[1..][..k - 1]);
      ReachedAtMost(objs[1..], closed + {objs[0]}, k - 1);
    }
  }

  /** As written, resizing the broadcast of one live object over n >= 2 positions resamples
      position 0 and raises at position 1. */
  lemma BroadcastResizeRaises(a: Obj, n: nat)
    requires n >= 2
    ensures Reached(Repeat(a, n), {}) == 1
  {
    var xs := Repeat(a, n);
    assert xs[0] == a && xs[1..][0] == a;
    assert Reached(xs[1..], {a}) == 0;
  }
}
