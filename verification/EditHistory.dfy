/** The undo and redo stacks of the filename editor (patcher/dialogs/native_ui.cpp). */
module EditHistory {
  import opened Bytes

  const DEPTH: nat := 32

  datatype Snapshot = Snapshot(bytes: seq<Byte>, anchor: nat, cursor: nat)

  datatype History = History(current: Snapshot, undo: seq<Snapshot>, redo: seq<Snapshot>)

  /** The last states, as many as are kept. */
  function Kept(states: seq<Snapshot>): seq<Snapshot> {
    if |states| > DEPTH then states[|states| - DEPTH..] else states
  }

  /** A remembered edit: the state before it can be restored, and nothing can be redone. */
  function Edited(h: History, next: Snapshot): History {
    History(next, Kept(h.undo + [h.current]), [])
  }

  function Undone(h: History): History {
    if h.undo == [] then h
    else History(h.undo[|h.undo| - 1], h.undo[..|h.undo| - 1], h.redo + [h.current])
  }

  function Redone(h: History): History {
    if h.redo == [] then h
    else History(h.redo[|h.redo| - 1], h.undo + [h.current], h.redo[..|h.redo| - 1])
  }

  function UndoneTimes(h: History, j: nat): History {
    if j == 0 then h else Undone(UndoneTimes(h, j - 1))
  }

  function RedoneTimes(h: History, j: nat): History {
    if j == 0 then h else Redone(RedoneTimes(h, j - 1))
  }

  function EditedBy(h: History, edits: seq<Snapshot>): History {
    if edits == [] then h else Edited(EditedBy(h, edits[..|edits| - 1]), edits[|edits| - 1])
  }

  predicate WithinDepth(h: History) {
    |h.undo| + |h.redo| <= DEPTH
  }

  /** No operation keeps more states than the depth, both stacks together. */
  lemma DepthIsKept(h: History, next: Snapshot)
    requires WithinDepth(h)
    ensures WithinDepth(Edited(h, next)) && WithinDepth(Undone(h)) && WithinDepth(Redone(h))
  {
  }

  /** Undoing right after an edit restores the bytes, the anchor and the cursor. */
  lemma UndoRevertsEdit(h: History, next: Snapshot)
    ensures Undone(Edited(h, next)).current == h.current
    ensures Undone(Edited(h, next)).redo == [next]
  {
  }

  lemma UndoThenRedo(h: History)
    ensures h.undo != [] ==> Redone(Undone(h)) == h
    ensures h.redo != [] ==> Undone(Redone(h)) == h
  {
    if h.undo != [] {
      assert h.undo[..|h.undo| - 1] + [h.undo[|h.undo| - 1]] == h.undo;
    }
    if h.redo != [] {
      assert h.redo[..|h.redo| - 1] + [h.redo[|h.redo| - 1]] == h.redo;
    }
  }

  lemma {:induction false} StackSizes(h: History, j: nat)
    ensures |UndoneTimes(h, j).undo| == (if j <= |h.undo| then |h.undo| - j else 0)
    ensures |UndoneTimes(h, j).redo| == |h.redo| + (if j <= |h.undo| then j else |h.undo|)
  {
    if j > 0 {
      StackSizes(h, j - 1);
    }
  }

  lemma {:induction false} RedoSizes(h: History, j: nat)
    ensures |RedoneTimes(h, j).redo| == (if j <= |h.redo| then |h.redo| - j else 0)
  {
    if j > 0 {
      RedoSizes(h, j - 1);
    }
  }

  lemma {:induction false} RedoFirst(h: History, j: nat)
    requires j > 0
    ensures RedoneTimes(h, j) == RedoneTimes(Redone(h), j - 1)
  {
    if j > 1 {
      RedoFirst(h, j - 1);
    }
  }

  lemma {:induction false} RoundTrip(h: History, j: nat)
    requires j <= |h.undo|
    ensures RedoneTimes(UndoneTimes(h, j), j) == h
  {
    hide Undone, Redone;
    if j > 0 {
      var before := UndoneTimes(h, j - 1);
      StackSizes(h, j - 1);
      RedoFirst(Undone(before), j);
      UndoThenRedo(before);
      RoundTrip(h, j - 1);
    }
  }

  lemma {:induction false} NothingLeft(h: History, j: nat)
    ensures h.redo == [] ==> RedoneTimes(h, j) == h
    ensures j >= |h.undo| ==> UndoneTimes(h, j) == UndoneTimes(h, |h.undo|)
  {
    StackSizes(h, |h.undo|);
    if j > 0 {
      NothingLeft(h, j - 1);
    }
  }

  lemma {:induction false} MoreRedos(h: History, j: nat, i: nat)
    ensures RedoneTimes(h, i + j) == RedoneTimes(RedoneTimes(h, i), j)
  {
    if j > 0 {
      MoreRedos(h, j - 1, i);
    }
  }

  /** Any number of undos and as many redos lead back exactly where there was something to
      undo each time, or nothing to redo at first. */
  lemma UndosThenRedos(h: History, j: nat)
    ensures RedoneTimes(UndoneTimes(h, j), j) == h <==> j <= |h.undo| || h.redo == []
  {
    var n := |h.undo|;
    if j <= n {
      RoundTrip(h, j);
    } else {
      NothingLeft(h, j);
      RoundTrip(h, n);
      MoreRedos(UndoneTimes(h, n), j - n, n);
      if h.redo == [] {
        NothingLeft(h, j - n);
      } else {
        RedoSizes(h, j - n);
      }
    }
  }

  lemma KeptTop(states: seq<Snapshot>, state: Snapshot, k: nat)
    requires k < DEPTH && k <= |states|
    ensures var kept := Kept(states + [state]);
            && k < |kept| <= DEPTH && kept[|kept| - 1 - k] == if k == 0 then state else states[|states| - k]
  {
  }

  /** What lies k states below the top of the undo stack after some edits. */
  lemma {:induction false} EditedTop(h: History, edits: seq<Snapshot>, k: nat)
    requires k < |edits| && k < 32
    ensures var undo := EditedBy(h, edits).undo;
            k < |undo| && undo[|undo| - 1 - k] == EditedBy(h, edits[..|edits| - 1 - k]).current
  {
    hide Kept;
    var n := |edits| - 1;
    var before := EditedBy(h, edits[..n]);
    if k > 0 {
      EditedTop(h, edits[..n], k - 1);
      assert edits[..n][..n - k] == edits[..n - k];
    }
    KeptTop(before.undo, before.current, k);
  }

  lemma {:induction false} UndoWalks(h: History, j: nat)
    requires j <= |h.undo|
    ensures UndoneTimes(h, j).undo == h.undo[..|h.undo| - j]
    ensures j > 0 ==> UndoneTimes(h, j).current == h.undo[|h.undo| - j]
  {
    if j > 0 {
      UndoWalks(h, j - 1);
    }
  }

  /** After any edits in a row, j undos restore the state before the last j of them, as far as
      the depth reaches. */
  lemma UndosRevertEdits(h: History, edits: seq<Snapshot>, j: nat)
    requires j <= |edits| && j <= 32
    ensures UndoneTimes(EditedBy(h, edits), j).current == EditedBy(h, edits[..|edits| - j]).current
  {
    hide EditedBy;
    if j == 0 {
      assert edits[..|edits|] == edits;
    } else {
      EditedTop(h, edits, j - 1);
      UndoWalks(EditedBy(h, edits), j);
    }
  }
}
