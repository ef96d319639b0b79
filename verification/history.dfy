/** The two-stack undo/redo history. */
module Histories {
  import opened Wrappers
  import opened Operations

  /** Most operations the undo stack keeps; the oldest is dropped beyond it. */
  const MAX_HISTORY_SIZE: nat := 1000

  /** The last element of each stack is its top. */
  datatype History = History(undoStack: seq<Operation>, redoStack: seq<Operation>)

  /** The bound every history reachable from New keeps. */
  predicate Bounded(h: History) {
    |h.undoStack| + |h.redoStack| <= MAX_HISTORY_SIZE
  }

  function New(): (h: History)
    ensures h.undoStack == [] && h.redoStack == []
  {
    History([], [])
  }

  /**
   * Records a new edit: the redo stack is emptied and `op` becomes the top of
   * the undo stack; when that overflows the bound, the oldest entry goes.
   */
  function Push(h: History, op: Operation): (r: History)
    ensures r.redoStack == []
    ensures |r.undoStack| > 0 && r.undoStack[|r.undoStack| - 1] == op
    ensures |h.undoStack| < MAX_HISTORY_SIZE ==> r.undoStack == h.undoStack + [op]
    ensures |h.undoStack| >= MAX_HISTORY_SIZE ==> r.undoStack == h.undoStack[1..] + [op]
    ensures |h.undoStack| <= MAX_HISTORY_SIZE ==> Bounded(r)
  {
    var pushed := h.undoStack + [op];
    if |pushed| > MAX_HISTORY_SIZE then History(pushed[1..], []) else History(pushed, [])
  }

  /** Pops the top of the undo stack onto the redo stack and returns it. */
  function Undo(h: History): (r: (History, Option<Operation>))
    ensures |h.undoStack| == 0 ==> r == (h, None)
    ensures |h.undoStack| > 0 ==>
      var n := |h.undoStack|;
      && r.1 == Some(h.undoStack[n - 1])
      && r.0.undoStack == h.undoStack[..n - 1]
      && r.0.redoStack == h.redoStack + [h.undoStack[n - 1]]
  {
    if |h.undoStack| == 0 then (h, None)
    else
      var op := h.undoStack[|h.undoStack| - 1];
      (History(h.undoStack[..|h.undoStack| - 1], h.redoStack + [op]), Some(op))
  }

  /** Pops the top of the redo stack back onto the undo stack and returns it. */
  function Redo(h: History): (r: (History, Option<Operation>))
    ensures |h.redoStack| == 0 ==> r == (h, None)
    ensures |h.redoStack| > 0 ==>
      var n := |h.redoStack|;
      && r.1 == Some(h.redoStack[n - 1])
      && r.0.redoStack == h.redoStack[..n - 1]
      && r.0.undoStack == h.undoStack + [h.redoStack[n - 1]]
  {
    if |h.redoStack| == 0 then (h, None)
    else
      var op := h.redoStack[|h.redoStack| - 1];
      (History(h.undoStack + [op], h.redoStack[..|h.redoStack| - 1]), Some(op))
  }

  function CanUndo(h: History): (b: bool)
    ensures b <==> Undo(h).1.Some?
  {
    |h.undoStack| != 0
  }

  function CanRedo(h: History): (b: bool)
    ensures b <==> Redo(h).1.Some?
  {
    |h.redoStack| != 0
  }

  function UndoCount(h: History): nat {
    |h.undoStack|
  }

  function RedoCount(h: History): nat {
    |h.redoStack|
  }

  function Clear(h: History): (r: History)
    ensures !CanUndo(r) && !CanRedo(r)
  {
    History([], [])
  }

  /** Undo then redo gives back both stacks and the same operation. */
  lemma UndoThenRedo(h: History)
    requires CanUndo(h)
    ensures Redo(Undo(h).0) == (h, Undo(h).1)
  {
    var n := |h.undoStack|;
    assert h.undoStack[..n - 1] + [h.undoStack[n - 1]] == h.undoStack;
  }

  /** Redo then undo gives back both stacks and the same operation. */
  lemma RedoThenUndo(h: History)
    requires CanRedo(h)
    ensures Undo(Redo(h).0) == (h, Redo(h).1)
  {
    var n := |h.redoStack|;
    assert h.redoStack[..n - 1] + [h.redoStack[n - 1]] == h.redoStack;
  }

  /** Undo and redo move entries between the stacks without losing or adding any. */
  lemma MovesPreserveTotal(h: History)
    ensures UndoCount(Undo(h).0) + RedoCount(Undo(h).0) == UndoCount(h) + RedoCount(h)
    ensures UndoCount(Redo(h).0) + RedoCount(Redo(h).0) == UndoCount(h) + RedoCount(h)
    ensures Bounded(h) ==> Bounded(Undo(h).0) && Bounded(Redo(h).0)
  {
  }
}
