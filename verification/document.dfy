/**
 * A document: a piece table for the text and an undo/redo history of the
 * edits made to it. Every edit is bounds-checked, recorded, and can be
 * undone and redone.
 */
module Documents {
  import opened Wrappers
  import opened TextLines
  import opened Operations
  import Histories
  import PieceTables

  datatype Document = Document(pt: PieceTables.PieceTable, history: Histories.History)

  // ---------------------------------------------------------------------
  // What the piece-table calls do to the text

  /** The text after the piece table's `insert(o, x)`: `x` placed at `o`, or at the end past it. */
  function InsertText(T: string, o: nat, x: string): (r: string)
    ensures |r| == |T| + |x|
  {
    var k := Min(o, |T|);
    T[..k] + x + T[k..]
  }

  /** The text after the piece table's `delete(o, n)`: the part of `o .. o + n` inside the text cut out. */
  function DeleteText(T: string, o: nat, n: nat): (r: string)
    ensures |r| <= |T|
  {
    T[..Min(o, |T|)] + T[Min(o + n, |T|)..]
  }

  /** The text after `apply_operation(op)` on `T`, the call redo makes. */
  function Redone(op: Operation, T: string): string {
    match op.opType
    case Insert => InsertText(T, op.offset, op.text)
    case Delete => DeleteText(T, op.offset, op.length)
    case Replace =>
      var removed := if op.oldText.Some? then |op.oldText.value| else 0;
      InsertText(DeleteText(T, op.offset, removed), op.offset, op.text)
  }

  /** The text after `apply_inverse_operation(op)` on `T`, the call undo makes. */
  function Undone(op: Operation, T: string): string {
    match op.opType
    case Insert => DeleteText(T, op.offset, op.length)
    case Delete => InsertText(T, op.offset, op.text)
    case Replace =>
      var cut := DeleteText(T, op.offset, |op.text|);
      if op.oldText.Some? then InsertText(cut, op.offset, op.oldText.value) else cut
  }

  /** Cutting `x` back out of `T[..o] + x + T[o..]` gives `T`. */
  lemma CutInserted(T: string, o: nat, x: string)
    requires o <= |T|
    ensures DeleteText(T[..o] + x + T[o..], o, |x|) == T
  {
    var A := T[..o] + x + T[o..];
    assert A[..o] == T[..o];
    assert A[o + |x|..] == T[o..];
  }

  /** Putting `T[o..o + n]` back into `T[..o] + T[o + n..]` gives `T`. */
  lemma InsertCut(T: string, o: nat, n: nat)
    requires o + n <= |T|
    ensures InsertText(T[..o] + T[o + n..], o, T[o..o + n]) == T
  {
    var D := T[..o] + T[o + n..];
    assert D[..o] == T[..o];
    assert D[o..] == T[o + n..];
  }

  /** Cutting `T[o..o + n]` and then inserting `x` at `o` puts `x` in its place. */
  lemma CutThenInsert(T: string, o: nat, n: nat, x: string)
    requires o + n <= |T|
    ensures DeleteText(T, o, n) == T[..o] + T[o + n..]
    ensures InsertText(DeleteText(T, o, n), o, x) == T[..o] + x + T[o + n..]
  {
    var D := T[..o] + T[o + n..];
    assert D[..o] == T[..o];
    assert D[o..] == T[o + n..];
  }

  /** Redoing an operation recorded from `before` to `after` turns `before` into `after`. */
  lemma RedoneDescribed(op: Operation, before: string, after: string)
    requires Describes(op, before, after)
    ensures Redone(op, before) == after
  {
    var o := op.offset;
    match op.opType
    case Insert =>
    case Delete =>
    case Replace =>
      CutThenInsert(before, o, op.length, op.text);
  }

  /** Undoing an operation recorded from `before` to `after` turns `after` back into `before`. */
  lemma UndoneDescribed(op: Operation, before: string, after: string)
    requires Describes(op, before, after)
    ensures Undone(op, after) == before
  {
    var o := op.offset;
    match op.opType
    case Insert =>
      CutInserted(before, o, op.text);
    case Delete =>
      InsertCut(before, o, op.length);
    case Replace =>
      CutInserted(before[..o] + before[o + op.length..], o, op.text);
      assert (before[..o] + before[o + op.length..])[..o] + op.text + (before[..o] + before[o + op.length..])[o..] == after by {
        CutThenInsert(before, o, op.length, op.text);
      }
      InsertCut(before, o, op.length);
  }

  // ---------------------------------------------------------------------
  // The history as a record of the text's past and future

  /**
   * Read from the top down, every operation on the undo stack records the
   * edit that produced the text it sits on: undoing them one by one walks
   * back through the texts the document had.
   */
  predicate UndoChain(ops: seq<Operation>, T: string)
    decreases |ops|
  {
    |ops| == 0 ||
      var op := ops[|ops| - 1];
      Describes(op, Undone(op, T), T) && UndoChain(ops[..|ops| - 1], Undone(op, T))
  }

  /**
   * Read from the top down, every operation on the redo stack records an
   * edit that starts from the text it sits on: redoing them one by one walks
   * forward through the texts that were undone.
   */
  predicate RedoChain(ops: seq<Operation>, T: string)
    decreases |ops|
  {
    |ops| == 0 ||
      var op := ops[|ops| - 1];
      Describes(op, T, Redone(op, T)) && RedoChain(ops[..|ops| - 1], Redone(op, T))
  }

  /** The invariant every document keeps. */
  predicate Inv(d: Document) {
    && PieceTables.Valid(d.pt)
    && Histories.Bounded(d.history)
    && UndoChain(d.history.undoStack, PieceTables.Text(d.pt))
    && RedoChain(d.history.redoStack, PieceTables.Text(d.pt))
  }

  /** The document text. */
  function Text(d: Document): string
    requires PieceTables.Valid(d.pt)
  {
    PieceTables.Text(d.pt)
  }

  /** Forgetting the oldest entries of an undo chain leaves a chain. */
  lemma {:induction false} UndoChainDropOldest(ops: seq<Operation>, T: string)
    requires |ops| > 0 && UndoChain(ops, T)
    ensures UndoChain(ops[1..], T)
  {
    var n := |ops|;
    if n > 1 {
      var op := ops[n - 1];
      UndoChainDropOldest(ops[..n - 1], Undone(op, T));
      assert ops[..n - 1][1..] == ops[1..][..n - 2];
    }
  }

  /** Recording an edit from `T` to `T'` keeps the history a record of the text. */
  lemma PushKeeps(h: Histories.History, op: Operation, T: string, T': string)
    requires Histories.Bounded(h) && UndoChain(h.undoStack, T) && Describes(op, T, T')
    ensures Histories.Bounded(Histories.Push(h, op))
    ensures UndoChain(Histories.Push(h, op).undoStack, T')
    ensures RedoChain(Histories.Push(h, op).redoStack, T')
  {
    UndoneDescribed(op, T, T');
    var pushed := h.undoStack + [op];
    assert pushed[..|pushed| - 1] == h.undoStack;
    assert UndoChain(pushed, T');
    if |pushed| > Histories.MAX_HISTORY_SIZE {
      UndoChainDropOldest(pushed, T');
    }
  }

  /** Undo moves the top operation to the redo stack and the text back by it; both chains stay. */
  lemma UndoKeeps(h: Histories.History, T: string)
    requires Histories.Bounded(h) && UndoChain(h.undoStack, T) && RedoChain(h.redoStack, T)
    requires |h.undoStack| > 0
    ensures var op := h.undoStack[|h.undoStack| - 1]; var h' := Histories.Undo(h).0;
      && Describes(op, Undone(op, T), T)
      && Histories.Bounded(h')
      && UndoChain(h'.undoStack, Undone(op, T))
      && RedoChain(h'.redoStack, Undone(op, T))
  {
    var op := h.undoStack[|h.undoStack| - 1];
    var h' := Histories.Undo(h).0;
    Histories.MovesPreserveTotal(h);
    RedoneDescribed(op, Undone(op, T), T);
    assert h'.redoStack[..|h'.redoStack| - 1] == h.redoStack;
  }

  /** Redo moves the top operation back to the undo stack and the text forward by it; both chains stay. */
  lemma RedoKeeps(h: Histories.History, T: string)
    requires Histories.Bounded(h) && UndoChain(h.undoStack, T) && RedoChain(h.redoStack, T)
    requires |h.redoStack| > 0
    ensures var op := h.redoStack[|h.redoStack| - 1]; var h' := Histories.Redo(h).0;
      && Describes(op, T, Redone(op, T))
      && Histories.Bounded(h')
      && UndoChain(h'.undoStack, Redone(op, T))
      && RedoChain(h'.redoStack, Redone(op, T))
  {
    var op := h.redoStack[|h.redoStack| - 1];
    var h' := Histories.Redo(h).0;
    Histories.MovesPreserveTotal(h);
    UndoneDescribed(op, T, Redone(op, T));
    assert h'.undoStack[..|h'.undoStack| - 1] == h.undoStack;
  }

  // ---------------------------------------------------------------------
  // Operations

  /** `Document::new`: the initial content (empty when absent) and an empty history. */
  method New(initialContent: Option<string>) returns (d: Document)
    ensures Inv(d) && Text(d) == UnwrapOr(initialContent, [])
    ensures d.history.undoStack == [] && d.history.redoStack == []
  {
    var pt := PieceTables.New(UnwrapOr(initialContent, []));
    d := Document(pt, Histories.New());
  }

  /**
   * `insert`: false and nothing changed when `offset` is past the end;
   * otherwise `text` is placed at `offset` and the insertion recorded.
   */
  method Insert(d: Document, offset: nat, text: string) returns (d': Document, ok: bool)
    requires Inv(d)
    ensures Inv(d')
    ensures ok <==> offset <= |Text(d)|
    ensures !ok ==> d' == d
    ensures ok ==> var T := Text(d);
      && Text(d') == T[..offset] + text + T[offset..]
      && d'.history == Histories.Push(d.history, ForInsert(offset, text))
  {
    if offset > d.pt.totalLength {
      return d, false;
    }
    ghost var T := Text(d);
    var operation := Operations.New(Operations.Insert, offset, |text|, text);
    var pt := PieceTables.Insert(d.pt, offset, text);
    ForInsertDescribes(T, offset, text);
    PushKeeps(d.history, operation, T, PieceTables.Text(pt));
    d' := Document(pt, Histories.Push(d.history, operation));
    ok := true;
  }

  /**
   * `delete`: false and nothing changed when the range runs past the end;
   * otherwise the range is cut out and the deletion, with the removed
   * text, recorded.
   */
  method Delete(d: Document, offset: nat, length: nat) returns (d': Document, ok: bool)
    requires Inv(d)
    ensures Inv(d')
    ensures ok <==> offset + length <= |Text(d)|
    ensures !ok ==> d' == d
    ensures ok ==> var T := Text(d);
      && Text(d') == T[..offset] + T[offset + length..]
      && d'.history == Histories.Push(d.history, ForDelete(offset, T[offset..offset + length]))
  {
    if offset + length > d.pt.totalLength {
      return d, false;
    }
    ghost var T := Text(d);
    var deletedText := PieceTables.GetTextRange(d.pt, offset, length);
    assert deletedText == T[offset..offset + length];
    var operation := Operations.New(Operations.Delete, offset, length, deletedText);
    var pt := DeleteOn(d.pt, offset, length);
    CutThenInsert(T, offset, length, []);
    assert PieceTables.Text(pt) == T[..offset] + T[offset + length..];
    ForDeleteDescribes(T, offset, length);
    PushKeeps(d.history, operation, T, PieceTables.Text(pt));
    d' := Document(pt, Histories.Push(d.history, operation));
    ok := true;
  }

  /**
   * `replace`: false and nothing changed when the range runs past the end;
   * otherwise the range is replaced by `text` and one Replace operation,
   * with the replaced text, recorded.
   */
  method Replace(d: Document, offset: nat, length: nat, text: string) returns (d': Document, ok: bool)
    requires Inv(d)
    ensures Inv(d')
    ensures ok <==> offset + length <= |Text(d)|
    ensures !ok ==> d' == d
    ensures ok ==> var T := Text(d);
      && Text(d') == T[..offset] + text + T[offset + length..]
      && d'.history == Histories.Push(d.history, NewReplace(offset, length, T[offset..offset + length], text))
  {
    if offset + length > d.pt.totalLength {
      return d, false;
    }
    ghost var T := Text(d);
    var deletedText := PieceTables.GetTextRange(d.pt, offset, length);
    assert deletedText == T[offset..offset + length];
    var operation := NewReplace(offset, length, deletedText, text);
    var cut := DeleteOn(d.pt, offset, length);
    var pt := InsertOn(cut, offset, text);
    CutThenInsert(T, offset, length, text);
    NewReplaceDescribes(T, offset, length, text);
    PushKeeps(d.history, operation, T, PieceTables.Text(pt));
    d' := Document(pt, Histories.Push(d.history, operation));
    ok := true;
  }

  /**
   * `undo`: false and nothing changed with nothing to undo; otherwise the
   * last edit is undone, which gives back the text it was made on, and it
   * moves to the redo stack.
   */
  method Undo(d: Document) returns (d': Document, ok: bool)
    requires Inv(d)
    ensures Inv(d')
    ensures ok <==> Histories.CanUndo(d.history)
    ensures !ok ==> d' == d
    ensures ok ==> var op := d.history.undoStack[|d.history.undoStack| - 1];
      && d'.history == Histories.Undo(d.history).0
      && Describes(op, Text(d'), Text(d))
  {
    var (history, operation) := Histories.Undo(d.history);
    if operation.None? {
      return d, false;
    }
    ghost var T := Text(d);
    UndoKeeps(d.history, T);
    var pt := ApplyInverseOperation(d.pt, operation.value);
    d' := Document(pt, history);
    ok := true;
  }

  /**
   * `redo`: false and nothing changed with nothing to redo; otherwise the
   * last undone edit is made again, which gives back the text it produced,
   * and it moves to the undo stack.
   */
  method Redo(d: Document) returns (d': Document, ok: bool)
    requires Inv(d)
    ensures Inv(d')
    ensures ok <==> Histories.CanRedo(d.history)
    ensures !ok ==> d' == d
    ensures ok ==> var op := d.history.redoStack[|d.history.redoStack| - 1];
      && d'.history == Histories.Redo(d.history).0
      && Describes(op, Text(d), Text(d'))
  {
    var (history, operation) := Histories.Redo(d.history);
    if operation.None? {
      return d, false;
    }
    ghost var T := Text(d);
    RedoKeeps(d.history, T);
    var pt := ApplyOperation(d.pt, operation.value);
    d' := Document(pt, history);
    ok := true;
  }

  /** `clear_history`: both stacks emptied, the text untouched. */
  function ClearHistory(d: Document): (d': Document)
    requires Inv(d)
    ensures Inv(d') && d'.pt == d.pt
    ensures !Histories.CanUndo(d'.history) && !Histories.CanRedo(d'.history)
  {
    Document(d.pt, Histories.Clear(d.history))
  }

  /** `get_text_range`: the slice when the range fits in the text, None otherwise. */
  method GetTextRange(d: Document, offset: nat, length: nat) returns (r: Option<string>)
    requires Inv(d)
    ensures r.Some? <==> offset + length <= |Text(d)|
    ensures r.Some? ==> r.value == Text(d)[offset..offset + length]
  {
    if offset + length > d.pt.totalLength {
      return None;
    }
    var s := PieceTables.GetTextRange(d.pt, offset, length);
    return Some(s);
  }

  /** `apply_operation`: make the recorded edit on the table. */
  method ApplyOperation(pt: PieceTables.PieceTable, op: Operation) returns (pt': PieceTables.PieceTable)
    requires PieceTables.Valid(pt)
    ensures PieceTables.Valid(pt') && PieceTables.Text(pt') == Redone(op, PieceTables.Text(pt))
  {
    ghost var T := PieceTables.Text(pt);
    match op.opType
    case Insert =>
      pt' := InsertOn(pt, op.offset, op.text);
      assert Redone(op, T) == InsertText(T, op.offset, op.text);
    case Delete =>
      pt' := DeleteOn(pt, op.offset, op.length);
      assert Redone(op, T) == DeleteText(T, op.offset, op.length);
    case Replace =>
      var removed := if op.oldText.Some? then |op.oldText.value| else 0;
      var cut := DeleteOn(pt, op.offset, removed);
      pt' := InsertOn(cut, op.offset, op.text);
      assert Redone(op, T) == InsertText(DeleteText(T, op.offset, removed), op.offset, op.text);
  }

  /** `apply_inverse_operation`: take the recorded edit back on the table. */
  method ApplyInverseOperation(pt: PieceTables.PieceTable, op: Operation) returns (pt': PieceTables.PieceTable)
    requires PieceTables.Valid(pt)
    ensures PieceTables.Valid(pt') && PieceTables.Text(pt') == Undone(op, PieceTables.Text(pt))
  {
    ghost var T := PieceTables.Text(pt);
    match op.opType
    case Insert =>
      pt' := DeleteOn(pt, op.offset, op.length);
      assert Undone(op, T) == DeleteText(T, op.offset, op.length);
    case Delete =>
      pt' := InsertOn(pt, op.offset, op.text);
      assert Undone(op, T) == InsertText(T, op.offset, op.text);
    case Replace =>
      pt' := UndoReplace(pt, op);
  }

  /** The Replace case of `apply_inverse_operation`: cut the new text, put the old one back. */
  method UndoReplace(pt: PieceTables.PieceTable, op: Operation) returns (pt': PieceTables.PieceTable)
    requires PieceTables.Valid(pt) && op.opType == Operations.Replace
    ensures PieceTables.Valid(pt') && PieceTables.Text(pt') == Undone(op, PieceTables.Text(pt))
  {
    ghost var T := PieceTables.Text(pt);
    pt' := DeleteOn(pt, op.offset, |op.text|);
    ghost var cut := DeleteText(T, op.offset, |op.text|);
    if op.oldText.Some? {
      pt' := InsertOn(pt', op.offset, op.oldText.value);
      assert Undone(op, T) == InsertText(cut, op.offset, op.oldText.value);
    } else {
      assert Undone(op, T) == cut;
    }
  }

  /** The piece table's `insert`, seen as InsertText on the text. */
  method InsertOn(pt: PieceTables.PieceTable, offset: nat, text: string) returns (pt': PieceTables.PieceTable)
    requires PieceTables.Valid(pt)
    ensures PieceTables.Valid(pt') && PieceTables.Text(pt') == InsertText(PieceTables.Text(pt), offset, text)
  {
    pt' := PieceTables.Insert(pt, offset, text);
  }

  /** The piece table's `delete`, seen as DeleteText on the text. */
  method DeleteOn(pt: PieceTables.PieceTable, offset: nat, length: nat) returns (pt': PieceTables.PieceTable)
    requires PieceTables.Valid(pt)
    ensures PieceTables.Valid(pt') && PieceTables.Text(pt') == DeleteText(PieceTables.Text(pt), offset, length)
  {
    pt' := PieceTables.Delete(pt, offset, length);
  }

  // ---------------------------------------------------------------------
  // Undo and redo after an edit

  /** An edit a caller can ask of a document. */
  datatype Edit =
    | InsertEdit(offset: nat, text: string)
    | DeleteEdit(offset: nat, length: nat)
    | ReplaceEdit(offset: nat, length: nat, text: string)

  method ApplyEdit(d: Document, e: Edit) returns (d': Document, ok: bool)
    requires Inv(d)
    ensures Inv(d')
    ensures !ok ==> d' == d
    ensures ok ==> |d'.history.undoStack| > 0
    ensures ok ==> Describes(d'.history.undoStack[|d'.history.undoStack| - 1], Text(d), Text(d'))
    ensures ok ==> d'.history.redoStack == []
  {
    match e
    case InsertEdit(o, x) =>
      d', ok := Insert(d, o, x);
      if ok {
        ForInsertDescribes(Text(d), o, x);
      }
    case DeleteEdit(o, n) =>
      d', ok := Delete(d, o, n);
      if ok {
        ForDeleteDescribes(Text(d), o, n);
      }
    case ReplaceEdit(o, n, x) =>
      d', ok := Replace(d, o, n, x);
      if ok {
        NewReplaceDescribes(Text(d), o, n, x);
      }
  }

  /**
   * After a successful edit, undo succeeds and gives back the exact text
   * before the edit, and redo then succeeds and gives back the exact text
   * after it.
   */
  method EditUndoRedo(d: Document, e: Edit)
    returns (edited: Document, ok: bool, undone: Document, undoOk: bool, redone: Document, redoOk: bool)
    requires Inv(d)
    ensures Inv(edited) && Inv(undone) && Inv(redone)
    ensures !ok ==> edited == d
    ensures ok ==> undoOk && Text(undone) == Text(d)
    ensures ok ==> redoOk && Text(redone) == Text(edited)
  {
    edited, ok := ApplyEdit(d, e);
    undone, undoOk, redone, redoOk := edited, false, edited, false;
    if ok {
      undone, undoOk := Undo(edited);
      ghost var op := edited.history.undoStack[|edited.history.undoStack| - 1];
      DescribesDeterminesBefore(op, Text(undone), Text(d), Text(edited));
      redone, redoOk := Redo(undone);
      assert undone.history.redoStack[|undone.history.redoStack| - 1] == op;
      RedoneDescribed(op, Text(undone), Text(redone));
      RedoneDescribed(op, Text(undone), Text(edited));
    }
  }
}
