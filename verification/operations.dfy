/** The edit records kept in the undo/redo history. */
module Operations {
  import opened Wrappers

  datatype OperationType = Insert | Delete | Replace

  /**
   * One edit. `text` is the inserted text for Insert, the removed text for
   * Delete and the new text for Replace; `oldText` is the replaced text of a
   * Replace.
   */
  datatype Operation = Operation(
    opType: OperationType,
    offset: nat,
    length: nat,
    text: string,
    oldText: Option<string>)

  /** `Operation::new`: any kind, never an old text. */
  function New(opType: OperationType, offset: nat, length: nat, text: string): (op: Operation)
    ensures op.opType == opType && op.offset == offset && op.length == length && op.text == text
    ensures op.oldText == None
  {
    Operation(opType, offset, length, text, None)
  }

  /** `Operation::new_replace`: `length` counts the replaced bytes, `text` is the new text. */
  function NewReplace(offset: nat, deleteLength: nat, oldText: string, newText: string): (op: Operation)
    ensures op.opType == Replace && op.offset == offset && op.length == deleteLength
    ensures op.text == newText && op.oldText == Some(oldText)
  {
    Operation(Replace, offset, deleteLength, newText, Some(oldText))
  }

  /** `Operation::insert`: the length is taken from the text. */
  function ForInsert(offset: nat, text: string): (op: Operation)
    ensures op.opType == Insert && op.offset == offset
    ensures op.length == |text| && op.text == text && op.oldText == None
  {
    New(Insert, offset, |text|, text)
  }

  /** `Operation::delete`: the length is taken from the removed text. */
  function ForDelete(offset: nat, deletedText: string): (op: Operation)
    ensures op.opType == Delete && op.offset == offset
    ensures op.length == |deletedText| && op.text == deletedText && op.oldText == None
  {
    New(Delete, offset, |deletedText|, deletedText)
  }

  /**
   * `op` is a faithful record of the edit that turned `before` into `after`:
   * the range it names lies inside `before`, the text it keeps for undo is
   * what was there, and `after` is `before` with that edit made.
   */
  predicate Describes(op: Operation, before: string, after: string) {
    var o := op.offset;
    match op.opType
    case Insert =>
      && o <= |before| && op.length == |op.text| && op.oldText.None?
      && after == before[..o] + op.text + before[o..]
    case Delete =>
      && o + op.length <= |before| && op.text == before[o..o + op.length]
      && after == before[..o] + before[o + op.length..]
    case Replace =>
      && o + op.length <= |before| && op.oldText == Some(before[o..o + op.length])
      && after == before[..o] + op.text + before[o + op.length..]
  }

  /** An operation and the text after it determine the text before it: undo is well defined. */
  lemma DescribesDeterminesBefore(op: Operation, b1: string, b2: string, after: string)
    requires Describes(op, b1, after) && Describes(op, b2, after)
    ensures b1 == b2
  {
    var o := op.offset;
    match op.opType
    case Insert =>
      SpliceInverse(b1, o, 0, op.text, after);
      SpliceInverse(b2, o, 0, op.text, after);
    case Delete =>
      SpliceInverse(b1, o, op.length, [], after);
      SpliceInverse(b2, o, op.length, [], after);
    case Replace =>
      SpliceInverse(b1, o, op.length, op.text, after);
      SpliceInverse(b2, o, op.length, op.text, after);
  }

  /** Replacing `b[o..o + n]` by `x` can be undone from the result and the removed part. */
  lemma SpliceInverse(b: string, o: nat, n: nat, x: string, after: string)
    requires o + n <= |b| && after == b[..o] + x + b[o + n..]
    ensures b == after[..o] + b[o..o + n] + after[o + |x|..]
  {
    assert after[..o] == b[..o];
    assert after[o + |x|..] == b[o + n..];
    assert b == b[..o] + b[o..o + n] + b[o + n..];
  }

  /** ForInsert records an insertion of `text` at `offset`. */
  lemma ForInsertDescribes(s: string, offset: nat, text: string)
    requires offset <= |s|
    ensures Describes(ForInsert(offset, text), s, s[..offset] + text + s[offset..])
  {
  }

  /** ForDelete of the removed bytes records the deletion of `s[offset..offset + n]`. */
  lemma ForDeleteDescribes(s: string, offset: nat, n: nat)
    requires offset + n <= |s|
    ensures Describes(ForDelete(offset, s[offset..offset + n]), s, s[..offset] + s[offset + n..])
  {
  }

  /** NewReplace with the replaced bytes records the replacement of `s[offset..offset + n]`. */
  lemma NewReplaceDescribes(s: string, offset: nat, n: nat, text: string)
    requires offset + n <= |s|
    ensures Describes(NewReplace(offset, n, s[offset..offset + n], text), s, s[..offset] + text + s[offset + n..])
  {
  }
}
