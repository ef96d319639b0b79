/**
 * The piece table behind a document: an immutable `original` buffer, an
 * append-only `addBuffer`, and a list of pieces each naming a slice of one
 * of them. The document text is the concatenation of those slices
 * (`Text`); every operation is specified against that text.
 */
module PieceTables {
  import opened Wrappers
  import opened TextLines
  import Positions

  datatype BufferType = Original | Add

  /** A slice `start .. start + length` of one buffer, with the offsets of its line starts. */
  datatype Piece = Piece(buffer: BufferType, start: nat, length: nat, lineStarts: seq<nat>)

  datatype PieceTable = PieceTable(
    original: string,
    addBuffer: string,
    pieces: seq<Piece>,
    totalLength: nat,
    lineCount: nat)

  /** `Piece::line_count`: the number of line breaks in the piece. */
  function PieceLineCount(p: Piece): nat {
    |p.lineStarts|
  }

  function Buffer(t: PieceTable, b: BufferType): string {
    match b
    case Original => t.original
    case Add => t.addBuffer
  }

  predicate InBounds(t: PieceTable, p: Piece) {
    p.start + p.length <= |Buffer(t, p.buffer)|
  }

  function PieceText(t: PieceTable, p: Piece): (s: string)
    requires InBounds(t, p)
    ensures |s| == p.length
  {
    Buffer(t, p.buffer)[p.start..p.start + p.length]
  }

  /**
   * LineStartsOf under a second name. Only IsLineStartsOf mentions it, so a
   * proof that never compares a piece's cache with its text does not make
   * the verifier expand LineStartsOf for every piece in sight.
   */
  function CachedLineStarts(s: string): seq<nat> {
    LineStartsOf(s)
  }

  /**
   * `ls` is the line-start list of `text` (IsLineStartsOfMeans says exactly
   * that). It is written as a quantifier over CachedLineStarts so that the
   * verifier uses the fact only where a proof mentions CachedLineStarts,
   * which keeps proofs about long piece lists small.
   */
  predicate IsLineStartsOf(text: string, ls: seq<nat>) {
    forall s {:trigger CachedLineStarts(s)} :: s == text ==> ls == CachedLineStarts(s)
  }

  lemma IsLineStartsOfMeans(text: string, ls: seq<nat>)
    ensures IsLineStartsOf(text, ls) <==> ls == LineStartsOf(text)
  {
    assert CachedLineStarts(text) == LineStartsOf(text);
  }

  /** A piece is non-empty, lies inside its buffer, and caches the line starts of its text. */
  predicate GoodPiece(t: PieceTable, p: Piece) {
    InBounds(t, p) && p.length > 0 && IsLineStartsOf(PieceText(t, p), p.lineStarts)
  }

  predicate AllInBounds(t: PieceTable, ps: seq<Piece>) {
    |ps| == 0 || (InBounds(t, ps[0]) && AllInBounds(t, ps[1..]))
  }

  predicate AllGood(t: PieceTable, ps: seq<Piece>)
    ensures AllGood(t, ps) ==> AllInBounds(t, ps)
  {
    |ps| == 0 || (GoodPiece(t, ps[0]) && AllGood(t, ps[1..]))
  }

  /** The text a list of pieces stands for: their slices, in order. */
  function PiecesText(t: PieceTable, ps: seq<Piece>): string
    requires AllInBounds(t, ps)
  {
    if |ps| == 0 then [] else PieceText(t, ps[0]) + PiecesText(t, ps[1..])
  }

  /** The document text: the text of the table's pieces. */
  function Text(t: PieceTable): string
    requires AllInBounds(t, t.pieces)
  {
    PiecesText(t, t.pieces)
  }

  /**
   * The invariant every operation keeps: good pieces, the cached length
   * equal to the text's length, and the cached line count one more than the
   * number of '\n' in the text.
   */
  predicate Valid(t: PieceTable) {
    && AllGood(t, t.pieces)
    && t.totalLength == |Text(t)|
    && t.lineCount == CountNl(Text(t)) + 1
  }

  function SumLengths(ps: seq<Piece>): nat {
    if |ps| == 0 then 0 else ps[0].length + SumLengths(ps[1..])
  }

  // ---------------------------------------------------------------------
  // Facts about piece lists

  lemma {:induction false} InBoundsConcat(t: PieceTable, a: seq<Piece>, b: seq<Piece>)
    ensures AllInBounds(t, a + b) <==> AllInBounds(t, a) && AllInBounds(t, b)
  {
    if |a| > 0 {
      assert (a + b)[1..] == a[1..] + b;
      assert (a + b)[0] == a[0];
      InBoundsConcat(t, a[1..], b);
    } else {
      assert a + b == b;
    }
  }

  lemma {:induction false} GoodConcat(t: PieceTable, a: seq<Piece>, b: seq<Piece>)
    ensures AllGood(t, a + b) <==> AllGood(t, a) && AllGood(t, b)
  {
    if |a| > 0 {
      assert (a + b)[1..] == a[1..] + b;
      assert (a + b)[0] == a[0];
      GoodConcat(t, a[1..], b);
    } else {
      assert a + b == b;
    }
  }

  lemma {:induction false} PiecesTextConcat(t: PieceTable, a: seq<Piece>, b: seq<Piece>)
    requires AllInBounds(t, a) && AllInBounds(t, b)
    ensures AllInBounds(t, a + b)
    ensures PiecesText(t, a + b) == PiecesText(t, a) + PiecesText(t, b)
  {
    if |a| > 0 {
      var ab := a + b;
      assert ab[0] == a[0] && ab[1..] == a[1..] + b;
      PiecesTextConcat(t, a[1..], b);
      ghost var H, A', B := PieceText(t, a[0]), PiecesText(t, a[1..]), PiecesText(t, b);
      assert PiecesText(t, ab) == H + (A' + B);
      assert PiecesText(t, a) == H + A';
    } else {
      assert a + b == b;
    }
  }

  lemma {:induction false} PiecesTextLength(t: PieceTable, ps: seq<Piece>)
    requires AllInBounds(t, ps)
    ensures |PiecesText(t, ps)| == SumLengths(ps)
  {
    if |ps| > 0 {
      PiecesTextLength(t, ps[1..]);
    }
  }

  lemma {:induction false} SumLengthsConcat(a: seq<Piece>, b: seq<Piece>)
    ensures SumLengths(a + b) == SumLengths(a) + SumLengths(b)
  {
    if |a| > 0 {
      assert (a + b)[1..] == a[1..] + b;
      SumLengthsConcat(a[1..], b);
    } else {
      assert a + b == b;
    }
  }

  /** The pieces before piece `i + 1` are those before piece `i`, and piece `i`. */
  lemma SumLengthsStep(ps: seq<Piece>, i: nat)
    requires i < |ps|
    ensures SumLengths(ps[..i + 1]) == SumLengths(ps[..i]) + ps[i].length
  {
    assert ps[..i + 1] == ps[..i] + [ps[i]];
    SumLengthsConcat(ps[..i], [ps[i]]);
    assert [ps[i]][1..] == [];
  }

  lemma {:induction false} GoodAt(t: PieceTable, ps: seq<Piece>, i: nat)
    requires AllGood(t, ps) && i < |ps|
    ensures GoodPiece(t, ps[i])
  {
    if i > 0 {
      GoodAt(t, ps[1..], i - 1);
    }
  }

  /** Cutting a good list at `i` gives two good lists. */
  lemma GoodCut(t: PieceTable, ps: seq<Piece>, i: nat)
    requires AllGood(t, ps) && i <= |ps|
    ensures AllGood(t, ps[..i]) && AllGood(t, ps[i..])
  {
    assert ps == ps[..i] + ps[i..];
    GoodConcat(t, ps[..i], ps[i..]);
  }

  /** The text of a list cut at `i` is the texts of the two parts. */
  lemma TextCut(t: PieceTable, ps: seq<Piece>, i: nat)
    requires AllInBounds(t, ps) && i <= |ps|
    ensures AllInBounds(t, ps[..i]) && AllInBounds(t, ps[i..])
    ensures PiecesText(t, ps) == PiecesText(t, ps[..i]) + PiecesText(t, ps[i..])
  {
    assert ps == ps[..i] + ps[i..];
    InBoundsConcat(t, ps[..i], ps[i..]);
    PiecesTextConcat(t, ps[..i], ps[i..]);
  }

  /** The pieces before `i` span SumLengths(ps[..i]) characters of the text. */
  lemma PrefixSpan(t: PieceTable, ps: seq<Piece>, i: nat)
    requires AllInBounds(t, ps) && i <= |ps|
    ensures AllInBounds(t, ps[..i]) && AllInBounds(t, ps[i..])
    ensures SumLengths(ps[..i]) <= |PiecesText(t, ps)|
    ensures PiecesText(t, ps[..i]) == PiecesText(t, ps)[..SumLengths(ps[..i])]
    ensures PiecesText(t, ps[i..]) == PiecesText(t, ps)[SumLengths(ps[..i])..]
  {
    TextCut(t, ps, i);
    PiecesTextLength(t, ps[..i]);
  }

  /** Piece `i` of a list stands for the slice of its text that starts after the earlier pieces. */
  lemma PieceSpan(t: PieceTable, ps: seq<Piece>, i: nat)
    requires AllInBounds(t, ps) && i < |ps|
    ensures InBounds(t, ps[i])
    ensures SumLengths(ps[..i]) + ps[i].length <= |PiecesText(t, ps)|
    ensures PiecesText(t, ps)[SumLengths(ps[..i])..SumLengths(ps[..i]) + ps[i].length] == PieceText(t, ps[i])
  {
    PrefixSpan(t, ps, i);
    var rest := ps[i..];
    assert rest[0] == ps[i];
    PieceSpanHead(t, rest, PiecesText(t, ps), SumLengths(ps[..i]));
  }

  lemma PieceSpanHead(t: PieceTable, rest: seq<Piece>, T: string, k: nat)
    requires AllInBounds(t, rest) && |rest| > 0
    requires k <= |T| && PiecesText(t, rest) == T[k..]
    ensures InBounds(t, rest[0])
    ensures k + rest[0].length <= |T| && T[k..k + rest[0].length] == PieceText(t, rest[0])
  {
  }

  /** The whole list spans the whole text. */
  lemma WholeSpan(t: PieceTable, ps: seq<Piece>)
    requires AllInBounds(t, ps)
    ensures SumLengths(ps[..|ps|]) == |PiecesText(t, ps)|
  {
    assert ps[..|ps|] == ps;
    PiecesTextLength(t, ps);
  }

  lemma GoodSingle(t: PieceTable, p: Piece)
    requires GoodPiece(t, p)
    ensures AllGood(t, [p])
  {
    assert [p][1..] == [];
  }

  lemma TextSingle(t: PieceTable, p: Piece)
    requires InBounds(t, p)
    ensures AllInBounds(t, [p]) && PiecesText(t, [p]) == PieceText(t, p)
  {
    assert [p][1..] == [];
  }

  /** Growing the add buffer at its end changes no existing piece's text or cache. */
  lemma {:induction false} ExtendBuffers(t: PieceTable, t': PieceTable, ps: seq<Piece>)
    requires t'.original == t.original && t.addBuffer <= t'.addBuffer
    requires AllGood(t, ps)
    ensures AllGood(t', ps)
    ensures PiecesText(t', ps) == PiecesText(t, ps)
  {
    if |ps| > 0 {
      var p := ps[0];
      assert PieceText(t', p) == PieceText(t, p) by {
        var b := Buffer(t, p.buffer);
        var b' := Buffer(t', p.buffer);
        assert b'[..|b|] == b;
        assert b'[p.start..p.start + p.length] == b[p.start..p.start + p.length];
      }
      ExtendBuffers(t, t', ps[1..]);
    }
  }

  // ---------------------------------------------------------------------
  // Construction

  /** `compute_line_starts`: one scan of the text, recording the offset after every '\n'. */
  method ComputeLineStarts(text: string) returns (lineStarts: seq<nat>)
    ensures lineStarts == LineStartsOf(text)
    ensures |lineStarts| == CountNl(text)
  {
    lineStarts := [];
    var i := 0;
    while i < |text|
      invariant i <= |text|
      invariant lineStarts == LineStartsOf(text[..i])
    {
      LineStartsSnoc(text[..i], text[i]);
      assert text[..i + 1] == text[..i] + [text[i]];
      if text[i] == '\n' {
        lineStarts := lineStarts + [i + 1];
      }
      i := i + 1;
    }
    assert text[..|text|] == text;
    LineStartsLength(text);
  }

  /** `Piece::new`: the line-start cache is computed from the text handed in. */
  method NewPiece(buffer: BufferType, start: nat, length: nat, text: string) returns (p: Piece)
    ensures p.buffer == buffer && p.start == start && p.length == length
    ensures IsLineStartsOf(text, p.lineStarts) && PieceLineCount(p) == CountNl(text)
  {
    var lineStarts := ComputeLineStarts(text);
    p := Piece(buffer, start, length, lineStarts);
    IsLineStartsOfMeans(text, lineStarts);
  }

  /** `PieceTable::new`. */
  method New(initialContent: string) returns (t: PieceTable)
    ensures Valid(t)
    ensures Text(t) == initialContent
    ensures t.totalLength == |initialContent| && t.lineCount == CountNl(initialContent) + 1
    ensures t.original == initialContent && t.addBuffer == []
  {
    var length := |initialContent|;
    var pieces: seq<Piece> := [];
    if length > 0 {
      var p := NewPiece(Original, 0, length, initialContent);
      pieces := [p];
    }
    t := PieceTable(initialContent, [], pieces, length, CountNl(initialContent) + 1);
    if length > 0 {
      assert initialContent[0..length] == initialContent;
      GoodSingle(t, pieces[0]);
      TextSingle(t, pieces[0]);
    }
  }

  /** `get_length`. */
  function GetLength(t: PieceTable): (n: nat)
    requires Valid(t)
    ensures n == |Text(t)|
  {
    t.totalLength
  }

  /** `get_line_count`: one more than the line feeds, i.e. the number of '\n'-separated lines. */
  function GetLineCount(t: PieceTable): (n: nat)
    requires Valid(t)
    ensures n == CountNl(Text(t)) + 1 == |SplitLines(Text(t))|
  {
    t.lineCount
  }

  /** `get_text`: the pieces' slices appended one after another. */
  method GetText(t: PieceTable) returns (s: string)
    requires AllInBounds(t, t.pieces)
    ensures s == Text(t)
    ensures |s| == SumLengths(t.pieces)
  {
    var ps := t.pieces;
    s := [];
    var i := 0;
    while i < |ps|
      invariant i <= |ps| && AllInBounds(t, ps[..i]) && s == PiecesText(t, ps[..i])
    {
      TextSnoc(t, ps, i);
      s := s + Buffer(t, ps[i].buffer)[ps[i].start..ps[i].start + ps[i].length];
      i := i + 1;
    }
    assert ps[..|ps|] == ps;
    PiecesTextLength(t, ps);
  }

  /** One more piece adds its slice to the end of the text. */
  lemma TextSnoc(t: PieceTable, ps: seq<Piece>, i: nat)
    requires AllInBounds(t, ps) && i < |ps|
    ensures InBounds(t, ps[i]) && AllInBounds(t, ps[..i]) && AllInBounds(t, ps[..i + 1])
    ensures PiecesText(t, ps[..i + 1]) == PiecesText(t, ps[..i]) + PieceText(t, ps[i])
  {
    TextCut(t, ps, i);
    assert ps[i..][0] == ps[i];
    TextSingle(t, ps[i]);
    assert ps[..i + 1] == ps[..i] + [ps[i]];
    PiecesTextConcat(t, ps[..i], [ps[i]]);
  }

  /** The cached length is also the sum of the piece lengths. */
  lemma LengthIsSumOfPieces(t: PieceTable)
    requires Valid(t)
    ensures t.totalLength == SumLengths(t.pieces)
  {
    PiecesTextLength(t, t.pieces);
  }

  // ---------------------------------------------------------------------
  // split_piece

  /** `split_piece`: the sub-slice `offset .. offset + length` of `p`, with its own line starts. */
  method SplitPiece(t: PieceTable, p: Piece, offset: nat, length: nat) returns (r: Piece)
    requires InBounds(t, p) && offset + length <= p.length
    ensures r.buffer == p.buffer && r.start == p.start + offset && r.length == length
    ensures InBounds(t, r) && IsLineStartsOf(PieceText(t, r), r.lineStarts)
    ensures PieceText(t, r) == PieceText(t, p)[offset..offset + length]
  {
    var buffer := Buffer(t, p.buffer);
    var text := buffer[p.start + offset..p.start + offset + length];
    r := NewPiece(p.buffer, p.start + offset, length, text);
    SliceOfSlice(buffer, p.start, p.start + p.length, offset, offset + length);
  }

  lemma SliceOfSlice(b: string, lo: nat, hi: nat, i: nat, j: nat)
    requires lo <= hi <= |b| && i <= j <= hi - lo
    ensures b[lo..hi][i..j] == b[lo + i..lo + j]
  {
    assert forall k | 0 <= k < j - i :: b[lo..hi][i..j][k] == b[lo + i..lo + j][k];
  }

  // ---------------------------------------------------------------------
  // insert_piece_at_offset, insert

  lemma GoodThree(t: PieceTable, a: Piece, b: Piece, c: Piece)
    requires GoodPiece(t, a) && GoodPiece(t, b) && GoodPiece(t, c)
    ensures AllGood(t, [a, b, c])
  {
    GoodSingle(t, a);
    GoodSingle(t, b);
    GoodSingle(t, c);
    GoodSplice(t, [a], [b], [c]);
    assert [a] + [b] + [c] == [a, b, c];
  }

  lemma TextThree(t: PieceTable, a: Piece, b: Piece, c: Piece)
    requires InBounds(t, a) && InBounds(t, b) && InBounds(t, c)
    ensures AllInBounds(t, [a, b, c])
    ensures PiecesText(t, [a, b, c]) == PieceText(t, a) + PieceText(t, b) + PieceText(t, c)
  {
    TextSingle(t, a);
    TextSingle(t, b);
    TextSingle(t, c);
    TextSplice(t, [a], [b], [c]);
    assert [a] + [b] + [c] == [a, b, c];
  }

  lemma GoodSplice(t: PieceTable, a: seq<Piece>, m: seq<Piece>, b: seq<Piece>)
    requires AllGood(t, a) && AllGood(t, m) && AllGood(t, b)
    ensures AllGood(t, a + m + b)
  {
    GoodConcat(t, a, m);
    GoodConcat(t, a + m, b);
  }

  lemma TextSplice(t: PieceTable, a: seq<Piece>, m: seq<Piece>, b: seq<Piece>)
    requires AllInBounds(t, a) && AllInBounds(t, m) && AllInBounds(t, b)
    ensures AllInBounds(t, a + m + b)
    ensures PiecesText(t, a + m + b) == PiecesText(t, a) + PiecesText(t, m) + PiecesText(t, b)
  {
    PiecesTextConcat(t, a, m);
    PiecesTextConcat(t, a + m, b);
  }

  /** `np` put before piece `k` keeps the list good. */
  lemma GoodInsertAt(t: PieceTable, ps: seq<Piece>, k: nat, np: Piece)
    requires AllGood(t, ps) && GoodPiece(t, np) && k <= |ps|
    ensures AllGood(t, ps[..k] + [np] + ps[k..])
  {
    GoodCut(t, ps, k);
    GoodSingle(t, np);
    GoodSplice(t, ps[..k], [np], ps[k..]);
  }

  /** `np` put before piece `k` lands at the text offset where piece `k` starts. */
  lemma TextInsertAt(t: PieceTable, ps: seq<Piece>, k: nat, np: Piece)
    requires AllInBounds(t, ps) && InBounds(t, np) && k <= |ps|
    ensures AllInBounds(t, ps[..k] + [np] + ps[k..])
    ensures var T := PiecesText(t, ps); var c := SumLengths(ps[..k]);
      c <= |T| && PiecesText(t, ps[..k] + [np] + ps[k..]) == T[..c] + PieceText(t, np) + T[c..]
  {
    PrefixSpan(t, ps, k);
    TextSingle(t, np);
    TextSplice(t, ps[..k], [np], ps[k..]);
  }

  /** Piece `i` replaced by `left, np, right` keeps the list good. */
  lemma GoodSplitAt(t: PieceTable, ps: seq<Piece>, i: nat, left: Piece, np: Piece, right: Piece)
    requires AllGood(t, ps) && i < |ps|
    requires GoodPiece(t, left) && GoodPiece(t, np) && GoodPiece(t, right)
    ensures AllGood(t, ps[..i] + [left, np, right] + ps[i + 1..])
  {
    GoodCut(t, ps, i);
    GoodCut(t, ps, i + 1);
    GoodThree(t, left, np, right);
    GoodSplice(t, ps[..i], [left, np, right], ps[i + 1..]);
  }

  /** Piece `i` cut at `sp` into `left` and `right` with `np` between: `np` lands `sp` into piece `i`. */
  lemma TextSplitAt(t: PieceTable, ps: seq<Piece>, i: nat, left: Piece, np: Piece, right: Piece, sp: nat)
    requires AllInBounds(t, ps) && i < |ps| && InBounds(t, ps[i]) && sp <= ps[i].length
    requires InBounds(t, left) && InBounds(t, np) && InBounds(t, right)
    requires PieceText(t, left) == PieceText(t, ps[i])[0..sp]
    requires PieceText(t, right) == PieceText(t, ps[i])[sp..sp + (ps[i].length - sp)]
    ensures AllInBounds(t, ps[..i] + [left, np, right] + ps[i + 1..])
    ensures var T := PiecesText(t, ps); var c := SumLengths(ps[..i]) + sp;
      c <= |T| && PiecesText(t, ps[..i] + [left, np, right] + ps[i + 1..]) == T[..c] + PieceText(t, np) + T[c..]
  {
    AroundSpan(t, ps, i);
    TextSplitParts(t, ps[..i], left, np, right, ps[i + 1..]);
    ghost var T, c, P := PiecesText(t, ps), SumLengths(ps[..i]), PieceText(t, ps[i]);
    ghost var A, B := PiecesText(t, ps[..i]), PiecesText(t, ps[i + 1..]);
    ghost var L, X, R := PieceText(t, left), PieceText(t, np), PieceText(t, right);
    assert T[c..c + |P|] == P && A == T[..c] && B == T[c + |P|..];
    SpliceInside(T, c, P, sp, A, L, X, R, B);
    assert PiecesText(t, ps[..i] + [left, np, right] + ps[i + 1..]) == T[..c + sp] + X + T[c + sp..];
  }

  lemma TextSplitParts(t: PieceTable, a: seq<Piece>, left: Piece, np: Piece, right: Piece, b: seq<Piece>)
    requires AllInBounds(t, a) && AllInBounds(t, b)
    requires InBounds(t, left) && InBounds(t, np) && InBounds(t, right)
    ensures AllInBounds(t, a + [left, np, right] + b)
    ensures PiecesText(t, a + [left, np, right] + b)
      == PiecesText(t, a) + (PieceText(t, left) + PieceText(t, np) + PieceText(t, right)) + PiecesText(t, b)
  {
    TextThree(t, left, np, right);
    TextSplice(t, a, [left, np, right], b);
  }

  /** The pieces before piece `i`, piece `i` and the pieces after it span consecutive parts of the text. */
  lemma AroundSpan(t: PieceTable, ps: seq<Piece>, i: nat)
    requires AllInBounds(t, ps) && i < |ps|
    ensures InBounds(t, ps[i]) && AllInBounds(t, ps[..i]) && AllInBounds(t, ps[i + 1..])
    ensures var T := PiecesText(t, ps); var c := SumLengths(ps[..i]);
      && c + ps[i].length <= |T|
      && PiecesText(t, ps[..i]) == T[..c]
      && T[c..c + ps[i].length] == PieceText(t, ps[i])
      && PiecesText(t, ps[i + 1..]) == T[c + ps[i].length..]
  {
    PrefixSpan(t, ps, i);
    PrefixSpan(t, ps, i + 1);
    SumLengthsStep(ps, i);
    PieceSpan(t, ps, i);
  }

  /** Text put `sp` characters into the slice `P` of `T` that starts at `c`. */
  lemma SpliceInside(T: string, c: nat, P: string, sp: nat, A: string, L: string, X: string, R: string, B: string)
    requires c + |P| <= |T| && T[c..c + |P|] == P && sp <= |P|
    requires A == T[..c] && L == P[0..sp] && R == P[sp..sp + (|P| - sp)] && B == T[c + |P|..]
    ensures c + sp <= |T| && A + (L + X + R) + B == T[..c + sp] + X + T[c + sp..]
  {
    assert T[..c + sp] == A + L;
    assert R == T[c + sp..c + |P|];
    assert T[c + sp..] == R + B;
  }

  /** The split case of `insert_piece_at_offset`: piece `i` is cut at `sp` and `np` goes between. */
  method SplitAndInsert(t: PieceTable, ps: seq<Piece>, i: nat, sp: nat, np: Piece) returns (pieces: seq<Piece>)
    requires AllGood(t, ps) && i < |ps| && 0 < sp < ps[i].length && GoodPiece(t, np)
    ensures AllGood(t, pieces)
    ensures var T := PiecesText(t, ps); var c := SumLengths(ps[..i]) + sp;
      c <= |T| && PiecesText(t, pieces) == T[..c] + PieceText(t, np) + T[c..]
  {
    var piece := ps[i];
    GoodAt(t, ps, i);
    var left := SplitPiece(t, piece, 0, sp);
    var right := SplitPiece(t, piece, sp, piece.length - sp);
    pieces := ps[..i] + [left, np, right] + ps[i + 1..];
    GoodSplitAt(t, ps, i, left, np, right);
    TextSplitAt(t, ps, i, left, np, right, sp);
  }

  /**
   * `insert_piece_at_offset`: `np` goes in at `offset`, splitting a piece
   * when the offset falls strictly inside one, or at the end when `offset`
   * is at or past it.
   */
  method InsertPieceAtOffset(t: PieceTable, offset: nat, np: Piece) returns (pieces: seq<Piece>)
    requires AllGood(t, t.pieces) && GoodPiece(t, np) && t.totalLength == |Text(t)|
    ensures AllGood(t, pieces)
    ensures var T := Text(t); var k := Min(offset, |T|);
      PiecesText(t, pieces) == T[..k] + PieceText(t, np) + T[k..]
  {
    var ps := t.pieces;
    if offset == 0 {
      pieces := PlaceAt(t, ps, 0, np);
      assert ps[..0] == [];
    } else if offset >= t.totalLength {
      pieces := PlaceAt(t, ps, |ps|, np);
      WholeSpan(t, ps);
    } else {
      pieces := InsertInside(t, offset, np);
    }
  }

  /** `Vec::insert` of the new piece at index `k` of the list. */
  method PlaceAt(t: PieceTable, ps: seq<Piece>, k: nat, np: Piece) returns (pieces: seq<Piece>)
    requires AllGood(t, ps) && GoodPiece(t, np) && k <= |ps|
    ensures pieces == ps[..k] + [np] + ps[k..]
    ensures AllGood(t, pieces)
    ensures var T := PiecesText(t, ps); var c := SumLengths(ps[..k]);
      c <= |T| && PiecesText(t, pieces) == T[..c] + PieceText(t, np) + T[c..]
  {
    pieces := ps[..k] + [np] + ps[k..];
    GoodInsertAt(t, ps, k, np);
    TextInsertAt(t, ps, k, np);
  }

  /** The scan of `insert_piece_at_offset` for an offset strictly inside the text. */
  method InsertInside(t: PieceTable, offset: nat, np: Piece) returns (pieces: seq<Piece>)
    requires AllGood(t, t.pieces) && GoodPiece(t, np) && 0 < offset < |Text(t)|
    ensures AllGood(t, pieces)
    ensures var T := Text(t); PiecesText(t, pieces) == T[..offset] + PieceText(t, np) + T[offset..]
  {
    var ps := t.pieces;
    var currentOffset := 0;
    var insertIndex := |ps|;
    var i := 0;
    while i < |ps|
      invariant i <= |ps| && currentOffset <= offset
      invariant currentOffset == SumLengths(ps[..i])
      invariant insertIndex == |ps|
    {
      var piece := ps[i];
      var pieceEnd := currentOffset + piece.length;
      SumLengthsStep(ps, i);
      if offset == currentOffset {
        insertIndex := i;
        break;
      }
      if offset > currentOffset && offset < pieceEnd {
        pieces := SplitAndInsert(t, ps, i, offset - currentOffset, np);
        return;
      }
      if offset == pieceEnd {
        insertIndex := i + 1;
        break;
      }
      currentOffset := pieceEnd;
      i := i + 1;
    }
    WholeSpan(t, ps);
    assert SumLengths(ps[..insertIndex]) == offset;
    pieces := PlaceAt(t, ps, insertIndex, np);
  }


  /**
   * `insert`: the text goes to the end of the add buffer and a piece for it
   * is placed at `offset` (at the end when `offset` is past it).
   */
  method Insert(t: PieceTable, offset: nat, text: string) returns (r: PieceTable)
    requires Valid(t)
    ensures Valid(r)
    ensures r.original == t.original && r.addBuffer == t.addBuffer + text
    ensures var T := Text(t); var k := Min(offset, |T|);
      Text(r) == T[..k] + text + T[k..]
  {
    ghost var T := Text(t);
    ghost var k := Min(offset, |T|);
    if |text| == 0 {
      assert t.addBuffer + text == t.addBuffer;
      assert T == T[..k] + text + T[k..];
      return t;
    }
    var addStart := |t.addBuffer|;
    var t1 := t.(addBuffer := t.addBuffer + text);
    var newPiece := NewPiece(Add, addStart, |text|, text);
    AppendedPiece(t, t1, newPiece, text);
    var newLines := PieceLineCount(newPiece);
    var pieces;
    if |t.pieces| == 0 {
      pieces := [newPiece];
      PlaceAlone(t1, newPiece, k);
    } else {
      pieces := InsertPieceAtOffset(t1, offset, newPiece);
    }
    r := t1.(pieces := pieces, totalLength := t.totalLength + |text|, lineCount := t.lineCount + newLines);
    InsertValid(t, t1, r, k, text);
  }

  /** After `text` is appended to the add buffer, a piece over it is good and the table is unchanged. */
  lemma AppendedPiece(t: PieceTable, t1: PieceTable, p: Piece, text: string)
    requires Valid(t) && t1 == t.(addBuffer := t.addBuffer + text) && |text| > 0
    requires p.buffer == Add && p.start == |t.addBuffer| && p.length == |text|
    requires IsLineStartsOf(text, p.lineStarts)
    ensures AllGood(t1, t1.pieces) && Text(t1) == Text(t) && t1.totalLength == |Text(t1)|
    ensures GoodPiece(t1, p) && PieceText(t1, p) == text
  {
    ExtendBuffers(t, t1, t.pieces);
    assert t1.addBuffer[p.start..p.start + p.length] == text;
  }

  /** A lone piece placed in an empty table: its text is the whole text at any clamped offset. */
  lemma PlaceAlone(t: PieceTable, p: Piece, k: nat)
    requires |t.pieces| == 0 && GoodPiece(t, p) && k <= |Text(t)|
    ensures AllGood(t, [p])
    ensures PiecesText(t, [p]) == Text(t)[..k] + PieceText(t, p) + Text(t)[k..]
  {
    GoodSingle(t, p);
    TextSingle(t, p);
    assert Text(t) == [];
  }

  /** The table `insert` builds is valid, given the text its pieces stand for. */
  lemma InsertValid(t: PieceTable, t1: PieceTable, r: PieceTable, k: nat, text: string)
    requires Valid(t) && k <= |Text(t)|
    requires t1.original == t.original && t1.addBuffer == t.addBuffer + text
    requires r.original == t1.original && r.addBuffer == t1.addBuffer
    requires AllGood(t1, r.pieces)
    requires PiecesText(t1, r.pieces) == Text(t)[..k] + text + Text(t)[k..]
    requires r.totalLength == t.totalLength + |text| && r.lineCount == t.lineCount + CountNl(text)
    ensures Valid(r) && Text(r) == Text(t)[..k] + text + Text(t)[k..]
  {
    ExtendBuffers(t1, r, r.pieces);
    CountNlSplice(Text(t), k, text);
  }

  // ---------------------------------------------------------------------
  // get_text_range

  /**
   * One step of `get_text_range`: piece `P` sits at `cur` in `T`, overlaps
   * the range `o .. e`, and contributes `P[sip..eip]`.
   */
  lemma RangeStep(T: string, cur: nat, P: string, o: nat, e: nat, sip: nat, eip: nat)
    requires cur + |P| <= |T| && T[cur..cur + |P|] == P
    requires o <= e && cur < e && o < cur + |P|
    requires sip == (if o > cur then o - cur else 0)
    requires eip == (if e < cur + |P| then e - cur else |P|)
    ensures sip <= eip <= |P|
    ensures T[Min(o, cur)..Min(e, cur)] + P[sip..eip] == T[Min(o, cur + |P|)..Min(e, cur + |P|)]
  {
    SliceOfSlice(T, cur, cur + |P|, sip, eip);
    if o > cur {
      assert T[Min(o, cur)..Min(e, cur)] == [];
    } else {
      SliceJoin(T, o, cur, cur + eip);
    }
  }

  lemma SliceJoin(T: string, a: nat, b: nat, c: nat)
    requires a <= b <= c <= |T|
    ensures T[a..b] + T[b..c] == T[a..c]
  {
    assert forall k | 0 <= k < c - a :: (T[a..b] + T[b..c])[k] == T[a..c][k];
  }

  /** The characters `lo .. hi` of a piece, read from its buffer. */
  method PieceSlice(t: PieceTable, piece: Piece, lo: nat, hi: nat) returns (part: string)
    requires InBounds(t, piece) && lo <= hi <= piece.length
    ensures part == PieceText(t, piece)[lo..hi]
  {
    var buffer := Buffer(t, piece.buffer);
    SliceOfSlice(buffer, piece.start, piece.start + piece.length, lo, hi);
    part := buffer[piece.start + lo..piece.start + hi];
  }

  /** The pieces before piece `i + 1` end where piece `i` does, inside the text. */
  lemma NextOffset(t: PieceTable, ps: seq<Piece>, i: nat)
    requires AllInBounds(t, ps) && i < |ps|
    ensures InBounds(t, ps[i])
    ensures SumLengths(ps[..i + 1]) == SumLengths(ps[..i]) + ps[i].length <= |PiecesText(t, ps)|
  {
    PieceSpan(t, ps, i);
    SumLengthsStep(ps, i);
  }

  /** A piece that overlaps the range `o .. e` adds its part of the range. */
  lemma RangeAdvance(t: PieceTable, ps: seq<Piece>, i: nat, o: nat, e: nat, s: string, sip: nat, eip: nat)
    requires AllInBounds(t, ps) && i < |ps| && InBounds(t, ps[i]) && o <= e
    requires SumLengths(ps[..i]) < e && o < SumLengths(ps[..i]) + ps[i].length
    requires sip == (if o > SumLengths(ps[..i]) then o - SumLengths(ps[..i]) else 0)
    requires eip == (if e < SumLengths(ps[..i]) + ps[i].length then e - SumLengths(ps[..i]) else ps[i].length)
    requires SumLengths(ps[..i]) <= |PiecesText(t, ps)|
    requires s == PiecesText(t, ps)[Min(o, SumLengths(ps[..i]))..Min(e, SumLengths(ps[..i]))]
    ensures sip <= eip <= ps[i].length
    ensures SumLengths(ps[..i + 1]) <= |PiecesText(t, ps)|
    ensures s + PieceText(t, ps[i])[sip..eip]
      == PiecesText(t, ps)[Min(o, SumLengths(ps[..i + 1]))..Min(e, SumLengths(ps[..i + 1]))]
  {
    PieceSpan(t, ps, i);
    SumLengthsStep(ps, i);
    RangeStep(PiecesText(t, ps), SumLengths(ps[..i]), PieceText(t, ps[i]), o, e, sip, eip);
  }

  /** A piece that ends at or before `o` adds nothing. */
  lemma RangeSkip(t: PieceTable, ps: seq<Piece>, i: nat, o: nat, e: nat, s: string)
    requires AllInBounds(t, ps) && i < |ps| && o <= e
    requires SumLengths(ps[..i]) + ps[i].length <= o
    requires SumLengths(ps[..i]) <= |PiecesText(t, ps)|
    requires s == PiecesText(t, ps)[Min(o, SumLengths(ps[..i]))..Min(e, SumLengths(ps[..i]))]
    ensures SumLengths(ps[..i + 1]) <= |PiecesText(t, ps)|
    ensures s == PiecesText(t, ps)[Min(o, SumLengths(ps[..i + 1]))..Min(e, SumLengths(ps[..i + 1]))]
  {
    NextOffset(t, ps, i);
  }

  /**
   * The body of `get_text_range`'s loop for piece `i`, which starts at `cur`:
   * skip it when it ends before the range, stop when it starts at or after
   * the range's end, and otherwise add its overlap with the range.
   */
  method RangePiece(t: PieceTable, ps: seq<Piece>, i: nat, o: nat, e: nat, s: string, cur: nat)
    returns (s': string, stop: bool)
    requires AllInBounds(t, ps) && i < |ps| && o <= e
    requires cur == SumLengths(ps[..i]) && cur <= |PiecesText(t, ps)|
    requires s == PiecesText(t, ps)[Min(o, cur)..Min(e, cur)]
    ensures stop ==> e <= cur && s' == s
    ensures !stop ==> cur + ps[i].length == SumLengths(ps[..i + 1]) <= |PiecesText(t, ps)|
    ensures !stop ==> s' == PiecesText(t, ps)[Min(o, cur + ps[i].length)..Min(e, cur + ps[i].length)]
  {
    var piece := ps[i];
    var pieceEnd := cur + piece.length;
    NextOffset(t, ps, i);
    if pieceEnd <= o {
      RangeSkip(t, ps, i, o, e, s);
      return s, false;
    }
    if cur >= e {
      return s, true;
    }
    var startInPiece := if o > cur then o - cur else 0;
    var endInPiece := if e < pieceEnd then e - cur else piece.length;
    RangeAdvance(t, ps, i, o, e, s, startInPiece, endInPiece);
    var part := PieceSlice(t, piece, startInPiece, endInPiece);
    return s + part, false;
  }

  /** `get_text_range`: the text from `offset`, `length` characters long, both clamped to the text. */
  method GetTextRange(t: PieceTable, offset: nat, length: nat) returns (s: string)
    requires AllInBounds(t, t.pieces)
    ensures var T := Text(t); s == T[Min(offset, |T|)..Min(offset + length, |T|)]
  {
    ghost var T := Text(t);
    if length == 0 {
      assert T[Min(offset, |T|)..Min(offset + length, |T|)] == [];
      return [];
    }
    var ps := t.pieces;
    s := [];
    var currentOffset := 0;
    var endOffset := offset + length;
    var i := 0;
    while i < |ps|
      invariant i <= |ps| && currentOffset == SumLengths(ps[..i]) && currentOffset <= |T|
      invariant s == T[Min(offset, currentOffset)..Min(endOffset, currentOffset)]
    {
      var stop;
      s, stop := RangePiece(t, ps, i, offset, endOffset, s, currentOffset);
      if stop {
        break;
      }
      currentOffset := currentOffset + ps[i].length;
      i := i + 1;
    }
    WholeSpan(t, ps);
  }

  // ---------------------------------------------------------------------
  // delete_range, delete

  /** What is left of `T[..k]` once the range `o .. e` is cut out of `T`. */
  ghost function Kept(T: string, o: nat, e: nat, k: nat): string
    requires o <= e && k <= |T|
  {
    T[..Min(o, k)] + T[Min(e, k)..k]
  }

  /**
   * `A == Kept(T, o, e, k)`. It is written as a quantifier over Kept so that
   * the verifier expands Kept (and the slices in it) only where a proof
   * mentions it; otherwise the loop of `delete_range` is too costly to check.
   */
  ghost predicate KeptIs(A: string, T: string, o: nat, e: nat, k: nat) {
    forall T' {:trigger Kept(T', o, e, k)} :: T' == T && o <= e && k <= |T'| ==> A == Kept(T', o, e, k)
  }

  /** Nothing of an empty prefix is left; all of the text is `T[..o] + T[e..]`, clipped. */
  lemma KeptEnds(T: string, o: nat, e: nat, A: string)
    requires o <= e
    ensures KeptIs([], T, o, e, 0)
    ensures KeptIs(A, T, o, e, |T|) ==> A == T[..Min(o, |T|)] + T[Min(e, |T|)..]
  {
    assert Kept(T, o, e, 0) == [];
    assert Kept(T, o, e, |T|) == T[..Min(o, |T|)] + T[Min(e, |T|)..];
  }

  /** A piece `P == T[cur..cur + n]` wholly before or wholly after the range is kept whole. */
  lemma KeptWhole(T: string, o: nat, e: nat, cur: nat, n: nat, P: string, A: string, B: string)
    requires o <= e && cur + n <= |T| && T[cur..cur + n] == P
    requires cur + n <= o || cur >= e
    requires KeptIs(A, T, o, e, cur) && B == A + P
    ensures KeptIs(B, T, o, e, cur + n)
  {
    assert A == Kept(T, o, e, cur);
    if cur + n <= o {
      SliceJoin(T, 0, cur, cur + n);
      assert T[..cur] == T[0..cur] && T[..cur + n] == T[0..cur + n];
    } else {
      SliceJoin(T, e, cur, cur + n);
    }
    assert B == Kept(T, o, e, cur + n);
  }

  /** A piece wholly inside the range is dropped. */
  lemma KeptNone(T: string, o: nat, e: nat, cur: nat, n: nat, A: string)
    requires o <= cur && cur + n <= e && cur + n <= |T|
    requires KeptIs(A, T, o, e, cur)
    ensures KeptIs(A, T, o, e, cur + n)
  {
    assert A == Kept(T, o, e, cur);
    assert A == Kept(T, o, e, cur + n);
  }

  /** A piece the range falls strictly inside keeps its head and its tail. */
  lemma KeptMiddle(T: string, o: nat, e: nat, cur: nat, n: nat, P: string, A: string, B: string)
    requires cur < o <= e < cur + n <= |T| && T[cur..cur + n] == P
    requires KeptIs(A, T, o, e, cur) && B == A + P[0..o - cur] + P[e - cur..n]
    ensures KeptIs(B, T, o, e, cur + n)
  {
    assert A == Kept(T, o, e, cur);
    SliceOfSlice(T, cur, cur + n, 0, o - cur);
    SliceOfSlice(T, cur, cur + n, e - cur, n);
    SliceJoin(T, 0, cur, o);
    assert T[..cur] == T[0..cur] && T[..o] == T[0..o];
    assert B == Kept(T, o, e, cur + n);
  }

  /** A piece the range starts inside, and runs to its end or past it, keeps its head. */
  lemma KeptHead(T: string, o: nat, e: nat, cur: nat, n: nat, P: string, A: string, B: string)
    requires cur < o < cur + n <= e && cur + n <= |T| && T[cur..cur + n] == P
    requires KeptIs(A, T, o, e, cur) && B == A + P[0..o - cur]
    ensures KeptIs(B, T, o, e, cur + n)
  {
    assert A == Kept(T, o, e, cur);
    SliceOfSlice(T, cur, cur + n, 0, o - cur);
    SliceJoin(T, 0, cur, o);
    assert T[..cur] == T[0..cur] && T[..o] == T[0..o];
    assert B == Kept(T, o, e, cur + n);
  }

  /** A piece the range starts at or before, and ends inside, keeps its tail. */
  lemma KeptTail(T: string, o: nat, e: nat, cur: nat, n: nat, P: string, A: string, B: string)
    requires o <= cur < e < cur + n <= |T| && T[cur..cur + n] == P
    requires KeptIs(A, T, o, e, cur) && B == A + P[e - cur..n]
    ensures KeptIs(B, T, o, e, cur + n)
  {
    assert A == Kept(T, o, e, cur);
    SliceOfSlice(T, cur, cur + n, e - cur, n);
    assert B == Kept(T, o, e, cur + n);
  }

  /** Appending a good piece appends its text. */
  lemma Push(t: PieceTable, a: seq<Piece>, p: Piece)
    requires AllGood(t, a) && GoodPiece(t, p)
    ensures AllGood(t, a + [p]) && PiecesText(t, a + [p]) == PiecesText(t, a) + PieceText(t, p)
  {
    GoodSingle(t, p);
    GoodConcat(t, a, [p]);
    TextSingle(t, p);
    PiecesTextConcat(t, a, [p]);
  }

  /** Appends the non-empty part `offset .. offset + length` of `piece`, as a piece of its own. */
  method PushPart(t: PieceTable, acc: seq<Piece>, piece: Piece, offset: nat, length: nat)
    returns (acc': seq<Piece>)
    requires AllGood(t, acc) && InBounds(t, piece) && 0 < length && offset + length <= piece.length
    ensures AllGood(t, acc')
    ensures PiecesText(t, acc') == PiecesText(t, acc) + PieceText(t, piece)[offset..offset + length]
  {
    var part := SplitPiece(t, piece, offset, length);
    acc' := acc + [part];
    Push(t, acc, part);
  }

  /** Piece `i` of a good list is good and is the slice of the text that starts where it starts. */
  lemma PieceAt(t: PieceTable, ps: seq<Piece>, i: nat)
    requires AllGood(t, ps) && i < |ps|
    ensures GoodPiece(t, ps[i])
    ensures SumLengths(ps[..i + 1]) == SumLengths(ps[..i]) + ps[i].length <= |PiecesText(t, ps)|
    ensures PiecesText(t, ps)[SumLengths(ps[..i])..SumLengths(ps[..i]) + ps[i].length] == PieceText(t, ps[i])
  {
    GoodAt(t, ps, i);
    PieceSpan(t, ps, i);
    SumLengthsStep(ps, i);
  }

  /**
   * The body of `delete_range`'s loop for piece `i`, which starts at `cur`:
   * keep it, drop it, or keep the parts of it outside `o .. e`.
   */
  method DeletePiece(t: PieceTable, ps: seq<Piece>, i: nat, o: nat, e: nat, acc: seq<Piece>, cur: nat)
    returns (acc': seq<Piece>)
    requires AllGood(t, ps) && i < |ps| && o <= e
    requires cur == SumLengths(ps[..i]) && cur <= |PiecesText(t, ps)|
    requires AllGood(t, acc) && KeptIs(PiecesText(t, acc), PiecesText(t, ps), o, e, cur)
    ensures cur + ps[i].length == SumLengths(ps[..i + 1]) <= |PiecesText(t, ps)|
    ensures AllGood(t, acc') && KeptIs(PiecesText(t, acc'), PiecesText(t, ps), o, e, cur + ps[i].length)
  {
    var piece := ps[i];
    var pieceStart := cur;
    var pieceEnd := cur + piece.length;
    PieceAt(t, ps, i);
    if pieceEnd <= o || pieceStart >= e {
      acc' := DeleteOutside(t, PiecesText(t, ps), piece, o, e, acc, cur);
    } else if pieceStart >= o && pieceEnd <= e {
      acc' := acc;
      KeptNone(PiecesText(t, ps), o, e, cur, piece.length, PiecesText(t, acc));
    } else if pieceStart < o && pieceEnd > e {
      acc' := DeleteMiddle(t, PiecesText(t, ps), piece, o, e, acc, cur);
    } else if pieceStart < o {
      acc' := DeleteHead(t, PiecesText(t, ps), piece, o, e, acc, cur);
    } else {
      acc' := DeleteTail(t, PiecesText(t, ps), piece, o, e, acc, cur);
    }
  }

  /** The piece lies wholly before or wholly after the range: keep it as it is. */
  method DeleteOutside(t: PieceTable, ghost T: string, piece: Piece, o: nat, e: nat, acc: seq<Piece>, cur: nat)
    returns (acc': seq<Piece>)
    requires GoodPiece(t, piece) && o <= e
    requires cur + piece.length <= |T| && T[cur..cur + piece.length] == PieceText(t, piece)
    requires AllGood(t, acc) && KeptIs(PiecesText(t, acc), T, o, e, cur)
    requires cur + piece.length <= o || cur >= e
    ensures AllGood(t, acc') && KeptIs(PiecesText(t, acc'), T, o, e, cur + piece.length)
  {
    acc' := acc + [piece];
    Push(t, acc, piece);
    KeptWhole(T, o, e, cur, piece.length, PieceText(t, piece), PiecesText(t, acc), PiecesText(t, acc'));
  }

  /** The two pushes of the split case: the head `..leftLen` and the part `rightStart..` of the piece. */
  method PushBothEnds(t: PieceTable, acc: seq<Piece>, piece: Piece, leftLen: nat, rightStart: nat, rightLen: nat)
    returns (acc': seq<Piece>)
    requires AllGood(t, acc) && InBounds(t, piece)
    requires 0 < leftLen <= piece.length && 0 < rightLen && rightStart + rightLen <= piece.length
    ensures AllGood(t, acc')
    ensures PiecesText(t, acc') == PiecesText(t, acc) + PieceText(t, piece)[0..leftLen]
      + PieceText(t, piece)[rightStart..rightStart + rightLen]
  {
    var acc1 := PushPart(t, acc, piece, 0, leftLen);
    acc' := PushPart(t, acc1, piece, rightStart, rightLen);
  }

  /** The range lies strictly inside the piece: keep both ends of it. */
  method DeleteMiddle(t: PieceTable, ghost T: string, piece: Piece, o: nat, e: nat, acc: seq<Piece>, cur: nat)
    returns (acc': seq<Piece>)
    requires GoodPiece(t, piece) && o <= e
    requires cur + piece.length <= |T| && T[cur..cur + piece.length] == PieceText(t, piece)
    requires AllGood(t, acc) && KeptIs(PiecesText(t, acc), T, o, e, cur)
    requires cur < o && e < cur + piece.length
    ensures AllGood(t, acc') && KeptIs(PiecesText(t, acc'), T, o, e, cur + piece.length)
  {
    var pieceStart := cur;
    var pieceEnd := cur + piece.length;
    ghost var P, A := PieceText(t, piece), PiecesText(t, acc);
    var leftLen := o - pieceStart;
    var rightStart := e - pieceStart;
    var rightLen := pieceEnd - e;
    acc' := PushBothEnds(t, acc, piece, leftLen, rightStart, rightLen);
    assert leftLen == o - cur && rightStart == e - cur && rightStart + rightLen == piece.length;
    KeptMiddle(T, o, e, cur, piece.length, P, A, PiecesText(t, acc'));
  }

  /** The range starts inside the piece and runs to its end or past it: keep its head. */
  method DeleteHead(t: PieceTable, ghost T: string, piece: Piece, o: nat, e: nat, acc: seq<Piece>, cur: nat)
    returns (acc': seq<Piece>)
    requires GoodPiece(t, piece) && o <= e
    requires cur + piece.length <= |T| && T[cur..cur + piece.length] == PieceText(t, piece)
    requires AllGood(t, acc) && KeptIs(PiecesText(t, acc), T, o, e, cur)
    requires cur < o < cur + piece.length <= e
    ensures AllGood(t, acc') && KeptIs(PiecesText(t, acc'), T, o, e, cur + piece.length)
  {
    var pieceStart := cur;
    ghost var P, A := PieceText(t, piece), PiecesText(t, acc);
    var keepLen := o - pieceStart;
    acc' := PushPart(t, acc, piece, 0, keepLen);
    KeptHead(T, o, e, cur, piece.length, P, A, PiecesText(t, acc'));
  }

  /** The range starts at or before the piece and ends inside it: keep its tail. */
  method DeleteTail(t: PieceTable, ghost T: string, piece: Piece, o: nat, e: nat, acc: seq<Piece>, cur: nat)
    returns (acc': seq<Piece>)
    requires GoodPiece(t, piece) && o <= e
    requires cur + piece.length <= |T| && T[cur..cur + piece.length] == PieceText(t, piece)
    requires AllGood(t, acc) && KeptIs(PiecesText(t, acc), T, o, e, cur)
    requires o <= cur < e < cur + piece.length
    ensures AllGood(t, acc') && KeptIs(PiecesText(t, acc'), T, o, e, cur + piece.length)
  {
    var pieceStart := cur;
    ghost var P, A := PieceText(t, piece), PiecesText(t, acc);
    var skipLen := e - pieceStart;
    var keepLen := piece.length - skipLen;
    acc' := PushPart(t, acc, piece, skipLen, keepLen);
    KeptTail(T, o, e, cur, piece.length, P, A, PiecesText(t, acc'));
  }

  /** `delete_range`: the pieces of the text with `offset .. offset + length` cut out. */
  method DeleteRange(t: PieceTable, offset: nat, length: nat) returns (newPieces: seq<Piece>)
    requires AllGood(t, t.pieces)
    ensures AllGood(t, newPieces)
    ensures var T := Text(t);
      PiecesText(t, newPieces) == T[..Min(offset, |T|)] + T[Min(offset + length, |T|)..]
  {
    ghost var T := Text(t);
    var ps := t.pieces;
    var endOffset := offset + length;
    newPieces := [];
    KeptEnds(T, offset, endOffset, []);
    var currentOffset := 0;
    var i := 0;
    while i < |ps|
      invariant i <= |ps| && currentOffset == SumLengths(ps[..i]) && currentOffset <= |T|
      invariant AllGood(t, newPieces) && KeptIs(PiecesText(t, newPieces), T, offset, endOffset, currentOffset)
    {
      newPieces := DeletePiece(t, ps, i, offset, endOffset, newPieces, currentOffset);
      currentOffset := currentOffset + ps[i].length;
      i := i + 1;
    }
    WholeSpan(t, ps);
    assert currentOffset == |T|;
    ghost var R := PiecesText(t, newPieces);
    KeptEnds(T, offset, endOffset, R);
    assert R == T[..Min(offset, |T|)] + T[Min(offset + length, |T|)..];
  }

  /**
   * `usize` arithmetic on wasm32, the target the engine is built for: values
   * are taken modulo 2^32 (wrapping, as in a release build).
   */
  const UsizeModulus: nat := 0x1_0000_0000

  /** The cached fields after a cut: the buffers stay, the text loses `D`, and so do the counts. */
  lemma DeleteValid(t: PieceTable, r: PieceTable, o: nat, e: nat, D: string)
    requires Valid(t) && o <= e
    requires r.original == t.original && r.addBuffer == t.addBuffer && AllGood(t, r.pieces)
    requires var T := Text(t); PiecesText(t, r.pieces) == T[..Min(o, |T|)] + T[Min(e, |T|)..]
    requires var T := Text(t); D == T[Min(o, |T|)..Min(e, |T|)]
    requires r.totalLength == t.totalLength - |D| && r.lineCount == t.lineCount - CountNl(D)
    ensures Valid(r)
    ensures var T := Text(t); Text(r) == T[..Min(o, |T|)] + T[Min(e, |T|)..]
  {
    ExtendBuffers(t, r, r.pieces);
    ghost var T := Text(t);
    CountNlCut(T, Min(o, |T|), Min(e, |T|));
  }

  /** The shared part of `delete`: the removed text and the pieces that remain. */
  method CutRange(t: PieceTable, offset: nat, length: nat) returns (newPieces: seq<Piece>, deletedText: string)
    requires Valid(t)
    ensures AllGood(t, newPieces)
    ensures var T := Text(t); PiecesText(t, newPieces) == T[..Min(offset, |T|)] + T[Min(offset + length, |T|)..]
    ensures var T := Text(t); deletedText == T[Min(offset, |T|)..Min(offset + length, |T|)]
    ensures CountNl(deletedText) < t.lineCount && |deletedText| <= t.totalLength
  {
    deletedText := GetTextRange(t, offset, length);
    newPieces := DeleteRange(t, offset, length);
    ghost var T := Text(t);
    CountNlCut(T, Min(offset, |T|), Min(offset + length, |T|));
  }

  /** A cut of nothing, or from the end onwards, leaves the text as it is. */
  lemma NoCut(T: string, offset: nat, length: nat)
    requires length == 0 || offset >= |T|
    ensures T[..Min(offset, |T|)] + T[Min(offset + length, |T|)..] == T
  {
  }

  /**
   * `delete`, with `total_length` reduced by the number of bytes actually
   * removed; DeleteAsWritten keeps the source's `total_length -= length`.
   */
  method Delete(t: PieceTable, offset: nat, length: nat) returns (r: PieceTable)
    requires Valid(t)
    ensures Valid(r) && r.original == t.original && r.addBuffer == t.addBuffer
    ensures var T := Text(t); Text(r) == T[..Min(offset, |T|)] + T[Min(offset + length, |T|)..]
    ensures length == 0 || offset >= |Text(t)| ==> r == t
  {
    if length == 0 || offset >= t.totalLength {
      NoCut(Text(t), offset, length);
      r := t;
    } else {
      r := DeleteSome(t, offset, length);
    }
  }

  /** `delete` past its early return: the range starts inside the text and is not empty. */
  method DeleteSome(t: PieceTable, offset: nat, length: nat) returns (r: PieceTable)
    requires Valid(t) && length > 0 && offset < t.totalLength
    ensures Valid(r) && r.original == t.original && r.addBuffer == t.addBuffer
    ensures var T := Text(t); Text(r) == T[..Min(offset, |T|)] + T[Min(offset + length, |T|)..]
  {
    var newPieces, deletedText := CutRange(t, offset, length);
    var deletedLines := CountNl(deletedText);
    r := t.(pieces := newPieces,
            totalLength := t.totalLength - |deletedText|,
            lineCount := t.lineCount - deletedLines);
    DeleteValid(t, r, offset, offset + length, deletedText);
  }

  /** Replacing a cached length keeps the pieces, so it keeps their goodness and their text. */
  lemma SetLength(t: PieceTable, r: PieceTable, n: nat)
    requires AllGood(t, t.pieces) && r == t.(totalLength := n)
    ensures AllGood(r, r.pieces) && Text(r) == Text(t) && r.lineCount == t.lineCount
  {
    ExtendBuffers(t, r, t.pieces);
  }

  /**
   * With `usize` operands, `total - length` wrapped to 64 bits equals the
   * number of bytes left after the clipped cut of `offset .. offset + length`
   * exactly when the range fits inside `total`.
   */
  lemma WrappedLengthRight(total: nat, offset: nat, length: nat)
    requires total < UsizeModulus && length < UsizeModulus && 0 < length && offset < total
    ensures (total - length) % UsizeModulus == total - (Min(offset + length, total) - offset)
      <==> offset + length <= total
  {
    if total - length >= 0 {
      assert (total - length) % UsizeModulus == total - length;
    } else {
      assert (total - length) % UsizeModulus == total - length + UsizeModulus;
    }
  }

  /**
   * `delete` as the source writes it: `total_length` drops by the requested
   * `length` (wrapping like `usize`), even when the range runs past the end
   * and `delete_range` removes fewer bytes. The table stays valid exactly
   * when the range fits.
   */
  method DeleteAsWritten(t: PieceTable, offset: nat, length: nat) returns (r: PieceTable)
    requires Valid(t) && t.totalLength < UsizeModulus && length < UsizeModulus
    ensures r.original == t.original && r.addBuffer == t.addBuffer && AllGood(r, r.pieces)
    ensures var T := Text(t); Text(r) == T[..Min(offset, |T|)] + T[Min(offset + length, |T|)..]
    ensures r.lineCount == CountNl(Text(r)) + 1
    ensures length == 0 || offset >= |Text(t)| ==> r == t
    ensures length > 0 && offset < |Text(t)| ==> (Valid(r) <==> offset + length <= |Text(t)|)
  {
    if length == 0 || offset >= t.totalLength {
      NoCut(Text(t), offset, length);
      r := t;
    } else {
      r := DeleteSomeAsWritten(t, offset, length);
    }
  }

  /** DeleteAsWritten past the early return. */
  method DeleteSomeAsWritten(t: PieceTable, offset: nat, length: nat) returns (r: PieceTable)
    requires Valid(t) && t.totalLength < UsizeModulus && length < UsizeModulus
    requires length > 0 && offset < t.totalLength
    ensures r.original == t.original && r.addBuffer == t.addBuffer && AllGood(r, r.pieces)
    ensures var T := Text(t); Text(r) == T[..Min(offset, |T|)] + T[Min(offset + length, |T|)..]
    ensures r.lineCount == CountNl(Text(r)) + 1
    ensures Valid(r) <==> offset + length <= |Text(t)|
  {
    var fixed := DeleteSome(t, offset, length);
    r := fixed.(totalLength := (t.totalLength - length) % UsizeModulus);
    SetLength(fixed, r, r.totalLength);
    ghost var T := Text(t);
    ghost var n := |Text(r)|;
    assert n == |T| - (Min(offset + length, |T|) - offset);
    WrappedLengthRight(|T|, offset, length);
    assert r.totalLength == n <==> offset + length <= |T|;
    assert Valid(r) <==> r.totalLength == n;
  }

  /** The smallest witness: deleting 3 bytes at offset 3 of "hello" leaves "hel" but a length of 2. */
  lemma DeletePastEndWitness()
    ensures var T := "hello"; var kept := T[..Min(3, |T|)] + T[Min(3 + 3, |T|)..];
      kept == "hel" && (|T| - 3) % UsizeModulus == 2 && |kept| != 2
  {
  }

  // ---------------------------------------------------------------------
  // get_line_offset, get_line

  lemma WholePrefix(T: string)
    ensures T[..|T|] == T
  {
  }

  /** A piece `P` found at `cur` in `T` splits `T` into what comes before, `P`, and what follows. */
  lemma PieceInContext(T: string, cur: nat, P: string)
    requires cur + |P| <= |T| && T[cur..cur + |P|] == P
    ensures T == T[..cur] + P + T[cur + |P|..]
    ensures T[..cur + |P|] == T[..cur] + P
  {
  }

  /** The feeds up to the end of a piece are those before it and those in it. */
  lemma FeedsThroughPiece(T: string, cur: nat, P: string)
    requires cur + |P| <= |T| && T[cur..cur + |P|] == P
    ensures CountNl(T[..cur + |P|]) == CountNl(T[..cur]) + CountNl(P)
  {
    PieceInContext(T, cur, P);
    CountNlConcat(T[..cur], P);
  }

  /** Line start `j` of a piece at `cur` is where line CountNl(T[..cur]) + j + 1 of `T` begins. */
  lemma PieceLineStart(T: string, cur: nat, P: string, j: nat)
    requires cur + |P| <= |T| && T[cur..cur + |P|] == P && j < CountNl(P)
    ensures j < |LineStartsOf(P)|
    ensures CountNl(T[..cur]) + j + 1 <= CountNl(T)
    ensures cur + LineStartsOf(P)[j] == LineStart(T, CountNl(T[..cur]) + j + 1)
  {
    PieceInContext(T, cur, P);
    LineStartInContext(T[..cur], P, T[cur + |P|..], j);
    LineStartUnique(T, CountNl(T[..cur]) + j + 1, cur + LineStartsOf(P)[j]);
  }

  /** PieceAt for a piece known to start at `cur`. */
  lemma PieceAtOffset(t: PieceTable, ps: seq<Piece>, i: nat, cur: nat)
    requires AllGood(t, ps) && i < |ps| && cur == SumLengths(ps[..i])
    ensures GoodPiece(t, ps[i]) && IsLineStartsOf(PieceText(t, ps[i]), ps[i].lineStarts)
    ensures cur + ps[i].length == SumLengths(ps[..i + 1]) <= |PiecesText(t, ps)|
    ensures PiecesText(t, ps)[cur..cur + ps[i].length] == PieceText(t, ps[i])
  {
    PieceAt(t, ps, i);
  }

  /** The line starts cached in piece `i`, which starts at `cur`, are those of its slice of the text. */
  lemma PieceLinesOf(t: PieceTable, ps: seq<Piece>, i: nat, cur: nat)
    requires AllGood(t, ps) && i < |ps| && cur == SumLengths(ps[..i])
    ensures cur + ps[i].length == SumLengths(ps[..i + 1]) <= |PiecesText(t, ps)|
    ensures ps[i].lineStarts == LineStartsOf(PiecesText(t, ps)[cur..cur + ps[i].length])
  {
    PieceAtOffset(t, ps, i, cur);
    IsLineStartsOfMeans(PieceText(t, ps[i]), ps[i].lineStarts);
  }

  /**
   * What the line starts `ls` of the slice `T[cur..cur + n]` say about `T`,
   * when `currentLine` line feeds come before it: the count after it, and
   * which lines of `T` begin inside it.
   */
  lemma SliceLines(T: string, cur: nat, n: nat, ls: seq<nat>, currentLine: nat, line: nat)
    requires cur + n <= |T| && ls == LineStartsOf(T[cur..cur + n])
    requires currentLine == CountNl(T[..cur])
    ensures CountNl(T[..cur + n]) == currentLine + |ls|
    ensures currentLine < line <= currentLine + |ls| ==>
      line <= CountNl(T) && cur + ls[line - currentLine - 1] == LineStart(T, line)
  {
    LinesOfPiece(T, cur, n, T[cur..cur + n], ls, currentLine, line);
  }

  /** SliceLines, stated for a piece text `P` of length `n` at `cur` in `T` with line starts `ls`. */
  lemma LinesOfPiece(T: string, cur: nat, n: nat, P: string, ls: seq<nat>, currentLine: nat, line: nat)
    requires cur + n <= |T| && |P| == n && T[cur..cur + n] == P && ls == LineStartsOf(P)
    requires currentLine == CountNl(T[..cur])
    ensures CountNl(T[..cur + n]) == currentLine + |ls|
    ensures currentLine < line <= currentLine + |ls| ==>
      line <= CountNl(T) && cur + ls[line - currentLine - 1] == LineStart(T, line)
  {
    LineStartsLength(P);
    FeedsThroughPiece(T, cur, P);
    if currentLine < line <= currentLine + |ls| {
      var j := line - currentLine - 1;
      PieceLineStart(T, cur, P, j);
      assert CountNl(T[..cur]) + j + 1 == line;
    }
  }

  /**
   * The inner loop of `get_line_offset`: count the line starts of one piece
   * from `currentLine` on, and stop at the one that begins line `line`.
   */
  method ScanLineStarts(lineStarts: seq<nat>, line: nat, cur: nat, currentLine: nat)
    returns (r: Option<nat>, nextLine: nat)
    requires currentLine < line
    ensures r.Some? <==> line <= currentLine + |lineStarts|
    ensures r.Some? ==> r.value == cur + lineStarts[line - currentLine - 1]
    ensures r.None? ==> nextLine == currentLine + |lineStarts|
  {
    nextLine := currentLine;
    var j := 0;
    while j < |lineStarts|
      invariant j <= |lineStarts| && nextLine == currentLine + j && nextLine < line
    {
      nextLine := nextLine + 1;
      if nextLine == line {
        return Some(cur + lineStarts[j]), nextLine;
      }
      j := j + 1;
    }
    r := None;
  }

  /**
   * `get_line_offset`: where line `line` (0-based) begins, or None past the
   * last line.
   */
  method GetLineOffset(t: PieceTable, line: nat) returns (r: Option<nat>)
    requires Valid(t)
    ensures r == if line < t.lineCount then Some(LineStart(Text(t), line)) else None
  {
    if line == 0 {
      return Some(0);
    }
    if line >= t.lineCount {
      return None;
    }
    var offset := FindLineStart(t, line);
    return Some(offset);
  }

  /** The scan of `get_line_offset` for a line after the first that exists. */
  method FindLineStart(t: PieceTable, line: nat) returns (offset: nat)
    requires Valid(t) && 0 < line < t.lineCount
    ensures offset == LineStart(Text(t), line)
  {
    ghost var T := Text(t);
    var ps := t.pieces;
    var currentLine := 0;
    var currentOffset := 0;
    var i := 0;
    assert T[..0] == [];
    while i < |ps|
      invariant i <= |ps| && currentOffset == SumLengths(ps[..i]) && currentOffset <= |T|
      invariant currentLine == CountNl(T[..currentOffset]) && currentLine < line
    {
      PieceLinesOf(t, ps, i, currentOffset);
      SliceLines(T, currentOffset, ps[i].length, ps[i].lineStarts, currentLine, line);
      var found;
      found, currentLine := ScanLineStarts(ps[i].lineStarts, line, currentOffset, currentLine);
      if found.Some? {
        return found.value;
      }
      currentOffset := currentOffset + ps[i].length;
      i := i + 1;
    }
    WholeSpan(t, ps);
    WholePrefix(T);
    assert false;
  }

  // ---------------------------------------------------------------------
  // get_line

  /** `get_line`: line `line` (0-based) without its '\n', or None past the last line. */
  method GetLine(t: PieceTable, line: nat) returns (r: Option<string>)
    requires Valid(t)
    ensures r.Some? <==> line < t.lineCount
    ensures r.Some? ==> r.value == SplitLines(Text(t))[line]
  {
    if line >= t.lineCount {
      return None;
    }
    var s := LineText(t, line);
    return Some(s);
  }

  /** The body of `get_line` for a line that exists. */
  method LineText(t: PieceTable, line: nat) returns (s: string)
    requires Valid(t) && line < t.lineCount
    ensures s == SplitLines(Text(t))[line]
  {
    ghost var T := Text(t);
    var start := GetLineOffset(t, line);
    if start.None? {
      assert false;
    }
    var startOffset := start.value;
    var endOffset := NextLineOffset(t, line);
    LineUpToNext(T, line, startOffset, endOffset);
    s := GetTextRange(t, startOffset, endOffset - startOffset);
    assert s == T[startOffset..endOffset];
    if |s| > 0 && s[|s| - 1] == '\n' {
      s := s[..|s| - 1];
    }
    assert s == DropFinalFeed(T[startOffset..endOffset]);
  }

  /** Where the text of line `line` stops in `get_line`: the next line's start, or the end. */
  method NextLineOffset(t: PieceTable, line: nat) returns (e: nat)
    requires Valid(t) && line < t.lineCount
    ensures e == if line < CountNl(Text(t)) then LineStart(Text(t), line + 1) else |Text(t)|
  {
    if line + 1 < t.lineCount {
      var next := GetLineOffset(t, line + 1);
      e := UnwrapOr(next, t.totalLength);
    } else {
      e := t.totalLength;
    }
  }

  // ---------------------------------------------------------------------
  // offset_to_position, position_to_offset

  /** `offset_to_position`: the line and column of `offset`, clamped to the end of the text. */
  method OffsetToPosition(t: PieceTable, offset: nat) returns (p: Positions.Position)
    requires Valid(t)
    ensures var T := Text(t); var c := Min(offset, |T|);
      p == Positions.Position(LineOf(T, c), ColumnOf(T, c))
    ensures p.line < t.lineCount
  {
    ghost var T := Text(t);
    if offset == 0 {
      assert T[..0] == [];
      assert LineOf(T, 0) == 0 && ColumnOf(T, 0) == 0;
      return Positions.Zero();
    }
    p := FindPosition(t, offset);
  }

  /**
   * `position_to_offset`: the offset of column `column` of line `line`, the
   * column clamped to the line's length (its '\n' excluded); None past the
   * last line.
   */
  method PositionToOffset(t: PieceTable, line: nat, column: nat) returns (r: Option<nat>)
    requires Valid(t)
    ensures r == if line < t.lineCount then Some(OffsetOf(Text(t), line, column)) else None
  {
    var lineOffset := GetLineOffset(t, line);
    if lineOffset.None? {
      return None;
    }
    var offset := ColumnOffset(t, line, column, lineOffset.value);
    return Some(offset);
  }

  /** The rest of `position_to_offset`, for a line that exists and starts at `lineOffset`. */
  method ColumnOffset(t: PieceTable, line: nat, column: nat, lineOffset: nat) returns (offset: nat)
    requires Valid(t) && line < t.lineCount && lineOffset == LineStart(Text(t), line)
    ensures offset == OffsetOf(Text(t), line, column)
  {
    ghost var T := Text(t);
    var lineText := GetLine(t, line);
    if lineText.None? {
      assert false;
    }
    LineLength(T, line);
    var maxColumn := |lineText.value|;
    assert maxColumn == LineEnd(T, line) - LineStart(T, line);
    var clampedColumn := Min(column, maxColumn);
    offset := lineOffset + clampedColumn;
  }

  /** The scan of `offset_to_position` for an offset past the start. */
  method FindPosition(t: PieceTable, offset: nat) returns (p: Positions.Position)
    requires Valid(t) && 0 < offset
    ensures var T := Text(t); var c := Min(offset, |T|);
      p == Positions.Position(LineOf(T, c), ColumnOf(T, c))
  {
    ghost var T := Text(t);
    var c := Min(offset, t.totalLength);
    var line := 0;
    var lastLineStart := 0;
    var currentOffset := 0;
    var ps := t.pieces;
    var i := 0;
    assert T[..0] == [];
    while i < |ps|
      invariant i <= |ps| && currentOffset == SumLengths(ps[..i]) && currentOffset <= c
      invariant line == CountNl(T[..currentOffset]) <= CountNl(T)
      invariant lastLineStart == LineStart(T, line)
    {
      TextIsMeans(t, ps, T);
      line, lastLineStart := PositionPiece(t, ps, T, i, c, currentOffset, line, lastLineStart);
      currentOffset := currentOffset + ps[i].length;
      if currentOffset >= c {
        assert line == CountNl(T[..c]);
        break;
      }
      i := i + 1;
    }
    if i == |ps| {
      WholeSpan(t, ps);
    }
    assert line == LineOf(T, c);
    LineStartAtOrBefore(T, c);
    p := Positions.NewPosition(line, c - lastLineStart);
  }

  /**
   * The body of `offset_to_position`'s loop for piece `i`, which starts at
   * `cur`: the line count and last line start once its line starts at or
   * before `c` are counted.
   */
  method PositionPiece(t: PieceTable, ps: seq<Piece>, ghost T: string, i: nat, c: nat, cur: nat, line: nat, last: nat)
    returns (line': nat, last': nat)
    requires AllGood(t, ps) && TextIs(t, ps, T) && i < |ps|
    requires cur == SumLengths(ps[..i]) && cur <= c <= |T|
    requires line == CountNl(T[..cur]) <= CountNl(T) && last == LineStart(T, line)
    ensures cur + ps[i].length == SumLengths(ps[..i + 1]) <= |T|
    ensures line' == CountNl(T[..Min(c, cur + ps[i].length)]) <= CountNl(T)
    ensures last' == LineStart(T, line')
  {
    PieceLinesIn(t, ps, T, i, cur);
    var k;
    k, line', last' := ScanPositionStarts(ps[i].lineStarts, cur, c, line, last);
    PositionInPiece(T, cur, ps[i].length, ps[i].lineStarts, c, k, line, last, last');
  }

  lemma PieceLinesIn(t: PieceTable, ps: seq<Piece>, T: string, i: nat, cur: nat)
    requires AllGood(t, ps) && TextIs(t, ps, T) && i < |ps| && cur == SumLengths(ps[..i])
    ensures cur + ps[i].length == SumLengths(ps[..i + 1]) <= |T|
    ensures ps[i].lineStarts == LineStartsOf(T[cur..cur + ps[i].length])
  {
    TextIsMeans(t, ps, T);
    PieceLinesOf(t, ps, i, cur);
  }

  /**
   * `T` is the text of `ps` (TextIsMeans says exactly that). It is written as
   * a quantifier over PiecesText so that the verifier uses the fact only
   * where a proof mentions PiecesText(t, ps), and otherwise reasons about `T`
   * as a plain string.
   */
  ghost predicate TextIs(t: PieceTable, ps: seq<Piece>, T: string) {
    forall ps' {:trigger PiecesText(t, ps')} :: ps' == ps && AllInBounds(t, ps') ==> T == PiecesText(t, ps')
  }

  lemma TextIsMeans(t: PieceTable, ps: seq<Piece>, T: string)
    requires AllInBounds(t, ps)
    ensures TextIs(t, ps, T) <==> T == PiecesText(t, ps)
  {
  }

  /**
   * `k` counts the leading entries of `ls` that, placed at `cur`, lie at or
   * before `c`: all of the first `k` do, and the next one, if any, does not.
   */
  predicate StartsAtOrBefore(ls: seq<nat>, cur: nat, c: nat, k: nat) {
    && k <= |ls|
    && (forall j :: 0 <= j < k ==> cur + ls[j] <= c)
    && (k < |ls| ==> c < cur + ls[k])
  }

  /**
   * The inner loop of `offset_to_position`: count the line starts of one
   * piece that lie at or before `c`, stopping at the first that does not,
   * and remember the last one counted.
   */
  method ScanPositionStarts(lineStarts: seq<nat>, cur: nat, c: nat, line: nat, last: nat)
    returns (k: nat, line': nat, last': nat)
    ensures StartsAtOrBefore(lineStarts, cur, c, k) && line' == line + k
    ensures last' == if k == 0 then last else cur + lineStarts[k - 1]
  {
    k, line', last' := 0, line, last;
    while k < |lineStarts|
      invariant k <= |lineStarts| && line' == line + k
      invariant forall j :: 0 <= j < k ==> cur + lineStarts[j] <= c
      invariant last' == if k == 0 then last else cur + lineStarts[k - 1]
    {
      var absoluteLineStart := cur + lineStarts[k];
      if absoluteLineStart <= c {
        line' := line' + 1;
        last' := absoluteLineStart;
      } else {
        break;
      }
      k := k + 1;
    }
  }

  /**
   * What ScanPositionStarts finds in the slice `T[cur..cur + n]` with line
   * starts `ls`: the feeds before `c` (or before the slice's end, if that
   * comes first), and the start of the line they lead to.
   */
  lemma PositionInPiece(T: string, cur: nat, n: nat, ls: seq<nat>, c: nat, k: nat, line: nat, last: nat, last': nat)
    requires cur + n <= |T| && cur <= c <= |T| && ls == LineStartsOf(T[cur..cur + n])
    requires line == CountNl(T[..cur]) <= CountNl(T) && last == LineStart(T, line)
    requires StartsAtOrBefore(ls, cur, c, k)
    requires last' == if k == 0 then last else cur + ls[k - 1]
    ensures line + k == CountNl(T[..Min(c, cur + n)]) <= CountNl(T)
    ensures last' == LineStart(T, line + k)
  {
    PositionCount(T, cur, n, ls, c, k, line);
    CountNlPrefixBound(T, Min(c, cur + n));
    if 0 < k {
      SliceLines(T, cur, n, ls, line, line + k);
    }
  }

  /** PositionInPiece's count. */
  lemma PositionCount(T: string, cur: nat, n: nat, ls: seq<nat>, c: nat, k: nat, line: nat)
    requires cur + n <= |T| && cur <= c && ls == LineStartsOf(T[cur..cur + n])
    requires line == CountNl(T[..cur]) && StartsAtOrBefore(ls, cur, c, k)
    ensures line + k == CountNl(T[..Min(c, cur + n)])
  {
    var P := T[cur..cur + n];
    var m := Min(c, cur + n) - cur;
    PrefixThroughSlice(T, cur, n, m);
    CountNlConcat(T[..cur], P[..m]);
    StartsUpTo(P, ls, cur, c, m, k);
  }

  lemma PrefixThroughSlice(T: string, cur: nat, n: nat, m: nat)
    requires m <= n && cur + n <= |T|
    ensures T[..cur + m] == T[..cur] + T[cur..cur + n][..m]
  {
  }

  /**
   * When the first `k` line starts of `P`, placed at `cur`, lie at or before
   * `c` and the next one (if any) does not, `k` is the number of feeds in
   * `P[..m]`, `m` being `c - cur` clamped to `|P|`.
   */
  lemma StartsUpTo(P: string, ls: seq<nat>, cur: nat, c: nat, m: nat, k: nat)
    requires ls == LineStartsOf(P) && cur <= c && m == Min(c - cur, |P|)
    requires StartsAtOrBefore(ls, cur, c, k)
    ensures k == CountNl(P[..m])
  {
    LineStartsCorrect(P);
    LineStartsLength(P);
    if 0 < k {
      assert cur + ls[k - 1] <= c;
      LineStartsBelow(P, m, k - 1);
    }
    if k < |ls| {
      LineStartsBelow(P, m, k);
    } else {
      CountNlPrefixBound(P, m);
    }
  }
}
