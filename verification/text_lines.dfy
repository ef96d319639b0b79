/**
 * Reference definitions about line feeds in a text. The engine stores every
 * text as bytes and separates lines by '\n' only; these definitions are the
 * yardstick the piece table's cached line data is measured against.
 *
 * Everything is defined back to front (a text is a shorter text plus one
 * character), the order in which `compute_line_starts` walks its input.
 */
module TextLines {

  /** Number of line feeds in `s` (`matches('\n').count()`). */
  function CountNl(s: string): nat {
    if |s| == 0 then 0
    else CountNl(s[..|s| - 1]) + (if s[|s| - 1] == '\n' then 1 else 0)
  }

  function Min(a: nat, b: nat): nat {
    if a <= b then a else b
  }

  lemma CountNlSnoc(s: string, c: char)
    ensures CountNl(s + [c]) == CountNl(s) + (if c == '\n' then 1 else 0)
  {
    assert (s + [c])[..|s|] == s;
  }

  lemma {:induction false} CountNlConcat(a: string, b: string)
    ensures CountNl(a + b) == CountNl(a) + CountNl(b)
  {
    if |b| == 0 {
      assert a + b == a;
    } else {
      var b', c := b[..|b| - 1], b[|b| - 1];
      assert b == b' + [c];
      assert a + b == (a + b') + [c];
      CountNlConcat(a, b');
      CountNlSnoc(a + b', c);
      CountNlSnoc(b', c);
    }
  }

  lemma CountNlPrefixStep(s: string, k: nat)
    requires k < |s|
    ensures CountNl(s[..k + 1]) == CountNl(s[..k]) + (if s[k] == '\n' then 1 else 0)
  {
    assert s[..k + 1] == s[..k] + [s[k]];
    CountNlSnoc(s[..k], s[k]);
  }

  /** A longer prefix holds at least as many feeds, and more when it ends in one. */
  lemma CountNlPrefixes(s: string, a: nat, b: nat)
    requires a <= b <= |s|
    ensures CountNl(s[..a]) <= CountNl(s[..b])
    ensures a < b && s[b - 1] == '\n' ==> CountNl(s[..a]) < CountNl(s[..b])
  {
    assert s[..b] == s[..a] + s[a..b];
    CountNlConcat(s[..a], s[a..b]);
    if a < b {
      assert s[a..b] == s[a..b - 1] + [s[b - 1]];
      CountNlSnoc(s[a..b - 1], s[b - 1]);
    }
  }

  lemma {:induction false} CountNlNone(s: string)
    requires forall i :: 0 <= i < |s| ==> s[i] != '\n'
    ensures CountNl(s) == 0
  {
    if |s| > 0 {
      CountNlNone(s[..|s| - 1]);
    }
  }

  lemma {:induction false} CountNlBound(s: string)
    ensures CountNl(s) <= |s|
  {
    if |s| > 0 {
      CountNlBound(s[..|s| - 1]);
    }
  }

  /** The line starts of `s`: the offset just past every '\n', in order (`compute_line_starts`). */
  function LineStartsOf(s: string): seq<nat> {
    if |s| == 0 then []
    else LineStartsOf(s[..|s| - 1]) + (if s[|s| - 1] == '\n' then [|s|] else [])
  }

  /** Appending one character adds a line start exactly when it is a '\n'. */
  lemma LineStartsSnoc(a: string, c: char)
    ensures LineStartsOf(a + [c]) == LineStartsOf(a) + (if c == '\n' then [|a| + 1] else [])
  {
    assert (a + [c])[..|a|] == a;
  }

  /**
   * What a `line_starts` cache must be for the text `s`: one entry per '\n';
   * entry `j` lies just past a '\n' and has exactly `j + 1` feeds before it
   * (so the entries are strictly increasing and no '\n' is left out).
   */
  predicate LineStartsSpec(s: string, r: seq<nat>) {
    && |r| == CountNl(s)
    && forall j :: 0 <= j < |r| ==> 1 <= r[j] <= |s| && s[r[j] - 1] == '\n' && CountNl(s[..r[j]]) == j + 1
  }

  /** LineStartsOf meets LineStartsSpec. */
  lemma {:induction false} LineStartsCorrect(s: string)
    ensures LineStartsSpec(s, LineStartsOf(s))
  {
    if |s| > 0 {
      var p, c := s[..|s| - 1], s[|s| - 1];
      assert s == p + [c];
      LineStartsCorrect(p);
      LineStartsStep(p, c);
    }
  }

  lemma LineStartsStep(p: string, c: char)
    requires LineStartsSpec(p, LineStartsOf(p))
    ensures LineStartsSpec(p + [c], LineStartsOf(p + [c]))
  {
    var s := p + [c];
    LineStartsSnoc(p, c);
    CountNlSnoc(p, c);
    var before := LineStartsOf(p);
    var r := LineStartsOf(s);
    forall j | 0 <= j < |r|
      ensures 1 <= r[j] <= |s| && s[r[j] - 1] == '\n' && CountNl(s[..r[j]]) == j + 1
    {
      if j < |before| {
        assert r[j] == before[j];
        assert s[..r[j]] == p[..r[j]];
      } else {
        assert r[j] == |s|;
        assert s[..|s|] == s;
      }
    }
  }

  lemma {:induction false} LineStartsLength(s: string)
    ensures |LineStartsOf(s)| == CountNl(s)
  {
    if |s| > 0 {
      LineStartsLength(s[..|s| - 1]);
    }
  }

  /** The line starts of `P` that lie at or before `k` are the first CountNl(P[..k]). */
  lemma LineStartsBelow(P: string, k: nat, j: nat)
    requires k <= |P| && j < CountNl(P)
    ensures j < |LineStartsOf(P)|
    ensures LineStartsOf(P)[j] <= k <==> j < CountNl(P[..k])
  {
    LineStartsCorrect(P);
    var e := LineStartsOf(P)[j];
    if e <= k {
      CountNlPrefixes(P, e, k);
    } else {
      CountNlPrefixStep(P, e - 1);
      CountNlPrefixes(P, k, e - 1);
    }
  }

  // ---------------------------------------------------------------------
  // Lines by number

  /** `off` is where line `l` of `s` begins: after exactly `l` line feeds, the last one just before it. */
  predicate IsLineStart(s: string, l: nat, off: nat) {
    off <= |s| && CountNl(s[..off]) == l && (off == 0 || s[off - 1] == '\n')
  }

  /** Offset of the first character of line `l` (0-based): just past the `l`-th '\n'. */
  function LineStart(s: string, l: nat): (r: nat)
    requires l <= CountNl(s)
    ensures r <= |s|
    decreases |s|
  {
    if l == 0 then 0
    else if l <= CountNl(s[..|s| - 1]) then LineStart(s[..|s| - 1], l)
    else |s|
  }

  /** LineStart(s, l) is where line `l` begins. */
  lemma {:induction false} LineStartIsLineStart(s: string, l: nat)
    requires l <= CountNl(s)
    ensures IsLineStart(s, l, LineStart(s, l))
    decreases |s|
  {
    if l == 0 {
      assert s[..0] == [];
    } else {
      var p, c := s[..|s| - 1], s[|s| - 1];
      assert s == p + [c];
      if l <= CountNl(p) {
        LineStartIsLineStart(p, l);
        var a := LineStart(p, l);
        assert s[..a] == p[..a];
      } else {
        assert s[..|s|] == s;
      }
    }
  }

  /** Line starts are strictly increasing. */
  lemma LineStartsIncrease(s: string, l: nat)
    requires l < CountNl(s)
    ensures LineStart(s, l) < LineStart(s, l + 1)
  {
    LineStartIsLineStart(s, l);
    LineStartIsLineStart(s, l + 1);
    var a, b := LineStart(s, l), LineStart(s, l + 1);
    if b <= a {
      CountNlPrefixes(s, b, a);
    }
  }

  /** Offset just past the last character of line `l`, its '\n' excluded. */
  function LineEnd(s: string, l: nat): (r: nat)
    requires l <= CountNl(s)
    ensures LineStart(s, l) <= r <= |s|
  {
    if l < CountNl(s) then LineStartsIncrease(s, l); LineStart(s, l + 1) - 1
    else |s|
  }

  /** No other offset is where line `l` begins. */
  lemma LineStartUnique(s: string, l: nat, off: nat)
    requires IsLineStart(s, l, off)
    ensures l <= CountNl(s) && off == LineStart(s, l)
  {
    CountNlPrefixes(s, off, |s|);
    assert s[..|s|] == s;
    var e := LineStart(s, l);
    LineStartIsLineStart(s, l);
    if e <= off {
      CountNlPrefixes(s, e, off);
    } else {
      CountNlPrefixes(s, off, e);
    }
  }

  /** The line feeds before the end of line `l` are exactly the `l` before its start. */
  lemma CountAtLineEnd(s: string, l: nat)
    requires l <= CountNl(s)
    ensures CountNl(s[..LineEnd(s, l)]) == l
  {
    if l < CountNl(s) {
      LineStartIsLineStart(s, l + 1);
      CountNlPrefixStep(s, LineEnd(s, l));
    } else {
      assert s[..|s|] == s;
    }
  }

  /** No '\n' lies inside a line. */
  lemma LineHasNoFeed(s: string, l: nat, i: nat)
    requires l <= CountNl(s)
    requires LineStart(s, l) <= i < LineEnd(s, l)
    ensures s[i] != '\n'
  {
    LineStartIsLineStart(s, l);
    CountAtLineEnd(s, l);
    CountNlPrefixStep(s, i);
    CountNlPrefixes(s, LineStart(s, l), i);
    CountNlPrefixes(s, i + 1, LineEnd(s, l));
  }

  /** A line that is not the last one is followed by its '\n', and the next line starts right after. */
  lemma LineFollowedByFeed(s: string, l: nat)
    requires l < CountNl(s)
    ensures LineEnd(s, l) < |s| && s[LineEnd(s, l)] == '\n'
    ensures LineStart(s, l + 1) == LineEnd(s, l) + 1
  {
    LineStartIsLineStart(s, l + 1);
  }

  /** A line start of `P` placed after `A` is a line start of `A + P + B`, numbered after A's feeds. */
  lemma LineStartInContext(A: string, P: string, B: string, j: nat)
    requires j < CountNl(P)
    ensures j < |LineStartsOf(P)|
    ensures IsLineStart(A + P + B, CountNl(A) + j + 1, |A| + LineStartsOf(P)[j])
  {
    LineStartsCorrect(P);
    var e := LineStartsOf(P)[j];
    var T := A + P + B;
    assert T[..|A| + e] == A + P[..e];
    CountNlConcat(A, P[..e]);
    assert T[|A| + e - 1] == P[e - 1];
  }

  // ---------------------------------------------------------------------
  // Splitting into lines

  /** The '\n'-separated segments of `s`, like Rust's `split('\n')`. */
  function SplitLines(s: string): (r: seq<string>)
    ensures |r| == CountNl(s) + 1
  {
    if |s| == 0 then [""]
    else
      var rest := SplitLines(s[..|s| - 1]);
      var c := s[|s| - 1];
      if c == '\n' then rest + [""]
      else rest[..|rest| - 1] + [rest[|rest| - 1] + [c]]
  }

  /** Lines glued back together with '\n' between them. */
  function JoinLines(lines: seq<string>): string
    requires |lines| > 0
  {
    if |lines| == 1 then lines[0]
    else JoinLines(lines[..|lines| - 1]) + "\n" + lines[|lines| - 1]
  }

  /** Splitting loses nothing: joining the lines gives the text back. */
  lemma {:induction false} SplitJoinRoundTrip(s: string)
    ensures JoinLines(SplitLines(s)) == s
  {
    if |s| > 0 {
      var p, c := s[..|s| - 1], s[|s| - 1];
      assert s == p + [c];
      SplitJoinRoundTrip(p);
      if c == '\n' {
        JoinSnocFeed(SplitLines(p));
      } else {
        JoinSnocChar(SplitLines(p), c);
      }
    }
  }

  lemma JoinSnocFeed(rest: seq<string>)
    requires |rest| > 0
    ensures JoinLines(rest + [""]) == JoinLines(rest) + "\n"
  {
    assert (rest + [""])[..|rest|] == rest;
  }

  lemma JoinSnocChar(rest: seq<string>, c: char)
    requires |rest| > 0
    ensures JoinLines(rest[..|rest| - 1] + [rest[|rest| - 1] + [c]]) == JoinLines(rest) + [c]
  {
    var n := |rest|;
    var r := rest[..n - 1] + [rest[n - 1] + [c]];
    if n > 1 {
      assert r[..n - 1] == rest[..n - 1];
    }
  }

  /** Line `l` of SplitLines is the slice between LineStart and LineEnd. */
  lemma {:induction false} SplitLinesSegment(s: string, l: nat)
    requires l <= CountNl(s)
    ensures SplitLines(s)[l] == s[LineStart(s, l)..LineEnd(s, l)]
  {
    if |s| > 0 {
      var p, c := s[..|s| - 1], s[|s| - 1];
      assert s == p + [c];
      CountNlSnoc(p, c);
      if l <= CountNl(p) {
        SplitLinesSegment(p, l);
        LineBoundsSnoc(p, c, l);
        if l < CountNl(p) || c == '\n' {
          SegmentSnocKeep(p, c, l, LineStart(p, l), LineEnd(p, l));
        } else {
          SegmentSnocGrow(p, c, LineStart(p, l));
        }
      } else {
        SegmentNewLine(p, c);
      }
    }
  }

  /** How LineStart and LineEnd of an existing line change when a character is appended. */
  lemma LineBoundsSnoc(p: string, c: char, l: nat)
    requires l <= CountNl(p)
    ensures l <= CountNl(p + [c])
    ensures LineStart(p + [c], l) == LineStart(p, l)
    ensures l < CountNl(p) || c == '\n' ==> LineEnd(p + [c], l) == LineEnd(p, l)
    ensures l == CountNl(p) && c != '\n' ==> LineEnd(p + [c], l) == |p| + 1
  {
    var s := p + [c];
    assert s[..|s| - 1] == p;
    CountNlSnoc(p, c);
  }

  /** Appending a character: the earlier lines stay, and the last one grows unless it was a '\n'. */
  lemma SplitLinesSnoc(p: string, c: char, l: nat)
    requires l <= CountNl(p)
    ensures l < CountNl(p) || c == '\n' ==> SplitLines(p + [c])[l] == SplitLines(p)[l]
    ensures l == CountNl(p) && c != '\n' ==> SplitLines(p + [c])[l] == SplitLines(p)[l] + [c]
  {
    assert (p + [c])[..|p|] == p;
  }

  lemma SegmentSnocKeep(p: string, c: char, l: nat, a: nat, b: nat)
    requires l < CountNl(p) || (l == CountNl(p) && c == '\n')
    requires a <= b <= |p| && SplitLines(p)[l] == p[a..b]
    ensures SplitLines(p + [c])[l] == (p + [c])[a..b]
  {
    SplitLinesSnoc(p, c, l);
    SnocSlice(p, c, a, b);
  }

  lemma SegmentSnocGrow(p: string, c: char, a: nat)
    requires c != '\n' && a <= |p|
    requires SplitLines(p)[CountNl(p)] == p[a..]
    ensures SplitLines(p + [c])[CountNl(p)] == (p + [c])[a..]
  {
    SplitLinesSnoc(p, c, CountNl(p));
    SnocSuffix(p, c, a);
  }

  lemma SnocSlice(p: string, c: char, a: nat, b: nat)
    requires a <= b <= |p|
    ensures (p + [c])[a..b] == p[a..b]
  {
  }

  lemma SnocSuffix(p: string, c: char, a: nat)
    requires a <= |p|
    ensures (p + [c])[a..] == p[a..] + [c]
  {
  }

  lemma SegmentNewLine(p: string, c: char)
    requires CountNl(p) < CountNl(p + [c])
    ensures SplitLines(p + [c])[CountNl(p) + 1] == []
    ensures LineStart(p + [c], CountNl(p) + 1) == LineEnd(p + [c], CountNl(p) + 1)
  {
    var s := p + [c];
    assert s[..|s| - 1] == p;
    CountNlSnoc(p, c);
  }

  /** The segments SplitLines produces contain no '\n'. */
  lemma SplitLinesNoFeed(s: string, l: nat)
    requires l <= CountNl(s)
    ensures '\n' !in SplitLines(s)[l]
  {
    SplitLinesSegment(s, l);
    forall i | LineStart(s, l) <= i < LineEnd(s, l)
      ensures s[i] != '\n'
    {
      LineHasNoFeed(s, l, i);
    }
  }

  /** `s` without its last character when that is a '\n' (`ends_with('\n')` then `pop`). */
  function DropFinalFeed(s: string): (r: string)
    ensures s == r || s == r + "\n"
  {
    if |s| > 0 && s[|s| - 1] == '\n' then s[..|s| - 1] else s
  }

  /**
   * Line `l` read as the span from its start `a` to the start `e` of the
   * next line (or to the end of the text, for the last line), less a final
   * '\n', is its segment in SplitLines.
   */
  lemma LineUpToNext(s: string, l: nat, a: nat, e: nat)
    requires l <= CountNl(s) && a == LineStart(s, l)
    requires e == if l < CountNl(s) then LineStart(s, l + 1) else |s|
    ensures a <= e <= |s| && DropFinalFeed(s[a..e]) == SplitLines(s)[l]
  {
    SplitLinesSegment(s, l);
    var b := LineEnd(s, l);
    if l < CountNl(s) {
      LineFollowedByFeed(s, l);
      assert s[a..b + 1][..b - a] == s[a..b];
    } else if a < b {
      LineHasNoFeed(s, l, b - 1);
    }
  }

  /** Segment `l` is as long as the span from the line's start to its end. */
  lemma LineLength(s: string, l: nat)
    requires l <= CountNl(s)
    ensures |SplitLines(s)[l]| == LineEnd(s, l) - LineStart(s, l)
  {
    SplitLinesSegment(s, l);
  }

  // ---------------------------------------------------------------------
  // Offsets and (line, column) positions

  /** A line start with more feeds before it than offset `c` lies after `c`. */
  lemma LaterLineStart(s: string, c: nat, l: nat, e: nat)
    requires c <= |s| && CountNl(s[..c]) < l && IsLineStart(s, l, e)
    ensures c < e
  {
    if e <= c {
      CountNlPrefixes(s, e, c);
    }
  }

  /** A line start with no more feeds before it than offset `c` lies at or before `c`. */
  lemma EarlierLineStart(s: string, c: nat, l: nat, a: nat)
    requires c <= |s| && l <= CountNl(s[..c]) && IsLineStart(s, l, a)
    ensures a <= c
  {
    if c < a {
      CountNlPrefixes(s, c, a);
    }
  }

  /** A prefix holds no more feeds than the whole text. */
  lemma CountNlPrefixBound(s: string, c: nat)
    requires c <= |s|
    ensures CountNl(s[..c]) <= CountNl(s)
  {
    CountNlPrefixes(s, c, |s|);
    assert s[..|s|] == s;
  }

  /** The line an offset lies on begins at or before it and ends at or after it. */
  lemma LineStartAtOrBefore(s: string, c: nat)
    requires c <= |s|
    ensures CountNl(s[..c]) <= CountNl(s)
    ensures LineStart(s, CountNl(s[..c])) <= c <= LineEnd(s, CountNl(s[..c]))
  {
    var l := CountNl(s[..c]);
    CountNlPrefixBound(s, c);
    StartNotAfter(s, c, l);
    EndNotBefore(s, c, l);
  }

  lemma StartNotAfter(s: string, c: nat, l: nat)
    requires c <= |s| && l == CountNl(s[..c]) <= CountNl(s)
    ensures LineStart(s, l) <= c
  {
    LineStartIsLineStart(s, l);
    EarlierLineStart(s, c, l, LineStart(s, l));
  }

  lemma EndNotBefore(s: string, c: nat, l: nat)
    requires c <= |s| && l == CountNl(s[..c]) <= CountNl(s)
    ensures c <= LineEnd(s, l)
  {
    if l < CountNl(s) {
      var e := LineStart(s, l + 1);
      LineStartIsLineStart(s, l + 1);
      LaterLineStart(s, c, l + 1, e);
      assert LineEnd(s, l) == e - 1;
    }
  }

  /** The line offset `c` lies on: the number of '\n' before it. */
  function LineOf(s: string, c: nat): (l: nat)
    requires c <= |s|
    ensures l <= CountNl(s)
  {
    CountNlPrefixes(s, c, |s|);
    assert s[..|s|] == s;
    CountNl(s[..c])
  }

  /** The column of offset `c`: how far it lies past the start of its line. */
  function ColumnOf(s: string, c: nat): (col: nat)
    requires c <= |s|
    ensures col <= LineEnd(s, LineOf(s, c)) - LineStart(s, LineOf(s, c))
  {
    LineStartAtOrBefore(s, c);
    c - LineStart(s, LineOf(s, c))
  }

  /** The offset of column `col` of line `l`, the column clamped to the line's length. */
  function OffsetOf(s: string, l: nat, col: nat): (c: nat)
    requires l <= CountNl(s)
    ensures LineStart(s, l) <= c <= LineEnd(s, l)
  {
    LineStart(s, l) + Min(col, LineEnd(s, l) - LineStart(s, l))
  }

  /** From an offset to its position and back gives the offset again. */
  lemma OffsetPositionOffset(s: string, c: nat)
    requires c <= |s|
    ensures OffsetOf(s, LineOf(s, c), ColumnOf(s, c)) == c
  {
    LineStartAtOrBefore(s, c);
  }

  /**
   * From a position to its offset and back gives the same line and the
   * column clamped to the line's length; an in-range position comes back
   * unchanged.
   */
  lemma PositionOffsetPosition(s: string, l: nat, col: nat)
    requires l <= CountNl(s)
    ensures var c := OffsetOf(s, l, col);
      LineOf(s, c) == l && ColumnOf(s, c) == Min(col, LineEnd(s, l) - LineStart(s, l))
  {
    var c := OffsetOf(s, l, col);
    InsideLine(s, l, LineStart(s, l), c, LineEnd(s, l));
  }

  /** Every offset between the start and the end of line `l` has exactly `l` feeds before it. */
  lemma InsideLine(s: string, l: nat, a: nat, c: nat, b: nat)
    requires l <= CountNl(s) && a == LineStart(s, l) && b == LineEnd(s, l) && a <= c <= b
    ensures CountNl(s[..c]) == l
  {
    LineStartIsLineStart(s, l);
    CountAtLineEnd(s, l);
    CountNlPrefixes(s, a, c);
    CountNlPrefixes(s, c, b);
  }

  // ---------------------------------------------------------------------
  // Slicing facts used by the piece table

  lemma SliceAround(P: string, R: string, k: nat)
    requires k <= |P|
    ensures (P + R)[..k] == P[..k] && (P + R)[k..] == P[k..] + R
  {
  }

  /** Splicing `X` into `R` at `j` and putting `P` in front is splicing into `P + R` at `|P| + j`. */
  lemma SpliceShift(P: string, R: string, X: string, j: nat)
    requires j <= |R|
    ensures (P + R)[..|P| + j] + X + (P + R)[|P| + j..] == P + (R[..j] + X + R[j..])
  {
    assert (P + R)[..|P| + j] == P + R[..j];
    assert (P + R)[|P| + j..] == R[j..];
  }

  /** Cutting `T[a..b]` out of `T` removes exactly the feeds inside it. */
  lemma CountNlCut(T: string, a: nat, b: nat)
    requires a <= b <= |T|
    ensures CountNl(T[..a] + T[b..]) + CountNl(T[a..b]) == CountNl(T)
  {
    assert T == T[..a] + T[a..b] + T[b..];
    CountNlConcat(T[..a], T[b..]);
    CountNlConcat(T[..a] + T[a..b], T[b..]);
    CountNlConcat(T[..a], T[a..b]);
  }

  lemma CountNlSplice(T: string, k: nat, X: string)
    requires k <= |T|
    ensures CountNl(T[..k] + X + T[k..]) == CountNl(T) + CountNl(X)
  {
    assert T == T[..k] + T[k..];
    CountNlConcat(T[..k], T[k..]);
    CountNlConcat(T[..k] + X, T[k..]);
    CountNlConcat(T[..k], X);
  }
}
