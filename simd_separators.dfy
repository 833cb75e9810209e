/** src/parser/simd_parser.rs, lines 10-65: finding the `;` and `\n` separators of a
    window of the buffer and turning their positions into one `[name length, value
    length]` pair per line, by a scalar scan or by 64-lane SIMD masks. */
module SimdSeparators {

  import opened ParserFunc

  const LANE_WIDTH: nat := 64

  /** `SepPositions`, `[usize; 2]`: the length of a line's name and of its value. The
      model computes them as integers; `IterFits` shows that they are never negative,
      so the `usize` subtractions of the source never underflow. */
  type SepPositions = (int, int)

  predicate IsSeparator(b: byte) {
    b == SEMICOLON || b == NEWLINE
  }

  predicate NoSeparator(s: seq<byte>) {
    forall i :: 0 <= i < |s| ==> !IsSeparator(s[i])
  }

  /** The index of the first separator at or after `from`, or `|s|`. */
  function FindSep(s: seq<byte>, from: nat): (r: nat)
    requires from <= |s|
    ensures from <= r <= |s|
    ensures r < |s| ==> IsSeparator(s[r])
    decreases |s| - from
  {
    if from == |s| then |s|
    else if IsSeparator(s[from]) then from
    else FindSep(s, from + 1)
  }

  // ---------------------------------------------------------------------------------
  // The scalar scan, `find_separators_iter`.

  /** `chunk.iter().enumerate().filter_map(..)` from index `i` on: the indices of the
      separators, in increasing order. */
  function SepsFrom(chunk: seq<byte>, i: nat): seq<int>
    requires i <= |chunk|
    decreases |chunk| - i
  {
    if i == |chunk| then []
    else (if IsSeparator(chunk[i]) then [i] else []) + SepsFrom(chunk, i + 1)
  }

  /** `map_windows(|[x, y]| if x == &0 { y - x } else { y - x - 1 })` over `[x] + ys`:
      the distance from each position to the next, less the separator itself, except
      after a position 0, which is taken to be the start of the window and not a
      separator. */
  function Windows(x: int, ys: seq<int>): (ws: seq<int>)
    ensures |ws| == |ys|
    decreases |ys|
  {
    if ys == [] then []
    else [if x == 0 then ys[0] - x else ys[0] - x - 1] + Windows(ys[0], ys[1..])
  }

  /** `array_chunks::<2>()`: consecutive elements two by two; an odd last one is dropped. */
  function Pairs(ws: seq<int>): (ps: seq<SepPositions>)
    ensures |ps| == |ws| / 2
  {
    if |ws| < 2 then [] else [(ws[0], ws[1])] + Pairs(ws[2..])
  }

  /** `find_separators_iter`: the sentinel `0` followed by the separators' indices, the
      windows over them, paired. */
  function FindSeparatorsIter(chunk: seq<byte>): seq<SepPositions> {
    Pairs(Windows(0, SepsFrom(chunk, 0)))
  }

  // ---------------------------------------------------------------------------------
  // The SIMD scan, `find_separators_simd`.

  /** `chunk_simd.simd_eq(Simd::splat(b))` over the first `LANE_WIDTH` bytes. */
  function LaneEq(chunk: seq<byte>, b: byte): (mask: seq<bool>)
    requires |chunk| >= LANE_WIDTH
    ensures |mask| == LANE_WIDTH
  {
    seq(LANE_WIDTH, i requires 0 <= i < LANE_WIDTH => chunk[i] == b)
  }

  /** Lane-wise `|` of two masks. */
  function MaskOr(m1: seq<bool>, m2: seq<bool>): (mask: seq<bool>)
    requires |m1| == |m2|
    ensures |mask| == |m1|
  {
    seq(|m1|, i requires 0 <= i < |m1| => m1[i] || m2[i])
  }

  /** `(0..LANE_WIDTH).filter(|i| mask.test(*i))` from lane `i` on. */
  function Lanes(mask: seq<bool>, i: nat): seq<int>
    requires i <= |mask|
    decreases |mask| - i
  {
    if i == |mask| then []
    else (if mask[i] then [i] else []) + Lanes(mask, i + 1)
  }

  /** `find_separators_simd`: `Simd::from_slice` reads the first `LANE_WIDTH` bytes (and
      panics on a shorter chunk); the lanes equal to `;` or `\n` are the separators. */
  function FindSeparatorsSimd(chunk: seq<byte>): seq<SepPositions>
    requires |chunk| >= LANE_WIDTH
  {
    var mask := MaskOr(LaneEq(chunk, SEMICOLON), LaneEq(chunk, NEWLINE));
    Pairs(Windows(0, Lanes(mask, 0)))
  }

  /** The set lanes of the mask are the separators of the first `LANE_WIDTH` bytes. */
  lemma {:induction false} LanesAreSeps(chunk: seq<byte>, i: nat)
    requires |chunk| >= LANE_WIDTH && i <= LANE_WIDTH
    ensures Lanes(MaskOr(LaneEq(chunk, SEMICOLON), LaneEq(chunk, NEWLINE)), i)
         == SepsFrom(chunk[..LANE_WIDTH], i)
    decreases LANE_WIDTH - i
  {
    if i < LANE_WIDTH {
      LanesAreSeps(chunk, i + 1);
    }
  }

  /** The SIMD scan finds the pairs the scalar scan finds in the first `LANE_WIDTH`
      bytes. */
  lemma SimdIsIter(chunk: seq<byte>)
    requires |chunk| >= LANE_WIDTH
    ensures FindSeparatorsSimd(chunk) == FindSeparatorsIter(chunk[..LANE_WIDTH])
  {
    LanesAreSeps(chunk, 0);
  }

  /** `find_separators`: SIMD for a chunk of at least `LANE_WIDTH` bytes, the scalar scan
      for a shorter one. */
  function FindSeparators(chunk: seq<byte>): seq<SepPositions> {
    if |chunk| >= LANE_WIDTH then FindSeparatorsSimd(chunk) else FindSeparatorsIter(chunk)
  }

  /** On the windows `parse_line` passes it, at most `LANE_WIDTH` bytes, the dispatch
      finds what the scalar scan finds. */
  lemma FindSeparatorsIsIter(chunk: seq<byte>)
    requires |chunk| <= LANE_WIDTH
    ensures FindSeparators(chunk) == FindSeparatorsIter(chunk)
  {
    if |chunk| >= LANE_WIDTH {
      SimdIsIter(chunk);
      assert chunk[..LANE_WIDTH] == chunk;
    }
  }

  // ---------------------------------------------------------------------------------
  // What the pairs mean.

  /** The lengths of the pieces of `s` from index `i` on that end at a separator, in
      order; the piece after the last separator is not one of them. */
  function PiecesFrom(s: seq<byte>, i: nat): seq<int>
    requires i <= |s|
    decreases |s| - i
  {
    if FindSep(s, i) == |s| then [] else [FindSep(s, i) - i] + PiecesFrom(s, FindSep(s, i) + 1)
  }

  /** Bytes without separators from `i` to `j` leave the next separator where it is. */
  lemma {:induction false} FindSepSkip(s: seq<byte>, i: nat, j: nat)
    requires i <= j <= |s| && forall k :: i <= k < j ==> !IsSeparator(s[k])
    ensures FindSep(s, i) == FindSep(s, j)
    decreases j - i
  {
    if i < j {
      FindSepSkip(s, i + 1, j);
    }
  }

  /** The separators from `i` on: the first one, then those after it. */
  lemma {:induction false} SepsSkip(s: seq<byte>, i: nat)
    requires i <= |s|
    ensures FindSep(s, i) == |s| ==> SepsFrom(s, i) == []
    ensures FindSep(s, i) < |s| ==> SepsFrom(s, i) == [FindSep(s, i)] + SepsFrom(s, FindSep(s, i) + 1)
    decreases |s| - i
  {
    if i < |s| {
      if IsSeparator(s[i]) {
        assert FindSep(s, i) == i;
        assert SepsFrom(s, i) == [i] + SepsFrom(s, i + 1);
      } else {
        SepsSkip(s, i + 1);
        var e := FindSep(s, i + 1);
        assert FindSep(s, i) == e;
        assert SepsFrom(s, i) == [] + SepsFrom(s, i + 1) == SepsFrom(s, i + 1);
        if e < |s| {
          assert SepsFrom(s, i) == [e] + SepsFrom(s, e + 1);
        }
      }
    }
  }

  /** The windows over one more position. */
  lemma WindowsCons(x: int, y: int, rest: seq<int>)
    ensures Windows(x, [y] + rest) == [if x == 0 then y else y - x - 1] + Windows(y, rest)
  {
    assert ([y] + rest)[0] == y && ([y] + rest)[1..] == rest;
  }

  /** After a separator at `x > 0`, the windows are the lengths of the pieces. */
  lemma {:induction false} WindowsArePieces(s: seq<byte>, x: nat)
    requires 1 <= x && x + 1 <= |s|
    ensures Windows(x, SepsFrom(s, x + 1)) == PiecesFrom(s, x + 1)
    decreases |s| - x
  {
    var e := FindSep(s, x + 1);
    SepsSkip(s, x + 1);
    if e < |s| {
      WindowsArePieces(s, e);
      WindowsCons(x, e, SepsFrom(s, e + 1));
    }
  }

  /** When the window does not start with a separator, the sentinel behaves as the
      start of the first piece, and the windows are exactly the piece lengths. */
  lemma IterIsPieces(chunk: seq<byte>)
    requires chunk == [] || !IsSeparator(chunk[0])
    ensures FindSeparatorsIter(chunk) == Pairs(PiecesFrom(chunk, 0))
  {
    var e := FindSep(chunk, 0);
    SepsSkip(chunk, 0);
    if e < |chunk| {
      WindowsCons(0, e, SepsFrom(chunk, e + 1));
      WindowsArePieces(chunk, e);
    }
  }

  /** A window that starts with a separator: the sentinel `0` and the separator at index
      0 are both taken for the start of the window, so the first value length is one too
      long (the second piece, with the separator that ends the first). */
  lemma IterQuirk(chunk: seq<byte>)
    requires chunk != [] && IsSeparator(chunk[0])
    ensures FindSep(chunk, 1) == |chunk| ==> FindSeparatorsIter(chunk) == []
    ensures FindSep(chunk, 1) < |chunk| ==>
              FindSeparatorsIter(chunk) == [(0, FindSep(chunk, 1))] + Pairs(PiecesFrom(chunk, FindSep(chunk, 1) + 1))
  {
    var e := FindSep(chunk, 1);
    QuirkHead(chunk);
    if e < |chunk| {
      QuirkRest(chunk);
      assert Windows(0, SepsFrom(chunk, 0)) == [0, e] + PiecesFrom(chunk, e + 1);
      PairsCons(0, e, PiecesFrom(chunk, e + 1));
    } else {
      SepsSkip(chunk, 1);
    }
  }

  /** The separator at index 0 follows the sentinel `0`: a first window of `0`. */
  lemma QuirkHead(chunk: seq<byte>)
    requires chunk != [] && IsSeparator(chunk[0])
    ensures Windows(0, SepsFrom(chunk, 0)) == [0] + Windows(0, SepsFrom(chunk, 1))
  {
    SepsSkip(chunk, 0);
    WindowsCons(0, 0, SepsFrom(chunk, 1));
  }

  /** After the separator at index 0, the windows run from 0 again. */
  lemma QuirkRest(chunk: seq<byte>)
    requires 1 <= |chunk| && FindSep(chunk, 1) < |chunk|
    ensures Windows(0, SepsFrom(chunk, 1)) == [FindSep(chunk, 1)] + PiecesFrom(chunk, FindSep(chunk, 1) + 1)
  {
    var e := FindSep(chunk, 1);
    SepsSkip(chunk, 1);
    WindowsCons(0, e, SepsFrom(chunk, e + 1));
    WindowsArePieces(chunk, e);
  }

  /** The pairs of two more lengths. */
  lemma PairsCons(a: int, b: int, ws: seq<int>)
    ensures Pairs([a, b] + ws) == [(a, b)] + Pairs(ws)
  {
    assert ([a, b] + ws)[2..] == ws;
  }

  // ---------------------------------------------------------------------------------
  // The pairs stay inside the buffer.

  /** `parse_line` can consume the pending pairs from `cursor` on: each name and value
      slice ends within the buffer of `len` bytes. */
  predicate PairsFit(len: nat, cursor: nat, next: seq<SepPositions>)
    decreases |next|
  {
    next == [] ||
    (0 <= next[0].0 && 0 <= next[0].1 && cursor + next[0].0 + 1 + next[0].1 <= len && PairsFit(len, cursor + next[0].0 + next[0].1 + 2, next[1..]))
  }

  /** The pairs of the pieces of `s` from `i` on, consumed from `cursor`, stay within
      `len` bytes when `s` ends at most one byte past them. */
  lemma {:induction false} PiecesFit(s: seq<byte>, i: nat, cursor: nat, len: nat)
    requires i <= |s| && cursor + |s| <= len + 1 + i
    ensures PairsFit(len, cursor, Pairs(PiecesFrom(s, i)))
    decreases |s| - i
  {
    var a := FindSep(s, i);
    if a < |s| {
      var b := FindSep(s, a + 1);
      if b < |s| {
        var rest := PiecesFrom(s, b + 1);
        assert PiecesFrom(s, i) == [a - i, b - a - 1] + rest;
        PairsCons(a - i, b - a - 1, rest);
        PiecesFit(s, b + 1, cursor + (a - i) + (b - a - 1) + 2, len);
        var ps := [(a - i, b - a - 1)] + Pairs(rest);
        assert ps[0] == (a - i, b - a - 1) && ps[1..] == Pairs(rest);
      }
    }
  }

  /** Every pair the scalar scan finds in a window starting at `cursor` stays within the
      buffer, a window starting with a separator included. */
  lemma IterFits(chunk: seq<byte>, cursor: nat, len: nat)
    requires cursor + |chunk| <= len
    ensures PairsFit(len, cursor, FindSeparatorsIter(chunk))
  {
    if chunk == [] || !IsSeparator(chunk[0]) {
      IterIsPieces(chunk);
      PiecesFit(chunk, 0, cursor, len);
    } else {
      IterQuirk(chunk);
      var e := FindSep(chunk, 1);
      if e < |chunk| {
        PiecesFit(chunk, e + 1, cursor + e + 2, len);
      }
    }
  }

  // ---------------------------------------------------------------------------------
  // Windows over well-formed lines.

  /** A line as the parser expects it: `name;value\n`. */
  function LineBytes(line: (seq<byte>, seq<byte>)): (s: seq<byte>)
    ensures |s| == |line.0| + |line.1| + 2
  {
    line.0 + [SEMICOLON] + line.1 + [NEWLINE]
  }

  /** Lines one after the other. */
  function Layout(lines: seq<(seq<byte>, seq<byte>)>): seq<byte> {
    if lines == [] then [] else LineBytes(lines[0]) + Layout(lines[1..])
  }

  /** A name that is not empty, and a name and a value without separators. */
  predicate WellFormed(lines: seq<(seq<byte>, seq<byte>)>) {
    forall k :: 0 <= k < |lines| ==> lines[k].0 != [] && NoSeparator(lines[k].0) && NoSeparator(lines[k].1)
  }

  predicate AtMostOneSeparator(s: seq<byte>) {
    forall i, j :: 0 <= i < j < |s| && IsSeparator(s[i]) ==> !IsSeparator(s[j])
  }

  /** The `[name length, value length]` of each line. */
  function Lengths(lines: seq<(seq<byte>, seq<byte>)>): (ps: seq<SepPositions>)
    ensures |ps| == |lines|
  {
    if lines == [] then [] else [(|lines[0].0|, |lines[0].1|)] + Lengths(lines[1..])
  }

  /** The lines that lie entirely within the first `j` bytes of their layout. */
  function Complete(lines: seq<(seq<byte>, seq<byte>)>, j: nat): (done: seq<(seq<byte>, seq<byte>)>)
    ensures |done| <= |lines| && done == lines[..|done|]
  {
    if lines == [] || j < |LineBytes(lines[0])| then []
    else
      var rest := Complete(lines[1..], j - |LineBytes(lines[0])|);
      assert lines[1..][..|rest|] == lines[1..1 + |rest|];
      [lines[0]] + rest
  }

  /** A prefix that covers every line covers them all. */
  lemma {:induction false} CompleteWhole(lines: seq<(seq<byte>, seq<byte>)>, j: nat)
    requires j >= |Layout(lines)|
    ensures Complete(lines, j) == lines
  {
    if lines != [] {
      CompleteWhole(lines[1..], j - |LineBytes(lines[0])|);
      assert [lines[0]] + lines[1..] == lines;
    }
  }

  /** The next separator in `p + r` past `p` is the one in `r`, shifted. */
  lemma {:induction false} FindSepShift(p: seq<byte>, r: seq<byte>, i: nat)
    requires i <= |r|
    ensures FindSep(p + r, |p| + i) == |p| + FindSep(r, i)
    decreases |r| - i
  {
    if i < |r| {
      assert (p + r)[|p| + i] == r[i];
      FindSepShift(p, r, i + 1);
    }
  }

  /** The pieces of `p + r` past `p` are those of `r`. */
  lemma {:induction false} PiecesShift(p: seq<byte>, r: seq<byte>, i: nat)
    requires i <= |r|
    ensures PiecesFrom(p + r, |p| + i) == PiecesFrom(r, i)
    decreases |r| - i
  {
    FindSepShift(p, r, i);
    if FindSep(r, i) < |r| {
      PiecesShift(p, r, FindSep(r, i) + 1);
    }
  }

  /** A piece without separators, then a separator. */
  lemma PiecesCons(n: seq<byte>, b: byte, rest: seq<byte>)
    requires NoSeparator(n) && IsSeparator(b)
    ensures PiecesFrom(n + [b] + rest, 0) == [|n|] + PiecesFrom(rest, 0)
  {
    var s := n + [b] + rest;
    assert s == (n + [b]) + rest;
    assert forall k :: 0 <= k < |n| ==> s[k] == n[k];
    FindSepSkip(s, 0, |n|);
    assert s[|n|] == b;
    PiecesShift(n + [b], rest, 0);
  }

  /** A well-formed line is two pieces: its name and its value. */
  lemma PiecesLine(line: (seq<byte>, seq<byte>), rest: seq<byte>)
    requires NoSeparator(line.0) && NoSeparator(line.1)
    ensures PiecesFrom(LineBytes(line) + rest, 0) == [|line.0|, |line.1|] + PiecesFrom(rest, 0)
  {
    assert LineBytes(line) + rest == line.0 + [SEMICOLON] + (line.1 + [NEWLINE] + rest);
    PiecesCons(line.0, SEMICOLON, line.1 + [NEWLINE] + rest);
    PiecesCons(line.1, NEWLINE, rest);
  }

  /** Bytes with at most one separator hold at most one piece. */
  lemma PiecesOfOne(s: seq<byte>)
    requires AtMostOneSeparator(s)
    ensures |PiecesFrom(s, 0)| <= 1
  {
    var a := FindSep(s, 0);
    if a < |s| {
      assert FindSep(s, a + 1) == |s|;
    }
  }

  /** A line cut before its newline holds at most one separator, its `;`. */
  lemma CutLine(line: (seq<byte>, seq<byte>), j: nat)
    requires NoSeparator(line.0) && NoSeparator(line.1) && j < |LineBytes(line)|
    ensures AtMostOneSeparator(LineBytes(line)[..j])
  {
    var s := LineBytes(line);
    assert forall i :: 0 <= i < |line.0| ==> s[i] == line.0[i];
    assert forall i :: |line.0| < i < |line.0| + 1 + |line.1| ==> s[i] == line.1[i - |line.0| - 1];
  }

  /** The pairs of a prefix of well-formed lines followed by a cut line are the lengths of
      the lines it holds entirely. */
  lemma {:induction false} PiecesOfPrefix(lines: seq<(seq<byte>, seq<byte>)>, tail: seq<byte>, j: nat)
    requires WellFormed(lines) && AtMostOneSeparator(tail) && j <= |Layout(lines) + tail|
    ensures Pairs(PiecesFrom((Layout(lines) + tail)[..j], 0)) == Lengths(Complete(lines, j))
    decreases |lines|
  {
    var s := Layout(lines) + tail;
    if lines == [] {
      assert s[..j] == tail[..j];
      PiecesOfOne(tail[..j]);
    } else {
      var l0 := LineBytes(lines[0]);
      assert s == l0 + (Layout(lines[1..]) + tail);
      if j < |l0| {
        assert s[..j] == l0[..j];
        CutLine(lines[0], j);
        PiecesOfOne(l0[..j]);
      } else {
        var r := (Layout(lines[1..]) + tail)[..j - |l0|];
        assert s[..j] == l0 + r;
        PiecesOfPrefix(lines[1..], tail, j - |l0|);
        PrefixStep(lines[0], r, Complete(lines[1..], j - |l0|));
      }
    }
  }

  /** The step of `PiecesOfPrefix`: one whole line more. */
  lemma PrefixStep(line: (seq<byte>, seq<byte>), r: seq<byte>, done: seq<(seq<byte>, seq<byte>)>)
    requires NoSeparator(line.0) && NoSeparator(line.1)
    requires Pairs(PiecesFrom(r, 0)) == Lengths(done)
    ensures Pairs(PiecesFrom(LineBytes(line) + r, 0)) == Lengths([line] + done)
  {
    PiecesLine(line, r);
    PairsCons(|line.0|, |line.1|, PiecesFrom(r, 0));
    assert ([line] + done)[1..] == done;
  }

  /** No pair without two separators. */
  lemma IterOfOne(s: seq<byte>)
    requires AtMostOneSeparator(s)
    ensures FindSeparatorsIter(s) == []
  {
    var e := FindSep(s, 0);
    SepsSkip(s, 0);
    if e < |s| {
      SepsSkip(s, e + 1);
      assert FindSep(s, e + 1) == |s|;
    }
  }

  /** The separators of the first `j` bytes of well-formed lines followed by a cut line:
      one `[name length, value length]` pair per line held entirely, in order, nothing
      for the cut line. */
  lemma SeparatorsOfPrefix(lines: seq<(seq<byte>, seq<byte>)>, tail: seq<byte>, j: nat)
    requires WellFormed(lines) && AtMostOneSeparator(tail) && j <= |Layout(lines) + tail|
    ensures FindSeparatorsIter((Layout(lines) + tail)[..j]) == Lengths(Complete(lines, j))
  {
    var s := Layout(lines) + tail;
    if lines == [] {
      assert s[..j] == tail[..j];
      IterOfOne(tail[..j]);
    } else if j == 0 {
      assert s[..j] == [];
      IterOfOne([]);
    } else {
      assert s[..j][0] == lines[0].0[0];
      IterIsPieces(s[..j]);
      PiecesOfPrefix(lines, tail, j);
    }
  }
}
