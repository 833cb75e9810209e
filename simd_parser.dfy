/** src/parser/simd_parser.rs, lines 67-126: `LineParser`, which walks a buffer one line
    at a time, finding the separators of the next `LANE_WIDTH` bytes whenever the pairs
    it holds run out, and `parse_bytes`, which inserts every line it yields. */
module Simd {

  import opened Machine
  import opened Wrappers
  import opened ParserFunc
  import opened HashableBuffer
  import opened Records
  import opened SimdSeparators

  /** What `parse_line` yields before `digits_to_number`: the name slice and the value
      slice of one line. */
  datatype Item = Item(name: seq<byte>, value: seq<byte>)

  /** `&buffer[cursor..(cursor + LANE_WIDTH).min(buffer.len())]`. */
  function Window(buffer: seq<byte>, cursor: nat): (w: seq<byte>)
    requires cursor <= |buffer|
    ensures |w| <= LANE_WIDTH && cursor + |w| <= |buffer|
    ensures w == buffer[cursor..cursor + |w|]
  {
    buffer[cursor..Min(cursor + LANE_WIDTH, |buffer|)]
  }

  /** The state `parse_line` can run from: a cursor at most one past the end, and
      pending pairs that all lie within the buffer from the cursor on. */
  predicate Ready(buffer: seq<byte>, cursor: nat, next: seq<SepPositions>) {
    cursor <= |buffer| + 1 && PairsFit(|buffer|, cursor, next)
  }

  /** Lines 86-90: when no pair is pending and the cursor is inside the buffer, the pairs
      of the next window; otherwise the pending ones. */
  function Refill(buffer: seq<byte>, cursor: nat, next: seq<SepPositions>): seq<SepPositions>
    requires cursor <= |buffer| + 1
  {
    if next == [] && cursor < |buffer| then FindSeparators(Window(buffer, cursor)) else next
  }

  /** A refill keeps the pairs within the buffer: whichever scan `find_separators`
      picks, its pairs stay inside the window. */
  lemma RefillFits(buffer: seq<byte>, cursor: nat, next: seq<SepPositions>)
    requires Ready(buffer, cursor, next)
    ensures Ready(buffer, cursor, Refill(buffer, cursor, next))
  {
    if next == [] && cursor < |buffer| {
      var w := Window(buffer, cursor);
      FindSeparatorsIsIter(w);
      IterFits(w, cursor, |buffer|);
    }
  }

  /** `parse_line` on the parser's state: the line it yields, if any, then the new cursor
      and the pairs left pending. With none pending after the refill it yields nothing and
      leaves the cursor; otherwise it takes the first pair, the name before the `;` and
      the value before the `\n`, and moves the cursor past both. */
  function Step(buffer: seq<byte>, cursor: nat, next: seq<SepPositions>): (res: (Option<Item>, nat, seq<SepPositions>))
    requires Ready(buffer, cursor, next)
    ensures Ready(buffer, res.1, res.2)
    ensures res.0.None? <==> Refill(buffer, cursor, next) == []
    ensures res.0.None? ==> res.1 == cursor && res.2 == []
    ensures res.0.Some? ==> res.1 >= cursor + 2 && res.2 == Refill(buffer, cursor, next)[1..]
    ensures res.0.Some? ==> res.1 == cursor + |res.0.value.name| + |res.0.value.value| + 2
  {
    RefillFits(buffer, cursor, next);
    var ps := Refill(buffer, cursor, next);
    if ps == [] then (None, cursor, [])
    else
      var semicolon, newline := ps[0].0, ps[0].1;
      var name := buffer[cursor..cursor + semicolon];
      var value := buffer[cursor + semicolon + 1..cursor + semicolon + 1 + newline];
      (Some(Item(name, value)), cursor + semicolon + newline + 2, ps[1..])
  }

  /** The lines the parser yields from a state until its first `None`; each takes at least
      two bytes, its two separators. */
  function Run(buffer: seq<byte>, cursor: nat, next: seq<SepPositions>): (items: seq<Item>)
    requires Ready(buffer, cursor, next)
    ensures 2 * |items| <= |buffer| + 1 - cursor
    decreases |buffer| + 2 - cursor
  {
    var res := Step(buffer, cursor, next);
    if res.0.None? then [] else [res.0.value] + Run(buffer, res.1, res.2)
  }

  /** The lines from a state: none after a `None`, else the line yielded, then those
      from the state it leaves. */
  lemma RunStep(buffer: seq<byte>, cursor: nat, next: seq<SepPositions>)
    requires Ready(buffer, cursor, next)
    ensures Step(buffer, cursor, next).0.None? ==> Run(buffer, cursor, next) == []
    ensures Step(buffer, cursor, next).0.Some? ==>
              Run(buffer, cursor, next)
              == [Step(buffer, cursor, next).0.value] + Run(buffer, Step(buffer, cursor, next).1, Step(buffer, cursor, next).2)
  {
  }

  /** Once `parse_line` has yielded `None` it yields `None` again. */
  lemma StepExhausted(buffer: seq<byte>, cursor: nat, next: seq<SepPositions>)
    requires Ready(buffer, cursor, next) && Step(buffer, cursor, next).0.None?
    ensures Step(buffer, Step(buffer, cursor, next).1, Step(buffer, cursor, next).2).0.None?
  {
  }

  /** The records `parse_bytes` inserts: each name with `digits_to_number` of its value. */
  function ItemRecords(items: seq<Item>, digits: seq<byte> -> i16): (recs: seq<Record>)
    ensures |recs| == |items|
    ensures forall i :: 0 <= i < |items| ==> recs[i].name == items[i].name
  {
    seq(|items|, i requires 0 <= i < |items| => Record(items[i].name, digits(items[i].value)))
  }

  /** `LineParser`: the buffer it owns, the cursor at the start of the next line, and the
      pairs found but not yet consumed. */
  class LineParser {

    const buffer: seq<byte>
    var cursor: nat
    var next: seq<SepPositions>

    predicate Valid()
      reads this
    {
      Ready(buffer, cursor, next)
    }

    /** `new`: the cursor at the start, nothing pending. */
    constructor (buffer: seq<byte>)
      ensures this.buffer == buffer && cursor == 0 && next == [] && Valid()
    {
      this.buffer := buffer;
      cursor := 0;
      next := [];
    }

    /** `parse_line`: one step, with `digits` in place of `digits_to_number`. */
    method ParseLine(digits: seq<byte> -> i16) returns (r: Option<(seq<byte>, i16)>)
      requires Valid()
      modifies this
      ensures Valid()
      ensures cursor == Step(buffer, old(cursor), old(next)).1 && next == Step(buffer, old(cursor), old(next)).2
      ensures Step(buffer, old(cursor), old(next)).0.None? ==> r == None
      ensures Step(buffer, old(cursor), old(next)).0.Some? ==>
                r == Some((Step(buffer, old(cursor), old(next)).0.value.name,
                           digits(Step(buffer, old(cursor), old(next)).0.value.value)))
    {
      RefillFits(buffer, cursor, next);
      if next == [] && cursor < |buffer| {
        next := FindSeparators(buffer[cursor..Min(cursor + LANE_WIDTH, |buffer|)]);
      }
      if next == [] {
        return None;
      }
      var semicolon, newline := next[0].0, next[0].1;
      next := next[1..];
      var name := buffer[cursor..cursor + semicolon];
      cursor := cursor + semicolon + 1;
      var value := buffer[cursor..cursor + newline];
      cursor := cursor + newline + 1;
      r := Some((name, digits(value)));
    }

    /** `Iterator::next`: `parse_line`. */
    method Next(digits: seq<byte> -> i16) returns (r: Option<(seq<byte>, i16)>)
      requires Valid()
      modifies this
      ensures Valid()
      ensures cursor == Step(buffer, old(cursor), old(next)).1 && next == Step(buffer, old(cursor), old(next)).2
      ensures Step(buffer, old(cursor), old(next)).0.None? ==> r == None
      ensures Step(buffer, old(cursor), old(next)).0.Some? ==>
                r == Some((Step(buffer, old(cursor), old(next)).0.value.name,
                           digits(Step(buffer, old(cursor), old(next)).0.value.value)))
    {
      r := ParseLine(digits);
    }
  }

  /** `parse_bytes`: every line the parser yields from the start of `bytes` is inserted,
      in order. Their inserts must not overflow a sum or a count. */
  method ParseBytes(bytes: seq<byte>, records: StationRecords, digits: seq<byte> -> i16)
    requires records.Valid()
    requires InsertsFit(records.stats, ItemRecords(Run(bytes, 0, []), digits))
    modifies records
    ensures records.Valid()
    ensures records.stats == Build(old(records.stats), ItemRecords(Run(bytes, 0, []), digits))
  {
    ghost var m0 := records.stats;
    ghost var items := Run(bytes, 0, []);
    ghost var recs := ItemRecords(items, digits);
    var parser := new LineParser(bytes);
    ghost var i := 0;
    while true
      invariant parser.buffer == bytes && parser.Valid()
      invariant records.Valid() && i <= |items|
      invariant Run(bytes, parser.cursor, parser.next) == items[i..]
      invariant records.stats == Build(m0, recs[..i])
      decreases |bytes| + 2 - parser.cursor
    {
      var done := FeedLine(parser, records, digits, m0, items, recs, i);
      if done {
        break;
      }
      i := i + 1;
    }
  }

  /** One pass of the loop of `parse_bytes`: `parser.next()`, and on `Some`,
      `records.insert(name.into(), value)` with the `i`-th record, which extends the
      table built so far by that record. On `None`, every record is in. */
  method FeedLine(parser: LineParser, records: StationRecords, digits: seq<byte> -> i16,
                  ghost m0: Table, ghost items: seq<Item>, ghost recs: seq<Record>, ghost i: nat)
    returns (done: bool)
    requires parser.Valid() && records.Valid()
    requires recs == ItemRecords(items, digits) && InsertsFit(m0, recs)
    requires i <= |items| && Run(parser.buffer, parser.cursor, parser.next) == items[i..]
    requires records.stats == Build(m0, recs[..i])
    modifies parser, records
    ensures parser.Valid() && records.Valid()
    ensures done ==> records.stats == Build(m0, recs)
    ensures !done ==> i < |items| && Run(parser.buffer, parser.cursor, parser.next) == items[i + 1..]
    ensures !done ==> records.stats == Build(m0, recs[..i + 1]) && parser.cursor > old(parser.cursor)
  {
    RunStep(parser.buffer, parser.cursor, parser.next);
    var line := parser.Next(digits);
    if line.None? {
      assert recs[..i] == recs;
      return true;
    }
    assert items[i..][1..] == items[i + 1..];
    InsertsFitAt(m0, recs, i);
    BuildStep(m0, recs, i);
    records.Insert(LiteHashBuffer(line.value.0), line.value.1);
    return false;
  }

  // ---------------------------------------------------------------------------------
  // What the parser yields on well-formed lines.

  /** The name and value of each line, as the parser should yield them. */
  function Items(lines: seq<(seq<byte>, seq<byte>)>): (items: seq<Item>)
    ensures |items| == |lines|
  {
    if lines == [] then [] else [Item(lines[0].0, lines[0].1)] + Items(lines[1..])
  }

  /** Every line fits in one window. */
  predicate ShortLines(lines: seq<(seq<byte>, seq<byte>)>) {
    forall k :: 0 <= k < |lines| ==> |LineBytes(lines[k])| <= LANE_WIDTH
  }

  /** A line laid out at `cursor`: its name, its value, and what follows it. */
  lemma LineAt(buffer: seq<byte>, cursor: nat, line: (seq<byte>, seq<byte>), rest: seq<byte>)
    requires cursor <= |buffer| && buffer[cursor..] == LineBytes(line) + rest
    ensures buffer[cursor..cursor + |line.0|] == line.0
    ensures buffer[cursor + |line.0| + 1..cursor + |line.0| + 1 + |line.1|] == line.1
    ensures buffer[cursor + |LineBytes(line)|..] == rest
  {
    var s := buffer[cursor..];
    assert s == line.0 + [SEMICOLON] + line.1 + [NEWLINE] + rest;
    assert buffer[cursor..cursor + |line.0|] == s[..|line.0|];
    assert buffer[cursor + |line.0| + 1..cursor + |line.0| + 1 + |line.1|]
        == s[|line.0| + 1..|line.0| + 1 + |line.1|];
    assert buffer[cursor + |LineBytes(line)|..] == s[|LineBytes(line)|..];
  }

  /** With the pair of a line laid out at the cursor pending, `parse_line` yields that
      line and moves to the next. */
  lemma StepLine(buffer: seq<byte>, cursor: nat, ps: seq<SepPositions>, line: (seq<byte>, seq<byte>), rest: seq<byte>, more: seq<SepPositions>)
    requires ps == [(|line.0|, |line.1|)] + more && Ready(buffer, cursor, ps)
    requires cursor <= |buffer| && buffer[cursor..] == LineBytes(line) + rest
    ensures Step(buffer, cursor, ps).0 == Some(Item(line.0, line.1))
    ensures Step(buffer, cursor, ps).1 == cursor + |LineBytes(line)|
    ensures Step(buffer, cursor, ps).2 == more
  {
    LineAt(buffer, cursor, line, rest);
    assert ps[1..] == more;
  }

  /** When the refill finds pairs, running from the empty queue is running from them. */
  lemma RunRefill(buffer: seq<byte>, cursor: nat)
    requires cursor < |buffer| && Refill(buffer, cursor, []) != []
    ensures Ready(buffer, cursor, Refill(buffer, cursor, []))
    ensures Run(buffer, cursor, []) == Run(buffer, cursor, Refill(buffer, cursor, []))
  {
    RefillFits(buffer, cursor, []);
  }

  /** From the start of a line, with the pairs of the next `q` lines pending, the parser
      yields every remaining line, each with its own name and value. */
  lemma {:induction false} RunLayout(buffer: seq<byte>, cursor: nat, lines: seq<(seq<byte>, seq<byte>)>, tail: seq<byte>, q: nat)
    requires WellFormed(lines) && ShortLines(lines) && QuietTail(tail)
    requires cursor <= |buffer| && buffer[cursor..] == Layout(lines) + tail
    requires q <= |lines| && Ready(buffer, cursor, Lengths(lines[..q]))
    ensures Run(buffer, cursor, Lengths(lines[..q])) == Items(lines)
    decreases |lines|, if q == 0 then 1 else 0
  {
    if q > 0 {
      var next := cursor + |LineBytes(lines[0])|;
      var rest, more := Layout(lines[1..]) + tail, Lengths(lines[1..][..q - 1]);
      PopLayout(buffer, cursor, next, lines, tail, q);
      PopStep(buffer, cursor, next, Lengths(lines[..q]), lines[0], rest, more);
      LinesTail(lines, tail);
      RunLayout(buffer, next, lines[1..], tail, q - 1);
      assert Run(buffer, next, more) == Items(lines[1..]);
      assert Items(lines) == [Item(lines[0].0, lines[0].1)] + Items(lines[1..]);
    } else if lines == [] {
      RunEnd(buffer, cursor, tail);
    } else {
      var q' := RunFill(buffer, cursor, lines, tail);
      RunLayout(buffer, cursor, lines, tail, q');
    }
  }

  /** The lines after the first are well-formed and short too. */
  lemma LinesTail(lines: seq<(seq<byte>, seq<byte>)>, tail: seq<byte>)
    requires WellFormed(lines) && ShortLines(lines) && lines != []
    ensures WellFormed(lines[1..]) && ShortLines(lines[1..])
  {
    assert forall k :: 0 <= k < |lines| - 1 ==> lines[1..][k] == lines[k + 1];
  }

  /** The bytes and the pairs of the first line, and where the next line starts. */
  lemma PopLayout(buffer: seq<byte>, cursor: nat, next: nat, lines: seq<(seq<byte>, seq<byte>)>, tail: seq<byte>, q: nat)
    requires cursor <= |buffer| && buffer[cursor..] == Layout(lines) + tail
    requires 0 < q <= |lines| && next == cursor + |LineBytes(lines[0])|
    ensures buffer[cursor..] == LineBytes(lines[0]) + (Layout(lines[1..]) + tail)
    ensures next <= |buffer| && buffer[next..] == Layout(lines[1..]) + tail
    ensures Lengths(lines[..q]) == [(|lines[0].0|, |lines[0].1|)] + Lengths(lines[1..][..q - 1])
  {
    var rest := Layout(lines[1..]) + tail;
    PopPairs(lines, q);
    assert Layout(lines) + tail == LineBytes(lines[0]) + rest;
    LineAt(buffer, cursor, lines[0], rest);
    assert buffer[next..] == rest;
  }

  /** The pairs of the first `q` lines: the first line's, then those of the next `q - 1`. */
  lemma PopPairs(lines: seq<(seq<byte>, seq<byte>)>, q: nat)
    requires 0 < q <= |lines|
    ensures Lengths(lines[..q]) == [(|lines[0].0|, |lines[0].1|)] + Lengths(lines[1..][..q - 1])
  {
    assert lines[..q][1..] == lines[1..][..q - 1];
  }

  /** One line popped: the parser is ready at the next line, and yields this one first. */
  lemma PopStep(buffer: seq<byte>, cursor: nat, next: nat, ps: seq<SepPositions>, line: (seq<byte>, seq<byte>), rest: seq<byte>, more: seq<SepPositions>)
    requires ps == [(|line.0|, |line.1|)] + more && Ready(buffer, cursor, ps)
    requires cursor <= |buffer| && buffer[cursor..] == LineBytes(line) + rest
    requires next == cursor + |LineBytes(line)|
    ensures Ready(buffer, next, more)
    ensures Run(buffer, cursor, ps) == [Item(line.0, line.1)] + Run(buffer, next, more)
  {
    StepLine(buffer, cursor, ps, line, rest, more);
    var res := Step(buffer, cursor, ps);
    assert Ready(buffer, res.1, res.2);
    assert res.1 == next;
    assert res.2 == more;
    assert Ready(buffer, next, more);
  }

  /** No line left: the bytes after the last line hold no pair, and the parser stops. */
  lemma RunEnd(buffer: seq<byte>, cursor: nat, tail: seq<byte>)
    requires QuietTail(tail)
    requires cursor <= |buffer| && buffer[cursor..] == tail
    ensures Run(buffer, cursor, []) == []
  {
    if cursor < |buffer| {
      var w := Window(buffer, cursor);
      assert w == tail[..|w|];
      QuietPrefix(tail, |w|);
      FindSeparatorsIsIter(w);
      IterOfOne(w);
    }
  }

  /** The refill at the start of a line: the window holds the first line entirely, so
      the pairs found are those of the first `q' >= 1` lines. */
  lemma RunFill(buffer: seq<byte>, cursor: nat, lines: seq<(seq<byte>, seq<byte>)>, tail: seq<byte>) returns (q': nat)
    requires WellFormed(lines) && ShortLines(lines) && QuietTail(tail) && lines != []
    requires cursor <= |buffer| && buffer[cursor..] == Layout(lines) + tail
    ensures 0 < q' <= |lines| && Ready(buffer, cursor, Lengths(lines[..q']))
    ensures Run(buffer, cursor, []) == Run(buffer, cursor, Lengths(lines[..q']))
  {
    assert Layout(lines) + tail == LineBytes(lines[0]) + (Layout(lines[1..]) + tail);
    var w := Window(buffer, cursor);
    assert |LineBytes(lines[0])| <= LANE_WIDTH;
    var seen := tail[..Min(LANE_WIDTH, |tail|)];
    assert w == (Layout(lines) + tail)[..|w|];
    PrefixThroughTail(Layout(lines), tail, |seen|, |w|);
    FindSeparatorsIsIter(w);
    SeparatorsOfPrefix(lines, seen, |w|);
    var done := Complete(lines, |w|);
    q' := |done|;
    assert done == lines[..q'];
    RunRefill(buffer, cursor);
  }

  /** Well-formed lines of at most `LANE_WIDTH` bytes each, then bytes holding at most
      one separator: `parse_bytes` yields every line, in order, with its own name and
      value, and nothing for the bytes after the last newline. */
  lemma ParsesLayout(lines: seq<(seq<byte>, seq<byte>)>, tail: seq<byte>)
    requires WellFormed(lines) && ShortLines(lines) && AtMostOneSeparator(tail)
    ensures Run(Layout(lines) + tail, 0, []) == Items(lines)
  {
    assert lines[..0] == [];
    PrefixQuiet(tail, Min(LANE_WIDTH, |tail|));
    RunLayout(Layout(lines) + tail, 0, lines, tail, 0);
  }

  /** Short well-formed lines, then a line longer than `LANE_WIDTH` bytes: no window
      that starts before the long line reaches its `\n`, so the pending pairs run out at
      its start, the refill there finds none, and the parser yields exactly the short
      lines, whatever follows. */
  lemma ParsesUntilLong(short: seq<(seq<byte>, seq<byte>)>, long: (seq<byte>, seq<byte>),
                        rest: seq<(seq<byte>, seq<byte>)>, tail: seq<byte>)
    requires WellFormed(short) && ShortLines(short)
    requires NoSeparator(long.0) && NoSeparator(long.1) && |LineBytes(long)| > LANE_WIDTH
    ensures Run(Layout(short + [long] + rest) + tail, 0, []) == Items(short)
  {
    var after := Layout([long] + rest) + tail;
    assert short + [long] + rest == short + ([long] + rest);
    LayoutAppend(short, [long] + rest);
    assert after == LineBytes(long) + (Layout(rest) + tail) by {
      assert ([long] + rest)[1..] == rest;
    }
    assert after[..LANE_WIDTH] == LineBytes(long)[..LANE_WIDTH];
    CutLine(long, LANE_WIDTH);
    assert QuietTail(after) by {
      assert Min(LANE_WIDTH, |after|) == LANE_WIDTH;
    }
    var buffer := Layout(short) + after;
    assert Layout(short + [long] + rest) + tail == buffer;
    assert buffer[0..] == buffer;
    assert short[..0] == [];
    RunLayout(buffer, 0, short, after, 0);
  }

  /** A first line longer than `LANE_WIDTH` bytes: the parser yields nothing at all. */
  lemma LongLineStops(lines: seq<(seq<byte>, seq<byte>)>, tail: seq<byte>)
    requires WellFormed(lines) && lines != [] && |LineBytes(lines[0])| > LANE_WIDTH
    ensures Run(Layout(lines) + tail, 0, []) == []
  {
    assert [] + [lines[0]] + lines[1..] == lines;
    ParsesUntilLong([], lines[0], lines[1..], tail);
  }

  /** What the parser sees of the bytes after the last whole line: their first window
      holds at most one separator. */
  predicate QuietTail(tail: seq<byte>) {
    AtMostOneSeparator(tail[..Min(LANE_WIDTH, |tail|)])
  }

  /** A prefix of bytes with at most one separator has at most one too. */
  lemma PrefixQuiet(s: seq<byte>, j: nat)
    requires j <= |s| && AtMostOneSeparator(s)
    ensures AtMostOneSeparator(s[..j])
  {
    assert forall i :: 0 <= i < j ==> s[..j][i] == s[i];
  }

  /** Any window of a quiet tail holds at most one separator. */
  lemma QuietPrefix(tail: seq<byte>, j: nat)
    requires QuietTail(tail) && j <= LANE_WIDTH && j <= |tail|
    ensures AtMostOneSeparator(tail[..j])
  {
    var seen := tail[..Min(LANE_WIDTH, |tail|)];
    PrefixQuiet(seen, j);
    assert seen[..j] == tail[..j];
  }

  /** The first `j` bytes of `a + t` read no more of `t` than its first `k` bytes. */
  lemma PrefixThroughTail(a: seq<byte>, t: seq<byte>, k: nat, j: nat)
    requires k <= |t| && j <= |a| + k
    ensures (a + t)[..j] == (a + t[..k])[..j]
  {
    assert forall i :: 0 <= i < j ==> (a + t)[i] == (a + t[..k])[i];
  }

  /** The layout of two runs of lines is the layout of the first, then of the second. */
  lemma {:induction false} LayoutAppend(xs: seq<(seq<byte>, seq<byte>)>, ys: seq<(seq<byte>, seq<byte>)>)
    ensures Layout(xs + ys) == Layout(xs) + Layout(ys)
  {
    if xs != [] {
      assert (xs + ys)[1..] == xs[1..] + ys;
      LayoutAppend(xs[1..], ys);
    } else {
      assert xs + ys == ys;
    }
  }
}
