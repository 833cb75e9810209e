/** src/parser/line.rs: the cursor-driven parser. A `Cursor` over the input is read one
    byte at a time; `parse_name` collects the bytes up to `;`, `parse_value` the bytes up
    to a newline, and `parse_bytes` inserts one record per line into a table.

    The Rust functions are `async` only because tokio's `Cursor` reads are; the model
    runs them in order. */
module Line {

  import opened Machine
  import opened Wrappers
  import opened ParserFunc
  import opened HashableBuffer
  import opened Stats
  import opened Records

  // ---------------------------------------------------------------------------------
  // What the parser reads, as functions of the input.

  /** The digits `parse_value` collects from the text `t` of a value (no newline in it):
      every byte but `-` and `.` goes through `u8_to_digit`. */
  function ValueDigits(t: seq<byte>): (ds: seq<byte>)
    ensures |ds| <= |t|
    ensures forall i :: 0 <= i < |ds| ==> ds[i] < 16
  {
    if t == [] then []
    else
      var b := t[|t| - 1];
      ValueDigits(t[..|t| - 1]) + (if b == MINUS || b == DOT then [] else [U8ToDigit(b)])
  }

  predicate Negative(t: seq<byte>) {
    MINUS in t
  }

  /** The value of a reading: the digits folded in decimal, negated when a `-` occurs
      anywhere in the text. */
  function LineValue(t: seq<byte>): int {
    if Negative(t) then -FoldDecimal(ValueDigits(t)) else FoldDecimal(ValueDigits(t))
  }

  /** Reading one more byte of a value. */
  lemma ValueSnoc(t: seq<byte>, c: byte)
    ensures ValueDigits(t + [c]) == ValueDigits(t) + (if c == MINUS || c == DOT then [] else [U8ToDigit(c)])
    ensures Negative(t + [c]) <==> Negative(t) || c == MINUS
  {
    assert (t + [c])[..|t|] == t;
  }

  /** The `i16` fold of the digits does not overflow. */
  predicate ValueFits(t: seq<byte>) {
    FoldDecimal(ValueDigits(t)) <= I16_MAX
  }

  /** The name `parse_name` reads at `p`: the bytes up to the next `;`, if there is one. */
  function NameAt(s: seq<byte>, p: nat): (r: Option<LiteHashBuffer>)
    requires p <= |s|
    ensures r.Some? <==> SEMICOLON in s[p..]
    ensures r.Some? ==> r.value.buffer == s[p..FindFrom(s, p, SEMICOLON)] && SEMICOLON !in r.value.buffer
  {
    var e := FindFrom(s, p, SEMICOLON);
    assert e < |s| ==> s[p..][e - p] == SEMICOLON;
    if e < |s| then Some(LiteHashBuffer(s[p..e])) else None
  }

  /** The text of the value `parse_value` reads at `q`: the bytes up to the next newline
      or to the end of the input. */
  function ValueText(s: seq<byte>, q: nat): (t: seq<byte>)
    requires q <= |s|
    ensures NEWLINE !in t
  {
    var v := FindFrom(s, q, NEWLINE);
    assert forall i :: 0 <= i < v - q ==> s[q..v][i] == s[q + i];
    s[q..v]
  }

  /** Where the cursor stands after that value: past its newline, or at the end. */
  function AfterValue(s: seq<byte>, q: nat): (r: nat)
    requires q <= |s|
    ensures q <= r <= |s|
    ensures r < |s| ==> q < r && s[r - 1] == NEWLINE
  {
    var v := FindFrom(s, q, NEWLINE);
    if v < |s| then v + 1 else |s|
  }

  /** The lines `parse_bytes` reads from position `p` on, as (name, value text) pairs:
      a name runs to the next `;` (no `;` left ends the input), and its value to the
      next newline or to the end of the input. */
  function Lines(s: seq<byte>, p: nat): (items: seq<(seq<byte>, seq<byte>)>)
    requires p <= |s|
    decreases |s| - p
  {
    match NameAt(s, p)
    case None => []
    case Some(name) =>
      var q := FindFrom(s, p, SEMICOLON) + 1;
      [(name.buffer, ValueText(s, q))] + Lines(s, AfterValue(s, q))
  }

  /** One line of `Lines`: the `k`-th item is the line at `p`, and the rest start after
      its value. */
  lemma LineStep(s: seq<byte>, p: nat, items: seq<(seq<byte>, seq<byte>)>, k: nat)
    requires p <= |s| && k <= |items| && Lines(s, p) == items[k..]
    requires NameAt(s, p).Some?
    ensures var q := FindFrom(s, p, SEMICOLON) + 1;
            && k < |items| && items[k] == (NameAt(s, p).value.buffer, ValueText(s, q))
            && Lines(s, AfterValue(s, q)) == items[k + 1..]
  {
    assert items[k..][1..] == items[k + 1..];
  }

  /** `Lines` at a line: its name up to the `;` at `e`, its value up to the newline at
      `v` (or to the end), then the lines after it. */
  lemma {:induction false} LinesAt(s: seq<byte>, p: nat, e: nat, v: nat, next: nat)
    requires p <= e < |s| && e == FindFrom(s, p, SEMICOLON) && v == FindFrom(s, e + 1, NEWLINE)
    requires next == if v < |s| then v + 1 else |s|
    ensures Lines(s, p) == [(s[p..e], s[e + 1..v])] + Lines(s, next)
  {
    var name := NameAt(s, p);
    assert name == Some(LiteHashBuffer(s[p..e]));
    LinesUnfold(s, p, name.value, e + 1);
    assert ValueText(s, e + 1) == s[e + 1..v];
    assert AfterValue(s, e + 1) == next;
  }

  /** `Lines` at a name. */
  lemma LinesUnfold(s: seq<byte>, p: nat, name: LiteHashBuffer, q: nat)
    requires p <= |s| && NameAt(s, p) == Some(name) && q == FindFrom(s, p, SEMICOLON) + 1
    ensures q <= |s| && Lines(s, p) == [(name.buffer, ValueText(s, q))] + Lines(s, AfterValue(s, q))
  {
  }

  /** `Lines` where no `;` is left: nothing. */
  lemma LinesNone(s: seq<byte>, p: nat)
    requires p <= |s| && FindFrom(s, p, SEMICOLON) == |s|
    ensures Lines(s, p) == []
  {
    assert SEMICOLON !in s[p..] by {
      forall k | 0 <= k < |s| - p
        ensures s[p..][k] != SEMICOLON
      {
        assert s[p..][k] == s[p + k];
      }
    }
  }

  /** A line `name;value\n` at `p` is read as that name and that value, and the lines
      after it, from `next`, follow. */
  lemma {:induction false} LinesCons(s: seq<byte>, p: nat, name: seq<byte>, value: seq<byte>, next: nat)
    requires SEMICOLON !in name && NEWLINE !in value
    requires next == p + |name| + |value| + 2 && next <= |s|
    requires s[p..p + |name|] == name && s[p + |name|] == SEMICOLON
    requires s[p + |name| + 1..next - 1] == value && s[next - 1] == NEWLINE
    ensures Lines(s, p) == [(name, value)] + Lines(s, next)
  {
    var e, v := p + |name|, next - 1;
    ScanTo(s, p, name, SEMICOLON);
    ScanTo(s, e + 1, value, NEWLINE);
    LinesAt(s, p, e, v, next);
    assert s[p..e] == name && s[e + 1..v] == value;
  }

  /** A last line `name;value` without its newline is read all the same. */
  lemma {:induction false} LinesLast(s: seq<byte>, p: nat, name: seq<byte>, value: seq<byte>)
    requires SEMICOLON !in name && NEWLINE !in value
    requires p + |name| < |s| && s[p..p + |name|] == name && s[p + |name|] == SEMICOLON
    requires s[p + |name| + 1..] == value
    ensures Lines(s, p) == [(name, value)]
  {
    var e := p + |name|;
    ScanTo(s, p, name, SEMICOLON);
    assert s[e + 1..|s|] == value;
    ScanTo(s, e + 1, value, NEWLINE);
    LinesAt(s, p, e, |s|, |s|);
    LinesNone(s, |s|);
    assert s[p..e] == name && s[e + 1..|s|] == value;
  }

  /** A scan for `b` from `p` over a piece `x` without `b` stops right after it: at the
      `b` that follows, or at the end. */
  lemma ScanTo(s: seq<byte>, p: nat, x: seq<byte>, b: byte)
    requires b !in x && p + |x| <= |s| && s[p..p + |x|] == x
    requires p + |x| == |s| || s[p + |x|] == b
    ensures FindFrom(s, p, b) == p + |x|
  {
    assert forall k :: p <= k < p + |x| ==> s[k] == x[k - p];
  }

  predicate LinesFit(items: seq<(seq<byte>, seq<byte>)>) {
    forall i :: 0 <= i < |items| ==> ValueFits(items[i].1)
  }

  /** The records the lines stand for. */
  function ToRecords(items: seq<(seq<byte>, seq<byte>)>): (recs: seq<Record>)
    requires LinesFit(items)
    ensures |recs| == |items|
    ensures forall i :: 0 <= i < |items| ==> recs[i].name == items[i].0 && recs[i].value as int == LineValue(items[i].1)
  {
    seq(|items|, i requires 0 <= i < |items| => Record(items[i].0, LineValue(items[i].1) as i16))
  }

  // ---------------------------------------------------------------------------------
  // The cursor and the three parsing steps.

  /** `std::io::Cursor` over a byte slice, as far as `read_u8` uses it. */
  class Cursor {

    const data: seq<byte>
    var pos: nat

    ghost predicate Valid()
      reads this
    {
      pos <= |data|
    }

    constructor (data: seq<byte>)
      ensures Valid() && this.data == data && pos == 0
    {
      this.data := data;
      pos := 0;
    }

    /** `read_u8`: the next byte, or an end-of-input error once there is none. */
    method ReadU8() returns (r: Option<byte>)
      requires Valid()
      modifies this
      ensures Valid()
      ensures old(pos) < |data| ==> r == Some(data[old(pos)]) && pos == old(pos) + 1
      ensures old(pos) == |data| ==> r.None? && pos == old(pos)
    {
      if pos < |data| {
        r := Some(data[pos]);
        pos := pos + 1;
      } else {
        r := None;
      }
    }
  }

  /** `parse_name`: the bytes before the next `;`, leaving the cursor just past it; when
      the input ends first, `None` with the cursor at the end. */
  method ParseName(buffer: Cursor) returns (name: Option<LiteHashBuffer>)
    requires buffer.Valid()
    modifies buffer
    ensures buffer.Valid()
    ensures name == NameAt(buffer.data, old(buffer.pos))
    ensures buffer.pos == FindFrom(buffer.data, old(buffer.pos), SEMICOLON) + (if name.Some? then 1 else 0)
  {
    ghost var start := buffer.pos;
    var bytes: seq<byte> := [];
    while true
      invariant buffer.Valid() && start <= buffer.pos
      invariant bytes == buffer.data[start..buffer.pos]
      invariant FindFrom(buffer.data, start, SEMICOLON) == FindFrom(buffer.data, buffer.pos, SEMICOLON)
      decreases |buffer.data| - buffer.pos
    {
      var b := buffer.ReadU8();
      match b
      case None =>
        return None;
      case Some(c) =>
        if c == SEMICOLON {
          return Some(HashableBuffer.New(bytes));
        }
        bytes := bytes + [c];
    }
  }

  /** `parse_value`: reads up to and including the next newline (or to the end of the
      input) and returns the value of what it read. The `i16` fold must not overflow. */
  method ParseValue(buffer: Cursor) returns (value: i16)
    requires buffer.Valid()
    requires ValueFits(ValueText(buffer.data, buffer.pos))
    modifies buffer
    ensures buffer.Valid()
    ensures value as int == LineValue(ValueText(buffer.data, old(buffer.pos)))
    ensures buffer.pos == AfterValue(buffer.data, old(buffer.pos))
  {
    ghost var t;
    var multiplier, digits;
    t, multiplier, digits := ReadValue(buffer);
    var n := FoldDigits(digits);
    value := n * multiplier;
  }

  /** The closing fold of `parse_value`, `acc * 10 + digit` in an `i16` accumulator: no
      step overflows when the whole fold fits, since no partial fold exceeds it. */
  method FoldDigits(digits: seq<byte>) returns (n: i16)
    requires FoldDecimal(digits) <= I16_MAX
    ensures n as int == FoldDecimal(digits)
  {
    n := 0;
    for i := 0 to |digits|
      invariant n as int == FoldDecimal(digits[..i])
    {
      FoldDecimalPrefixBounded(digits, i + 1);
      assert digits[..i + 1] == digits[..i] + [digits[i]];
      FoldDecimalAppend(digits[..i], digits[i]);
      n := n * 10 + digits[i] as i16;
    }
    assert digits[..|digits|] == digits;
  }

  /** The loop of `parse_value`: the sign and the digits of the text up to the next
      newline, `t`, with the cursor past that newline. */
  method ReadValue(buffer: Cursor) returns (ghost t: seq<byte>, multiplier: i16, digits: seq<byte>)
    requires buffer.Valid()
    modifies buffer
    ensures buffer.Valid()
    ensures t == ValueText(buffer.data, old(buffer.pos))
    ensures buffer.pos == AfterValue(buffer.data, old(buffer.pos))
    ensures digits == ValueDigits(t) && multiplier == if Negative(t) then -1 else 1
  {
    ghost var s, start := buffer.data, buffer.pos;
    ghost var v := FindFrom(s, start, NEWLINE);
    t := [];
    multiplier := 1;
    digits := [];
    while true
      invariant buffer.Valid() && buffer.data == s && start <= buffer.pos <= v
      invariant FindFrom(s, buffer.pos, NEWLINE) == v
      invariant t == s[start..buffer.pos]
      invariant digits == ValueDigits(t)
      invariant multiplier == if Negative(t) then -1 else 1
      decreases |s| - buffer.pos
    {
      var b := buffer.ReadU8();
      if b.None? {
        break;
      }
      var c := b.value;
      if c == NEWLINE {
        break;
      }
      SliceSnoc(s, start, buffer.pos - 1);
      multiplier, digits := AcceptValueByte(t, c, multiplier, digits);
      t := t + [c];
    }
  }

  /** The arms of the `match` in `parse_value` for a byte `c` other than a newline: `-`
      sets the sign, `.` is skipped, and any other byte is taken as a digit. */
  method AcceptValueByte(ghost t: seq<byte>, c: byte, multiplier: i16, digits: seq<byte>)
    returns (multiplier': i16, digits': seq<byte>)
    requires digits == ValueDigits(t) && multiplier == if Negative(t) then -1 else 1
    ensures digits' == ValueDigits(t + [c]) && multiplier' == if Negative(t + [c]) then -1 else 1
  {
    ValueSnoc(t, c);
    multiplier', digits' := multiplier, digits;
    if c == MINUS {
      multiplier' := -1;
    } else if c == DOT {
    } else {
      digits' := digits + [U8ToDigit(c)];
    }
  }

  /** `parse_bytes`: one record per line, inserted in order, until no `;` is left; a
      last line without a newline still counts. Each value must fit the `i16` fold, and
      the sums and counts the inserts build must not overflow. */
  method ParseBytes(bytes: seq<byte>, records: StationRecords)
    requires records.Valid()
    requires LinesFit(Lines(bytes, 0))
    requires InsertsFit(records.stats, ToRecords(Lines(bytes, 0)))
    modifies records
    ensures records.Valid()
    ensures records.stats == Build(old(records.stats), ToRecords(Lines(bytes, 0)))
  {
    var buffer := new Cursor(bytes);
    ghost var items := Lines(bytes, 0);
    assert items[0..] == items;
    var name := ParseNextName(buffer, 0, items, 0);
    FeedLines(buffer, records, name, items, records.stats, ToRecords(items));
  }

  /** The loop of `parse_bytes`, from the first name on: while `parse_name` finds a name,
      the line is parsed and its record inserted. Every record of the lines goes into the
      table, in order. */
  method FeedLines(buffer: Cursor, records: StationRecords, name: Option<LiteHashBuffer>,
                   ghost items: seq<(seq<byte>, seq<byte>)>, ghost m0: Table, ghost recs: seq<Record>)
    requires buffer.Valid() && records.Valid() && records.stats == m0
    requires Reading(buffer.data, 0, items, 0, name, buffer.pos)
    requires LinesFit(items) && recs == ToRecords(items) && InsertsFit(m0, recs)
    modifies buffer, records
    ensures records.Valid() && records.stats == Build(m0, recs)
  {
    ghost var p, k := 0, 0;
    var name := name;
    while name.Some?
      invariant buffer.Valid() && records.Valid()
      invariant Reading(buffer.data, p, items, k, name, buffer.pos)
      invariant records.stats == Build(m0, recs[..k])
      decreases |buffer.data| - p
    {
      p, name := FeedLine(buffer, records, name.value, p, items, k, m0, recs);
      k := k + 1;
    }
    assert recs[..k] == recs;
  }

  /** One pass of the loop of `parse_bytes`: the `k`-th line is parsed and its record
      inserted, which extends the table built so far by that record. */
  method FeedLine(buffer: Cursor, records: StationRecords, name: LiteHashBuffer, ghost p: nat,
                  ghost items: seq<(seq<byte>, seq<byte>)>, ghost k: nat, ghost m0: Table, ghost recs: seq<Record>)
    returns (ghost next: nat, nextName: Option<LiteHashBuffer>)
    requires buffer.Valid() && records.Valid()
    requires Reading(buffer.data, p, items, k, Some(name), buffer.pos)
    requires LinesFit(items) && recs == ToRecords(items) && InsertsFit(m0, recs)
    requires records.stats == Build(m0, recs[..k])
    modifies buffer, records
    ensures buffer.Valid() && records.Valid()
    ensures p < next && Reading(buffer.data, next, items, k + 1, nextName, buffer.pos)
    ensures records.stats == Build(m0, recs[..k + 1])
  {
    NextRecord(buffer.data, p, items, k, name, buffer.pos, m0, recs, records.stats);
    next, nextName := ParseLine(buffer, records, name, p, items, k, recs[k]);
  }

  /** What the loop of `parse_bytes` knows of the `k`-th line before reading its value:
      the record it stands for, that its value fits, and that inserting it keeps the table
      the one built from the first `k + 1` records. */
  lemma NextRecord(s: seq<byte>, p: nat, items: seq<(seq<byte>, seq<byte>)>, k: nat, name: LiteHashBuffer,
                   pos: nat, m0: Table, recs: seq<Record>, stats: Table)
    requires Reading(s, p, items, k, Some(name), pos)
    requires LinesFit(items) && recs == ToRecords(items) && InsertsFit(m0, recs)
    requires stats == Build(m0, recs[..k])
    ensures k < |items| && ValueFits(items[k].1)
    ensures recs[k].name == items[k].0 && recs[k].value as int == LineValue(items[k].1)
    ensures name in stats ==> Fits(Extend(stats[name], recs[k].value))
    ensures Build(m0, recs[..k + 1]) == Upsert(stats, LiteHashBuffer(recs[k].name), recs[k].value)
  {
    LineStep(s, p, items, k);
    InsertsFitAt(m0, recs, k);
    BuildStep(m0, recs, k);
  }

  /** Where `parse_bytes` stands: the line at `p` is the `k`-th, `name` is what
      `parse_name` read there, and the cursor is past its `;`. */
  ghost predicate Reading(s: seq<byte>, p: nat, items: seq<(seq<byte>, seq<byte>)>, k: nat,
                          name: Option<LiteHashBuffer>, pos: nat)
  {
    && p <= |s| && k <= |items| && Lines(s, p) == items[k..]
    && name == NameAt(s, p)
    && (name.None? ==> k == |items|)
    && (name.Some? ==> pos == FindFrom(s, p, SEMICOLON) + 1)
  }

  /** One turn of the loop of `parse_bytes`, after `parse_name` has read `name` at `p`:
      `parse_value` reads the value of the `k`-th line, whose record is `rec`, the record
      goes into the table, and `parse_name` reads the next name. */
  method ParseLine(buffer: Cursor, records: StationRecords, name: LiteHashBuffer, ghost p: nat,
                   ghost items: seq<(seq<byte>, seq<byte>)>, ghost k: nat, ghost rec: Record)
    returns (ghost next: nat, nextName: Option<LiteHashBuffer>)
    requires buffer.Valid() && records.Valid()
    requires Reading(buffer.data, p, items, k, Some(name), buffer.pos) && k < |items|
    requires ValueFits(items[k].1) && rec.name == items[k].0 && rec.value as int == LineValue(items[k].1)
    requires name in records.stats ==> Fits(Extend(records.stats[name], rec.value))
    modifies buffer, records
    ensures buffer.Valid() && records.Valid()
    ensures p < next && Reading(buffer.data, next, items, k + 1, nextName, buffer.pos)
    ensures records.stats == Upsert(old(records.stats), LiteHashBuffer(rec.name), rec.value)
  {
    var value;
    value, next := ParseLineValue(buffer, name, p, items, k);
    assert name == LiteHashBuffer(rec.name) && value == rec.value;
    records.Insert(name, value);
    nextName := ParseNextName(buffer, next, items, k + 1);
  }

  /** `parse_value` on the `k`-th line, whose name has been read. */
  method ParseLineValue(buffer: Cursor, ghost name: LiteHashBuffer, ghost p: nat,
                        ghost items: seq<(seq<byte>, seq<byte>)>, ghost k: nat)
    returns (value: i16, ghost next: nat)
    requires buffer.Valid()
    requires Reading(buffer.data, p, items, k, Some(name), buffer.pos) && k < |items|
    requires ValueFits(items[k].1)
    modifies buffer
    ensures buffer.Valid() && buffer.pos == next
    ensures p < next <= |buffer.data| && Lines(buffer.data, next) == items[k + 1..]
    ensures value as int == LineValue(items[k].1)
  {
    ghost var s, q := buffer.data, buffer.pos;
    LineStep(s, p, items, k);
    next := AfterValue(s, q);
    value := ParseValue(buffer);
  }

  /** `parse_name` at the start of the lines `items[k..]`. */
  method ParseNextName(buffer: Cursor, ghost p: nat, ghost items: seq<(seq<byte>, seq<byte>)>, ghost k: nat)
    returns (name: Option<LiteHashBuffer>)
    requires buffer.Valid() && buffer.pos == p
    requires k <= |items| && Lines(buffer.data, p) == items[k..]
    modifies buffer
    ensures buffer.Valid() && Reading(buffer.data, p, items, k, name, buffer.pos)
  {
    name := ParseName(buffer);
    ReadingAt(buffer.data, p, items, k, buffer.pos);
  }

  /** `parse_name` at the start of the lines `items[k..]` puts the parser in `Reading`. */
  lemma ReadingAt(s: seq<byte>, p: nat, items: seq<(seq<byte>, seq<byte>)>, k: nat, pos: nat)
    requires p <= |s| && k <= |items| && Lines(s, p) == items[k..]
    requires pos == FindFrom(s, p, SEMICOLON) + (if NameAt(s, p).Some? then 1 else 0)
    ensures Reading(s, p, items, k, NameAt(s, p), pos)
  {
  }
}
