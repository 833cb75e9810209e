/** src/parser/sync.rs: the split-based parser. The input is split at newlines, empty
    segments are dropped, and each remaining line must split at `;` into exactly a name
    and a value; any other line makes the parser panic, which the model returns as an
    error. */
module Sync {

  import opened Machine
  import opened Wrappers
  import opened ParserFunc
  import opened HashableBuffer
  import opened Stats
  import opened Records

  /** Why `parse_bytes` panics: a line that is not `name;value`, or an empty value,
      whose first byte `parse_value` indexes. */
  datatype SyncError = InvalidLine(line: seq<byte>) | EmptyValue

  // ---------------------------------------------------------------------------------
  // `split` on a byte slice.

  /** `<[u8]>::split(|&b| b == sep)`: the segments between the separators, empty ones
      included, so `n` separators give `n + 1` segments. */
  function SplitOn(s: seq<byte>, sep: byte): (parts: seq<seq<byte>>)
    ensures |parts| >= 1
    ensures forall i :: 0 <= i < |parts| ==> sep !in parts[i]
    decreases |s|
  {
    var e := FindFrom(s, 0, sep);
    if e == |s| then
      assert forall i :: 0 <= i < |s| ==> s[i] != sep;
      [s]
    else
      assert forall i :: 0 <= i < e ==> s[..e][i] == s[i];
      [s[..e]] + SplitOn(s[e + 1..], sep)
  }

  /** The segments put back together with the separator between them. */
  function JoinOn(parts: seq<seq<byte>>, sep: byte): seq<byte>
    requires |parts| >= 1
  {
    if |parts| == 1 then parts[0] else parts[0] + [sep] + JoinOn(parts[1..], sep)
  }

  /** Splitting loses nothing: joining the segments gives the input back. */
  lemma {:induction false} JoinSplit(s: seq<byte>, sep: byte)
    ensures JoinOn(SplitOn(s, sep), sep) == s
    decreases |s|
  {
    var e := FindFrom(s, 0, sep);
    if e < |s| {
      JoinSplit(s[e + 1..], sep);
      assert s == s[..e] + [sep] + s[e + 1..];
    }
  }

  /** Segments without a separator come back from the split of their join. */
  lemma {:induction false} SplitJoin(parts: seq<seq<byte>>, sep: byte)
    requires |parts| >= 1 && forall i :: 0 <= i < |parts| ==> sep !in parts[i]
    ensures SplitOn(JoinOn(parts, sep), sep) == parts
    decreases |parts|
  {
    var p := parts[0];
    if |parts| == 1 {
      assert FindFrom(p, 0, sep) == |p|;
    } else {
      SplitCons(p, JoinOn(parts[1..], sep), sep);
      SplitJoin(parts[1..], sep);
      assert parts == [p] + parts[1..];
    }
  }

  /** A first segment without a separator is split off whole. */
  lemma SplitCons(p: seq<byte>, rest: seq<byte>, sep: byte)
    requires sep !in p
    ensures SplitOn(p + [sep] + rest, sep) == [p] + SplitOn(rest, sep)
  {
    var s := p + [sep] + rest;
    assert s[|p|] == sep;
    assert forall i :: 0 <= i < |p| ==> s[i] == p[i];
    assert FindFrom(s, 0, sep) == |p|;
    assert s[..|p|] == p && s[|p| + 1..] == rest;
  }

  lemma {:induction false} JoinAppend(xs: seq<seq<byte>>, ys: seq<seq<byte>>, sep: byte)
    requires |xs| >= 1 && |ys| >= 1
    ensures JoinOn(xs + ys, sep) == JoinOn(xs, sep) + [sep] + JoinOn(ys, sep)
    decreases |xs|
  {
    assert (xs + ys)[0] == xs[0];
    if |xs| > 1 {
      assert (xs + ys)[1..] == xs[1..] + ys;
      JoinAppend(xs[1..], ys, sep);
    } else {
      assert (xs + ys)[1..] == ys;
    }
  }

  /** Splitting at a separator splits the two sides independently. */
  lemma SplitAppend(a: seq<byte>, b: seq<byte>, sep: byte)
    ensures SplitOn(a + [sep] + b, sep) == SplitOn(a, sep) + SplitOn(b, sep)
  {
    var xs, ys := SplitOn(a, sep), SplitOn(b, sep);
    JoinSplit(a, sep);
    JoinSplit(b, sep);
    JoinAppend(xs, ys, sep);
    SplitJoin(xs + ys, sep);
  }

  // ---------------------------------------------------------------------------------
  // The lines `parse_bytes` visits.

  /** `.filter(|bytes| bytes.len() > 0)`. */
  function NonEmpty(parts: seq<seq<byte>>): (r: seq<seq<byte>>)
    ensures forall i :: 0 <= i < |r| ==> r[i] != []
  {
    if parts == [] then []
    else if parts[0] == [] then NonEmpty(parts[1..])
    else [parts[0]] + NonEmpty(parts[1..])
  }

  lemma {:induction false} NonEmptyAppend(xs: seq<seq<byte>>, ys: seq<seq<byte>>)
    ensures NonEmpty(xs + ys) == NonEmpty(xs) + NonEmpty(ys)
    decreases |xs|
  {
    if xs == [] {
      assert xs + ys == ys;
    } else {
      assert (xs + ys)[0] == xs[0] && (xs + ys)[1..] == xs[1..] + ys;
      NonEmptyAppend(xs[1..], ys);
    }
  }

  /** The non-empty lines of the input. */
  function SyncLines(bytes: seq<byte>): (lines: seq<seq<byte>>)
    ensures forall i :: 0 <= i < |lines| ==> lines[i] != [] && NEWLINE !in lines[i]
  {
    var parts := SplitOn(bytes, NEWLINE);
    NonEmptyProperties(parts);
    NonEmpty(parts)
  }

  lemma {:induction false} NonEmptyProperties(parts: seq<seq<byte>>)
    requires forall i :: 0 <= i < |parts| ==> NEWLINE !in parts[i]
    ensures forall i :: 0 <= i < |NonEmpty(parts)| ==> NEWLINE !in NonEmpty(parts)[i]
    decreases |parts|
  {
    if parts != [] {
      NonEmptyProperties(parts[1..]);
    }
  }

  /** The lines of two pieces of input joined by a newline are the lines of each: blank
      lines, a missing or a repeated newline at either end add no line. */
  lemma SyncLinesAppend(a: seq<byte>, b: seq<byte>)
    ensures SyncLines(a + [NEWLINE] + b) == SyncLines(a) + SyncLines(b)
  {
    SplitAppend(a, b, NEWLINE);
    NonEmptyAppend(SplitOn(a, NEWLINE), SplitOn(b, NEWLINE));
  }

  /** A trailing newline adds no line. */
  lemma TrailingNewline(bytes: seq<byte>)
    ensures SyncLines(bytes + [NEWLINE]) == SyncLines(bytes)
  {
    SyncLinesAppend(bytes, []);
    assert bytes + [NEWLINE] == bytes + [NEWLINE] + [];
    assert SplitOn([], NEWLINE) == [[]];
    assert NonEmpty([[]]) == NonEmpty([]);
    assert SyncLines(bytes) + [] == SyncLines(bytes);
  }

  // ---------------------------------------------------------------------------------
  // One line.

  /** The `if let (Some(name), Some(value_raw), None)` of `parse_bytes`: a line that
      splits at `;` into exactly two segments, or the invalid-line panic. */
  function SplitLine(line: seq<byte>): (r: Result<(seq<byte>, seq<byte>), SyncError>)
    ensures r.Ok? ==> line == r.value.0 + [SEMICOLON] + r.value.1
    ensures r.Ok? ==> SEMICOLON !in r.value.0 && SEMICOLON !in r.value.1
    ensures r.Err? ==> r.error == InvalidLine(line)
  {
    var parts := SplitOn(line, SEMICOLON);
    if |parts| == 2 then
      JoinSplit(line, SEMICOLON);
      assert JoinOn(parts, SEMICOLON) == parts[0] + [SEMICOLON] + parts[1];
      Ok((parts[0], parts[1]))
    else Err(InvalidLine(line))
  }

  /** A line with exactly one `;` is valid, and splits at it. With the contract of
      `SplitLine`, a line is valid exactly when it has one `;`. */
  lemma SplitLineValid(name: seq<byte>, value: seq<byte>)
    requires SEMICOLON !in name && SEMICOLON !in value
    ensures SplitLine(name + [SEMICOLON] + value) == Ok((name, value))
  {
    SplitJoin([name, value], SEMICOLON);
    assert JoinOn([name, value], SEMICOLON) == name + [SEMICOLON] + value by {
      assert [name, value][1..] == [value];
    }
  }

  /** The digits `parse_value` folds: the ASCII digits of the value, every other byte
      (the `-`, the `.`, anything else) skipped. */
  function SyncDigits(t: seq<byte>): (ds: seq<byte>)
    ensures |ds| <= |t|
    ensures forall i :: 0 <= i < |ds| ==> ds[i] <= 9
  {
    if t == [] then []
    else
      var c := t[|t| - 1];
      SyncDigits(t[..|t| - 1]) + (if IsAsciiDigit(c) then [U8ToDigit(c)] else [])
  }

  /** `parse_value`: the digits folded in decimal, negated when the first byte is a `-`
      (a `-` anywhere else is skipped); an empty value is the out-of-bounds panic of
      `bytes[0]`. */
  function SyncValue(t: seq<byte>): (r: Result<int, SyncError>)
    ensures r.Err? <==> t == []
    ensures r.Err? ==> r.error == EmptyValue
    ensures r.Ok? ==> (r.value < 0 ==> t[0] == MINUS) && (t[0] == MINUS ==> r.value <= 0)
    ensures r.Ok? ==> r.value == FoldDecimal(SyncDigits(t)) || r.value == -FoldDecimal(SyncDigits(t))
  {
    if t == [] then Err(EmptyValue)
    else if t[0] == MINUS then Ok(-FoldDecimal(SyncDigits(t)))
    else Ok(FoldDecimal(SyncDigits(t)))
  }

  /** The `i16` fold of the digits does not overflow. */
  predicate SyncValueFits(t: seq<byte>) {
    FoldDecimal(SyncDigits(t)) <= I16_MAX
  }

  /** One more byte of a value. */
  lemma SyncDigitsSnoc(t: seq<byte>, c: byte)
    ensures SyncDigits(t + [c]) == SyncDigits(t) + (if IsAsciiDigit(c) then [U8ToDigit(c)] else [])
  {
    assert (t + [c])[..|t|] == t;
  }

  /** The fold over a prefix never exceeds the fold over the whole value, so a value
      that fits never overflows on the way. */
  lemma {:induction false} SyncDigitsPrefixBounded(t: seq<byte>, k: nat)
    requires k <= |t|
    ensures FoldDecimal(SyncDigits(t[..k])) <= FoldDecimal(SyncDigits(t))
    decreases |t|
  {
    if k < |t| {
      var front := t[..|t| - 1];
      assert t[..k] == front[..k];
      SyncDigitsPrefixBounded(front, k);
      if IsAsciiDigit(t[|t| - 1]) {
        FoldDecimalAppend(SyncDigits(front), U8ToDigit(t[|t| - 1]));
      } else {
        assert SyncDigits(t) == SyncDigits(front) + [];
        assert SyncDigits(front) + [] == SyncDigits(front);
      }
    } else {
      assert t[..k] == t;
    }
  }

  /** One step of the fold of `parse_value`, which does not overflow when the whole
      value fits. */
  lemma SyncFoldStep(t: seq<byte>, i: nat)
    requires i < |t| && SyncValueFits(t)
    ensures FoldDecimal(SyncDigits(t[..i + 1])) <= I16_MAX
    ensures FoldDecimal(SyncDigits(t[..i + 1])) ==
            if IsAsciiDigit(t[i]) then FoldDecimal(SyncDigits(t[..i])) * 10 + U8ToDigit(t[i]) as int
            else FoldDecimal(SyncDigits(t[..i]))
  {
    assert t[..i + 1] == t[..i] + [t[i]];
    SyncDigitsSnoc(t[..i], t[i]);
    SyncDigitsPrefixBounded(t, i + 1);
    if IsAsciiDigit(t[i]) {
      FoldDecimalAppend(SyncDigits(t[..i]), U8ToDigit(t[i]));
    } else {
      assert SyncDigits(t[..i]) + [] == SyncDigits(t[..i]);
    }
  }

  /** `parse_value`: the fold, then the sign. */
  method ParseValue(bytes: seq<byte>) returns (r: Result<i16, SyncError>)
    requires SyncValueFits(bytes)
    ensures r.Ok? <==> SyncValue(bytes).Ok?
    ensures r.Ok? ==> r.value as int == SyncValue(bytes).value
    ensures r.Err? ==> r.error == SyncValue(bytes).error
  {
    if |bytes| == 0 {
      return Err(EmptyValue);
    }
    var multiplier: i16 := 1;
    if bytes[0] == MINUS {
      multiplier := -1;
    }
    var acc: i16 := 0;
    for i := 0 to |bytes|
      invariant acc as int == FoldDecimal(SyncDigits(bytes[..i]))
    {
      SyncFoldStep(bytes, i);
      if IsAsciiDigit(bytes[i]) {
        acc := acc * 10 + U8ToDigit(bytes[i]) as i16;
      }
    }
    assert bytes[..|bytes|] == bytes;
    return Ok(acc * multiplier);
  }

  /** The record a line stands for, or why the parser panics on it. */
  function LineRecord(line: seq<byte>): Result<(seq<byte>, int), SyncError> {
    match SplitLine(line)
    case Err(e) => Err(e)
    case Ok((name, raw)) =>
      match SyncValue(raw)
      case Err(e) => Err(e)
      case Ok(v) => Ok((name, v))
  }

  /** A line `name;value` with a single `;` and a non-empty value is the record of that
      name and value; every other line is an invalid line, or an empty value. */
  lemma LineRecordOf(name: seq<byte>, raw: seq<byte>)
    requires SEMICOLON !in name && SEMICOLON !in raw
    ensures raw != [] ==> LineRecord(name + [SEMICOLON] + raw) == Ok((name, SyncValue(raw).value))
    ensures raw == [] ==> LineRecord(name + [SEMICOLON] + raw) == Err(EmptyValue)
  {
    SplitLineValid(name, raw);
  }

  /** A line without exactly one `;` is an invalid line. */
  lemma LineRecordInvalid(line: seq<byte>)
    requires |SplitOn(line, SEMICOLON)| != 2
    ensures LineRecord(line) == Err(InvalidLine(line))
  {
  }

  /** The value of a valid line fits the `i16` fold. */
  predicate LineFits(line: seq<byte>) {
    SplitLine(line).Ok? ==> SyncValueFits(SplitLine(line).value.1)
  }

  /** The body of the `for_each`, for one line. */
  method ParseLine(line: seq<byte>) returns (r: Result<(seq<byte>, i16), SyncError>)
    requires LineFits(line)
    ensures r.Ok? <==> LineRecord(line).Ok?
    ensures r.Ok? ==> r.value.0 == LineRecord(line).value.0 && r.value.1 as int == LineRecord(line).value.1
    ensures r.Err? ==> r.error == LineRecord(line).error
  {
    var parts := SplitLine(line);
    if parts.Err? {
      return Err(parts.error);
    }
    var value := ParseValue(parts.value.1);
    if value.Err? {
      return Err(value.error);
    }
    return Ok((parts.value.0, value.value));
  }

  // ---------------------------------------------------------------------------------
  // The whole input.

  /** The index of the first line the parser panics on, or the number of lines. */
  function FirstBad(lines: seq<seq<byte>>): (k: nat)
    ensures k <= |lines|
    ensures forall i :: 0 <= i < k ==> LineRecord(lines[i]).Ok?
    ensures k < |lines| ==> LineRecord(lines[k]).Err?
  {
    if lines == [] then 0
    else if LineRecord(lines[0]).Err? then 0
    else
      var k := FirstBad(lines[1..]);
      assert forall i :: 1 <= i < k + 1 ==> lines[i] == lines[1..][i - 1];
      k + 1
  }

  /** A line the parser panics on fits trivially: either it has no value, or its value
      is empty. */
  lemma BadLineFits(line: seq<byte>)
    requires LineRecord(line).Err?
    ensures LineFits(line)
  {
  }

  predicate LinesFit(lines: seq<seq<byte>>) {
    forall i :: 0 <= i < |lines| ==> LineFits(lines[i])
  }

  /** The record of a valid line whose value fits. */
  function LineToRecord(line: seq<byte>): (rec: Record)
    requires LineRecord(line).Ok? && LineFits(line)
    ensures (rec.name, rec.value as int) == LineRecord(line).value
  {
    assert SyncValue(SplitLine(line).value.1).Ok?;
    Record(LineRecord(line).value.0, LineRecord(line).value.1 as i16)
  }

  /** The records of lines that are all valid and fit. */
  function SyncRecords(lines: seq<seq<byte>>): (recs: seq<Record>)
    requires forall i :: 0 <= i < |lines| ==> LineRecord(lines[i]).Ok?
    requires LinesFit(lines)
    ensures |recs| == |lines|
  {
    seq(|lines|, i requires 0 <= i < |lines| && LineRecord(lines[i]).Ok? && LineFits(lines[i]) =>
      LineToRecord(lines[i]))
  }

  /** The body of the `for_each`: the line's record is inserted, or the line is the
      panic and the table is left as it was. */
  method InsertLine(line: seq<byte>, records: StationRecords) returns (r: Result<(), SyncError>)
    requires records.Valid() && LineFits(line)
    requires LineRecord(line).Ok? ==> InsertFits(records.stats, LineToRecord(line))
    modifies records
    ensures records.Valid()
    ensures r.Ok? <==> LineRecord(line).Ok?
    ensures r.Err? ==> r.error == LineRecord(line).error && records.stats == old(records.stats)
    ensures r.Ok? ==> var rec := LineToRecord(line);
                      records.stats == Upsert(old(records.stats), LiteHashBuffer(rec.name), rec.value)
  {
    var parsed := ParseLine(line);
    if parsed.Err? {
      return Err(parsed.error);
    }
    records.Insert(LiteHashBuffer(parsed.value.0), parsed.value.1);
    return Ok(());
  }

  /** What `parse_bytes` knows of its `i`-th line: before the first invalid line, the
      line is the `i`-th record, and inserting it extends the table built so far by one
      record; at the first invalid line, the line is the panic. */
  lemma NextLine(lines: seq<seq<byte>>, i: nat, m0: Table, recs: seq<Record>, stats: Table)
    requires i <= FirstBad(lines) && i < |lines| && LinesFit(lines[..FirstBad(lines)])
    requires recs == SyncRecords(lines[..FirstBad(lines)]) && InsertsFit(m0, recs)
    requires stats == Build(m0, recs[..i])
    ensures LineFits(lines[i])
    ensures i == FirstBad(lines) ==> LineRecord(lines[i]).Err?
    ensures i < FirstBad(lines) ==> LineRecord(lines[i]).Ok? && recs[i] == LineToRecord(lines[i])
    ensures i < FirstBad(lines) ==> InsertFits(stats, recs[i])
    ensures i < FirstBad(lines) ==>
              Build(m0, recs[..i + 1]) == Upsert(stats, LiteHashBuffer(recs[i].name), recs[i].value)
  {
    var k := FirstBad(lines);
    if i < k {
      assert lines[..k][i] == lines[i];
      InsertsFitAt(m0, recs, i);
      BuildStep(m0, recs, i);
    } else {
      BadLineFits(lines[i]);
    }
  }

  /** One pass of the `for_each`: the `i`-th line extends the table built so far by one
      record, or it is the first invalid line, and then every record before it is in. */
  method FeedLine(lines: seq<seq<byte>>, i: nat, records: StationRecords, ghost m0: Table, ghost recs: seq<Record>)
    returns (r: Result<(), SyncError>)
    requires i <= FirstBad(lines) && i < |lines| && LinesFit(lines[..FirstBad(lines)])
    requires recs == SyncRecords(lines[..FirstBad(lines)]) && InsertsFit(m0, recs)
    requires records.Valid() && records.stats == Build(m0, recs[..i])
    modifies records
    ensures records.Valid()
    ensures r.Ok? <==> i < FirstBad(lines)
    ensures r.Ok? ==> records.stats == Build(m0, recs[..i + 1])
    ensures r.Err? ==> r.error == LineRecord(lines[i]).error && records.stats == Build(m0, recs)
  {
    NextLine(lines, i, m0, recs, records.stats);
    r := InsertLine(lines[i], records);
    if r.Err? {
      assert recs[..i] == recs;
    }
  }

  /** The `for_each` over the lines: every line is inserted in order; the first invalid
      line ends the parse with its panic, after the lines before it have been inserted.
      Their values must fit the `i16` fold, and their inserts must not overflow a sum or a
      count. */
  method ParseLines(lines: seq<seq<byte>>, records: StationRecords) returns (r: Result<(), SyncError>)
    requires records.Valid() && LinesFit(lines[..FirstBad(lines)])
    requires InsertsFit(records.stats, SyncRecords(lines[..FirstBad(lines)]))
    modifies records
    ensures records.Valid()
    ensures r.Ok? <==> FirstBad(lines) == |lines|
    ensures r.Err? ==> r.error == LineRecord(lines[FirstBad(lines)]).error
    ensures records.stats == Build(old(records.stats), SyncRecords(lines[..FirstBad(lines)]))
  {
    ghost var k := FirstBad(lines);
    ghost var m0 := records.stats;
    ghost var recs := SyncRecords(lines[..k]);
    var i := 0;
    while i < |lines|
      invariant i <= k && records.Valid()
      invariant records.stats == Build(m0, recs[..i])
    {
      r := FeedLine(lines, i, records, m0, recs);
      if r.Err? {
        break;
      }
      i := i + 1;
    }
    if i == |lines| {
      assert recs[..i] == recs;
      r := Ok(());
    }
  }

  /** `parse_bytes`: the non-empty lines of the input, parsed in order. */
  method ParseBytes(bytes: seq<byte>, records: StationRecords) returns (r: Result<(), SyncError>)
    requires records.Valid()
    requires var lines := SyncLines(bytes); LinesFit(lines[..FirstBad(lines)])
    requires var lines := SyncLines(bytes);
             InsertsFit(records.stats, SyncRecords(lines[..FirstBad(lines)]))
    modifies records
    ensures records.Valid()
    ensures var lines := SyncLines(bytes); r.Ok? <==> FirstBad(lines) == |lines|
    ensures var lines := SyncLines(bytes); r.Err? ==> r.error == LineRecord(lines[FirstBad(lines)]).error
    ensures var lines := SyncLines(bytes);
            records.stats == Build(old(records.stats), SyncRecords(lines[..FirstBad(lines)]))
  {
    r := ParseLines(SyncLines(bytes), records);
  }
}
