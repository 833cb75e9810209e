/** The unit tests of src/parser/line.rs, restated as facts about the parser's model.
    With the contracts of `ParseName`, `ParseValue` and `ParseBytes`, each fact below is
    what the corresponding test observes. Inputs are ASCII text written out as bytes. */
module LineExamples {

  import opened Machine
  import opened Wrappers
  import opened ParserFunc
  import opened HashableBuffer
  import opened Stats
  import opened Records
  import opened Line

  // "0", "10", "535.4", "-0", "-1", "-535.4", one byte at a time.
  const V_0: seq<byte> := [0x30]
  const V_10: seq<byte> := [0x31] + [0x30]
  const V_5354: seq<byte> := [0x35] + [0x33] + [0x35] + [DOT] + [0x34]
  const V_NEG_0: seq<byte> := [MINUS] + V_0
  const V_NEG_1: seq<byte> := [MINUS] + [0x31]
  const V_NEG_5354: seq<byte> := [MINUS] + V_5354

  /** A value with or without its newline is read whole, and the cursor ends at the end
      of the input: the `read_u8` after `parse_value` fails in every value test. */
  lemma ValueReadWhole(t: seq<byte>)
    requires NEWLINE !in t
    ensures ValueText(t, 0) == t && AfterValue(t, 0) == |t|
    ensures ValueText(t + [NEWLINE], 0) == t && AfterValue(t + [NEWLINE], 0) == |t + [NEWLINE]|
  {
    var u := t + [NEWLINE];
    assert FindFrom(t, 0, NEWLINE) == |t|;
    assert u[|t|] == NEWLINE;
    assert forall i :: 0 <= i < |t| ==> u[i] == t[i];
    assert u[0..|t|] == t;
  }

  /** A single digit is its own value. */
  lemma DigitOne(c: byte)
    requires IsAsciiDigit(c)
    ensures FoldDecimal(ValueDigits([c])) == c as int - 0x30 && !Negative([c])
  {
    ValueSnoc([], c);
    assert [] + [c] == [c];
    FoldDecimalAppend([], U8ToDigit(c));
    assert [] + [U8ToDigit(c)] == [U8ToDigit(c)];
  }

  /** One more digit shifts the magnitude read so far by one decimal place. */
  lemma DigitSnoc(t: seq<byte>, c: byte)
    requires IsAsciiDigit(c)
    ensures FoldDecimal(ValueDigits(t + [c])) == FoldDecimal(ValueDigits(t)) * 10 + (c as int - 0x30)
    ensures Negative(t + [c]) <==> Negative(t)
  {
    ValueSnoc(t, c);
    FoldDecimalAppend(ValueDigits(t), U8ToDigit(c));
  }

  /** A `.` changes nothing. */
  lemma DotSnoc(t: seq<byte>)
    ensures FoldDecimal(ValueDigits(t + [DOT])) == FoldDecimal(ValueDigits(t))
    ensures Negative(t + [DOT]) <==> Negative(t)
  {
    ValueSnoc(t, DOT);
    assert ValueDigits(t) + [] == ValueDigits(t);
  }

  /** A leading `-` negates the value of the rest. */
  lemma NegatedValue(t: seq<byte>)
    ensures LineValue([MINUS] + t) == -FoldDecimal(ValueDigits(t))
  {
    ValueDigitsAppend([MINUS], t);
    ValueSnoc([], MINUS);
    assert [] + [MINUS] == [MINUS];
    assert [] + ValueDigits(t) == ValueDigits(t);
  }

  /** The values of the `parse_value` tests without a fraction. */
  lemma ValueExamples()
    ensures LineValue(V_0) == 0 && LineValue(V_10) == 10
    ensures LineValue(V_NEG_0) == 0 && LineValue(V_NEG_1) == -1
  {
    DigitOne(0x30);
    DigitOne(0x31);
    DigitSnoc([0x31], 0x30);
    NegatedValue(V_0);
    NegatedValue([0x31]);
  }

  /** The values of the `parse_value` tests `535.4` and `-535.4`. */
  lemma ValueExamplesFraction()
    ensures LineValue(V_5354) == 5354 && LineValue(V_NEG_5354) == -5354
  {
    DigitOne(0x35);
    DigitSnoc([0x35], 0x33);
    DigitSnoc([0x35] + [0x33], 0x35);
    DotSnoc([0x35] + [0x33] + [0x35]);
    DigitSnoc([0x35] + [0x33] + [0x35] + [DOT], 0x34);
    NegatedValue(V_5354);
  }

  /** The digits and the sign of a text are those of its two parts. */
  lemma {:induction false} ValueDigitsAppend(t: seq<byte>, u: seq<byte>)
    ensures ValueDigits(t + u) == ValueDigits(t) + ValueDigits(u)
    ensures Negative(t + u) <==> Negative(t) || Negative(u)
    decreases |u|
  {
    if u == [] {
      assert t + u == t;
    } else {
      var front, c := u[..|u| - 1], u[|u| - 1];
      assert u == front + [c];
      assert t + u == (t + front) + [c];
      ValueDigitsAppend(t, front);
      ValueSnoc(t + front, c);
      ValueSnoc(front, c);
    }
  }

  // "abc;", "hello, world!", "hello, world!;123.4", "jack;1.2\njill:3.4"
  const ABC: seq<byte> := [0x61, 0x62, 0x63]
  const HELLO: seq<byte> := [0x68, 0x65, 0x6C, 0x6C, 0x6F, 0x2C, 0x20, 0x77, 0x6F, 0x72, 0x6C, 0x64, 0x21]
  const JACK: seq<byte> := [0x6A, 0x61, 0x63, 0x6B]
  const JILL: seq<byte> := [0x6A, 0x69, 0x6C, 0x6C]

  /** A name followed by `;` is read up to the `;`, whatever follows it. */
  lemma NameBeforeSemicolon(name: seq<byte>, rest: seq<byte>)
    requires SEMICOLON !in name
    ensures NameAt(name + [SEMICOLON] + rest, 0) == Some(LiteHashBuffer(name))
  {
    var s := name + [SEMICOLON] + rest;
    assert s[|name|] == SEMICOLON;
    assert forall i :: 0 <= i < |name| ==> s[i] == name[i];
    assert s[0..|name|] == name;
  }

  /** The `parse_name` tests `abc;` and `hello, world!;123.4`: the name before the `;`. */
  lemma NameExamples()
    ensures NameAt(ABC + [SEMICOLON], 0) == Some(LiteHashBuffer(ABC))
    ensures NameAt(HELLO + [SEMICOLON] + [0x31, 0x32, 0x33, 0x2E, 0x34], 0) == Some(LiteHashBuffer(HELLO))
  {
    assert ABC + [SEMICOLON] == ABC + [SEMICOLON] + [];
    NameBeforeSemicolon(ABC, []);
    NameBeforeSemicolon(HELLO, [0x31, 0x32, 0x33, 0x2E, 0x34]);
  }

  /** The `parse_name` test `jack;1.2\njill:3.4`: only the first line's name is read. */
  lemma NameOfFirstLine()
    ensures NameAt(JACK + [SEMICOLON] + [0x31, 0x2E, 0x32, NEWLINE] + JILL + [0x3A, 0x33, 0x2E, 0x34], 0)
         == Some(LiteHashBuffer(JACK))
  {
    assert JACK + [SEMICOLON] + [0x31, 0x2E, 0x32, NEWLINE] + JILL + [0x3A, 0x33, 0x2E, 0x34]
        == JACK + [SEMICOLON] + ([0x31, 0x2E, 0x32, NEWLINE] + JILL + [0x3A, 0x33, 0x2E, 0x34]);
    NameBeforeSemicolon(JACK, [0x31, 0x2E, 0x32, NEWLINE] + JILL + [0x3A, 0x33, 0x2E, 0x34]);
  }

  /** The `parse_name` test `hello, world!`: no `;`, so no name. */
  lemma NameUnterminated()
    ensures NameAt(HELLO, 0).None?
  {
    assert HELLO[0..] == HELLO;
  }

  // The `parse_bytes` tests: "jack;1.2", "jack;1.2\n" and
  // "jill;3.4\njack;1.2\njill;2.3\njill;4.5\n".
  const V_12: seq<byte> := [0x31] + [DOT] + [0x32]
  const V_23: seq<byte> := [0x32] + [DOT] + [0x33]
  const V_34: seq<byte> := [0x33] + [DOT] + [0x34]
  const V_45: seq<byte> := [0x34] + [DOT] + [0x35]
  const JACK_LINE: seq<byte> := JACK + [SEMICOLON] + V_12
  const JILLS_4: seq<byte> := JILL + [SEMICOLON] + V_45 + [NEWLINE]
  const JILLS_3: seq<byte> := JILL + [SEMICOLON] + V_23 + [NEWLINE] + JILLS_4
  const JILLS_2: seq<byte> := JACK + [SEMICOLON] + V_12 + [NEWLINE] + JILLS_3
  const JILLS: seq<byte> := JILL + [SEMICOLON] + V_34 + [NEWLINE] + JILLS_2
  const JILL_ITEMS: seq<(seq<byte>, seq<byte>)> := [(JILL, V_34), (JACK, V_12), (JILL, V_23), (JILL, V_45)]
  const JILL_RECORDS: seq<Record> := [Record(JILL, 34), Record(JACK, 12), Record(JILL, 23), Record(JILL, 45)]

  /** The values `1.2`, `2.3`, `3.4` and `4.5`: the dot is skipped. */
  lemma TenthsExamples()
    ensures FoldDecimal(ValueDigits(V_12)) == 12 && !Negative(V_12) && LineValue(V_12) == 12
    ensures FoldDecimal(ValueDigits(V_23)) == 23 && !Negative(V_23) && LineValue(V_23) == 23
    ensures FoldDecimal(ValueDigits(V_34)) == 34 && !Negative(V_34) && LineValue(V_34) == 34
    ensures FoldDecimal(ValueDigits(V_45)) == 45 && !Negative(V_45) && LineValue(V_45) == 45
  {
    DigitOne(0x31); DotSnoc([0x31]); DigitSnoc([0x31] + [DOT], 0x32);
    DigitOne(0x32); DotSnoc([0x32]); DigitSnoc([0x32] + [DOT], 0x33);
    DigitOne(0x33); DotSnoc([0x33]); DigitSnoc([0x33] + [DOT], 0x34);
    DigitOne(0x34); DotSnoc([0x34]); DigitSnoc([0x34] + [DOT], 0x35);
  }

  /** `parse_bytes_single_line`: the one line `jack` = 12, without a newline. */
  lemma JackLine()
    ensures Lines(JACK_LINE, 0) == [(JACK, V_12)]
    ensures LinesFit([(JACK, V_12)]) && ToRecords([(JACK, V_12)]) == [Record(JACK, 12)]
  {
    JillsParts();
    assert JACK_LINE[0..4] == JACK && JACK_LINE[4] == SEMICOLON && JACK_LINE[5..] == V_12;
    LinesLast(JACK_LINE, 0, JACK, V_12);
    TenthsExamples();
  }

  /** `parse_bytes_single_line_with_newline`: the same line, ended by a newline. */
  lemma JackLineNewline()
    ensures Lines(JACK_LINE + [NEWLINE], 0) == [(JACK, V_12)]
  {
    JillsParts();
    var s := JACK_LINE + [NEWLINE];
    assert s[0..4] == JACK && s[4] == SEMICOLON && s[5..8] == V_12 && s[8] == NEWLINE;
    LinesCons(s, 0, JACK, V_12, 9);
    LinesNone(s, 9);
  }

  /** `parse_bytes_multiple_jills`: the four lines, in order. */
  lemma JillsLines()
    ensures Lines(JILLS, 0) == JILL_ITEMS
  {
    JillsFirstTwo();
    JillsLastTwo();
    FourLines(Lines(JILLS, 0), Lines(JILLS, 9), Lines(JILLS, 18), Lines(JILLS, 27),
              (JILL, V_34), (JACK, V_12), (JILL, V_23), (JILL, V_45));
  }

  /** Four lines read one after the other. */
  lemma FourLines(l0: seq<(seq<byte>, seq<byte>)>, l1: seq<(seq<byte>, seq<byte>)>,
                  l2: seq<(seq<byte>, seq<byte>)>, l3: seq<(seq<byte>, seq<byte>)>,
                  a: (seq<byte>, seq<byte>), b: (seq<byte>, seq<byte>),
                  c: (seq<byte>, seq<byte>), d: (seq<byte>, seq<byte>))
    requires l0 == [a] + l1 && l1 == [b] + l2 && l2 == [c] + l3 && l3 == [d] + []
    ensures l0 == [a, b, c, d]
  {
  }

  /** The first two lines. */
  lemma JillsFirstTwo()
    ensures Lines(JILLS, 0) == [(JILL, V_34)] + Lines(JILLS, 9)
    ensures Lines(JILLS, 9) == [(JACK, V_12)] + Lines(JILLS, 18)
  {
    JillsOffsets();
    JillsParts();
    LinesCons(JILLS, 0, JILL, V_34, 9);
    LinesCons(JILLS, 9, JACK, V_12, 18);
  }

  /** The last two lines, and nothing after them. */
  lemma JillsLastTwo()
    ensures Lines(JILLS, 18) == [(JILL, V_23)] + Lines(JILLS, 27)
    ensures Lines(JILLS, 27) == [(JILL, V_45)] + []
  {
    JillsOffsets();
    JillsParts();
    LinesCons(JILLS, 18, JILL, V_23, 27);
    LinesCons(JILLS, 27, JILL, V_45, 36);
    LinesNone(JILLS, 36);
  }

  /** No name holds a `;` and no value a newline. */
  lemma JillsParts()
    ensures SEMICOLON !in JILL && SEMICOLON !in JACK
    ensures NEWLINE !in V_12 && NEWLINE !in V_23 && NEWLINE !in V_34 && NEWLINE !in V_45
  {
  }

  /** Where the parts of each line lie: every line is nine bytes long, with its `;` at
      the fifth and its newline at the ninth. */
  lemma JillsOffsets()
    ensures |JILLS| == 36
    ensures JILLS[0..4] == JILL && JILLS[4] == SEMICOLON && JILLS[5..8] == V_34 && JILLS[8] == NEWLINE
    ensures JILLS[9..13] == JACK && JILLS[13] == SEMICOLON && JILLS[14..17] == V_12 && JILLS[17] == NEWLINE
    ensures JILLS[18..22] == JILL && JILLS[22] == SEMICOLON && JILLS[23..26] == V_23 && JILLS[26] == NEWLINE
    ensures JILLS[27..31] == JILL && JILLS[31] == SEMICOLON && JILLS[32..35] == V_45 && JILLS[35] == NEWLINE
  {
  }

  /** The four lines fit and stand for the readings 34, 12, 23 and 45. */
  lemma JillsRecords()
    ensures LinesFit(Lines(JILLS, 0)) && ToRecords(Lines(JILLS, 0)) == JILL_RECORDS
  {
    JillsLines();
    ItemsRecords();
  }

  /** The readings of the four lines. */
  lemma ItemsRecords()
    ensures LinesFit(JILL_ITEMS) && ToRecords(JILL_ITEMS) == JILL_RECORDS
  {
    TenthsExamples();
    assert ValueFits(V_12) && ValueFits(V_23) && ValueFits(V_34) && ValueFits(V_45);
    assert JILL_ITEMS[0].1 == V_34 && JILL_ITEMS[1].1 == V_12 && JILL_ITEMS[2].1 == V_23 && JILL_ITEMS[3].1 == V_45;
    var recs := ToRecords(JILL_ITEMS);
    assert recs[0] == JILL_RECORDS[0] && recs[1] == JILL_RECORDS[1];
    assert recs[2] == JILL_RECORDS[2] && recs[3] == JILL_RECORDS[3];
  }

  const JILL_1: Table := map[LiteHashBuffer(JILL) := StationStats(34, 34, 34, 1)]
  const JILL_2: Table := JILL_1[LiteHashBuffer(JACK) := StationStats(12, 12, 12, 1)]
  const JILL_3: Table := JILL_2[LiteHashBuffer(JILL) := StationStats(23, 34, 57, 2)]
  const JILL_4: Table := JILL_2[LiteHashBuffer(JILL) := StationStats(23, 45, 102, 3)]

  /** The tables after one, two, three and four of the readings. */
  lemma JillsPrefixes()
    ensures Build(map[], JILL_RECORDS[..1]) == JILL_1 && Build(map[], JILL_RECORDS[..2]) == JILL_2
    ensures Build(map[], JILL_RECORDS[..3]) == JILL_3 && Build(map[], JILL_RECORDS) == JILL_4
  {
    var r := JILL_RECORDS;
    assert r[..0] == [] && r[..4] == r;
    assert LiteHashBuffer(JILL) != LiteHashBuffer(JACK) by { assert JILL[1] != JACK[1]; }
    BuildStep(map[], r, 0);
    BuildStep(map[], r, 1);
    BuildStep(map[], r, 2);
    BuildStep(map[], r, 3);
  }

  /** Feeding the four readings to an empty table: `jill` sums 34 + 23 + 45 = 102 over
      three readings, `jack` holds its one reading 12, and the sums never overflow. */
  lemma JillsTable()
    ensures InsertsFit(map[], JILL_RECORDS) && Build(map[], JILL_RECORDS) == JILL_4
    ensures Build(map[], JILL_RECORDS)[LiteHashBuffer(JILL)] == StationStats(23, 45, 102, 3)
    ensures Build(map[], JILL_RECORDS)[LiteHashBuffer(JACK)] == StationStats(12, 12, 12, 1)
  {
    var r := JILL_RECORDS;
    JillsPrefixes();
    assert r[..0] == [] && r[..4] == r;
    InsertsFitStep(map[], r, 0);
    InsertsFitStep(map[], r, 1);
    InsertsFitStep(map[], r, 2);
    InsertsFitStep(map[], r, 3);
  }

  /** The `parse_bytes` tests end to end: an empty table, the bytes parsed into it, and
      the entry the test looks up. */
  method ParseBytesExamples() returns (jack: Option<StationStats>, jackNewline: Option<StationStats>,
                                       jill: Option<StationStats>)
    ensures jack.Some? && jack.value.sum == 12
    ensures jackNewline.Some? && jackNewline.value.sum == 12
    ensures jill.Some? && jill.value.sum == 102 && jill.value.count == 3
  {
    JackLine();
    JackLineNewline();
    JillsRecords();
    JillsTable();
    var single := new StationRecords();
    ParseBytes(JACK_LINE, single);
    jack := single.Get(LiteHashBuffer(JACK));
    var withNewline := new StationRecords();
    ParseBytes(JACK_LINE + [NEWLINE], withNewline);
    jackNewline := withNewline.Get(LiteHashBuffer(JACK));
    var many := new StationRecords();
    ParseBytes(JILLS, many);
    jill := many.Get(LiteHashBuffer(JILL));
  }
}
