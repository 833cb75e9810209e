/** The unit tests of src/parser/simd_parser.rs, restated as facts about the model:
    the separator pairs of the sample chunk on the scalar and the lane path, and the
    lines the parser yields from it. Inputs are ASCII text written out as bytes. */
module SimdExamples {

  import opened ParserFunc
  import opened SimdSeparators
  import opened Simd

  // "station 1", "station 2", "station 3", "station 15"
  const STATION: seq<byte> := [0x73, 0x74, 0x61, 0x74, 0x69, 0x6F, 0x6E, 0x20]
  const STATION_1: seq<byte> := STATION + [0x31]
  const STATION_2: seq<byte> := STATION + [0x32]
  const STATION_3: seq<byte> := STATION + [0x33]
  const STATION_15: seq<byte> := STATION + [0x31, 0x35]

  // "1.23", "4.56", "7.89", "0.12"
  const V_123: seq<byte> := [0x31, DOT, 0x32, 0x33]
  const V_456: seq<byte> := [0x34, DOT, 0x35, 0x36]
  const V_789: seq<byte> := [0x37, DOT, 0x38, 0x39]
  const V_012: seq<byte> := [0x30, DOT, 0x31, 0x32]

  /** The four complete lines of the sample. */
  const LINES: seq<(seq<byte>, seq<byte>)> :=
    [(STATION_1, V_123), (STATION_2, V_456), (STATION_3, V_789), (STATION_15, V_012)]

  /** "12345678": the unfinished line the sample ends with. */
  const TAIL: seq<byte> := [0x31, 0x32, 0x33, 0x34, 0x35, 0x36, 0x37, 0x38]

  /** The lines of the sample as text. */
  const LINE_1: seq<byte> := STATION_1 + [SEMICOLON] + V_123 + [NEWLINE]
  const LINE_2: seq<byte> := STATION_2 + [SEMICOLON] + V_456 + [NEWLINE]
  const LINE_3: seq<byte> := STATION_3 + [SEMICOLON] + V_789 + [NEWLINE]
  const LINE_4: seq<byte> := STATION_15 + [SEMICOLON] + V_012 + [NEWLINE]

  /** `SAMPLE_CHUNK`. */
  const SAMPLE_CHUNK: seq<byte> := LINE_1 + LINE_2 + LINE_3 + LINE_4 + TAIL

  /** The pairs both tests expect. */
  const EXPECTED: seq<SepPositions> := [(9, 4), (9, 4), (9, 4), (10, 4)]

  /** The sample is the four lines followed by the tail; the lines take 61 bytes. */
  lemma SampleLayout()
    ensures SAMPLE_CHUNK == Layout(LINES) + TAIL
    ensures |Layout(LINES)| == 61 && |SAMPLE_CHUNK| == 69
  {
    assert LINES[4..] == [];
    assert Layout(LINES[3..]) == LINE_4 + Layout(LINES[4..]);
    assert Layout(LINES[2..]) == LINE_3 + Layout(LINES[3..]);
    assert Layout(LINES[1..]) == LINE_2 + Layout(LINES[2..]);
    assert Layout(LINES) == LINE_1 + Layout(LINES[1..]);
    assert LINE_1 + (LINE_2 + (LINE_3 + (LINE_4 + []))) + TAIL == LINE_1 + LINE_2 + LINE_3 + LINE_4 + TAIL;
  }

  /** The lines are well formed and short, and the tail has no separator at all. */
  lemma SampleShape()
    ensures WellFormed(LINES) && ShortLines(LINES) && AtMostOneSeparator(TAIL)
  {
    assert NoSeparator(STATION_1) && NoSeparator(STATION_2);
    assert NoSeparator(STATION_3) && NoSeparator(STATION_15);
    assert NoSeparator(V_123) && NoSeparator(V_456) && NoSeparator(V_789) && NoSeparator(V_012);
  }

  /** The lengths of the sample's lines. */
  lemma SampleLengths()
    ensures Lengths(LINES) == EXPECTED
  {
    assert Lengths(LINES[3..]) == [(10, 4)] + Lengths(LINES[4..]);
    assert Lengths(LINES[2..]) == [(9, 4)] + Lengths(LINES[3..]);
    assert Lengths(LINES[1..]) == [(9, 4)] + Lengths(LINES[2..]);
  }

  /** `find_separators_simd_in_text`, scalar half: `find_separators_iter` on the sample
      gives one pair per complete line; the tail gives none. */
  lemma IterSample()
    ensures FindSeparatorsIter(SAMPLE_CHUNK) == EXPECTED
  {
    SampleLayout();
    SampleShape();
    SampleLengths();
    assert SAMPLE_CHUNK[..|SAMPLE_CHUNK|] == SAMPLE_CHUNK;
    SeparatorsOfPrefix(LINES, TAIL, |SAMPLE_CHUNK|);
    CompleteWhole(LINES, |SAMPLE_CHUNK|);
  }

  /** `find_separators_simd_in_text`, lane half: the first 64 bytes hold the same four
      lines, so the lane path gives the same pairs; so does the `find_separators`
      dispatch, which takes the lane path on a chunk this long. */
  lemma SimdSample()
    ensures FindSeparatorsSimd(SAMPLE_CHUNK) == EXPECTED
    ensures FindSeparators(SAMPLE_CHUNK) == EXPECTED
  {
    SampleLayout();
    SampleShape();
    SampleLengths();
    SimdIsIter(SAMPLE_CHUNK);
    SeparatorsOfPrefix(LINES, TAIL, LANE_WIDTH);
    CompleteWhole(LINES, LANE_WIDTH);
  }

  /** `parse_line_in_text`: the parser yields the four lines of the sample, each as its
      name and its value text, and then nothing. */
  lemma ParseSample()
    ensures Run(SAMPLE_CHUNK, 0, []) ==
            [Item(STATION_1, V_123), Item(STATION_2, V_456), Item(STATION_3, V_789), Item(STATION_15, V_012)]
  {
    SampleLayout();
    SampleShape();
    ParsesLayout(LINES, TAIL);
    assert Items(LINES[3..]) == [Item(STATION_15, V_012)] + Items(LINES[4..]);
    assert Items(LINES[2..]) == [Item(STATION_3, V_789)] + Items(LINES[3..]);
    assert Items(LINES[1..]) == [Item(STATION_2, V_456)] + Items(LINES[2..]);
  }
}
