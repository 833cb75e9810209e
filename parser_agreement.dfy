/** The two `parse_value`s side by side: the split-based one of src/parser/sync.rs and
    the cursor-based one of src/parser/line.rs agree on every value the input format
    allows, and part ways only where a `-` is not the first byte. */
module ParserAgreement {

  import opened Wrappers
  import opened ParserFunc
  import Sync
  import Line

  /** A value as the input format writes it: digits and `.`, with a `-` allowed only in
      front, as in `-12.3`. */
  predicate ValueToken(t: seq<byte>) {
    && t != []
    && (forall i :: 0 <= i < |t| ==> IsAsciiDigit(t[i]) || t[i] == DOT || (i == 0 && t[i] == MINUS))
  }

  /** On digits, `.` and `-`, both parsers collect the same digits. */
  lemma {:induction false} DigitsAgree(t: seq<byte>)
    requires forall i :: 0 <= i < |t| ==> IsAsciiDigit(t[i]) || t[i] == DOT || t[i] == MINUS
    ensures Sync.SyncDigits(t) == Line.ValueDigits(t)
    decreases |t|
  {
    if t != [] {
      DigitsAgree(t[..|t| - 1]);
    }
  }

  /** Both `parse_value`s read the same number from a well-formed value. */
  lemma ValuesAgree(t: seq<byte>)
    requires ValueToken(t)
    ensures Sync.SyncValue(t) == Ok(Line.LineValue(t))
  {
    DigitsAgree(t);
    assert Line.Negative(t) <==> t[0] == MINUS;
  }

  // "1-2"
  const INNER_MINUS: seq<byte> := [0x31, MINUS, 0x32]

  /** A `-` after the first byte: sync.rs skips it, line.rs negates the value. */
  lemma InnerMinusDisagrees()
    ensures Sync.SyncValue(INNER_MINUS) == Ok(12)
    ensures Line.LineValue(INNER_MINUS) == -12
  {
    DigitsAgree(INNER_MINUS);
    assert INNER_MINUS[..2] == [0x31, MINUS] && INNER_MINUS[..2][..1] == [0x31];
    assert Sync.SyncDigits([0x31]) == [1] by {
      assert [0x31][..0] == [];
    }
    assert Sync.SyncDigits(INNER_MINUS) == [1, 2];
    assert FoldDecimal([1, 2]) == 12 by {
      FoldDecimalAppend([1], 2);
      FoldDecimalAppend([], 1);
      assert [] + [1 as byte] == [1];
      assert [1 as byte] + [2 as byte] == [1, 2];
    }
  }
}
