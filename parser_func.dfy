/** Byte-level helpers shared by the three record parsers (src/parser/func.rs and the
    scans the parsers perform over their input). */
module ParserFunc {

  import opened Machine

  type byte = bv8

  const SEMICOLON: byte := 0x3B
  const NEWLINE: byte := 0x0A
  const MINUS: byte := 0x2D
  const DOT: byte := 0x2E

  predicate IsAsciiDigit(b: byte) {
    0x30 <= b <= 0x39
  }

  /** `u8_to_digit`: keeps the low four bits. On an ASCII digit that is its value;
      on any other byte it is some number below 16 that the callers treat as a digit. */
  function U8ToDigit(b: byte): (d: byte)
    ensures d < 16
    ensures d == b % 16
    ensures IsAsciiDigit(b) ==> d == b - 0x30
  {
    b & 15
  }

  lemma U8ToDigitIdempotent(b: byte)
    ensures U8ToDigit(U8ToDigit(b)) == U8ToDigit(b)
  {
  }

  /** The index of the first `b` at or after `from`, or `|s|` when there is none. */
  function FindFrom(s: seq<byte>, from: nat, b: byte): (r: nat)
    requires from <= |s|
    ensures from <= r <= |s|
    ensures r < |s| ==> s[r] == b
    ensures forall i :: from <= i < r ==> s[i] != b
    decreases |s| - from
  {
    if from == |s| then |s|
    else if s[from] == b then from
    else FindFrom(s, from + 1, b)
  }

  /** Left fold of decimal digits, `acc * 10 + d`, most significant digit first. */
  function FoldDecimal(ds: seq<byte>): (n: int)
    ensures n >= 0
  {
    if ds == [] then 0 else FoldDecimal(ds[..|ds| - 1]) * 10 + ds[|ds| - 1] as int
  }

  /** Every partial fold is bounded by the whole fold, so a fold done in a fixed-width
      accumulator overflows at some step only if its final value does: checking the final
      value against the width is enough. */
  lemma {:induction false} FoldDecimalPrefixBounded(ds: seq<byte>, k: nat)
    requires k <= |ds|
    ensures FoldDecimal(ds[..k]) <= FoldDecimal(ds)
    decreases |ds|
  {
    if k < |ds| {
      var front := ds[..|ds| - 1];
      assert ds[..k] == front[..k];
      FoldDecimalPrefixBounded(front, k);
      assert front[..|front|] == front;
    } else {
      assert ds[..k] == ds;
    }
  }

  lemma FoldDecimalAppend(ds: seq<byte>, d: byte)
    ensures FoldDecimal(ds + [d]) == FoldDecimal(ds) * 10 + d as int
  {
    assert (ds + [d])[..|ds|] == ds;
  }

  /** A slice grown by one byte at its end. */
  lemma SliceSnoc(s: seq<byte>, i: nat, j: nat)
    requires i <= j < |s|
    ensures s[i..j + 1] == s[i..j] + [s[j]]
  {
  }
}
