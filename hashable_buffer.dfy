/** The table key of src/parser/hashable_buffer.rs: a byte buffer whose hash packs its
    length and its first seven bytes into one 64-bit word, and whose order is the
    derived (lexicographic) order of its bytes. */
module HashableBuffer {

  import opened ParserFunc

  /** Number of leading bytes that take part in the hash. */
  const HASHED_PREFIX: nat := 7

  datatype LiteHashBuffer = LiteHashBuffer(buffer: seq<byte>) {

    /** `Deref`: the wrapped bytes, exactly. */
    function Deref(): seq<byte> {
      buffer
    }
  }

  /** `LiteHashBuffer::new`, and `From<T: Into<Vec<u8>>>`, which calls it. */
  function New(buffer: seq<byte>): (k: LiteHashBuffer)
    ensures k.Deref() == buffer
  {
    LiteHashBuffer(buffer)
  }

  lemma DerefRoundTrip(k: LiteHashBuffer)
    ensures New(k.Deref()) == k
  {
  }

  function Min(a: nat, b: nat): nat {
    if a < b then a else b
  }

  /** `buffer.len() as u64`; a buffer never holds 2^64 bytes, so the reduction never
      changes the value. */
  function LenWord(b: seq<byte>): bv64 {
    (|b| % 0x1_0000_0000_0000_0000) as bv64
  }

  /** The shift `pos * 8` that moves byte `pos` into its field of the word. */
  function FieldShift(pos: nat): (k: bv64)
    requires pos < 8
    ensures k <= 56 && k % 8 == 0
    ensures pos < 7 ==> k <= 48
  {
    if pos == 0 then 0 else if pos == 1 then 8 else if pos == 2 then 16 else if pos == 3 then 24
    else if pos == 4 then 32 else if pos == 5 then 40 else if pos == 6 then 48 else 56
  }

  lemma FieldShiftInjective(pos: nat, other: nat)
    requires pos < 8 && other < 8
    ensures FieldShift(pos) <= 56 && FieldShift(pos) % 8 == 0 && (pos < 7 ==> FieldShift(pos) <= 48)
    ensures FieldShift(pos) == FieldShift(other) <==> pos == other
  {
    if pos == 0 {
    } else if pos == 1 {
    } else if pos == 2 {
    } else if pos == 3 {
    } else if pos == 4 {
    } else if pos == 5 {
    } else if pos == 6 {
    } else {
    }
  }

  /** Byte `c` placed at position `pos` of a word. */
  function PlaceByte(c: byte, pos: nat): bv64
    requires pos < HASHED_PREFIX
  {
    (c as bv64) << FieldShift(pos)
  }

  /** One step of the fold: OR byte `c`, shifted left by `pos * 8`, into the accumulator. */
  function FoldByte(acc: bv64, c: byte, pos: nat): bv64
    requires pos < HASHED_PREFIX
  {
    acc | PlaceByte(c, pos)
  }

  /** The fold of the hash over the first `n` bytes of `b`, from the initial word `init`. */
  function HashFold(init: bv64, b: seq<byte>, n: nat): bv64
    requires n <= |b| && n <= HASHED_PREFIX
  {
    if n == 0 then init
    else FoldByte(HashFold(init, b, n - 1), b[n - 1], n - 1)
  }

  /** The single word `Hash::hash` writes to the hasher: the fold starts from the length. */
  function Hash(k: LiteHashBuffer): bv64 {
    HashFold(LenWord(k.buffer), k.buffer, Min(HASHED_PREFIX, |k.buffer|))
  }

  /** Field `i` of a word: its bits `8 * i` to `8 * i + 7`. */
  function ByteOf(w: bv64, i: nat): bv64
    requires i < 8
  {
    (w >> FieldShift(i)) & 0xFF
  }

  lemma ShiftedByteOfOr(x: bv64, y: bv64, k: bv64)
    requires k < 64
    ensures ((x | y) >> k) & 0xFF == ((x >> k) & 0xFF) | ((y >> k) & 0xFF)
  {
  }

  lemma ByteOfOr(x: bv64, y: bv64, i: nat)
    requires i < 8
    ensures ByteOf(x | y, i) == ByteOf(x, i) | ByteOf(y, i)
  {
    ShiftedByteOfOr(x, y, FieldShift(i));
  }

  lemma ShiftedByteAt(c: bv64, k: bv64, j: bv64)
    requires c < 256 && k <= 48 && j <= 56 && k % 8 == 0 && j % 8 == 0
    ensures ((c << k) >> j) & 0xFF == if k == j then c else 0
  {
  }

  /** A byte placed at position `pos` occupies that field and no other. */
  lemma ByteOfPlaced(c: byte, pos: nat, i: nat)
    requires pos < HASHED_PREFIX && i < 8
    ensures ByteOf(PlaceByte(c, pos), i) == if i == pos then c as bv64 else 0
  {
    FieldShiftInjective(pos, i);
    FieldShiftInjective(i, pos);
    ShiftedByteAt(c as bv64, FieldShift(pos), FieldShift(i));
  }

  lemma ShiftedFoldByte(acc: bv64, c: bv64, k: bv64, j: bv64)
    requires c < 256 && k <= 48 && j <= 56 && k % 8 == 0 && j % 8 == 0
    ensures ((acc | (c << k)) >> j) & 0xFF
         == if k == j then ((acc >> j) & 0xFF) | c else (acc >> j) & 0xFF
  {
    ShiftedByteOfOr(acc, c << k, j);
    ShiftedByteAt(c, k, j);
  }

  /** A fold step changes field `pos` only, by OR-ing the byte into it. */
  lemma ByteOfFoldByte(acc: bv64, c: byte, pos: nat, i: nat)
    requires pos < HASHED_PREFIX && i < 8
    ensures i == pos ==> ByteOf(FoldByte(acc, c, pos), i) == ByteOf(acc, i) | (c as bv64)
    ensures i != pos ==> ByteOf(FoldByte(acc, c, pos), i) == ByteOf(acc, i)
  {
    FieldShiftInjective(pos, i);
    FieldShiftInjective(i, pos);
    ShiftedFoldByte(acc, c as bv64, FieldShift(pos), FieldShift(i));
  }

  /** Folding in the bytes before position `i` leaves field `i` as it was. */
  lemma {:induction false} HashFoldFieldUntouched(init: bv64, b: seq<byte>, n: nat, i: nat)
    requires n <= |b| && n <= HASHED_PREFIX && n <= i < 8
    ensures ByteOf(HashFold(init, b, n), i) == ByteOf(init, i)
  {
    if n > 0 {
      HashFoldFieldUntouched(init, b, n - 1, i);
      ByteOfFoldByte(HashFold(init, b, n - 1), b[n - 1], n - 1, i);
    }
  }

  /** Once byte `i` is folded in, field `i` holds it OR'd with the initial field. */
  lemma {:induction false} HashFoldFieldPlaced(init: bv64, b: seq<byte>, n: nat, i: nat)
    requires n <= |b| && n <= HASHED_PREFIX && i < n
    ensures ByteOf(HashFold(init, b, n), i) == ByteOf(init, i) | (b[i] as bv64)
  {
    ByteOfFoldByte(HashFold(init, b, n - 1), b[n - 1], n - 1, i);
    if i < n - 1 {
      HashFoldFieldPlaced(init, b, n - 1, i);
    } else {
      HashFoldFieldUntouched(init, b, n - 1, i);
    }
  }

  /** What the hash word holds: for each of the first `min(7, len)` bytes, its byte field
      is that byte OR'd with the same field of the length; every other field, including
      the top one (bits 56 to 63), is the length's alone. */
  lemma HashFields(k: LiteHashBuffer, i: nat)
    requires i < 8
    ensures i < Min(HASHED_PREFIX, |k.buffer|) ==>
              ByteOf(Hash(k), i) == ByteOf(LenWord(k.buffer), i) | (k.buffer[i] as bv64)
    ensures i >= Min(HASHED_PREFIX, |k.buffer|) ==> ByteOf(Hash(k), i) == ByteOf(LenWord(k.buffer), i)
  {
    if i < Min(HASHED_PREFIX, |k.buffer|) {
      HashFoldFieldPlaced(LenWord(k.buffer), k.buffer, Min(HASHED_PREFIX, |k.buffer|), i);
    } else {
      HashFoldFieldUntouched(LenWord(k.buffer), k.buffer, Min(HASHED_PREFIX, |k.buffer|), i);
    }
  }

  lemma ShiftedSmall(w: bv64, k: bv64)
    requires w < 256 && k <= 56 && k % 8 == 0
    ensures (w >> k) & 0xFF == if k == 0 then w else 0
  {
  }

  /** A word below 256 lives entirely in field 0. */
  lemma ByteOfSmall(w: bv64, i: nat)
    requires w < 256 && i < 8
    ensures ByteOf(w, i) == if i == 0 then w else 0
  {
    FieldShiftInjective(i, 0);
    ShiftedSmall(w, FieldShift(i));
  }

  lemma LenWordSmall(b: seq<byte>)
    requires |b| < 256
    ensures LenWord(b) == |b| as bv64 && LenWord(b) < 256
  {
    assert |b| % 0x1_0000_0000_0000_0000 == |b|;
  }

  /** For a key shorter than 256 bytes (station names are at most 100), bytes 1 to 6 can be
      read back from the hash unchanged, and byte 0 is OR'd with the length. */
  lemma HashShortKey(k: LiteHashBuffer, i: nat)
    requires |k.buffer| < 256 && i < Min(HASHED_PREFIX, |k.buffer|)
    ensures i == 0 ==> ByteOf(Hash(k), 0) == (|k.buffer| as bv64) | (k.buffer[0] as bv64)
    ensures i > 0 ==> ByteOf(Hash(k), i) == k.buffer[i] as bv64
  {
    HashFields(k, i);
    LenWordSmall(k.buffer);
    ByteOfSmall(LenWord(k.buffer), i);
  }

  /** The documented collision: two buffers of the same length that agree on their first
      seven bytes hash identically, whatever follows. */
  lemma {:induction false} HashPrefixCollision(a: LiteHashBuffer, b: LiteHashBuffer)
    requires |a.buffer| == |b.buffer|
    requires a.buffer[..Min(HASHED_PREFIX, |a.buffer|)] == b.buffer[..Min(HASHED_PREFIX, |b.buffer|)]
    ensures Hash(a) == Hash(b)
  {
    assert LenWord(a.buffer) == LenWord(b.buffer);
    HashFoldAgree(LenWord(a.buffer), a.buffer, b.buffer, Min(HASHED_PREFIX, |a.buffer|));
  }

  /** A collision the documentation does not mention: the length is or-ed into the field
      of byte 0 rather than stored beside the bytes, so two buffers of the same length
      whose first bytes differ only in bits the length already sets hash alike. */
  lemma {:induction false} HashLengthOverlap(a: LiteHashBuffer, b: LiteHashBuffer)
    requires 0 < |a.buffer| == |b.buffer|
    requires FoldByte(LenWord(a.buffer), a.buffer[0], 0) == FoldByte(LenWord(b.buffer), b.buffer[0], 0)
    requires a.buffer[1..Min(HASHED_PREFIX, |a.buffer|)] == b.buffer[1..Min(HASHED_PREFIX, |b.buffer|)]
    ensures Hash(a) == Hash(b)
  {
    assert LenWord(a.buffer) == LenWord(b.buffer);
    HashFoldFromFirst(LenWord(a.buffer), a.buffer, b.buffer, Min(HASHED_PREFIX, |a.buffer|));
  }

  /** The fold over `n` bytes is decided by its first step and the bytes after the first. */
  lemma {:induction false} HashFoldFromFirst(init: bv64, a: seq<byte>, b: seq<byte>, n: nat)
    requires 0 < n <= |a| && n <= |b| && n <= HASHED_PREFIX
    requires HashFold(init, a, 1) == HashFold(init, b, 1) && a[1..n] == b[1..n]
    ensures HashFold(init, a, n) == HashFold(init, b, n)
  {
    if n > 1 {
      var aRest, bRest := a[1..n - 1], b[1..n - 1];
      forall i | 0 <= i < |aRest|
        ensures aRest[i] == bRest[i]
      {
        assert aRest[i] == a[1..n][i] == b[1..n][i] == bRest[i];
      }
      HashFoldFromFirst(init, a, b, n - 1);
      assert a[n - 1] == a[1..n][n - 2] == b[1..n][n - 2] == b[n - 1];
    }
  }

  /** Byte 0 is placed unshifted. */
  lemma PlaceFirst(c: byte)
    ensures PlaceByte(c, 0) == c as bv64
  {
    assert FieldShift(0) == 0;
  }

  /** The first step of the fold for both names, from the length 1. */
  lemma FirstStepOverlap()
    ensures FoldByte(1, 0x61, 0) == FoldByte(1, 0x60, 0)
  {
    PlaceFirst(0x61);
    PlaceFirst(0x60);
  }

  /** For instance the one-byte names `a` (0x61) and backquote (0x60): the length 1 sets
      the only bit in which they differ. */
  lemma LengthOverlapExample()
    ensures New([0x61]) != New([0x60])
    ensures Hash(New([0x61])) == Hash(New([0x60]))
  {
    var a, b := New([0x61]), New([0x60]);
    LenWordSmall(a.buffer);
    LenWordSmall(b.buffer);
    FirstStepOverlap();
    HashLengthOverlap(a, b);
  }

  /** The fold reads nothing past its first `n` bytes. */
  lemma {:induction false} HashFoldAgree(init: bv64, a: seq<byte>, b: seq<byte>, n: nat)
    requires n <= |a| && n <= |b| && n <= HASHED_PREFIX && a[..n] == b[..n]
    ensures HashFold(init, a, n) == HashFold(init, b, n)
  {
    if n > 0 {
      assert a[..n - 1] == b[..n - 1] by {
        assert a[..n - 1] == a[..n][..n - 1];
        assert b[..n - 1] == b[..n][..n - 1];
      }
      HashFoldAgree(init, a, b, n - 1);
      assert a[n - 1] == a[..n][n - 1] == b[..n][n - 1] == b[n - 1];
    }
  }

  // ---------------------------------------------------------------------------------
  // The derived order: lexicographic on the bytes, a proper prefix first.

  predicate Less(a: seq<byte>, b: seq<byte>)
    decreases |a|
  {
    if |a| == 0 then |b| > 0
    else if |b| == 0 then false
    else if a[0] != b[0] then a[0] < b[0]
    else Less(a[1..], b[1..])
  }

  /** `Ord` on the key compares its one field. */
  predicate KeyLess(x: LiteHashBuffer, y: LiteHashBuffer) {
    Less(x.buffer, y.buffer)
  }

  /** Length of the longest common prefix of two buffers. */
  function CommonPrefix(a: seq<byte>, b: seq<byte>): (r: nat)
    ensures r <= |a| && r <= |b|
    ensures a[..r] == b[..r]
    ensures r < |a| && r < |b| ==> a[r] != b[r]
    decreases |a|
  {
    if |a| == 0 || |b| == 0 || a[0] != b[0] then 0
    else
      var r := 1 + CommonPrefix(a[1..], b[1..]);
      assert a[..r] == [a[0]] + a[1..][..r - 1];
      assert b[..r] == [b[0]] + b[1..][..r - 1];
      r
  }

  /** The order by its textbook definition: `a` is a proper prefix of `b`, or at the
      first position where they differ `a` holds the smaller byte. */
  predicate FirstDifferenceLess(a: seq<byte>, b: seq<byte>) {
    var r := CommonPrefix(a, b);
    (r == |a| && |a| < |b|) || (r < |a| && r < |b| && a[r] < b[r])
  }

  lemma {:induction false} LessIsFirstDifference(a: seq<byte>, b: seq<byte>)
    ensures Less(a, b) <==> FirstDifferenceLess(a, b)
    decreases |a|
  {
    if |a| > 0 && |b| > 0 && a[0] == b[0] {
      LessIsFirstDifference(a[1..], b[1..]);
    }
  }

  lemma {:induction false} LessIrreflexive(a: seq<byte>)
    ensures !Less(a, a)
    decreases |a|
  {
    if |a| > 0 {
      LessIrreflexive(a[1..]);
    }
  }

  lemma {:induction false} LessTransitive(a: seq<byte>, b: seq<byte>, c: seq<byte>)
    requires Less(a, b) && Less(b, c)
    ensures Less(a, c)
    decreases |a|
  {
    if |a| > 0 && a[0] == b[0] && b[0] == c[0] {
      LessTransitive(a[1..], b[1..], c[1..]);
    }
  }

  /** Any two different buffers are ordered one way or the other, so sorting the keys
      of a table leaves no ties. */
  lemma {:induction false} LessTotal(a: seq<byte>, b: seq<byte>)
    requires a != b
    ensures Less(a, b) || Less(b, a)
    decreases |a|
  {
    if |a| > 0 && |b| > 0 && a[0] == b[0] {
      assert a == [a[0]] + a[1..] && b == [b[0]] + b[1..];
      LessTotal(a[1..], b[1..]);
    }
  }

  lemma {:induction false} LessAsymmetric(a: seq<byte>, b: seq<byte>)
    requires Less(a, b)
    ensures !Less(b, a)
    decreases |a|
  {
    if |a| > 0 && |b| > 0 && a[0] == b[0] {
      LessAsymmetric(a[1..], b[1..]);
    }
  }
}
