/** `StationStats` of src/parser/models.rs: the running minimum, maximum, sum and count
    of one station's readings, in tenths of a degree.

    The Rust struct is `Copy` and lives inside the record table; its `&mut self`
    operations (`extend`, `+=`) are modelled as functions that return the updated value,
    which is what the table stores back. `sum` and `count` are unbounded here: the
    methods that perform the update carry the `i32`/`usize` bounds as preconditions
    (see `Fits` below and the `Records` module). */
module Stats {

  import opened Machine
  import opened Wrappers

  datatype StationStats = StationStats(min: i16, max: i16, sum: int, count: nat)

  /** `Default`: the empty summary, with the extreme values as sentinels. */
  function Default(): StationStats {
    StationStats(I16_MAX as i16, I16_MIN as i16, 0, 0)
  }

  /** `StationStats::new` (and `From<i16>`): the summary of one reading. It is the
      empty summary extended by that reading. */
  function New(value: i16): (s: StationStats)
    ensures s == Extend(Default(), value)
    ensures s.min == value && s.max == value && s.sum == value && s.count == 1
  {
    StationStats(value, value, value, 1)
  }

  /** `StationStats::extend`: one more reading. The new minimum is the smaller of the old
      one and the reading, the new maximum the larger, and sum and count grow by the
      reading and by one. */
  function Extend(s: StationStats, value: i16): (r: StationStats)
    ensures r.min <= s.min && r.min <= value && (r.min == s.min || r.min == value)
    ensures r.max >= s.max && r.max >= value && (r.max == s.max || r.max == value)
    ensures r.sum == s.sum + value && r.count == s.count + 1
  {
    var min := if value < s.min then value else s.min;
    var max := if value > s.max then value else s.max;
    StationStats(min, max, s.sum + value, s.count + 1)
  }

  /** `+=` and `+` on two summaries: the summary of both groups of readings. */
  function Combine(a: StationStats, b: StationStats): (r: StationStats)
    ensures r.min <= a.min && r.min <= b.min && (r.min == a.min || r.min == b.min)
    ensures r.max >= a.max && r.max >= b.max && (r.max == a.max || r.max == b.max)
    ensures r.sum == a.sum + b.sum && r.count == a.count + b.count
  {
    StationStats(if b.min < a.min then b.min else a.min,
                 if b.max > a.max then b.max else a.max,
                 a.sum + b.sum, a.count + b.count)
  }

  /** `+= Option<Self>`: nothing to add leaves the summary as it is. */
  function CombineOption(a: StationStats, b: Option<StationStats>): (r: StationStats)
    ensures b.None? ==> r == a
    ensures b.Some? ==> r == Combine(a, b.value)
  {
    match b
    case None => a
    case Some(rhs) => Combine(a, rhs)
  }

  /** The `i32` sum and `usize` count of a summary are in range. */
  predicate Fits(s: StationStats) {
    IsI32(s.sum) && IsUsize(s.count)
  }

  // ---------------------------------------------------------------------------------
  // The algebra of `+=`: what lets the per-consumer tables be folded in any order.

  lemma CombineCommutative(a: StationStats, b: StationStats)
    ensures Combine(a, b) == Combine(b, a)
  {
  }

  lemma CombineAssociative(a: StationStats, b: StationStats, c: StationStats)
    ensures Combine(Combine(a, b), c) == Combine(a, Combine(b, c))
  {
  }

  /** `Default` is the neutral element on either side. */
  lemma CombineIdentity(s: StationStats)
    ensures Combine(Default(), s) == s && Combine(s, Default()) == s
  {
  }

  /** Extending by a reading is the same as adding the one-reading summary. */
  lemma CombineNew(s: StationStats, value: i16)
    ensures Combine(s, New(value)) == Extend(s, value)
  {
  }

  // ---------------------------------------------------------------------------------
  // Summaries of a sequence of readings.

  /** The summary of `vs`, extending `Default` by each reading in turn. */
  function Of(vs: seq<i16>): StationStats {
    if vs == [] then Default() else Extend(Of(vs[..|vs| - 1]), vs[|vs| - 1])
  }

  function SeqSum(vs: seq<i16>): int {
    if vs == [] then 0 else SeqSum(vs[..|vs| - 1]) + vs[|vs| - 1]
  }

  function SeqMin(vs: seq<i16>): (m: i16)
    requires vs != []
    ensures m in vs && forall i :: 0 <= i < |vs| ==> m <= vs[i]
  {
    if |vs| == 1 then vs[0]
    else
      var m := SeqMin(vs[..|vs| - 1]);
      assert vs == vs[..|vs| - 1] + [vs[|vs| - 1]];
      if vs[|vs| - 1] < m then vs[|vs| - 1] else m
  }

  function SeqMax(vs: seq<i16>): (m: i16)
    requires vs != []
    ensures m in vs && forall i :: 0 <= i < |vs| ==> vs[i] <= m
  {
    if |vs| == 1 then vs[0]
    else
      var m := SeqMax(vs[..|vs| - 1]);
      assert vs == vs[..|vs| - 1] + [vs[|vs| - 1]];
      if vs[|vs| - 1] > m then vs[|vs| - 1] else m
  }

  /** What the running summary means: after the readings `vs`, `count` is how many there
      were, `sum` their total, and for a non-empty `vs`, `min` and `max` the least and
      greatest of them; with no readings it is still `Default`. */
  lemma {:induction false} OfSummarizes(vs: seq<i16>)
    ensures Of(vs).count == |vs| && Of(vs).sum == SeqSum(vs)
    ensures vs == [] ==> Of(vs) == Default()
    ensures vs != [] ==> Of(vs).min == SeqMin(vs) && Of(vs).max == SeqMax(vs)
  {
    if |vs| > 1 {
      OfSummarizes(vs[..|vs| - 1]);
    }
  }

  /** Summarising two runs of readings and adding the summaries is the same as
      summarising them in one run: what makes splitting the input between consumers
      harmless. */
  lemma {:induction false} OfAppend(xs: seq<i16>, ys: seq<i16>)
    ensures Of(xs + ys) == Combine(Of(xs), Of(ys))
    decreases |ys|
  {
    if ys == [] {
      assert xs + ys == xs;
      CombineIdentity(Of(xs));
    } else {
      var front, last := ys[..|ys| - 1], ys[|ys| - 1];
      assert xs + ys == (xs + front) + [last];
      assert (xs + ys)[..|xs + ys| - 1] == xs + front;
      OfAppend(xs, front);
      CombineNew(Of(front), last);
      CombineNew(Of(xs + front), last);
      CombineAssociative(Of(xs), Of(front), New(last));
    }
  }

  /** A summary that some readings produced: with at least one reading, the minimum is
      at most the maximum and the sum lies between `count * min` and `count * max`. */
  predicate Consistent(s: StationStats) {
    s.count >= 1 ==> s.min <= s.max && s.count * s.min <= s.sum <= s.count * s.max
  }

  lemma {:induction false} OfConsistent(vs: seq<i16>)
    ensures Consistent(Of(vs))
    decreases |vs|
  {
    if vs != [] {
      var front := vs[..|vs| - 1];
      OfConsistent(front);
      ExtendConsistent(Of(front), vs[|vs| - 1]);
    }
  }

  /** `extend` keeps a summary consistent; the empty summary, whose sentinels have
      `min > max`, becomes the one-reading summary. */
  lemma ExtendConsistent(s: StationStats, value: i16)
    requires Consistent(s) && (s.count == 0 ==> s == Default())
    ensures Consistent(Extend(s, value))
  {
    var r := Extend(s, value);
    if s.count == 0 {
      assert r == New(value);
    } else {
      var c := s.count;
      MulMonotone(c, r.min, s.min);
      MulMonotone(c, s.max, r.max);
      assert c * r.min + r.min <= s.sum + value;
      assert s.sum + value <= c * r.max + r.max;
      assert r.count * r.min == c * r.min + r.min;
      assert r.count * r.max == c * r.max + r.max;
    }
  }

  /** `+=` keeps summaries consistent. */
  lemma CombineConsistent(a: StationStats, b: StationStats)
    requires Consistent(a) && Consistent(b)
    requires (a.count == 0 ==> a == Default()) && (b.count == 0 ==> b == Default())
    ensures Consistent(Combine(a, b))
  {
    var r := Combine(a, b);
    if a.count == 0 {
      CombineIdentity(b);
    } else if b.count == 0 {
      CombineIdentity(a);
    } else {
      MulMonotone(a.count, r.min, a.min);
      MulMonotone(b.count, r.min, b.min);
      MulMonotone(a.count, a.max, r.max);
      MulMonotone(b.count, b.max, r.max);
      assert r.count * r.min == a.count * r.min + b.count * r.min;
      assert r.count * r.max == a.count * r.max + b.count * r.max;
    }
  }

  lemma MulMonotone(k: nat, x: int, y: int)
    requires x <= y
    ensures k * x <= k * y
  {
  }

  /** The summary the unit test builds: `Default` extended by 1 to 10. */
  lemma ExtendOneToTen()
    ensures Of([1, 2, 3, 4, 5, 6, 7, 8, 9, 10]) == StationStats(1, 10, 55, 10)
  {
    var vs: seq<i16> := [1, 2, 3, 4, 5, 6, 7, 8, 9, 10];
    assert vs[..1][..0] == vs[..0];
    assert Of(vs[..1]) == StationStats(1, 1, 1, 1);
    assert vs[..2][..1] == vs[..1];
    assert Of(vs[..2]) == StationStats(1, 2, 3, 2);
    assert vs[..3][..2] == vs[..2];
    assert Of(vs[..3]) == StationStats(1, 3, 6, 3);
    assert vs[..4][..3] == vs[..3];
    assert Of(vs[..4]) == StationStats(1, 4, 10, 4);
    assert vs[..5][..4] == vs[..4];
    assert Of(vs[..5]) == StationStats(1, 5, 15, 5);
    assert vs[..6][..5] == vs[..5];
    assert Of(vs[..6]) == StationStats(1, 6, 21, 6);
    assert vs[..7][..6] == vs[..6];
    assert Of(vs[..7]) == StationStats(1, 7, 28, 7);
    assert vs[..8][..7] == vs[..7];
    assert Of(vs[..8]) == StationStats(1, 8, 36, 8);
    assert vs[..9][..8] == vs[..8];
    assert Of(vs[..9]) == StationStats(1, 9, 45, 9);
    assert vs[..10][..9] == vs[..9];
    assert Of(vs[..10]) == StationStats(1, 10, 55, 10);
    assert vs[..10] == vs;
  }
}
