/** `StationRecords` of src/parser/models.rs: the table from station name to its
    summary, the in-place upsert the parsers feed, the merge that combines the tables of
    several consumers, and the sorted iteration and text export of the result.

    The hash map (with either hasher) is a Dafny `map`: the hasher changes where an
    entry lives, never which entries there are. */
module Records {

  import opened Machine
  import opened Wrappers
  import opened ParserFunc
  import opened HashableBuffer
  import opened Stats

  type Table = map<LiteHashBuffer, StationStats>

  /** One parsed line: a station name and its reading in tenths of a degree. */
  datatype Record = Record(name: seq<byte>, value: i16)

  // ---------------------------------------------------------------------------------
  // The table as a value.

  /** `insert` on the table's contents: a new name gets the one-reading summary, a known
      name has its summary extended, and no other entry changes. */
  function Upsert(m: Table, name: LiteHashBuffer, value: i16): (r: Table)
    ensures r.Keys == m.Keys + {name}
    ensures name in m ==> r[name] == Extend(m[name], value)
    ensures name !in m ==> r[name] == Stats.New(value)
    ensures forall k :: k in m && k != name ==> r[k] == m[k]
  {
    m[name := if name in m then Extend(m[name], value) else Stats.New(value)]
  }

  /** Adding one summary into a table: combined with the entry already there, or stored
      as it is. The step `+=` takes for each entry of its right-hand side. */
  function MergeEntry(m: Table, name: LiteHashBuffer, s: StationStats): (r: Table)
    ensures r.Keys == m.Keys + {name}
    ensures name in m ==> r[name] == Combine(m[name], s)
    ensures name !in m ==> r[name] == s
    ensures forall k :: k in m && k != name ==> r[k] == m[k]
  {
    m[name := if name in m then Combine(m[name], s) else s]
  }

  /** `+` on two tables: every name of either side, with the two summaries combined
      where both sides have one. */
  function Merge(a: Table, b: Table): (r: Table)
    ensures r.Keys == a.Keys + b.Keys
    ensures forall k :: k in a && k in b ==> r[k] == Combine(a[k], b[k])
    ensures forall k :: k in a && k !in b ==> r[k] == a[k]
    ensures forall k :: k !in a && k in b ==> r[k] == b[k]
  {
    map k | k in a.Keys + b.Keys ::
      if k in a && k in b then Combine(a[k], b[k]) else if k in a then a[k] else b[k]
  }

  /** Inserting the records one after the other into `m`. */
  function Build(m: Table, recs: seq<Record>): Table {
    if recs == [] then m
    else Upsert(Build(m, recs[..|recs| - 1]), LiteHashBuffer(recs[|recs| - 1].name), recs[|recs| - 1].value)
  }

  /** One more record: the table built from the first `k + 1` records is the one built
      from the first `k`, with record `k` inserted. */
  lemma BuildStep(m: Table, recs: seq<Record>, k: nat)
    requires k < |recs|
    ensures Build(m, recs[..k + 1]) == Upsert(Build(m, recs[..k]), LiteHashBuffer(recs[k].name), recs[k].value)
  {
    assert recs[..k + 1][..k] == recs[..k];
  }

  /** The readings of station `k` among `recs`, in order. */
  function ValuesOf(recs: seq<Record>, k: LiteHashBuffer): seq<i16> {
    if recs == [] then []
    else
      var last := recs[|recs| - 1];
      ValuesOf(recs[..|recs| - 1], k) + (if LiteHashBuffer(last.name) == k then [last.value] else [])
  }

  /** The names that occur in `recs`. */
  function NamesOf(recs: seq<Record>): set<LiteHashBuffer> {
    set i | 0 <= i < |recs| :: LiteHashBuffer(recs[i].name)
  }

  /** `Sum`: `reduce` with `+`, or the empty table when there is nothing to reduce. */
  function SumTables(ts: seq<Table>): Table {
    if ts == [] then map[]
    else if |ts| == 1 then ts[0]
    else Merge(SumTables(ts[..|ts| - 1]), ts[|ts| - 1])
  }

  /** `records += t` for each table in turn, as the consumer task does. */
  function FoldMerge(acc: Table, ts: seq<Table>): Table {
    if ts == [] then acc else Merge(FoldMerge(acc, ts[..|ts| - 1]), ts[|ts| - 1])
  }

  /** The concatenation of the chunks of records the consumers were handed. */
  function Flatten(chunks: seq<seq<Record>>): seq<Record> {
    if chunks == [] then [] else Flatten(chunks[..|chunks| - 1]) + chunks[|chunks| - 1]
  }

  /** The number of readings a table summarises: `len`. */
  ghost function TotalCount(m: Table): nat {
    if m == map[] then 0
    else
      var k :| k in m;
      m[k].count + TotalCount(m - {k})
  }

  /** The summaries a table holds may be added to those of another without overflow. */
  predicate MergeFits(a: Table, b: Table) {
    forall k :: k in a && k in b ==> Fits(Combine(a[k], b[k]))
  }

  /** Inserting the reading of `r` into `t` does not overflow its entry's sum or count. */
  predicate InsertFits(t: Table, r: Record) {
    LiteHashBuffer(r.name) in t ==> Fits(Extend(t[LiteHashBuffer(r.name)], r.value))
  }

  /** Inserting `recs` one after the other into `m` never overflows a sum or a count:
      the condition under which a parser may feed them to `insert`. */
  predicate InsertsFit(m: Table, recs: seq<Record>)
    decreases |recs|
  {
    recs == [] ||
    (InsertsFit(m, recs[..|recs| - 1]) && InsertFits(Build(m, recs[..|recs| - 1]), recs[|recs| - 1]))
  }

  /** The converse step: a prefix that fits, followed by a record that fits the table it
      builds, still fits. */
  lemma InsertsFitStep(m: Table, recs: seq<Record>, k: nat)
    requires k < |recs| && InsertsFit(m, recs[..k]) && InsertFits(Build(m, recs[..k]), recs[k])
    ensures InsertsFit(m, recs[..k + 1])
  {
    assert recs[..k + 1][..k] == recs[..k];
  }

  lemma {:induction false} InsertsFitAt(m: Table, recs: seq<Record>, k: nat)
    requires InsertsFit(m, recs) && k < |recs|
    ensures InsertFits(Build(m, recs[..k]), recs[k])
    decreases |recs|
  {
    var front := recs[..|recs| - 1];
    if k < |front| {
      InsertsFitAt(m, front, k);
      assert front[..k] == recs[..k];
    }
  }

  /** Every entry summarises at least one reading, consistently and within range: what
      `insert` and `+=` keep. */
  predicate EntriesValid(m: Table) {
    forall k :: k in m ==> m[k].count >= 1 && Consistent(m[k]) && Fits(m[k])
  }

  // ---------------------------------------------------------------------------------
  // The merge laws.

  lemma MergeCommutative(a: Table, b: Table)
    ensures Merge(a, b) == Merge(b, a)
  {
    forall k | k in a && k in b
      ensures Merge(a, b)[k] == Merge(b, a)[k]
    {
      CombineCommutative(a[k], b[k]);
    }
  }

  lemma MergeAssociative(a: Table, b: Table, c: Table)
    ensures Merge(Merge(a, b), c) == Merge(a, Merge(b, c))
  {
    var l, r := Merge(Merge(a, b), c), Merge(a, Merge(b, c));
    forall k | k in l
      ensures l[k] == r[k]
    {
      if k in a && k in b && k in c {
        CombineAssociative(a[k], b[k], c[k]);
      }
    }
  }

  lemma MergeIdentity(m: Table)
    ensures Merge(map[], m) == m && Merge(m, map[]) == m
  {
  }

  /** The state of `+=` part-way: `a` has absorbed some entries of `b0`, `b` holds the
      others unchanged, and merging the two still gives the final table. */
  predicate Draining(a: Table, b: Table, a0: Table, b0: Table) {
    && Merge(a, b) == Merge(a0, b0)
    && EntriesValid(a) && EntriesValid(b) && MergeFits(a0, b0)
    && (forall k :: k in b ==> k in b0 && b[k] == b0[k])
    && (forall k :: k in b && k in a ==> k in a0 && a[k] == a0[k])
  }

  /** Moving one entry from `b` into `a` keeps `Draining` and shrinks `b`. */
  lemma DrainStep(a: Table, b: Table, a0: Table, b0: Table, k: LiteHashBuffer)
    requires Draining(a, b, a0, b0) && k in b
    ensures Draining(MergeEntry(a, k, b[k]), b - {k}, a0, b0)
    ensures |b - {k}| < |b|
  {
    MergeStep(a, b, k);
    DrainEntryValid(a, b, a0, b0, k);
    DrainAgree(a, b, a0, b0, k);
  }

  lemma DrainAgree(a: Table, b: Table, a0: Table, b0: Table, k: LiteHashBuffer)
    requires k in b
    requires forall j :: j in b ==> j in b0 && b[j] == b0[j]
    requires forall j :: j in b && j in a ==> j in a0 && a[j] == a0[j]
    ensures EntriesValid(b) ==> EntriesValid(b - {k})
    ensures forall j :: j in b - {k} ==> j in b0 && (b - {k})[j] == b0[j]
    ensures forall j :: j in b - {k} && j in MergeEntry(a, k, b[k]) ==> j in a0 && MergeEntry(a, k, b[k])[j] == a0[j]
    ensures |b - {k}| < |b|
  {
    assert (b - {k}).Keys == b.Keys - {k};
  }

  lemma DrainEntryValid(a: Table, b: Table, a0: Table, b0: Table, k: LiteHashBuffer)
    requires EntriesValid(a) && EntriesValid(b) && MergeFits(a0, b0) && k in b && k in b0 && b[k] == b0[k]
    requires k in a ==> k in a0 && a[k] == a0[k]
    ensures EntriesValid(MergeEntry(a, k, b[k]))
  {
    if k in a {
      CombineConsistent(a[k], b[k]);
      assert Fits(Combine(a0[k], b0[k]));
    }
  }

  /** Adding the entries of `b` one at a time: taking out one entry of `b` and adding it
      to `a` first changes nothing in the result. */
  lemma MergeStep(a: Table, b: Table, k: LiteHashBuffer)
    requires k in b
    ensures Merge(MergeEntry(a, k, b[k]), b - {k}) == Merge(a, b)
  {
  }

  // ---------------------------------------------------------------------------------
  // What a table built by inserting records holds.

  lemma {:induction false} ValuesOfAppend(xs: seq<Record>, ys: seq<Record>, k: LiteHashBuffer)
    ensures ValuesOf(xs + ys, k) == ValuesOf(xs, k) + ValuesOf(ys, k)
    decreases |ys|
  {
    if ys == [] {
      assert xs + ys == xs;
    } else {
      var front := ys[..|ys| - 1];
      assert (xs + ys)[..|xs + ys| - 1] == xs + front;
      ValuesOfAppend(xs, front, k);
    }
  }

  lemma {:induction false} ValuesOfEmpty(recs: seq<Record>, k: LiteHashBuffer)
    ensures ValuesOf(recs, k) == [] <==> k !in NamesOf(recs)
    decreases |recs|
  {
    if recs != [] {
      var front := recs[..|recs| - 1];
      ValuesOfEmpty(front, k);
      assert NamesOf(recs) == NamesOf(front) + {LiteHashBuffer(recs[|recs| - 1].name)} by {
        forall n | n in NamesOf(recs) ensures n in NamesOf(front) + {LiteHashBuffer(recs[|recs| - 1].name)} {
          var i :| 0 <= i < |recs| && n == LiteHashBuffer(recs[i].name);
          if i < |recs| - 1 {
            assert n == LiteHashBuffer(front[i].name);
          }
        }
        forall n | n in NamesOf(front) ensures n in NamesOf(recs) {
          var i :| 0 <= i < |front| && n == LiteHashBuffer(front[i].name);
          assert n == LiteHashBuffer(recs[i].name);
        }
      }
    }
  }

  /** Each entry of a table built from `m` by inserting `recs` is the entry `m` had,
      extended by that station's readings in `recs`; the names are those of `m` and of
      `recs`. */
  lemma {:induction false} BuildEntry(m: Table, recs: seq<Record>, k: LiteHashBuffer)
    ensures k in Build(m, recs) <==> k in m || k in NamesOf(recs)
    ensures k in m ==> Build(m, recs)[k] == Combine(m[k], Of(ValuesOf(recs, k)))
    ensures k !in m && k in NamesOf(recs) ==> Build(m, recs)[k] == Of(ValuesOf(recs, k))
    decreases |recs|
  {
    if recs == [] {
      ValuesOfEmpty(recs, k);
      if k in m {
        CombineIdentity(m[k]);
      }
    } else {
      BuildEntry(m, recs[..|recs| - 1], k);
      BuildEntryLast(m, recs, k);
    }
  }

  /** The step of `BuildEntry`: from the records before the last one to all of them. */
  lemma BuildEntryLast(m: Table, recs: seq<Record>, k: LiteHashBuffer)
    requires recs != []
    requires var front := recs[..|recs| - 1];
             && (k in Build(m, front) <==> k in m || k in NamesOf(front))
             && (k in m ==> Build(m, front)[k] == Combine(m[k], Of(ValuesOf(front, k))))
             && (k !in m && k in NamesOf(front) ==> Build(m, front)[k] == Of(ValuesOf(front, k)))
    ensures k in Build(m, recs) <==> k in m || k in NamesOf(recs)
    ensures k in m ==> Build(m, recs)[k] == Combine(m[k], Of(ValuesOf(recs, k)))
    ensures k !in m && k in NamesOf(recs) ==> Build(m, recs)[k] == Of(ValuesOf(recs, k))
  {
    var front, last := recs[..|recs| - 1], recs[|recs| - 1];
    var name := LiteHashBuffer(last.name);
    ValuesOfEmpty(recs, k);
    ValuesOfEmpty(front, k);
    assert k in NamesOf(recs) <==> k in NamesOf(front) || k == name;
    if name == k {
      var vs := ValuesOf(front, k);
      assert ValuesOf(recs, k) == vs + [last.value];
      assert Of(vs + [last.value]) == Extend(Of(vs), last.value) by {
        assert (vs + [last.value])[..|vs|] == vs;
      }
      if k in m {
        CombineNew(Of(vs), last.value);
        CombineAssociative(m[k], Of(vs), Stats.New(last.value));
        CombineNew(Combine(m[k], Of(vs)), last.value);
      } else if k !in NamesOf(front) {
        assert vs == [];
      }
    } else {
      assert ValuesOf(recs, k) == ValuesOf(front, k);
    }
  }

  /** Inserting two runs of records one after the other. */
  lemma {:induction false} BuildAppend(m: Table, xs: seq<Record>, ys: seq<Record>)
    ensures Build(m, xs + ys) == Build(Build(m, xs), ys)
    decreases |ys|
  {
    if ys == [] {
      assert xs + ys == xs;
    } else {
      var front := ys[..|ys| - 1];
      assert (xs + ys)[..|xs + ys| - 1] == xs + front;
      assert (xs + ys)[|xs + ys| - 1] == ys[|ys| - 1];
      BuildAppend(m, xs, front);
    }
  }

  /** Merging a table built from records into `m` is inserting those records into `m`. */
  lemma MergeBuild(m: Table, ys: seq<Record>)
    ensures Merge(m, Build(map[], ys)) == Build(m, ys)
  {
    var l, r := Merge(m, Build(map[], ys)), Build(m, ys);
    forall k
      ensures k in l <==> k in r
      ensures k in l ==> l[k] == r[k]
    {
      BuildEntry(map[], ys, k);
      BuildEntry(m, ys, k);
      ValuesOfEmpty(ys, k);
      if k in m && k !in NamesOf(ys) {
        CombineIdentity(m[k]);
      }
    }
  }

  /** Splitting the records between two consumers and merging their tables gives the
      table one consumer would have built from all of them. */
  lemma SplitMerge(xs: seq<Record>, ys: seq<Record>)
    ensures Merge(Build(map[], xs), Build(map[], ys)) == Build(map[], xs + ys)
  {
    MergeBuild(Build(map[], xs), ys);
    BuildAppend(map[], xs, ys);
  }

  /** The consumer task's fold, over the tables each consumer built from its share of
      the records, is the table built from all the records in the order of the shares. */
  lemma {:induction false} FoldMergeBuild(chunks: seq<seq<Record>>)
    ensures FoldMerge(map[], seq(|chunks|, i requires 0 <= i < |chunks| => Build(map[], chunks[i])))
         == Build(map[], Flatten(chunks))
    decreases |chunks|
  {
    var ts := seq(|chunks|, i requires 0 <= i < |chunks| => Build(map[], chunks[i]));
    if chunks != [] {
      var front := chunks[..|chunks| - 1];
      var tf := seq(|front|, i requires 0 <= i < |front| => Build(map[], front[i]));
      assert ts[..|ts| - 1] == tf;
      FoldMergeBuild(front);
      SplitMerge(Flatten(front), chunks[|chunks| - 1]);
    }
  }

  /** `Sum` (a `reduce`) and the consumer task's fold from an empty table agree. */
  lemma {:induction false} SumIsFold(ts: seq<Table>)
    ensures SumTables(ts) == FoldMerge(map[], ts)
    decreases |ts|
  {
    if |ts| == 1 {
      MergeIdentity(ts[0]);
    } else if |ts| > 1 {
      var front := ts[..|ts| - 1];
      SumIsFold(front);
    }
  }

  // ---------------------------------------------------------------------------------
  // `len`: the total number of readings.

  /** The total does not depend on which entry is taken out first. */
  lemma {:induction false} TotalCountRemove(m: Table, k: LiteHashBuffer)
    requires k in m
    ensures TotalCount(m) == m[k].count + TotalCount(m - {k})
    decreases |m|
  {
    var j :| j in m && TotalCount(m) == m[j].count + TotalCount(m - {j});
    if j != k {
      var rest := m - {j};
      assert |rest| < |m| by {
        assert rest.Keys == m.Keys - {j};
      }
      TotalCountRemove(rest, k);
      assert |m - {k}| < |m| by {
        assert (m - {k}).Keys == m.Keys - {k};
      }
      TotalCountRemove(m - {k}, j);
      assert rest - {k} == (m - {k}) - {j};
    }
  }

  lemma TotalCountUpdate(m: Table, k: LiteHashBuffer, s: StationStats)
    ensures TotalCount(m[k := s]) == TotalCount(m) - (if k in m then m[k].count else 0) + s.count
  {
    TotalCountRemove(m[k := s], k);
    assert m[k := s] - {k} == m - {k};
    if k in m {
      TotalCountRemove(m, k);
    } else {
      assert m - {k} == m;
    }
  }

  /** Each inserted record adds one to the total. */
  lemma {:induction false} TotalCountBuild(m: Table, recs: seq<Record>)
    ensures TotalCount(Build(m, recs)) == TotalCount(m) + |recs|
    decreases |recs|
  {
    if recs != [] {
      var front, last := recs[..|recs| - 1], recs[|recs| - 1];
      TotalCountBuild(m, front);
      TotalCountUpdate(Build(m, front), LiteHashBuffer(last.name),
                       Upsert(Build(m, front), LiteHashBuffer(last.name), last.value)[LiteHashBuffer(last.name)]);
      assert Upsert(Build(m, front), LiteHashBuffer(last.name), last.value)
          == Build(m, front)[LiteHashBuffer(last.name) := Upsert(Build(m, front), LiteHashBuffer(last.name), last.value)[LiteHashBuffer(last.name)]];
    }
  }

  /** The totals of two merged tables add up. */
  lemma {:induction false} TotalCountMerge(a: Table, b: Table)
    ensures TotalCount(Merge(a, b)) == TotalCount(a) + TotalCount(b)
    decreases |b|
  {
    if b == map[] {
      MergeIdentity(a);
    } else {
      var k :| k in b;
      var a' := MergeEntry(a, k, b[k]);
      assert |b - {k}| < |b| by {
        assert (b - {k}).Keys == b.Keys - {k};
      }
      TotalCountMerge(a', b - {k});
      MergeStep(a, b, k);
      assert a' == a[k := a'[k]];
      TotalCountUpdate(a, k, a'[k]);
      TotalCountRemove(b, k);
    }
  }

  // ---------------------------------------------------------------------------------
  // The order `iter_sorted` visits the names in.

  predicate StrictlySorted(names: seq<LiteHashBuffer>) {
    forall i, j :: 0 <= i < j < |names| ==> KeyLess(names[i], names[j])
  }

  function Elems(names: seq<LiteHashBuffer>): set<LiteHashBuffer> {
    set n | n in names
  }

  /** `m` is the least name of `keys`. */
  predicate IsLeast(m: LiteHashBuffer, keys: set<LiteHashBuffer>) {
    m in keys && forall k :: k in keys && k != m ==> KeyLess(m, k)
  }

  lemma {:induction false} LeastExists(keys: set<LiteHashBuffer>)
    requires keys != {}
    ensures exists m :: IsLeast(m, keys)
    decreases |keys|
  {
    var x :| x in keys;
    if keys == {x} {
      assert IsLeast(x, keys);
    } else {
      var rest := keys - {x};
      LeastExists(rest);
      var r :| IsLeast(r, rest);
      LessTotal(r.buffer, x.buffer);
      if KeyLess(r, x) {
        assert IsLeast(r, keys);
      } else {
        forall k | k in keys && k != x
          ensures KeyLess(x, k)
        {
          if k != r {
            assert k in rest;
            LessTransitive(x.buffer, r.buffer, k.buffer);
          }
        }
        assert IsLeast(x, keys);
      }
    }
  }

  /** The names of a set in ascending byte order, each once. */
  ghost function SortedKeys(keys: set<LiteHashBuffer>): (names: seq<LiteHashBuffer>)
    ensures StrictlySorted(names) && Elems(names) == keys && |names| == |keys|
    decreases |keys|
  {
    if keys == {} then []
    else
      LeastExists(keys);
      var m :| IsLeast(m, keys);
      var rest := SortedKeys(keys - {m});
      SortedCons(m, rest, keys);
      [m] + rest
  }

  /** Putting the least name in front of the listing of the others lists them all. */
  lemma SortedCons(m: LiteHashBuffer, rest: seq<LiteHashBuffer>, keys: set<LiteHashBuffer>)
    requires IsLeast(m, keys)
    requires StrictlySorted(rest) && Elems(rest) == keys - {m} && |rest| == |keys - {m}|
    ensures StrictlySorted([m] + rest) && Elems([m] + rest) == keys && |[m] + rest| == |keys|
  {
    assert |keys - {m}| == |keys| - 1;
    assert forall j :: 0 <= j < |rest| ==> rest[j] in Elems(rest);
    assert Elems([m] + rest) == {m} + Elems(rest);
  }

  /** A set has one ascending listing: any two agree. */
  lemma {:induction false} SortedUnique(a: seq<LiteHashBuffer>, b: seq<LiteHashBuffer>)
    requires StrictlySorted(a) && StrictlySorted(b) && Elems(a) == Elems(b)
    ensures a == b
    decreases |a|
  {
    assert b != [] ==> b[0] in Elems(b);
    if a != [] {
      assert a[0] in Elems(b);
      assert b != [];
      assert b[0] in Elems(a);
      if a[0] != b[0] {
        var i :| 0 <= i < |a| && a[i] == b[0];
        var j :| 0 <= j < |b| && b[j] == a[0];
        assert KeyLess(a[0], b[0]) && KeyLess(b[0], a[0]);
        LessAsymmetric(a[0].buffer, b[0].buffer);
        assert false;
      }
      forall k | 0 < k < |a|
        ensures a[k] != a[0]
      {
        LessIrreflexive(a[0].buffer);
      }
      forall k | 0 < k < |b|
        ensures b[k] != b[0]
      {
        LessIrreflexive(b[0].buffer);
      }
      assert Elems(a[1..]) == Elems(a) - {a[0]} by {
        assert a == [a[0]] + a[1..];
      }
      assert Elems(b[1..]) == Elems(b) - {b[0]} by {
        assert b == [b[0]] + b[1..];
      }
      SortedUnique(a[1..], b[1..]);
      assert a == [a[0]] + a[1..] && b == [b[0]] + b[1..];
    }
  }

  /** Inserting a new name into an ascending listing, after every smaller name. */
  method InsertSorted(names: seq<LiteHashBuffer>, name: LiteHashBuffer) returns (r: seq<LiteHashBuffer>)
    requires StrictlySorted(names) && name !in Elems(names)
    ensures StrictlySorted(r) && Elems(r) == Elems(names) + {name}
  {
    var i := 0;
    while i < |names| && KeyLess(names[i], name)
      invariant 0 <= i <= |names|
      invariant forall j :: 0 <= j < i ==> KeyLess(names[j], name)
    {
      i := i + 1;
    }
    if i < |names| {
      LessTotal(names[i].buffer, name.buffer);
    }
    r := names[..i] + [name] + names[i..];
    forall p, q | 0 <= p < q < |r|
      ensures KeyLess(r[p], r[q])
    {
      if p < i && q == i {
      } else if p < i && q > i {
      } else if p == i && q > i {
        if q - 1 > i {
          LessTransitive(name.buffer, names[i].buffer, names[q - 1].buffer);
        }
      } else {
      }
    }
    assert Elems(r) == Elems(names) + {name} by {
      assert names == names[..i] + names[i..];
    }
  }

  /** `iter_sorted`'s `collect_vec` and `sort`: the names of a table in ascending order. */
  method SortNames(keys: set<LiteHashBuffer>) returns (names: seq<LiteHashBuffer>)
    ensures names == SortedKeys(keys)
  {
    names := [];
    var rest := keys;
    while rest != {}
      invariant StrictlySorted(names)
      invariant Elems(names) + rest == keys && Elems(names) !! rest
      decreases |rest|
    {
      var k :| k in rest;
      names := InsertSorted(names, k);
      rest := rest - {k};
    }
    SortedUnique(names, SortedKeys(keys));
  }

  // ---------------------------------------------------------------------------------
  // `export_text`.

  /** `itertools::join`: the parts with `sep` between each two. */
  function Join(parts: seq<string>, sep: string): string {
    if parts == [] then ""
    else if |parts| == 1 then parts[0]
    else Join(parts[..|parts| - 1], sep) + sep + parts[|parts| - 1]
  }

  /** The text of each entry, in the order of `names`; the per-entry rendering
      (`StationStats::export_text`) is the parameter `render`. */
  function Entries(names: seq<LiteHashBuffer>, m: Table, render: (seq<byte>, StationStats) -> string): (r: seq<string>)
    requires forall i :: 0 <= i < |names| ==> names[i] in m
    ensures |r| == |names|
    ensures forall i :: 0 <= i < |names| ==> r[i] == render(names[i].buffer, m[names[i]])
  {
    if names == [] then []
    else Entries(names[..|names| - 1], m, render) + [render(names[|names| - 1].buffer, m[names[|names| - 1]])]
  }

  /** The whole export: the entries in ascending name order, comma-separated, in braces,
      with a final newline. */
  ghost function ExportSpec(m: Table, render: (seq<byte>, StationStats) -> string): string {
    "{" + Join(Entries(SortedKeys(m.Keys), m, render), ", ") + "}\n"
  }

  // ---------------------------------------------------------------------------------
  // The table and its iterator as objects.

  class StationRecords {

    var stats: Table

    ghost predicate Valid()
      reads this
    {
      EntriesValid(stats)
    }

    /** `new` / `Default`: an empty table. */
    constructor ()
      ensures Valid() && stats == map[]
    {
      stats := map[];
    }

    /** `insert`: add one reading of station `name`, in place. The `i32` sum and the
        `usize` count must not overflow. */
    method Insert(name: LiteHashBuffer, value: i16)
      requires Valid()
      requires name in stats ==> Fits(Extend(stats[name], value))
      modifies this
      ensures Valid()
      ensures stats == Upsert(old(stats), name, value)
    {
      if name in stats {
        ExtendConsistent(stats[name], value);
        stats := stats[name := Extend(stats[name], value)];
      } else {
        stats := stats[name := Stats.New(value)];
      }
    }

    /** `get`: the summary of a station, if it has one. */
    function Get(name: LiteHashBuffer): (r: Option<StationStats>)
      reads this
      ensures r.Some? <==> name in stats
      ensures r.Some? ==> r.value == stats[name]
    {
      if name in stats then Some(stats[name]) else None
    }

    /** `len`: the number of readings the table summarises (a `usize` sum). */
    method Len() returns (n: nat)
      requires IsUsize(TotalCount(stats))
      ensures n == TotalCount(stats)
    {
      n := 0;
      var rest := stats;
      while rest != map[]
        invariant n + TotalCount(rest) == TotalCount(stats)
        decreases |rest|
      {
        var k :| k in rest;
        TotalCountRemove(rest, k);
        n := n + rest[k].count;
        assert (rest - {k}).Keys == rest.Keys - {k};
        rest := rest - {k};
      }
    }

    /** `is_empty`: no readings at all, which for a table that `insert` and `+=` built
        means no stations. */
    method IsEmpty() returns (e: bool)
      requires Valid() && IsUsize(TotalCount(stats))
      ensures e <==> stats == map[]
    {
      var n := Len();
      TotalCountAtLeastSize(stats);
      e := n == 0;
    }

    /** `iter_sorted`: an iterator over the names in ascending byte order. */
    method IterSorted() returns (it: IterStationRecords)
      requires Valid()
      ensures fresh(it) && it.Valid() && it.records == this
      ensures it.names == SortedKeys(stats.Keys)
    {
      var names := SortNames(stats.Keys);
      it := new IterStationRecords(names, this);
    }

    /** `export_text`: `{`, the entries in ascending name order joined by `, `, and `}`
        with a newline. */
    method ExportText(render: (seq<byte>, StationStats) -> string) returns (text: string)
      requires Valid()
      ensures text == ExportSpec(stats, render)
    {
      var it := IterSorted();
      var joined := JoinRendered(it, render);
      text := "{" + joined + "}\n";
    }

    /** `+=`: drain `rhs` into this table, entry by entry. The summed `i32` sums and
        `usize` counts must not overflow. */
    method AddAssign(rhs: StationRecords)
      requires rhs != this
      requires Valid() && rhs.Valid()
      requires MergeFits(stats, rhs.stats)
      modifies this, rhs
      ensures Valid()
      ensures stats == Merge(old(stats), old(rhs.stats))
      ensures rhs.stats == map[]
    {
      ghost var a0, b0 := stats, rhs.stats;
      var acc, rest := stats, rhs.stats;
      while rest != map[]
        invariant Draining(acc, rest, a0, b0)
        decreases |rest|
      {
        var name :| name in rest;
        DrainStep(acc, rest, a0, b0, name);
        acc := MergeEntry(acc, name, rest[name]);
        rest := rest - {name};
      }
      MergeIdentity(acc);
      stats, rhs.stats := acc, rest;
    }
  }

  /** `itertools::join` over the iterator mapped through `render`: drains `it` and
      returns the rendered entries separated by `, `. */
  method JoinRendered(it: IterStationRecords, render: (seq<byte>, StationStats) -> string) returns (joined: string)
    requires it.Valid()
    modifies it
    ensures it.names == []
    ensures joined == Join(Entries(old(it.names), it.records.stats, render), ", ")
  {
    ghost var all, k, m := it.names, 0, it.records.stats;
    var first := true;
    joined := "";
    var item := it.Next();
    while item.Some?
      invariant it.Valid() && it.records.stats == m
      invariant k <= |all| && (first <==> k == 0)
      invariant item.None? ==> k == |all| && it.names == []
      invariant item.Some? ==> k < |all| && it.names == all[k + 1..]
      invariant item.Some? ==> item.value == (all[k].buffer, m[all[k]])
      invariant joined == Join(Entries(all[..k], m, render), ", ")
      decreases |it.names| + (if item.Some? then 1 else 0)
    {
      ExportStep(all, k, m, render);
      var part := render(item.value.0, item.value.1);
      joined := if first then part else joined + ", " + part;
      first := false;
      k := k + 1;
      item := it.Next();
    }
    assert all[..k] == all;
  }

  /** `IterStationRecords`: the names still to visit, and the table they come from. */
  class IterStationRecords {

    var names: seq<LiteHashBuffer>
    const records: StationRecords

    ghost predicate Valid()
      reads this, records
    {
      forall i :: 0 <= i < |names| ==> names[i] in records.stats
    }

    constructor (names: seq<LiteHashBuffer>, records: StationRecords)
      requires forall i :: 0 <= i < |names| ==> names[i] in records.stats
      ensures this.names == names && this.records == records && Valid()
    {
      this.names := names;
      this.records := records;
    }

    /** `next`: the next name, as its bytes, with its summary; `None` when done. */
    method Next() returns (item: Option<(seq<byte>, StationStats)>)
      requires Valid()
      modifies this
      ensures Valid()
      ensures old(names) == [] ==> item == None && names == []
      ensures old(names) != [] ==>
                names == old(names)[1..] && item == Some((old(names)[0].Deref(), records.stats[old(names)[0]]))
    {
      if names == [] {
        item := None;
      } else {
        var name := names[0];
        names := names[1..];
        var stats := records.Get(name);
        item := Some((name.Deref(), stats.value));
      }
    }
  }

  lemma TotalCountAtLeastSize(m: Table)
    requires EntriesValid(m)
    ensures TotalCount(m) >= |m|
    decreases |m|
  {
    if m != map[] {
      var k :| k in m;
      TotalCountRemove(m, k);
      assert (m - {k}).Keys == m.Keys - {k};
      TotalCountAtLeastSize(m - {k});
    }
  }

  /** One more entry of the export. */
  lemma ExportStep(all: seq<LiteHashBuffer>, k: nat, m: Table, render: (seq<byte>, StationStats) -> string)
    requires k < |all| && forall i :: 0 <= i < |all| ==> all[i] in m
    ensures Join(Entries(all[..k + 1], m, render), ", ")
         == if k == 0 then render(all[k].buffer, m[all[k]])
            else Join(Entries(all[..k], m, render), ", ") + ", " + render(all[k].buffer, m[all[k]])
  {
    assert all[..k + 1] == all[..k] + [all[k]];
    EntriesSnoc(all[..k], all[k], m, render);
    JoinSnoc(Entries(all[..k], m, render), render(all[k].buffer, m[all[k]]), ", ");
  }

  lemma JoinSnoc(parts: seq<string>, p: string, sep: string)
    ensures Join(parts + [p], sep) == if parts == [] then p else Join(parts, sep) + sep + p
  {
    assert (parts + [p])[..|parts|] == parts;
  }

  lemma EntriesSnoc(names: seq<LiteHashBuffer>, n: LiteHashBuffer, m: Table, render: (seq<byte>, StationStats) -> string)
    requires forall i :: 0 <= i < |names| ==> names[i] in m
    requires n in m
    ensures Entries(names + [n], m, render) == Entries(names, m, render) + [render(n.buffer, m[n])]
  {
    assert (names + [n])[..|names|] == names;
  }
}
