/** The unit tests of src/parser/models.rs, restated as facts about the table model. */
module RecordsExamples {

  import opened Machine
  import opened ParserFunc
  import opened HashableBuffer
  import opened Stats
  import opened Records

  const BAR: seq<byte> := [0x62, 0x61, 0x72]
  const BAZ: seq<byte> := [0x62, 0x61, 0x7A]
  const FOO: seq<byte> := [0x66, 0x6F, 0x6F]
  const THAT: seq<byte> := [0x74, 0x68, 0x61, 0x74]
  const THIS: seq<byte> := [0x74, 0x68, 0x69, 0x73]

  // The readings the tests insert, as `i16` constants.
  const R1: i16 := 1
  const R2: i16 := 2
  const R3: i16 := 3
  const R4: i16 := 4
  const R5: i16 := 5
  const R6: i16 := 6
  const R7: i16 := 7
  const R8: i16 := 8

  /** `station_records_insert`, for any two distinct names `a` and `b` (the test uses
      station1 and station2): `a` gets 1, 3, 4, 5 and `b` gets 2, one `insert` at a time
      into an empty table, and no other name gets an entry. */
  lemma InsertExample(a: LiteHashBuffer, b: LiteHashBuffer)
    requires a != b
    ensures Upsert(Upsert(Upsert(Upsert(Upsert(map[], a, R1), b, R2), a, R3), a, R4), a, R5)
         == map[a := StationStats(R1, R5, 13, 4), b := StationStats(R2, R2, 2, 1)]
  {
  }

  /** `station_records_add`, for any two distinct names `a` and `b`: the first table has
      `a` = 1 and `b` = 2, the second `a` = 3, 4, 5 and `b` = 6, 7, 8; their sum holds
      all of them. */
  lemma AddExample(a: LiteHashBuffer, b: LiteHashBuffer)
    requires a != b
    ensures Merge(Upsert(Upsert(map[], a, R1), b, R2),
                  Upsert(Upsert(Upsert(Upsert(Upsert(Upsert(map[], a, R3), a, R4), a, R5), b, R6), b, R7), b, R8))
         == map[a := StationStats(R1, R5, 13, 4), b := StationStats(R2, R8, 23, 4)]
  {
    AddExampleLeft(a, b);
    AddExampleRight(a, b);
  }

  lemma AddExampleLeft(a: LiteHashBuffer, b: LiteHashBuffer)
    requires a != b
    ensures Upsert(Upsert(map[], a, R1), b, R2) == map[a := StationStats(R1, R1, 1, 1), b := StationStats(R2, R2, 2, 1)]
  {
  }

  lemma AddExampleRight(a: LiteHashBuffer, b: LiteHashBuffer)
    requires a != b
    ensures Upsert(Upsert(Upsert(Upsert(Upsert(Upsert(map[], a, R3), a, R4), a, R5), b, R6), b, R7), b, R8)
         == map[a := StationStats(R3, R5, 12, 3), b := StationStats(R6, R8, 21, 3)]
  {
  }

  /** The table the `station_records_iter` and `station_records_export` tests build: one
      `insert` each of this 4, that 5, foo 1, bar 2 and baz 3 into an empty table. */
  function FiveInserts(): Table {
    Upsert(Upsert(Upsert(Upsert(Upsert(map[], LiteHashBuffer(THIS), R4), LiteHashBuffer(THAT), R5),
                                LiteHashBuffer(FOO), R1), LiteHashBuffer(BAR), R2), LiteHashBuffer(BAZ), R3)
  }

  // The table after each of those inserts.
  const FIVE_1: Table := map[LiteHashBuffer(THIS) := Stats.New(R4)]
  const FIVE_2: Table := FIVE_1[LiteHashBuffer(THAT) := Stats.New(R5)]
  const FIVE_3: Table := FIVE_2[LiteHashBuffer(FOO) := Stats.New(R1)]
  const FIVE_4: Table := FIVE_3[LiteHashBuffer(BAR) := Stats.New(R2)]
  const FIVE: Table := FIVE_4[LiteHashBuffer(BAZ) := Stats.New(R3)]

  /** Five names, five entries, each with the summary of its one reading. */
  lemma FiveInsertsTable()
    ensures FiveInserts() == FIVE
    ensures FIVE.Keys == {LiteHashBuffer(BAR), LiteHashBuffer(BAZ), LiteHashBuffer(FOO),
                          LiteHashBuffer(THAT), LiteHashBuffer(THIS)}
  {
    var kThis, kThat, kFoo, kBar, kBaz :=
      LiteHashBuffer(THIS), LiteHashBuffer(THAT), LiteHashBuffer(FOO), LiteHashBuffer(BAR), LiteHashBuffer(BAZ);
    assert kThis != kThat by { assert THIS[2] != THAT[2]; }
    assert kFoo !in FIVE_2 by { assert |FOO| != |THIS| && FOO[0] != THAT[0]; }
    assert kBar !in FIVE_3 by { assert |BAR| != |THIS| && BAR[0] != THAT[0] && BAR[0] != FOO[0]; }
    assert kBaz !in FIVE_4 by { assert |BAZ| != |THIS| && BAZ[0] != THAT[0] && BAZ[0] != FOO[0] && BAZ[2] != BAR[2]; }
    assert Upsert(map[], kThis, R4) == FIVE_1;
    assert Upsert(FIVE_1, kThat, R5) == FIVE_2;
    assert Upsert(FIVE_2, kFoo, R1) == FIVE_3;
    assert Upsert(FIVE_3, kBar, R2) == FIVE_4;
    assert Upsert(FIVE_4, kBaz, R3) == FIVE;
  }

  /** `station_records_iter`: the names of that table come out in byte order. */
  lemma IterSortedExample()
    ensures SortedKeys(FiveInserts().Keys)
         == [LiteHashBuffer(BAR), LiteHashBuffer(BAZ), LiteHashBuffer(FOO),
             LiteHashBuffer(THAT), LiteHashBuffer(THIS)]
  {
    FiveInsertsTable();
    SortedFive();
  }

  /** The five test names, as a set, listed in byte order. */
  lemma SortedFive()
    ensures SortedKeys({LiteHashBuffer(BAR), LiteHashBuffer(BAZ), LiteHashBuffer(FOO),
                        LiteHashBuffer(THAT), LiteHashBuffer(THIS)})
         == [LiteHashBuffer(BAR), LiteHashBuffer(BAZ), LiteHashBuffer(FOO),
             LiteHashBuffer(THAT), LiteHashBuffer(THIS)]
  {
    var names := [LiteHashBuffer(BAR), LiteHashBuffer(BAZ), LiteHashBuffer(FOO),
                  LiteHashBuffer(THAT), LiteHashBuffer(THIS)];
    ExampleNamesAscending();
    assert StrictlySorted(names);
    assert Elems(names) == {LiteHashBuffer(BAR), LiteHashBuffer(BAZ), LiteHashBuffer(FOO),
                            LiteHashBuffer(THAT), LiteHashBuffer(THIS)};
    SortedUnique(SortedKeys(Elems(names)), names);
  }

  lemma ExampleNamesAscending()
    ensures Less(BAR, BAZ) && Less(BAR, FOO) && Less(BAR, THAT) && Less(BAR, THIS)
    ensures Less(BAZ, FOO) && Less(BAZ, THAT) && Less(BAZ, THIS)
    ensures Less(FOO, THAT) && Less(FOO, THIS) && Less(THAT, THIS)
  {
    assert Less(BAR, BAZ) by { assert BAR[1..][1..] == [0x72] && BAZ[1..][1..] == [0x7A]; }
    assert Less(BAZ, FOO) && Less(FOO, THAT);
    assert Less(THAT, THIS) by { assert THAT[1..][1..] == [0x61, 0x74] && THIS[1..][1..] == [0x69, 0x73]; }
    LessTransitive(BAR, BAZ, FOO);
    LessTransitive(BAR, FOO, THAT);
    LessTransitive(BAR, THAT, THIS);
    LessTransitive(BAZ, FOO, THAT);
    LessTransitive(BAZ, THAT, THIS);
    LessTransitive(FOO, THAT, THIS);
  }

  /** `station_records_export`: the entries of that table in name order, `, `-separated,
      in braces, with a final newline. The rendering of one entry (`bar=0.2/0.2/0.2` and so
      on) is the parameter. */
  lemma ExportExample(render: (seq<byte>, StationStats) -> string)
    ensures ExportSpec(FiveInserts(), render)
         == "{" + (render(BAR, Stats.New(R2)) + ", " + render(BAZ, Stats.New(R3)) + ", " + render(FOO, Stats.New(R1))
                   + ", " + render(THAT, Stats.New(R5)) + ", " + render(THIS, Stats.New(R4))) + "}\n"
  {
    FiveInsertsTable();
    ExportFive(render);
    JoinFive([render(BAR, Stats.New(R2)), render(BAZ, Stats.New(R3)), render(FOO, Stats.New(R1)),
              render(THAT, Stats.New(R5)), render(THIS, Stats.New(R4))], ", ");
  }

  /** The export of the five-entry table, as a join of its rendered entries. */
  lemma ExportFive(render: (seq<byte>, StationStats) -> string)
    ensures ExportSpec(FIVE, render)
         == "{" + Join([render(BAR, Stats.New(R2)), render(BAZ, Stats.New(R3)), render(FOO, Stats.New(R1)),
                        render(THAT, Stats.New(R5)), render(THIS, Stats.New(R4))], ", ") + "}\n"
  {
    FiveInsertsTable();
    SortedFive();
    FiveEntries();
    ExportOfFive(FIVE, render, LiteHashBuffer(BAR), LiteHashBuffer(BAZ), LiteHashBuffer(FOO),
                 LiteHashBuffer(THAT), LiteHashBuffer(THIS));
  }

  /** The entries of the five-entry table. */
  lemma FiveEntries()
    ensures LiteHashBuffer(BAR) in FIVE && LiteHashBuffer(BAZ) in FIVE && LiteHashBuffer(FOO) in FIVE
    ensures LiteHashBuffer(THAT) in FIVE && LiteHashBuffer(THIS) in FIVE
    ensures FIVE[LiteHashBuffer(BAR)] == Stats.New(R2) && FIVE[LiteHashBuffer(BAZ)] == Stats.New(R3)
    ensures FIVE[LiteHashBuffer(FOO)] == Stats.New(R1) && FIVE[LiteHashBuffer(THAT)] == Stats.New(R5)
    ensures FIVE[LiteHashBuffer(THIS)] == Stats.New(R4)
  {
    assert |BAZ| != |THIS| && BAZ[0] != THAT[0] && BAZ[0] != FOO[0] && BAZ[2] != BAR[2];
    assert |BAR| != |THIS| && BAR[0] != THAT[0] && BAR[0] != FOO[0];
    assert |FOO| != |THIS| && FOO[0] != THAT[0] && THIS[2] != THAT[2];
  }

  /** The export of a table whose names, in order, are `k0` to `k4`. */
  lemma ExportOfFive(m: Table, render: (seq<byte>, StationStats) -> string,
                     k0: LiteHashBuffer, k1: LiteHashBuffer, k2: LiteHashBuffer, k3: LiteHashBuffer, k4: LiteHashBuffer)
    requires SortedKeys(m.Keys) == [k0, k1, k2, k3, k4]
    ensures ExportSpec(m, render)
         == "{" + Join([render(k0.buffer, m[k0]), render(k1.buffer, m[k1]), render(k2.buffer, m[k2]),
                        render(k3.buffer, m[k3]), render(k4.buffer, m[k4])], ", ") + "}\n"
  {
    var names := SortedKeys(m.Keys);
    assert forall i :: 0 <= i < 5 ==> names[i] in Elems(names);
    EntriesFive(names, m, render);
  }

  lemma EntriesFive(names: seq<LiteHashBuffer>, m: Table, render: (seq<byte>, StationStats) -> string)
    requires |names| == 5 && forall i :: 0 <= i < 5 ==> names[i] in m
    ensures Entries(names, m, render)
         == [render(names[0].buffer, m[names[0]]), render(names[1].buffer, m[names[1]]),
             render(names[2].buffer, m[names[2]]), render(names[3].buffer, m[names[3]]),
             render(names[4].buffer, m[names[4]])]
  {
  }

  /** Five parts joined: each part followed by the separator, except the last. */
  lemma JoinFive(e: seq<string>, sep: string)
    requires |e| == 5
    ensures Join(e, sep) == e[0] + sep + e[1] + sep + e[2] + sep + e[3] + sep + e[4]
  {
    assert e[..2][..1] == e[..1];
    assert Join(e[..2], sep) == e[0] + sep + e[1];
    assert e[..3][..2] == e[..2];
    assert Join(e[..3], sep) == e[0] + sep + e[1] + sep + e[2];
    assert e[..4][..3] == e[..3];
    assert Join(e[..4], sep) == e[0] + sep + e[1] + sep + e[2] + sep + e[3];
    assert e[..5][..4] == e[..4];
    assert e[..5] == e;
  }
}
