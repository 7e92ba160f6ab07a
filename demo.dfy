/** The demonstration run of test_database.cpp, as a client of `Table`:
    everything it observes follows from the method contracts alone. */
module Demo {
  import opened Records
  import opened Store
  import opened Codec
  import opened Database

  /** The bytes of a string whose characters all fit in one byte. */
  function Latin1(s: string): (b: seq<Byte>)
    requires forall i | 0 <= i < |s| :: s[i] as int < 0x100
    ensures |b| == |s|
    ensures forall i | 0 <= i < |s| :: b[i] as int == s[i] as int
  {
    seq(|s|, i requires 0 <= i < |s| => s[i] as int as Byte)
  }

  /** The three inserts of the first run, on an empty table. */
  lemma InsertThree(a: Name, b: Name, c: Name)
    ensures Inserted(Inserted(Inserted([], 1, a, 18), 2, b, 19), 3, c, 20)
         == [Record(1, a, 18), Record(2, b, 19), Record(3, c, 20)]
  {
    var r1, r2 := Record(1, a, 18), Record(2, b, 19);
    assert Ids([r1]) == {1};
    assert Ids([r1, r2]) == {1, 2};
  }

  /** The three inserts of the second run, on the reloaded ids 2 and 3. */
  lemma InsertThreeAgain(x: Record, y: Record, a: Name, b: Name, c: Name)
    requires x.id == 2 && y.id == 3
    ensures Inserted([x, y], 1, a, 18) == [x, y, Record(1, a, 18)]
    ensures Ids([x, y, Record(1, a, 18)]) == {1, 2, 3}
  {
    assert Ids([x, y]) == {2, 3};
  }

  lemma ThreeUnique(a: Record, b: Record, c: Record)
    requires a.id != b.id && a.id != c.id && b.id != c.id
    ensures UniqueIds([a, b, c])
  {
  }

  /** Lookups, updates and removals among three records with distinct ids. */
  lemma ThreeRecords(a: Record, b: Record, c: Record, name: Name, age: Int32)
    requires a.id != b.id && a.id != c.id && b.id != c.id
    ensures Find([a, b, c], a.id) == Some(a)
    ensures Find([a, b, c], b.id) == Some(b)
    ensures Updated([a, b, c], a.id, name, age) == [Record(a.id, name, age), b, c]
    ensures Updated([a, b, c], b.id, name, age) == [a, Record(b.id, name, age), c]
    ensures Removed([a, b, c], a.id) == [b, c]
    ensures Removed([a, b, c], c.id) == [a, b]
  {
    ThreeUnique(a, b, c);
    ThreeFirst(a, b, c, name, age);
    ThreeSecond(a, b, c, name, age);
    ThreeThird(a, b, c);
  }

  lemma ThreeFirst(a: Record, b: Record, c: Record, name: Name, age: Int32)
    requires UniqueIds([a, b, c])
    ensures Find([a, b, c], a.id) == Some(a)
    ensures Updated([a, b, c], a.id, name, age) == [Record(a.id, name, age), b, c]
    ensures Removed([a, b, c], a.id) == [b, c]
  {
    OperationsAt([a, b, c], 0, name, age);
  }

  lemma ThreeSecond(a: Record, b: Record, c: Record, name: Name, age: Int32)
    requires UniqueIds([a, b, c])
    ensures Find([a, b, c], b.id) == Some(b)
    ensures Updated([a, b, c], b.id, name, age) == [a, Record(b.id, name, age), c]
  {
    OperationsAt([a, b, c], 1, name, age);
  }

  lemma ThreeThird(a: Record, b: Record, c: Record)
    requires UniqueIds([a, b, c])
    ensures Removed([a, b, c], c.id) == [a, b]
  {
    OperationsAt([a, b, c], 2, c.name, c.age);
    assert [a, b, c][..2] == [a, b];
  }

  /** `runTests` against a file that does not exist yet: three inserts, a
      query, an update and a second query, a remove, the final listing, and
      the file the destructor would save. */
  method RunTests() returns (queried: Option<Record>, updated: Option<Record>,
                              shown: seq<Record>, saved: seq<Byte>)
    ensures queried == Some(Record(2, Latin1("Ev"), 19))
    ensures updated == Some(Record(2, Latin1("Evin Updated"), 21))
    ensures shown == [Record(2, Latin1("Evin Updated"), 21), Record(3, Latin1("StClair"), 20)]
    ensures saved == Encode(shown)
  {
    var evin, ev, stClair := Latin1("Evin"), Latin1("Ev"), Latin1("StClair");
    var evinUpdated := Latin1("Evin Updated");
    var r1, r2, r3 := Record(1, evin, 18), Record(2, ev, 19), Record(3, stClair, 20);
    var r2u := Record(2, evinUpdated, 21);
    InsertThree(evin, ev, stClair);
    ThreeRecords(r1, r2, r3, evinUpdated, 21);
    ThreeRecords(r1, r2u, r3, evinUpdated, 21);

    var table := new Table(None);
    var st := table.Insert(1, evin, 18);
    st := table.Insert(2, ev, 19);
    st := table.Insert(3, stClair, 20);
    queried := table.Query(2);
    st := table.Update(2, evinUpdated, 21);
    updated := table.Query(2);
    st := table.Remove(1);
    shown := table.Display();
    saved := table.Save();
  }

  /** `runTests` a second time, against the file the first run left behind:
      the load restores ids 2 and 3, so only the insert of id 1 succeeds and
      the first query already sees the updated values; id 1 is appended and
      removed again, and the listing is the same. */
  method RerunTests() returns (inserted: seq<Status>, queried: Option<Record>, shown: seq<Record>)
    ensures inserted == [Ok, DuplicateKey, DuplicateKey]
    ensures queried == Some(Record(2, Latin1("Evin Updated"), 21))
    ensures shown == [Record(2, Latin1("Evin Updated"), 21), Record(3, Latin1("StClair"), 20)]
  {
    var evin, ev, stClair := Latin1("Evin"), Latin1("Ev"), Latin1("StClair");
    var evinUpdated := Latin1("Evin Updated");
    var r1, r2u, r3 := Record(1, evin, 18), Record(2, evinUpdated, 21), Record(3, stClair, 20);
    SaveLoadRoundTrip([r2u, r3]);
    InsertThreeAgain(r2u, r3, evin, ev, stClair);
    ThreeRecords(r2u, r3, r1, evinUpdated, 21);

    var table := new Table(Some(Encode([r2u, r3])));
    var s1 := table.Insert(1, evin, 18);
    var s2 := table.Insert(2, ev, 19);
    var s3 := table.Insert(3, stClair, 20);
    inserted := [s1, s2, s3];
    queried := table.Query(2);
    var st := table.Update(2, evinUpdated, 21);
    st := table.Remove(1);
    shown := table.Display();
  }
}
