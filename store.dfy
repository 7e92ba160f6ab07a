/** What the table's operations do to its sequence of records, stated on
    values: the specification the `Table` methods are proved against. The
    index is a cache of the sequence and does not appear here. */
module Store {
  import opened Records

  /** The ids present in a record sequence. */
  function Ids(recs: seq<Record>): set<Int32>
  {
    set r | r in recs :: r.id
  }

  /** The store's uniqueness invariant: at most one record per id. */
  predicate UniqueIds(recs: seq<Record>)
  {
    forall i, j | 0 <= i < j < |recs| :: recs[i].id != recs[j].id
  }

  /** The position of the first record with this id. */
  function PositionOf(recs: seq<Record>, id: Int32): (p: Option<nat>)
    ensures p.Some? ==> p.value < |recs| && recs[p.value].id == id
    ensures p.Some? ==> forall i | 0 <= i < p.value :: recs[i].id != id
    ensures p.None? <==> id !in Ids(recs)
  {
    if recs == [] then None
    else if recs[0].id == id then Some(0)
    else
      match PositionOf(recs[1..], id)
      case None =>
        assert forall i | 1 <= i < |recs| :: recs[i] == recs[1..][i - 1];
        None
      case Some(q) =>
        assert recs[1..][q] == recs[q + 1];
        Some(q + 1)
  }

  /** In a duplicate-free sequence each record is found at its own position. */
  lemma PositionOfUnique(recs: seq<Record>, i: nat)
    requires UniqueIds(recs) && i < |recs|
    ensures PositionOf(recs, recs[i].id) == Some(i)
  {
  }

  /** In a duplicate-free sequence, lookup, update and removal of a record's
      id act on that record's own position. */
  lemma OperationsAt(recs: seq<Record>, i: nat, name: Name, age: Int32)
    requires UniqueIds(recs) && i < |recs|
    ensures Find(recs, recs[i].id) == Some(recs[i])
    ensures Updated(recs, recs[i].id, name, age) == recs[i := recs[i].(name := name, age := age)]
    ensures Removed(recs, recs[i].id) == recs[..i] + recs[i + 1..]
  {
    PositionOfUnique(recs, i);
  }

  /** The position of an id in a concatenation. */
  lemma {:induction false} PositionOfAppend(a: seq<Record>, b: seq<Record>, id: Int32)
    ensures PositionOf(a + b, id) ==
      match PositionOf(a, id)
      case Some(p) => Some(p)
      case None => (match PositionOf(b, id) case Some(q) => Some(|a| + q) case None => None)
  {
    if a == [] {
      assert a + b == b;
    } else if a[0].id == id {
      assert (a + b)[0] == a[0];
    } else {
      assert (a + b)[0] == a[0];
      assert (a + b)[1..] == a[1..] + b;
      PositionOfAppend(a[1..], b, id);
    }
  }

  /** The lookup `query` performs: the record with this id, if any. */
  function Find(recs: seq<Record>, id: Int32): (r: Option<Record>)
    ensures r.Some? <==> id in Ids(recs)
    ensures r.Some? ==> r.value.id == id && r.value in recs
  {
    match PositionOf(recs, id)
    case None => None
    case Some(p) => Some(recs[p])
  }

  /** The records after `insert(id, name, age)`. */
  function Inserted(recs: seq<Record>, id: Int32, name: Name, age: Int32): seq<Record>
  {
    if id in Ids(recs) then recs else recs + [Record(id, name, age)]
  }

  /** The records after `update(id, name, age)`. */
  function Updated(recs: seq<Record>, id: Int32, name: Name, age: Int32): seq<Record>
  {
    match PositionOf(recs, id)
    case None => recs
    case Some(p) => recs[p := recs[p].(name := name, age := age)]
  }

  /** The records after `remove(id)`: an order-preserving erase. */
  function Removed(recs: seq<Record>, id: Int32): seq<Record>
  {
    match PositionOf(recs, id)
    case None => recs
    case Some(p) => recs[..p] + recs[p + 1..]
  }

  /** An independent reading of removal: keep every record whose id differs,
      in the order they come. */
  function Without(recs: seq<Record>, id: Int32): seq<Record>
  {
    if recs == [] then []
    else (if recs[0].id == id then [] else [recs[0]]) + Without(recs[1..], id)
  }

  /** An independent reading of loading: the records of `rs`, in order, that
      carry an id neither in `seen` nor on an earlier record of `rs`. */
  function FirstOccurrences(rs: seq<Record>, seen: set<Int32>): seq<Record>
  {
    if rs == [] then []
    else if rs[0].id in seen then FirstOccurrences(rs[1..], seen)
    else [rs[0]] + FirstOccurrences(rs[1..], seen + {rs[0].id})
  }

  /** The records after inserting `rs` one by one, as `load` does. */
  function InsertAll(recs: seq<Record>, rs: seq<Record>): seq<Record>
    decreases |rs|
  {
    if rs == [] then recs
    else InsertAll(Inserted(recs, rs[0].id, rs[0].name, rs[0].age), rs[1..])
  }

  lemma IdsAppend(a: seq<Record>, b: seq<Record>)
    ensures Ids(a + b) == Ids(a) + Ids(b)
  {
  }

  /** `insert` keeps ids unique and adds its id to the id set. */
  lemma InsertedIds(recs: seq<Record>, id: Int32, name: Name, age: Int32)
    requires UniqueIds(recs)
    ensures UniqueIds(Inserted(recs, id, name, age))
    ensures Ids(Inserted(recs, id, name, age)) == Ids(recs) + {id}
  {
    if id !in Ids(recs) {
      var r := Record(id, name, age);
      IdsAppend(recs, [r]);
      assert Ids([r]) == {id};
    }
  }

  /** `insert`: a present id changes nothing; an absent one is appended,
      becomes findable, and every other lookup is unchanged. */
  lemma InsertedFacts(recs: seq<Record>, id: Int32, name: Name, age: Int32)
    requires UniqueIds(recs)
    ensures id in Ids(recs) ==> Inserted(recs, id, name, age) == recs
    ensures id !in Ids(recs) ==> Inserted(recs, id, name, age) == recs + [Record(id, name, age)]
    ensures UniqueIds(Inserted(recs, id, name, age))
    ensures Ids(Inserted(recs, id, name, age)) == Ids(recs) + {id}
    ensures Find(Inserted(recs, id, name, age), id) ==
      if id in Ids(recs) then Find(recs, id) else Some(Record(id, name, age))
    ensures forall k | k != id :: Find(Inserted(recs, id, name, age), k) == Find(recs, k)
  {
    InsertedIds(recs, id, name, age);
    if id !in Ids(recs) {
      var r := Record(id, name, age);
      forall k ensures Find(recs + [r], k) == if k == id then Some(r) else Find(recs, k) {
        PositionOfAppend(recs, [r], k);
      }
    }
  }

  /** `update`: on a present id only that record's name and age change;
      ids, positions and all other records stay. On an absent id nothing
      changes and no record is created. */
  lemma UpdatedFacts(recs: seq<Record>, id: Int32, name: Name, age: Int32)
    requires UniqueIds(recs)
    ensures id !in Ids(recs) ==> Updated(recs, id, name, age) == recs
    ensures |Updated(recs, id, name, age)| == |recs|
    ensures forall i | 0 <= i < |recs| :: Updated(recs, id, name, age)[i].id == recs[i].id
    ensures forall i | 0 <= i < |recs| && recs[i].id != id :: Updated(recs, id, name, age)[i] == recs[i]
    ensures UniqueIds(Updated(recs, id, name, age))
    ensures Ids(Updated(recs, id, name, age)) == Ids(recs)
    ensures Find(Updated(recs, id, name, age), id) ==
      if id in Ids(recs) then Some(Record(id, name, age)) else None
  {
    var u := Updated(recs, id, name, age);
    assert forall i | 0 <= i < |recs| :: u[i].id == recs[i].id;
    assert Ids(u) == Ids(recs) by {
      forall k | k in Ids(recs) ensures k in Ids(u) {
        var r :| r in recs && r.id == k;
        var i :| 0 <= i < |recs| && recs[i] == r;
        assert u[i].id == k;
      }
    }
    if id in Ids(recs) {
      var p := PositionOf(recs, id).value;
      PositionOfUnique(u, p);
    }
  }

  lemma {:induction false} WithoutAbsent(recs: seq<Record>, id: Int32)
    requires id !in Ids(recs)
    ensures Without(recs, id) == recs
  {
    if recs != [] {
      assert forall r | r in recs[1..] :: r in recs;
      WithoutAbsent(recs[1..], id);
      assert recs == [recs[0]] + recs[1..];
    }
  }

  /** Dropping the first record of a duplicate-free sequence. */
  lemma UniqueTail(recs: seq<Record>)
    requires UniqueIds(recs) && recs != []
    ensures UniqueIds(recs[1..])
    ensures recs[0].id !in Ids(recs[1..])
  {
    var tail := recs[1..];
    assert forall i | 0 <= i < |tail| :: tail[i] == recs[i + 1];
  }

  lemma RemovedCons(recs: seq<Record>, id: Int32)
    requires recs != [] && recs[0].id != id
    ensures Removed(recs, id) == [recs[0]] + Removed(recs[1..], id)
  {
    var tail := recs[1..];
    match PositionOf(tail, id)
    case None =>
      assert recs == [recs[0]] + tail;
    case Some(q) =>
      assert recs[..q + 1] + recs[q + 2..] == [recs[0]] + (tail[..q] + tail[q + 1..]);
  }

  /** Removal by position equals removal by filtering: the erase keeps the
      relative order of the remaining records. */
  lemma {:induction false} RemovedKeepsOrder(recs: seq<Record>, id: Int32)
    requires UniqueIds(recs)
    ensures Removed(recs, id) == Without(recs, id)
  {
    if recs != [] {
      UniqueTail(recs);
      if recs[0].id == id {
        WithoutAbsent(recs[1..], id);
      } else {
        RemovedKeepsOrder(recs[1..], id);
        RemovedCons(recs, id);
      }
    }
  }

  /** Erasing position p shifts every later record one place earlier. */
  lemma EraseAtShift(recs: seq<Record>, p: nat)
    requires p < |recs|
    ensures |recs[..p] + recs[p + 1..]| == |recs| - 1
    ensures forall i | 0 <= i < p :: (recs[..p] + recs[p + 1..])[i] == recs[i]
    ensures forall i | p < i < |recs| :: (recs[..p] + recs[p + 1..])[i - 1] == recs[i]
  {
  }

  /** Erasing position p of duplicate-free records keeps them duplicate-free. */
  lemma EraseAtUnique(recs: seq<Record>, p: nat)
    requires UniqueIds(recs) && p < |recs|
    ensures UniqueIds(recs[..p] + recs[p + 1..])
  {
    var rest := recs[..p] + recs[p + 1..];
    EraseAtShift(recs, p);
    forall i, j | 0 <= i < j < |rest| ensures rest[i].id != rest[j].id {
      var i', j' := if i < p then i else i + 1, if j < p then j else j + 1;
      assert rest[i] == recs[i'] && rest[j] == recs[j'];
    }
  }

  /** Erasing position p keeps every record at another position. */
  lemma EraseAtKeeps(recs: seq<Record>, p: nat, i: nat)
    requires p < |recs| && i < |recs| && i != p
    ensures recs[i] in recs[..p] + recs[p + 1..]
  {
    EraseAtShift(recs, p);
    assert (recs[..p] + recs[p + 1..])[if i < p then i else i - 1] == recs[i];
  }

  /** Every record left after erasing position p sat at another position. */
  lemma EraseAtFrom(recs: seq<Record>, p: nat, r: Record)
    requires p < |recs| && r in recs[..p] + recs[p + 1..]
    ensures exists i | 0 <= i < |recs| :: i != p && recs[i] == r
  {
    var rest := recs[..p] + recs[p + 1..];
    EraseAtShift(recs, p);
    var i :| 0 <= i < |rest| && rest[i] == r;
    var i' := if i < p then i else i + 1;
    assert recs[i'] == r;
  }

  /** Erasing position p of duplicate-free records removes exactly its id. */
  lemma EraseAtIds(recs: seq<Record>, p: nat)
    requires UniqueIds(recs) && p < |recs|
    ensures Ids(recs[..p] + recs[p + 1..]) == Ids(recs) - {recs[p].id}
  {
    var rest := recs[..p] + recs[p + 1..];
    forall k | k in Ids(recs) - {recs[p].id} ensures k in Ids(rest) {
      var r :| r in recs && r.id == k;
      var i :| 0 <= i < |recs| && recs[i] == r;
      EraseAtKeeps(recs, p, i);
    }
    forall r | r in rest ensures r in recs && r.id != recs[p].id {
      EraseAtFrom(recs, p, r);
    }
  }

  /** Everything the erase of `remove` does to duplicate-free records. */
  lemma EraseAt(recs: seq<Record>, p: nat)
    requires UniqueIds(recs) && p < |recs|
    ensures |recs[..p] + recs[p + 1..]| == |recs| - 1
    ensures forall i | 0 <= i < p :: (recs[..p] + recs[p + 1..])[i] == recs[i]
    ensures forall i | p < i < |recs| :: (recs[..p] + recs[p + 1..])[i - 1] == recs[i]
    ensures UniqueIds(recs[..p] + recs[p + 1..])
    ensures Ids(recs[..p] + recs[p + 1..]) == Ids(recs) - {recs[p].id}
  {
    EraseAtShift(recs, p);
    EraseAtUnique(recs, p);
    EraseAtIds(recs, p);
  }

  /** Erasing one record leaves the lookup of every other id unchanged. */
  lemma EraseAtFind(recs: seq<Record>, p: nat, k: Int32)
    requires UniqueIds(recs) && p < |recs| && k != recs[p].id
    ensures Find(recs[..p] + recs[p + 1..], k) == Find(recs, k)
  {
    EraseAt(recs, p);
    if k in Ids(recs) {
      var i := PositionOf(recs, k).value;
      PositionOfUnique(recs[..p] + recs[p + 1..], if i < p then i else i - 1);
    }
  }

  /** `remove`: on a present id exactly one record goes, the rest keep
      their relative order and stay findable, and the id is no longer
      found. On an absent id nothing changes. */
  lemma RemovedFacts(recs: seq<Record>, id: Int32)
    requires UniqueIds(recs)
    ensures id !in Ids(recs) ==> Removed(recs, id) == recs
    ensures |Removed(recs, id)| == if id in Ids(recs) then |recs| - 1 else |recs|
    ensures UniqueIds(Removed(recs, id))
    ensures Ids(Removed(recs, id)) == Ids(recs) - {id}
    ensures Find(Removed(recs, id), id) == None
    ensures forall k | k != id :: Find(Removed(recs, id), k) == Find(recs, k)
  {
    match PositionOf(recs, id)
    case None =>
    case Some(p) =>
      EraseAt(recs, p);
      forall k | k != id ensures Find(recs[..p] + recs[p + 1..], k) == Find(recs, k) {
        EraseAtFind(recs, p, k);
      }
  }

  /** Inserting a sequence keeps ids unique. */
  lemma {:induction false} InsertAllUnique(recs: seq<Record>, rs: seq<Record>)
    requires UniqueIds(recs)
    ensures UniqueIds(InsertAll(recs, rs))
    decreases |rs|
  {
    if rs != [] {
      InsertedFacts(recs, rs[0].id, rs[0].name, rs[0].age);
      InsertAllUnique(Inserted(recs, rs[0].id, rs[0].name, rs[0].age), rs[1..]);
    }
  }

  /** Inserting a sequence one by one: an id already present keeps its
      record, and otherwise the first record with that id in `rs` wins. */
  lemma {:induction false} InsertAllFind(recs: seq<Record>, rs: seq<Record>, k: Int32)
    requires UniqueIds(recs)
    ensures Find(InsertAll(recs, rs), k) == if k in Ids(recs) then Find(recs, k) else Find(rs, k)
    decreases |rs|
  {
    if rs != [] {
      var r := rs[0];
      var next := Inserted(recs, r.id, r.name, r.age);
      InsertedFacts(recs, r.id, r.name, r.age);
      InsertAllFind(next, rs[1..], k);
      PositionOfAppend([r], rs[1..], k);
      assert rs == [r] + rs[1..];
      assert Ids([r]) == {r.id};
    }
  }

  /** Inserting records with fresh, distinct ids appends them all. */
  lemma {:induction false} InsertAllFresh(recs: seq<Record>, rs: seq<Record>)
    requires UniqueIds(recs + rs)
    ensures InsertAll(recs, rs) == recs + rs
    decreases |rs|
  {
    if rs != [] {
      var r := rs[0];
      assert r.id !in Ids(recs) by {
        forall i | 0 <= i < |recs| ensures recs[i].id != r.id {
          assert (recs + rs)[i] == recs[i] && (recs + rs)[|recs|] == r;
        }
      }
      assert recs + rs == (recs + [r]) + rs[1..];
      InsertAllFresh(recs + [r], rs[1..]);
    }
  }

  /** Inserting a sequence one by one appends, in their order, exactly the
      records whose id is new to the table and first in `rs`. */
  lemma {:induction false} InsertAllFirst(recs: seq<Record>, rs: seq<Record>)
    requires UniqueIds(recs)
    ensures InsertAll(recs, rs) == recs + FirstOccurrences(rs, Ids(recs))
    decreases |rs|
  {
    if rs != [] {
      var r := rs[0];
      var next := Inserted(recs, r.id, r.name, r.age);
      InsertedIds(recs, r.id, r.name, r.age);
      InsertAllFirst(next, rs[1..]);
      if r.id in Ids(recs) {
        assert FirstOccurrences(rs, Ids(recs)) == FirstOccurrences(rs[1..], Ids(recs));
      } else {
        var tail := FirstOccurrences(rs[1..], Ids(recs) + {r.id});
        assert FirstOccurrences(rs, Ids(recs)) == [r] + tail;
        assert (recs + [r]) + tail == recs + ([r] + tail);
      }
    }
  }
}
