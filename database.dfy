/** The table itself: a vector of records plus an index from id to position,
    updated in place by insert, update and remove, and persisted with the
    codec by save and load. */
module Database {
  import opened Records
  import opened Store
  import opened Codec

  /** The index invariant: the index maps exactly the ids of `recs`, each to
      the position where that id sits. */
  ghost predicate Indexes(index: map<Int32, nat>, recs: seq<Record>)
  {
    && index.Keys == Ids(recs)
    && forall k | k in index :: index[k] < |recs| && recs[index[k]].id == k
  }

  /** Two indexes of the same duplicate-free records are the same map: the
      index is a pure cache of the sequence. */
  lemma IndexDetermined(recs: seq<Record>, m1: map<Int32, nat>, m2: map<Int32, nat>)
    requires UniqueIds(recs) && Indexes(m1, recs) && Indexes(m2, recs)
    ensures m1 == m2
  {
    forall k | k in m1 ensures m1[k] == m2[k] {
      PositionOfUnique(recs, m1[k]);
      PositionOfUnique(recs, m2[k]);
    }
  }

  /** What the rebuild loop of `remove` establishes is the index invariant. */
  lemma RebuiltIndex(index: map<Int32, nat>, recs: seq<Record>)
    requires index.Keys == Ids(recs)
    requires forall j | 0 <= j < |recs| :: index[recs[j].id] == j
    ensures Indexes(index, recs)
  {
    forall k | k in index ensures index[k] < |recs| && recs[index[k]].id == k {
      var r :| r in recs && r.id == k;
      var j :| 0 <= j < |recs| && recs[j] == r;
    }
  }

  /** One step of the rebuild loop of `remove`: mapping the id at slot i to
      i keeps the earlier slots right and the keys unchanged. */
  lemma RebuildStep(index: map<Int32, nat>, recs: seq<Record>, i: nat)
    requires UniqueIds(recs) && i < |recs|
    requires index.Keys == Ids(recs)
    requires forall j | 0 <= j < i :: index[recs[j].id] == j
    ensures index[recs[i].id := i].Keys == Ids(recs)
    ensures forall j | 0 <= j <= i :: index[recs[i].id := i][recs[j].id] == j
  {
    assert recs[i] in recs;
  }

  /** The records of a table holding `recs` after `load` reads `file`; None
      stands for a file that cannot be opened. */
  function Loaded(recs: seq<Record>, file: Option<seq<Byte>>): seq<Record>
  {
    match file
    case None => recs
    case Some(s) => InsertAll(recs, Frames(s))
  }

  class Table {
    var records: seq<Record>
    var index: map<Int32, nat>

    ghost predicate Valid()
      reads this
    {
      UniqueIds(records) && Indexes(index, records)
    }

    /** `Table(filename)`: an empty table filled by `load` from the file. */
    constructor (file: Option<seq<Byte>>)
      ensures Valid()
      ensures records == Loaded([], file)
    {
      records := [];
      index := map[];
      new;
      Load(file);
    }

    /** `insert`: a duplicate id is refused and nothing changes; otherwise the
        record goes at the end and the index maps its id to the last slot. */
    method Insert(id: Int32, name: Name, age: Int32) returns (st: Status)
      requires Valid()
      modifies this
      ensures Valid()
      ensures st == if id in Ids(old(records)) then DuplicateKey else Ok
      ensures records == Inserted(old(records), id, name, age)
      ensures index == if st == Ok then old(index)[id := |old(records)|] else old(index)
    {
      if id in index {
        st := DuplicateKey;
        return;
      }
      InsertedFacts(records, id, name, age);
      records := records + [Record(id, name, age)];
      index := index[id := |records| - 1];
      st := Ok;
    }

    /** `query`: the record with this id, or None (the C++ `query`'s `nullptr`). */
    method Query(id: Int32) returns (r: Option<Record>)
      requires Valid()
      ensures r == Find(records, id)
    {
      if id in index {
        PositionOfUnique(records, index[id]);
        r := Some(records[index[id]]);
      } else {
        r := None;
      }
    }

    /** `update`: overwrite name and age of the record with this id in place;
        an absent id is refused and nothing changes. */
    method Update(id: Int32, name: Name, age: Int32) returns (st: Status)
      requires Valid()
      modifies this
      ensures Valid()
      ensures st == if id in Ids(old(records)) then Ok else NotFound
      ensures records == Updated(old(records), id, name, age)
      ensures index == old(index)
    {
      if id in index {
        var p := index[id];
        PositionOfUnique(records, p);
        UpdatedFacts(records, id, name, age);
        records := records[p := records[p].(name := name, age := age)];
        st := Ok;
      } else {
        st := NotFound;
      }
    }

    /** `remove`: erase the record with this id keeping the order of the
        others, then rebuild the whole index from the new positions; an absent
        id is refused and nothing changes. */
    method Remove(id: Int32) returns (st: Status)
      requires Valid()
      modifies this
      ensures Valid()
      ensures st == if id in Ids(old(records)) then Ok else NotFound
      ensures records == Removed(old(records), id)
      ensures st == NotFound ==> index == old(index)
    {
      if id !in index {
        st := NotFound;
        return;
      }
      var p := index[id];
      PositionOfUnique(records, p);
      EraseAtUnique(records, p);
      EraseAtIds(records, p);
      var kept := records[..p] + records[p + 1..];
      assert kept == Removed(records, id);
      records := kept;
      index := index - {id};
      var i := 0;
      while i < |records|
        invariant records == kept
        invariant 0 <= i <= |records|
        invariant index.Keys == Ids(records)
        invariant forall j | 0 <= j < i :: index[records[j].id] == j
      {
        RebuildStep(index, records, i);
        index := index[records[i].id := i];
        i := i + 1;
      }
      RebuiltIndex(index, records);
      st := Ok;
    }

    /** `display`: every record, in sequence order. */
    method Display() returns (shown: seq<Record>)
      ensures shown == records
    {
      shown := [];
      var i := 0;
      while i < |records|
        invariant 0 <= i <= |records|
        invariant shown == records[..i]
      {
        shown := shown + [records[i]];
        i := i + 1;
      }
    }

    /** `save`: the file contents, one frame per record in sequence order,
        and no header. */
    method Save() returns (file: seq<Byte>)
      ensures file == Encode(records)
    {
      file := [];
      var i := 0;
      while i < |records|
        invariant 0 <= i <= |records|
        invariant file == Encode(records[..i])
      {
        var r := records[i];
        ghost var before := file;
        file := file + EncodeInt32(r.id);
        file := file + ToLE(|r.name|, LENGTH_WIDTH);
        file := file + r.name;
        file := file + EncodeInt32(r.age);
        assert file == before + EncodeRecord(r);
        assert records[..i + 1] == records[..i] + [r];
        EncodeSnoc(records[..i], r);
        i := i + 1;
      }
      assert records[..i] == records;
    }

    /** `load`: insert every complete frame of the file through `Insert`,
        stopping at the first incomplete one; an unopenable file changes
        nothing. */
    method Load(file: Option<seq<Byte>>)
      requires Valid()
      modifies this
      ensures Valid()
      ensures records == Loaded(old(records), file)
      ensures file.None? ==> index == old(index)
    {
      if file.None? {
        return;
      }
      var rest := file.value;
      var next := DecodeFrame(rest);
      while next.Some?
        invariant Valid()
        invariant next == DecodeFrame(rest)
        invariant InsertAll(records, Frames(rest)) == Loaded(old(records), file)
        decreases |rest|
      {
        var d := next.value;
        FramesStep(rest, d.rec, d.rest);
        var dropped := Insert(d.rec.id, d.rec.name, d.rec.age);
        rest := d.rest;
        next := DecodeFrame(rest);
      }
    }
  }

  /** A file that cannot be opened, or an empty one, loads nothing. */
  lemma LoadEmptyFile(recs: seq<Record>)
    ensures Loaded(recs, None) == recs
    ensures Loaded(recs, Some([])) == recs
  {
    assert Frames([]) == [];
  }

  /** Saving a table and loading the file into an empty table gives back the
      same records, in the same order, with the same fields. */
  lemma SaveLoadRoundTrip(recs: seq<Record>)
    requires UniqueIds(recs)
    ensures Loaded([], Some(Encode(recs))) == recs
  {
    FramesOfEncode(recs);
    assert [] + recs == recs;
    InsertAllFresh([], recs);
  }

  /** Extra bytes too short for a frame after a saved table are ignored. */
  lemma LoadIgnoresPartialFrame(recs: seq<Record>, t: seq<Byte>)
    requires UniqueIds(recs) && DecodeFrame(t).None?
    ensures Loaded([], Some(Encode(recs) + t)) == recs
  {
    TrailingPartialFrame(recs, t);
    assert [] + recs == recs;
    InsertAllFresh([], recs);
  }

  /** A file cut short anywhere loads as a prefix of the saved table. */
  lemma LoadTruncated(recs: seq<Record>, k: nat)
    requires UniqueIds(recs) && k <= |Encode(recs)|
    ensures Loaded([], Some(Encode(recs)[..k])) <= recs
  {
    var rs := Frames(Encode(recs)[..k]);
    FramesOfTruncated(recs, k);
    assert UniqueIds(rs) by {
      assert forall i | 0 <= i < |rs| :: rs[i] == recs[i];
    }
    assert [] + rs == rs;
    InsertAllFresh([], rs);
  }

  /** Loading keeps the frames in file order and drops every frame whose id
      an earlier frame already carried. */
  lemma LoadKeepsFirstInOrder(s: seq<Byte>)
    ensures Loaded([], Some(s)) == FirstOccurrences(Frames(s), {})
  {
    var rs := Frames(s);
    InsertAllFirst([], rs);
    assert Ids([]) == {};
    assert [] + FirstOccurrences(rs, {}) == FirstOccurrences(rs, {});
  }

  /** Frames repeating an id are dropped by the duplicate check of insert,
      so for every id the first frame carrying it wins. */
  lemma LoadFirstWins(s: seq<Byte>, k: Int32)
    ensures UniqueIds(Loaded([], Some(s)))
    ensures Find(Loaded([], Some(s)), k) == Find(Frames(s), k)
  {
    InsertAllUnique([], Frames(s));
    InsertAllFind([], Frames(s), k);
  }
}
