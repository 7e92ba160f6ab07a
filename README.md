# Single-table record store

This is a Dafny model of the `Table` class of a small C++ record store and of its binary file format.

A table holds a sequence of records. Each record has an `int` id (the key), a name and an `int` age. Next to the records it keeps an index: a hash map from id to position in the sequence. The operations are:

- **insert**: appends a record unless its id is already present.
- **query**: returns the record for an id, or nothing.
- **update**: overwrites a record's name and age in place.
- **remove**: erases a record so the others keep their order, then rebuilds the whole index.
- **display**: lists the records.
- **save**: writes every record as a frame: a 4-byte id, an 8-byte name length, the name bytes and a 4-byte age.
- **load**: reads frames back through insert and stops at the first incomplete frame.

The constructor loads the table; the destructor saves it.

Files:

- `records.dfy` (module `Records`): the value types. These are `Record`, a byte, a 32-bit `int`, a name whose length fits a 64-bit `size_t`, `Option`, and the `Status` that replaces the console error messages.
- `store.dfy` (module `Store`): what each operation does to the record sequence, written as functions on values, with lemmas about them. `Find` is query, `Inserted`, `Updated` and `Removed` are the three mutators, and `InsertAll` is what load does.
- `codec.dfy` (module `Codec`): the frame layout. `EncodeRecord` and `Encode` give what save writes. `DecodeFrame` and `Frames` give what load reads. The lemmas prove the round trip and what happens to truncated input.
- `database.dfy` (module `Database`): class `Table`. It has a `records: seq<Record>` field and an `index: map<Int32, nat>` field, and its methods mutate them in place as the C++ methods do. Remove keeps its index-rebuild loop, and save and load keep their loops. Each method is proved against the `Store` or `Codec` functions. The class invariant `Valid()` holds for every table: ids are unique, and the index maps exactly the ids present, each to the position of its record.
- `demo.dfy` (module `Demo`): the run in `test_database.cpp`, as a client of `Table`. `RerunTests` is the same run a second time, against the file the first run saved.

## Model

| member | source | states |
|---|---|---|
| Database.Indexes | database.h:37-38 | The index invariant, as a definition: the index keys are exactly the ids in the records, and each key maps to an in-range position holding a record with that id. IndexDetermined and RebuiltIndex are its lemmas. |
| Database.Table.Valid | database.h:37-38 | The class invariant, as a definition: ids are pairwise distinct (Store.UniqueIds) and Indexes holds for the two fields. Insert, Query, Update, Remove and Load require it. The constructor and every mutator (Insert, Update, Remove, Load) ensure it. Display and Save neither require nor change it. |
| Store.Inserted | database.cpp:34-41 | The records after insert, as a definition: unchanged when the id is present, otherwise the new record appended. InsertedFacts and InsertedIds give its meaning, and Table.Insert is proved against it. |
| Store.InsertedIds | database.cpp:34-41 | Insert keeps ids unique and adds exactly its id to the id set. |
| Database.Table.Insert | database.cpp:34-41 | A duplicate id returns DuplicateKey and leaves records and index unchanged. Otherwise the record is appended and the index gains id ↦ the new last position (Ok). The invariant is kept. |
| Store.InsertedFacts | database.cpp:34-41 | On a unique sequence, insert of a present id is a no-op. Insert of an absent id appends exactly (id,name,age), keeps ids unique, adds id to the id set, makes the new record findable under id, and leaves every other lookup unchanged. |
| Database.Table.Query | database.cpp:48-54 | Returns the record with that id if present and None otherwise. Changes no state. |
| Store.Find | database.cpp:48-54 | The lookup is Some exactly when the id is present. The record it returns carries that id and is one of the records. |
| Store.PositionOf | database.h:38 | The position of an id, if any: in range, holding that id, the first such position, and None exactly when the id is absent. |
| Store.PositionOfUnique | database.h:37-38 | In a duplicate-free sequence every record is found at its own position. |
| Store.OperationsAt | database.cpp:48-88 | In a duplicate-free sequence, query, update and remove of the id at position i act on position i: they find that record, overwrite name and age there, and erase that slot. |
| Store.Updated | database.cpp:62-70 | The records after update, as a definition: name and age are overwritten at the position of the id, and nothing changes when the id is absent. UpdatedFacts gives its meaning, and Table.Update is proved against it. |
| Database.Table.Update | database.cpp:62-70 | A present id gets its name and age overwritten in place (Ok). An absent id returns NotFound and changes nothing. The index never changes, and the invariant is kept. |
| Store.UpdatedFacts | database.cpp:62-70 | An update changes only the name and age of the record with that id. Length, the id at every position, all other records, uniqueness and the id set are unchanged. The id then finds the new values. On an absent id nothing changes and no record is created. |
| Store.Removed | database.cpp:76-80 | The records after remove, as a definition: the slot of the id is erased, and nothing changes when the id is absent. RemovedFacts and RemovedKeepsOrder give its meaning, and Table.Remove is proved against it. |
| Store.Without | database.cpp:79 | An independent reference for removal, as a definition: keep every record whose id differs, in order. RemovedKeepsOrder proves Removed equal to it. |
| Database.Table.Remove | database.cpp:76-88 | A present id has its record erased, with the order of the others kept (Ok). The rebuild loop restores the index invariant for the new positions. An absent id returns NotFound and leaves records and index unchanged. |
| Database.RebuildStep | database.cpp:83 | One iteration of the rebuild loop keeps the keys equal to the ids and makes slots 0..i map correctly. |
| Database.RebuiltIndex | database.cpp:82-84 | When every position j has index[records[j].id] == j and the keys are the ids, the index invariant holds. |
| Store.RemovedFacts | database.cpp:76-88 | On a present id the length drops by exactly one, ids stay unique, the id set loses exactly that id, and the id is no longer found. Every other id is still found with the same record. On an absent id nothing changes. |
| Store.RemovedKeepsOrder | database.cpp:79 | Erasing by position equals filtering out that id while keeping everyone else's relative order. |
| Store.EraseAt | database.cpp:79 | Erasing slot p shortens the sequence by one. Records before p stay where they are, and records after p move down one place. Uniqueness is kept, and the id set loses exactly the erased id. |
| Store.EraseAtFind | database.cpp:79-84 | After erasing slot p, every other id is found with the same record as before. |
| Database.IndexDetermined | database.h:37-38 | For duplicate-free records there is exactly one index satisfying the invariant, so the rebuilt index is the index of the new sequence. |
| Database.Table.Display | database.cpp:93-97 | The records, in sequence order. Nothing changes. |
| Database.Table.Save | database.cpp:102-112 | The bytes written by the loop are Encode(records), one frame per record in sequence order. |
| Codec.Encode | database.cpp:104-110 | What save writes, as a definition: the frames of the records in order, with no header. Table.Save is proved equal to it, and FramesOfEncode and FramesAfterEncode give its meaning. |
| Codec.ToLE | database.cpp:107 | The n low-order bytes of a number, least significant first: what save writes for the 8-byte `size_t` name length. Always exactly n bytes long. FromLEToLE and ToLEFromLE prove it inverse to FromLE. |
| Codec.FromLE | database.cpp:128 | The unsigned value of little-endian bytes: how load reads the name length (through AnnouncedNameLength). Always below 256 to the power of the byte count. |
| Codec.EncodeInt32 | database.cpp:105 | The 4 bytes an `int` field is written as: little-endian two's complement. Int32RoundTrip and Int32BytesRoundTrip give its meaning. |
| Codec.DecodeInt32 | database.cpp:127 | The `int` read back from 4 bytes, as a definition. Int32RoundTrip and Int32BytesRoundTrip prove it the inverse of EncodeInt32. |
| Codec.AnnouncedNameLength | database.cpp:128 | The length field read from bytes 4 to 12 of a frame, always below 2^64. |
| Codec.EncodeRecord | database.cpp:105-109 | A frame is 4 + 8 + (name length) + 4 bytes long. |
| Codec.FromLEToLE | database.cpp:107 | A length written as 8 little-endian bytes reads back as the same number. |
| Codec.ToLEFromLE | database.cpp:128 | Any 8 bytes read as a length write back as the same bytes. |
| Codec.Int32RoundTrip | database.cpp:105 | An `int` written as 4 bytes reads back as the same `int`, negative values included. |
| Codec.Int32BytesRoundTrip | database.cpp:127 | Any 4 bytes read as an `int` write back as the same bytes. |
| Codec.EncodeAppend | database.cpp:104-110 | The encoding of a concatenation is the concatenation of the encodings. |
| Codec.DecodeFrame | database.cpp:127-133 | A frame is read exactly when the input holds the 12-byte header plus the announced name and the age. Otherwise the read is short and nothing is read. What follows a frame is shorter than the input. |
| Codec.DecodeFrameInverse | database.cpp:127-131 | A frame that was read is exactly the encoding of the record it yields, followed by what remains. |
| Codec.DecodeEncodeFrame | database.cpp:127-131 | A saved frame followed by any bytes reads back as its own record, with those bytes left over. |
| Codec.TruncatedFrame | database.cpp:133 | No strict prefix of a frame reads as a frame. |
| Codec.Frames | database.cpp:121-136 | What load reads, as a definition: complete frames from the front, up to the first incomplete one. FramesConsumePrefix, FramesOfEncode, TrailingPartialFrame and FramesOfTruncated give its meaning. |
| Codec.FramesConsumePrefix | database.cpp:121-136 | The loaded records re-encode to a prefix of the file, and the bytes after that prefix hold no complete frame. |
| Codec.FramesCons | database.cpp:133-134 | A complete frame at the front contributes its record first. |
| Codec.FramesAfterEncode | database.cpp:117-138 | Reading a saved sequence followed by any bytes yields the saved records first, in order, then whatever those bytes yield. |
| Codec.FramesOfEncode | database.cpp:117-138 | Codec round trip: reading what save wrote yields the same records, in the same order, with the same fields. |
| Codec.TrailingPartialFrame | database.cpp:127-135 | An incomplete frame after the saved ones is dropped and reading stops there. |
| Codec.TruncatedFirstFrame | database.cpp:133 | A file cut inside its first frame yields no record. |
| Codec.FramesOfTruncated | database.cpp:121-136 | A saved file cut off anywhere yields a prefix of the saved records. |
| Store.InsertAll | database.cpp:133-134 | What load's loop does to the records, as a definition: insert the frames one by one. InsertAllUnique, InsertAllFind, InsertAllFresh and InsertAllFirst give its meaning. |
| Store.FirstOccurrences | database.cpp:134 | An independent reference for loading, as a definition: the records of a sequence, in order, whose id is neither already seen nor carried by an earlier record. InsertAllFirst proves InsertAll equal to it. |
| Store.InsertAllFirst | database.cpp:134 | Inserting a sequence one by one appends exactly the records that are first with an id new to the table, in their order. |
| Store.InsertAllUnique | database.cpp:134 | Inserting the frames one by one keeps ids unique. |
| Store.InsertAllFind | database.cpp:134 | After inserting a sequence one by one, an id already in the table keeps its record. Otherwise the id finds the first record carrying it in the sequence. |
| Store.InsertAllFresh | database.cpp:134 | Inserting records whose ids are fresh and distinct appends them all in order. |
| Database.Loaded | database.cpp:117-136 | The records after load, as a definition: unchanged for an unopenable file, otherwise the file's frames inserted one by one. Table.Load is proved against it, and the Load lemmas below give its meaning. |
| Database.Table.Load | database.cpp:117-138 | The loop inserts every complete frame through Insert, stops at the first incomplete one, and keeps the invariant. An unopenable file leaves records and index unchanged. |
| Database.Table.constructor | database.cpp:17-19 | A new table is the empty table after load of the file, and satisfies the invariant. |
| Database.LoadEmptyFile | database.cpp:119 | An unopenable or empty file loads nothing. |
| Database.SaveLoadRoundTrip | database.cpp:102-138 | Saving a duplicate-free table and loading that file into a new table gives back the same records. |
| Database.LoadIgnoresPartialFrame | database.cpp:127-135 | Bytes too short for a frame after a saved table are ignored on load. |
| Database.LoadTruncated | database.cpp:121-136 | A saved file cut short anywhere loads as a prefix of the saved table. |
| Database.LoadFirstWins | database.cpp:134 | Loading any bytes gives unique ids. The record for each id is the first frame carrying it, because later frames hit the duplicate check of insert. |
| Database.LoadKeepsFirstInOrder | database.cpp:121-136 | Loading a file into a new table gives its frames in file order, with every frame repeating an earlier id dropped. |
| Demo.InsertThree | test_database.cpp:11-13 | The three inserts on an empty table give exactly [(1,"Evin",18), (2,"Ev",19), (3,"StClair",20)]. |
| Demo.ThreeRecords | test_database.cpp:17-34 | For three records with distinct ids: the first two are found as they are, each update overwrites exactly its own slot, and removing the first or the last leaves the other two in order. |
| Demo.InsertThreeAgain | test_database.cpp:11 | On a table reloaded with ids 2 and 3, inserting id 1 appends it. |
| Demo.RunTests | test_database.cpp:7-40 | On a fresh file: query(2) gives (2,"Ev",19), and after the update query(2) gives (2,"Evin Updated",21). After remove(1), display lists exactly [(2,"Evin Updated",21), (3,"StClair",20)], and the destructor's save writes exactly their frames. |
| Demo.RerunTests | test_database.cpp:8-39 | On the file the first run saved: the inserts report Ok, DuplicateKey and DuplicateKey. The first query already sees the updated record, and the final listing is the same as in the first run. |

`Record::Record` (database.cpp:11) is the datatype constructor `Records.Record`.

## Left out

- Console output (`std::cerr` errors, `std::cout` in display and in the test driver) is not modelled. Each error becomes a returned `Status` (`DuplicateKey`, `NotFound`), and display returns the record sequence it would print.
- The file system is not modelled. The file is `Option<seq<Byte>>`: None stands for a file that cannot be opened, and save returns the bytes it would write. Stream opening, closing, failed writes, read errors and the non-atomic overwrite are not modelled. A read error that sets badbit but not eofbit would make the C++ `while (!file.eof())` loop (database.cpp:121) run forever. The model's load always ends, because it walks a finite byte sequence.
- The `filename` field is not modelled, because the file's contents are passed in directly.
- The constructor and destructor lifecycle is not modelled. The constructor takes the file contents and runs `Load`. The destructor's save is the explicit `Save` method, and the demo calls it where the destructor would run.
- Layout: `sizeof(size_t)` and host byte order are fixed at an 8-byte length and little-endian fields. A byte is modelled as an integer from 0 to 255 (`Records.Byte`), not as a bit-vector. A name is limited to fewer than 2^64 bytes, so its length always fits the field.
- Undefined behaviour in load is not modelled. This covers `name_size` left uninitialized after a failed read, and `name.resize` with a huge corrupt length, which can throw or exhaust memory. Any short read is treated as the end of the input, so load stops there.
- Database.Table.Query: returns a copy of the record, not a pointer into the vector. Writes through the returned pointer, and a pointer left dangling by a later insert or remove, are not modelled.
- The `unordered_map` internals (hashing, buckets, iteration order) are not modelled. The index is a Dafny `map<Int32, nat>`.
- `main` (test_database.cpp:46-49) and the test driver's checks for a null pointer are not modelled. The test driver's printing is not modelled.
- The demonstration run depends on whatever file a previous run left behind. The model covers two cases: no file yet (`RunTests`), and the file the first run saved (`RerunTests`).
