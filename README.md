# EMMA per-class coverage store, modelled in Dafny

EMMA's `CoverageData` is the runtime store of coverage. It maps a class's VM
name to a pending list of snapshots (`DataHolder`s). A snapshot is a jagged
`boolean[][]` matrix of probe flags plus the stamp of the class version the
matrix was captured against.

The store's operations:

- `addClass` / `addCoverage` append a snapshot. First they discard the list
  when its first snapshot has another stamp.
- `getCoverage` consolidates a list of several snapshots into one, by ORing
  every later matrix into the first. It writes the result back as a
  one-element list.
- `merge(IMergeable)` adds every snapshot of another store.
- `writeExternal` / `readExternal` write a store to a `DataOutput` stream and
  read it back from a `DataInput` stream. Writing consolidates each class as
  it goes.
- `shallowCopy` gives a store with a map of its own.

The model has six modules, one per file:

- `Wrappers` (`wrappers.dfy`): `Option` and `Result`.
- `CoverageMatrix` (`coverage_matrix.dfy`): the matrix as a value, where a
  `null` row is `None`. It holds the pairwise merge `MergeMatrix` and its
  algebra.
- `MatrixInPlace` (`matrix_in_place.dfy`): the Java merge loop over
  `array<array?<bool>>`. It is proved against `MergeMatrix`.
- `Holders` (`holders.dfy`): snapshots with a 64-bit stamp, and
  consolidation of a pending list. `Consolidate` is the specification;
  `MergeList` is the loop from `merge(List)`.
- `Codec` (`codec.dfy`): the external form as a stream of tokens, with an
  encoder, a decoder and the loop method `DecodeStore`. It proves the round
  trip and the truncation behaviour.
- `CoverageStore` (`coverage_data.dfy`): the store's map, described by
  functions on `map<string, seq<Holder>>`, and the class `CoverageData`.
  Each class method is proved against those functions.

## Model

| member | source | states |
|---|---|---|
| CoverageMatrix.MergeRow | core/java12/com/vladium/emma/data/CoverageData.java:134-144 | An absent source row leaves the target row alone. An absent target row becomes the source row. Two present rows are ORed cell by cell over the target's length. The result is present iff either row is. |
| CoverageMatrix.MergeMatrix | core/java12/com/vladium/emma/data/CoverageData.java:132-146 | Row count and present-row lengths of the target are kept. A row is present iff it is present on either side. A probe is recorded iff either side records it. |
| CoverageMatrix.MergeKeepsShape | core/java12/com/vladium/emma/data/CoverageData.java:132-146 | Merging two matrices of one layout keeps that layout. |
| CoverageMatrix.MergeCommutes | core/java12/com/vladium/emma/data/CoverageData.java:132-146 | For two matrices of one shape, the merge does not depend on which one is the target. |
| CoverageMatrix.MergeAssociates | core/java12/com/vladium/emma/data/CoverageData.java:132-146 | For matrices of one shape, merging three in sequence does not depend on the grouping. |
| CoverageMatrix.MergeIdempotent | core/java12/com/vladium/emma/data/CoverageData.java:132-146 | Merging a matrix into itself changes nothing. |
| MatrixInPlace.OrInto | core/java12/com/vladium/emma/data/CoverageData.java:142-144 | Every target cell becomes its old value ORed with the source cell at the same index. |
| MatrixInPlace.MergeRowInto | core/java12/com/vladium/emma/data/CoverageData.java:134-144 | Row `i` of the target gets the value `MergeRow` of the old rows. A missing target row is a fresh array. A present one is edited where it stands. No other slot changes. |
| MatrixInPlace.MergeInto | core/java12/com/vladium/emma/data/CoverageData.java:132-146 | Afterwards the target array holds `MergeMatrix` of the two old values. Present rows keep their identity. New rows are fresh. The source is unchanged. |
| Holders.Fold | core/java12/com/vladium/emma/data/CoverageData.java:123-127 | Merging the snapshots into the accumulator in list order, where it succeeds, keeps the accumulator's row count. |
| Holders.Consolidate | core/java12/com/vladium/emma/data/CoverageData.java:118-130 | The consolidated snapshot carries the first snapshot's stamp and row count. A one-element list yields its only snapshot. |
| Holders.MergeList | core/java12/com/vladium/emma/data/CoverageData.java:118-130 | The loop leaves the first matrix with every later one merged into it, in order. The result equals `Consolidate`. |
| Holders.FoldPrefix | core/java12/com/vladium/emma/data/CoverageData.java:125-127 | A merge sequence that succeeds also succeeds on every prefix. |
| Holders.FoldRows | core/java12/com/vladium/emma/data/CoverageData.java:133-141 | A row of the fold is present iff the accumulator or some snapshot has it. It is as long as the row it came from. |
| Holders.FoldCells | core/java12/com/vladium/emma/data/CoverageData.java:142-144 | Within a present row of the fold, a probe is recorded iff the accumulator or some snapshot records it. |
| Holders.FoldHits | core/java12/com/vladium/emma/data/CoverageData.java:118-146 | The results of `FoldRows` and `FoldCells` together: nothing recorded is lost and nothing is invented. |
| Holders.UniformFold | core/java12/com/vladium/emma/data/CoverageData.java:255-263 | Snapshots of one layout always fold without an index error. The result keeps that layout. |
| Holders.UniformMergeable | core/java12/com/vladium/emma/data/CoverageData.java:255-263 | A pending list of one layout can be consolidated. The result has the shape of every snapshot in it. |
| Holders.ConsolidateHits | core/java12/com/vladium/emma/data/CoverageData.java:118-130 | A row of the consolidated matrix is present iff some snapshot has it, and a probe is recorded iff some snapshot records it. |
| Holders.EqualByHits | core/java12/com/vladium/emma/data/CoverageData.java:132-146 | Proof step of `ConsolidateOrderFree`: two matrices with the same present rows, row lengths and recorded probes are equal. |
| Holders.ConsolidateOrderFree | core/java12/com/vladium/emma/data/CoverageData.java:118-130 | For snapshots of one layout, the consolidated matrix depends only on the set of pending snapshots. Order and repetition do not matter. |
| Codec.EncodeRows | core/java12/com/vladium/emma/data/CoverageData.java:236-241 | One row token per row, in order. |
| Codec.EncodeEntry | core/java12/com/vladium/emma/data/CoverageData.java:233-241 | One class record: the name, the stamp and the row count, then exactly one token per row. |
| Codec.EncodeLayout | core/java12/com/vladium/emma/data/CoverageData.java:222-243 | What `Encode` and `EncodeEntries` write: the class count first, then the records of the keys of `order`. Each record takes at least three tokens, and the first record begins with the first key's name. No keys means no records. |
| Codec.EncodeWhole | core/java12/com/vladium/emma/data/CoverageData.java:222-243 | Proof step of `WriteExternal`: the count followed by the records accumulated over all of `order` is the whole stream. |
| Codec.EncodeEntriesAppend | core/java12/com/vladium/emma/data/CoverageData.java:225-242 | The records of two key sequences, written one after the other, are the records of their concatenation. |
| Codec.EncodeEntriesSnoc | core/java12/com/vladium/emma/data/CoverageData.java:226-242 | Writing one more key appends exactly its record. |
| Codec.ReadRows | core/java12/com/vladium/emma/data/CoverageData.java:202-207 | On success, reading `n` rows consumes exactly `n` tokens, all within the stream, and adds `n` rows. |
| Codec.ReadRowsContents | core/java12/com/vladium/emma/data/CoverageData.java:202-207 | Reading rows succeeds iff `n` row tokens follow, and then appends the rows they carry, in stream order. |
| Codec.ReadEntry | core/java12/com/vladium/emma/data/CoverageData.java:199-210 | A record read consumes its three header tokens plus one token per row, all within the stream. |
| Codec.ReadEntries | core/java12/com/vladium/emma/data/CoverageData.java:197-212 | Reading records never moves the stream position backwards, nor past the end of the stream. |
| Codec.Decode | core/java12/com/vladium/emma/data/CoverageData.java:191-215 | What `readExternal` reads. An empty stream fails with `EndOfStream`. Success needs a non-negative class count first, and every token consumed lies within the stream. `DecodeEncode` and `DecodeTruncated` give its meaning on written and cut streams. |
| Codec.DecodeStore | core/java12/com/vladium/emma/data/CoverageData.java:191-215 | The loops of `readExternal` compute exactly `Decode`, including the error on a short stream, a token of the wrong kind or a negative count. |
| Codec.DecodeEncode | core/java12/com/vladium/emma/data/CoverageData.java:191-243 | Reading back a written stream, with anything after it, yields one holder per written key, equal to the holder written. Reading stops exactly at the end of the written part. |
| Codec.ReadEncodedEntries | core/java12/com/vladium/emma/data/CoverageData.java:197-212 | Reading the records written for `order` yields the map built by replaying `order`, and ends after them. |
| Codec.ReadBackRestored | core/java12/com/vladium/emma/data/CoverageData.java:209-211 | Replaying the reads key by key into `acc` gives `acc` plus a one-element list of its written holder under each key written. |
| Codec.ReadEntriesTruncated | core/java12/com/vladium/emma/data/CoverageData.java:197-212 | Reading records from a stream cut at some point gives the same result as the whole stream if the records end at or before the cut, and `EndOfStream` otherwise. |
| Codec.DecodeTruncated | core/java12/com/vladium/emma/data/CoverageData.java:191-215 | `readExternal` reads no token past those it consumes. A stream cut before that point fails with `EndOfStream`. |
| Codec.TruncatedEncodingFails | core/java12/com/vladium/emma/data/CoverageData.java:191-243 | A written stream missing even its last token cannot be read. |
| CoverageStore.Added | core/java12/com/vladium/emma/data/CoverageData.java:93-109 | `addCoverage` adds the key if missing and leaves other keys alone. A different stamp leaves only the new holder. A matching stamp, or a new key, appends the holder. The stamp invariant is kept. |
| CoverageStore.StampInvariant | core/java12/com/vladium/emma/data/CoverageData.java:255-258 | The documented invariant of the map: every pending list is non-empty, and all of its holders carry its first holder's stamp. `Added`, `Consolidated`, `MergeStoresValid` and `DecodedIsFlat` show that the store's operations keep it. |
| CoverageStore.AddToListCases | core/java12/com/vladium/emma/data/CoverageData.java:99-108 | `AddToList`, one `addCoverage` on a list, keeps the whole list or drops the whole list, and always ends it with the new holder. A matching first stamp keeps the list. A list of one stamp becomes a list of the new holder's stamp. |
| CoverageStore.AddAllEnds | core/java12/com/vladium/emma/data/CoverageData.java:171-174 | `AddAll`, the inner loop of `merge` on one key: adding no holders changes nothing. Otherwise the last holder added ends the list. Every holder of the result was pending before or was added. |
| CoverageStore.AddListStep | core/java12/com/vladium/emma/data/CoverageData.java:171-174 | One more `addCoverage` extends the added prefix of a list by one holder. |
| CoverageStore.AddAllOneStamp | core/java12/com/vladium/emma/data/CoverageData.java:148-153 | Adding a list of one stamp joins a list of the same stamp. Otherwise it replaces the current list: incoming entries of another stamp win. |
| CoverageStore.MergeStoresByKey | core/java12/com/vladium/emma/data/CoverageData.java:154-178 | After a merge the keys are those of both stores. A key missing from `rhs` keeps its list. A key of `rhs` gets the current list plus `rhs`'s list when the stamps agree, and `rhs`'s list otherwise. |
| CoverageStore.MergeStoresKeeps | core/java12/com/vladium/emma/data/CoverageData.java:154-178 | `MergeStores`, the map after `merge(rhs)`, loses no key of the current store and brings in only keys of `rhs`. Lists of keys that `rhs` lacks stay as they were. |
| CoverageStore.MergeStoresValid | core/java12/com/vladium/emma/data/CoverageData.java:255-265 | Merging two stores that keep the stamp invariant gives a store that keeps it. |
| CoverageStore.MergeStoresEmpty | core/java12/com/vladium/emma/data/CoverageData.java:156-157 | Merging a store with no holders changes nothing. |
| CoverageStore.MergeStoresStep | core/java12/com/vladium/emma/data/CoverageData.java:163-175 | Adding one more key's list, in any order, extends the merge of the keys already visited. |
| CoverageStore.Consolidated | core/java12/com/vladium/emma/data/CoverageData.java:68-86 | `getCoverage` changes only the read key. That key holds the one consolidated holder afterwards. A one-element list leaves the map as it was. The stamp invariant is kept. |
| CoverageStore.ConsolidatedIdempotent | core/java12/com/vladium/emma/data/CoverageData.java:68-86 | A second read of the same key changes nothing and yields the same holder. |
| CoverageStore.Flattened | core/java12/com/vladium/emma/data/CoverageData.java:226-230 | After a write every key has exactly one holder, and the stamp invariant holds. |
| CoverageStore.PartlyFlattenedStep | core/java12/com/vladium/emma/data/CoverageData.java:228-229 | Reading the next key during a write consolidates it to the holder it had before the write began. |
| CoverageStore.RoundTrip | core/java12/com/vladium/emma/data/CoverageData.java:191-243 | Writing a store and reading it back gives the same keys. Each key has one holder, equal to the store's consolidated holder. Reading stops where the written part ends. |
| CoverageStore.DecodedIsFlat | core/java12/com/vladium/emma/data/CoverageData.java:209-211 | A store read from a stream has one holder per key, so it keeps the stamp invariant. |
| CoverageStore.CoverageData.constructor | core/java12/com/vladium/emma/data/CoverageData.java:185-188 | A new store is empty and valid. |
| CoverageStore.CoverageData.FromMap | core/java12/com/vladium/emma/data/CoverageData.java:248-252 | The private constructor takes the given map as it is. |
| CoverageStore.CoverageData.ShallowCopy | core/java12/com/vladium/emma/data/CoverageData.java:33-55 | The copy is a new object, and its map equals the original's at copy time (the pending lists are copied as values). |
| CoverageStore.CoverageData.Size | core/java12/com/vladium/emma/data/CoverageData.java:57-60 | The size is zero iff the map is empty. |
| CoverageStore.CoverageData.IsEmpty | core/java12/com/vladium/emma/data/CoverageData.java:113-116 | Empty iff the size is zero. |
| CoverageStore.CoverageData.GetCoverageByName | core/java12/com/vladium/emma/data/CoverageData.java:68-86 | An unknown class yields `None`. A known class yields its consolidated holder, and the map afterwards is `Consolidated`. Validity is kept. |
| CoverageStore.CoverageData.GetCoverage | core/java12/com/vladium/emma/data/CoverageData.java:62-66 | A missing descriptor fails with an illegal argument and leaves the map alone. Otherwise the result and new map are those of the read by VM name. |
| CoverageStore.CoverageData.AddCoverage | core/java12/com/vladium/emma/data/CoverageData.java:93-109 | The new map is `Added`. The size grows by one exactly when the class is new. Validity is kept. |
| CoverageStore.CoverageData.AddClass | core/java12/com/vladium/emma/data/CoverageData.java:88-91 | Adds a snapshot of the matrix and stamp through `AddCoverage`. |
| CoverageStore.CoverageData.AddList | core/java12/com/vladium/emma/data/CoverageData.java:171-174 | The inner loop adds the holders of one list in order. |
| CoverageStore.CoverageData.AddEntries | core/java12/com/vladium/emma/data/CoverageData.java:163-175 | The outer loop, with keys visited in any order, leaves `MergeStores` of the old store and `rhs`. |
| CoverageStore.CoverageData.Merge | core/java12/com/vladium/emma/data/CoverageData.java:154-178 | A missing, empty or identical `rhs` leaves the store alone. Otherwise the new map is `MergeStores`. Merging valid stores gives a valid store, and the result is `this`. |
| CoverageStore.CoverageData.WriteHolder | core/java12/com/vladium/emma/data/CoverageData.java:231-241 | Writes one record: the name, the stamp, the row count and the rows. |
| CoverageStore.CoverageData.WriteClass | core/java12/com/vladium/emma/data/CoverageData.java:228-241 | One step of the write loop consolidates the next key. It writes the record of the holder that key had before the write began. |
| CoverageStore.CoverageData.WriteExternal | core/java12/com/vladium/emma/data/CoverageData.java:217-243 | The output is `Encode` of the consolidated holders, in the iteration order, and afterwards every class has one holder. |
| CoverageStore.CoverageData.ReadExternal | core/java12/com/vladium/emma/data/CoverageData.java:191-215 | Reading succeeds exactly when `Decode` does, and then returns a fresh, valid store holding the decoded map. Otherwise it returns `Decode`'s error. |

## Left out

- `lock()` and the `synchronized` block in `shallowCopy`: threads are not modelled, and the store is used by one thread.
- The `clone()` machinery and its `CloneNotSupportedException`: `ShallowCopy` builds the copy directly.
- Matrices and pending lists are values in the store. Java's aliasing is not modelled:
  - `merge(List)` edits the first snapshot's matrix where it stands;
  - `merge(IMergeable)` puts the other store's snapshot objects into this store;
  - a shallow copy shares its snapshots with the original;
  - a shallow copy also shares the pending lists (`HashMap.clone()` copies only the map), and `addCoverage` clears and appends to the list it finds in place.
  So a read that consolidates may also change what another store or the copy sees. Adding to a key that existed when the copy was taken changes that key's list in both stores, and a different stamp clears it in both. A `merge` of a store with its own copy appends to the very list it is iterating. In Java the next `dataentries.next()` then throws `ConcurrentModificationException`, because the `ArrayList` iterator is fail-fast, and the store is left with one extra holder under the first key visited. In the model that merge succeeds and doubles every list. The in-place OR is modelled only in `MatrixInPlace.MergeInto`.
- `MatrixInPlace.MergeInto`: requires the target's rows to be distinct arrays that the source does not share, which Java does not check.
- Shape mismatches are preconditions of the merge (`Compatible`, `Mergeable`), not modelled exceptions. In Java they throw `ArrayIndexOutOfBoundsException`, and the merged matrix is left partly ORed.
- `null` matrices and `null` holders are not modelled. A `null` row is modelled, as `None`.
- `merge(IMergeable)` with an `IMergeable` of another class: the `ClassCastException` is not modelled, since `rhs` is typed `CoverageData`.
- `ClassDescriptor` is reduced to its VM name.
- `HashMap` iteration order is unspecified:
  - `AddEntries` picks keys in an arbitrary order, and the result is proved not to depend on it;
  - `WriteExternal` takes the order as a parameter.
- `CoverageStore.CoverageData.WriteExternal`: requires at most 2^31 - 1 classes and rows, which Java's `int` sizes imply but do not check.
- The row codec (`DataFactory.writeBooleanArray` / `readBooleanArray`) and `writeUTF`'s modified UTF-8 are not modelled. Each row and each name is one abstract token.
- Stream I/O is a sequence of tokens. Reading a token of the wrong kind is `UnexpectedToken`, where Java reads the bytes as the other kind. `IOException` detail is not modelled.
- `$assert` in the private constructor: it is a debug check that the map is not `null`, and maps are never `null` here.
