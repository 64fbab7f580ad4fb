# Record store with a secondary B+-tree index

This project models the in-memory core of a small Java record store, `database`:

- A `DataFile` is a table. It holds records, each a map from field names to string values, and checks them against a schema that gives every field a maximum value length.
  - It gives each record a new integer id, in increasing order.
  - Records are deleted softly: a flag on the record marks it as pending deletion.
- Each `Index` covers one column. It keeps a B+-tree (`BTree`) of ORDER 8 that maps every value of that column to the list of records that carry it.
- A `DataRecord` holds the one piece of mutable state that is shared: its delete flag.
  - The table and every index refer to the same record objects.
  - So a delete made through any cursor is seen everywhere.
- The table and each index offer a fail-fast cursor, `FileIterator` and `IndexIterator`. A cursor checks the table's modification counter before it returns a record or removes one.

## Modules

- `key_order.dfy`, module `KeyOrder`:
  - Java's `String.compareTo` as a strict total order on strings, comparing UTF-16 code units: a character above U+FFFF is compared by its high surrogate first;
  - `Utf16`, the code units a Java string holds, which `compareTo` and `length()` work on;
  - the two index scans of the tree: `ChildIndex` (how a lookup descends) and `InsertPos` (where an insert goes);
  - sorted key arrays.
- `data_record.dfy`, module `Records`: the `DataRecord` class.
  - `getRecordId` and `getValues` read the constant fields `id` and `values`.
  - `isDeletePending` reads the field `deletePending`.
- `tree_maps.dfy`, module `TreeMaps`: what a node stands for.
  - A node denotes a map from keys to record lists.
  - `Added` is the abstract effect of an insert.
  - Splitting a map at a separator, and the routing invariant that ties an interior node's separators to its children.
- `btree.dfy`, module `BTrees`: the B+-tree.
  - Nodes are values: `Leaf(keys, lists)` or `Interior(keys, children)`.
  - Each Java method that shifts a node's arrays is a method whose loops shift the same slots of sequences.
  - `BTree` is a class whose `root` field the insert replaces.
  - The positional helpers `LocateInsertion`, `InsertIntoNonfullInteriorNode` and `SplitInteriorNode` are proved against `InsertPos`/`InsertAt`, slot by slot; `AbsorbSplit` and `PromoteSplit` lift them to `Contents`.
  - Every other insert step and the lookup are proved against `Contents`, the map a node stands for, and keep the node invariant `ValidNode`:
    - keys strictly increasing, 1 to ORDER keys per node;
    - one child more than keys;
    - children of equal height;
    - each child holding exactly the keys its separators route to it.
- `database.dfy`, module `Database`:
  - the `Index` and `DataFile` classes;
  - the specification functions their contracts use: records in id order, the backfill of a new index, the records compaction keeps, and the index registry.
- `cursors.dfy`, module `Cursors`: `FileIterator` and `IndexIterator`.
  - Each cursor walks a sequence taken when it is created.
  - `pos` counts the entries the underlying Java iterator has yielded.
  - `ScanLive` is the skip-deleted scan that both `hasNext` methods share.

Exceptions are values: `Result<T>` is either `Ok(value)` or `Throws(exception)`, with the four exception kinds the source throws.

## Model

| member | source | states |
|---|---|---|
| KeyOrder.HighUnit | src/database/BTree.java:61-66 | the first UTF-16 code unit `compareTo` sees: the character itself in the Basic Multilingual Plane, a high surrogate above it |
| KeyOrder.SurrogatesSortFirst | src/database/BTree.java:61-66 | code-unit order differs from code-point order: U+1F600 sorts before U+FF01 although its code point is larger |
| KeyOrder.Utf16 | src/database/DataFile.java:106 | the char array of a Java string: one code unit per BMP character, two per character above it, so `length()` lies between the number of characters and twice that |
| KeyOrder.LessIsUtf16Order | src/database/BTree.java:61-66 | for all strings, the model's order is exactly `compareTo`'s: lexicographic order of the UTF-16 code units |
| KeyOrder.LessIrreflexive | src/database/BTree.java:61-66 | no string is `compareTo`-less than itself |
| KeyOrder.LessTransitive | src/database/BTree.java:61-66 | `compareTo` order on strings is transitive |
| KeyOrder.LessTotal | src/database/BTree.java:61-66 | exactly one of a < b, a == b, b < a holds |
| KeyOrder.InsertAt | src/database/BTree.java:340-354 | inserting at i shifts the later elements one place right and keeps the earlier ones |
| KeyOrder.ChildIndexStops | src/database/BTree.java:76-80 | the descent index passes exactly the keys that are <= the target and stops at the first greater key |
| KeyOrder.ChildIndexOfScan | src/database/BTree.java:76-80 | the descent loop's stopping point is ChildIndex, in lookup and in insert alike |
| KeyOrder.InsertPosStops | src/database/BTree.java:336-339 | the insertion scan passes exactly the keys that are < the new key |
| KeyOrder.InsertPosOfScan | src/database/BTree.java:336-339 | the insertion loop's stopping point is InsertPos |
| KeyOrder.ChildIndexRange | src/database/BTree.java:76-82 | in a sorted node child i receives exactly the keys k with keys[i-1] <= k < keys[i] |
| KeyOrder.InsertKeepsSorted | src/database/BTree.java:332-357 | a new key put at its insertion position keeps the keys strictly increasing |
| TreeMaps.Added | src/database/BTree.java:300-330 | insert appends the record to its key's list, creating the key if absent, and leaves every other key's list unchanged |
| TreeMaps.BelowAtOrAbove | src/database/BTree.java:359-395 | a split at a separator divides a map into the keys below it and those at or above it, losing nothing |
| TreeMaps.RoutedAdd | src/database/BTree.java:178-184 | appending under a key changes only the child the descent routes it to |
| TreeMaps.RoutedSplit | src/database/BTree.java:200-221 | a child split at sep, with sep inserted at its index, still routes every key to the child holding it |
| TreeMaps.RoutedLowHalf | src/database/BTree.java:223-298 | after an interior split the left half's separators route the entries below the promoted key |
| TreeMaps.RoutedHighHalf | src/database/BTree.java:223-298 | after an interior split the right half's separators route the entries at or above the promoted key |
| TreeMaps.RoutedRoot | src/database/BTree.java:397-407 | a one-key root over the two halves of a split routes the whole map |
| TreeMaps.LeafMapAt | src/database/BTree.java:57-72 | a leaf maps exactly its first numKeys keys, each to the list beside it |
| TreeMaps.LeafMapInsert | src/database/BTree.java:332-357 | a new key entered at its sorted position with a one-record list adds exactly that entry |
| TreeMaps.LeafMapAppend | src/database/BTree.java:304-317 | appending to a present key's list is Added on the leaf's map |
| TreeMaps.LeafMapSplit | src/database/BTree.java:359-395 | cutting a sorted leaf at m splits its map around keys[m] |
| BTrees.AnyKey | src/database/BTree.java:12-35 | a valid node is never empty |
| BTrees.GetNodeRecordList | src/database/BTree.java:53-84 | lookup returns the key's list iff the subtree maps the key, and null (None) otherwise |
| BTrees.LocateInsertion | src/database/BTree.java:336-339 | the scan finds InsertPos, the number of keys smaller than the new key |
| BTrees.InsertIntoNonfullLeaf | src/database/BTree.java:332-357 | keys and lists shift right from the insertion position; on a sorted leaf without the key this adds exactly that entry and keeps keys sorted |
| BTrees.SplitLeaf | src/database/BTree.java:359-395 | keys [0,4) stay left and [4,8) move right; the new key goes left iff <= the right leaf's first key; the separator is the right leaf's first key, which stays there; both halves are valid and split the grown map at the separator |
| BTrees.InsertIntoLeaf | src/database/BTree.java:300-330 | a present key gets the record appended with no new key and no split; otherwise the key is inserted and only a full leaf splits |
| BTrees.InsertIntoNonfullInteriorNode | src/database/BTree.java:200-221 | the new separator goes in at its insertion position and the new child directly to its right |
| BTrees.SplitInteriorNode | src/database/BTree.java:223-298 | over the 9-key temporary layout, the left keeps 4 keys and 5 children, the key at ORDER/2 is promoted into neither half, and the right takes the remaining 4 keys and 5 children |
| BTrees.ChildGrown | src/database/BTree.java:167-198 | a child grown without a split leaves its parent valid, with the record appended |
| BTrees.ChildSplit | src/database/BTree.java:186-196 | a child split at sep keeps the parent's keys sorted with sep at the child's index, and the routing holds |
| BTrees.AbsorbedValid | src/database/BTree.java:186-190 | a non-full parent absorbing a split stays valid and maps the grown contents |
| BTrees.PromotedValid | src/database/BTree.java:192-195 | a full parent absorbing a split yields two valid halves that split the grown contents at the promoted key |
| BTrees.LowHalfValid | src/database/BTree.java:223-298 | the left half of an interior split is a valid node holding the entries below the promoted key |
| BTrees.HighHalfValid | src/database/BTree.java:223-298 | the right half of an interior split is a valid node holding the entries at or above the promoted key |
| BTrees.InsertIntoNode | src/database/BTree.java:167-198 | recursive insert keeps the node valid and of the same height; without a split the node maps the grown contents, and with one the two halves split it at the new key; only a node holding ORDER keys splits, and a present key never does |
| BTrees.InsertIntoInterior | src/database/BTree.java:176-197 | the interior branch: descend by ChildIndex, insert, then absorb a child's split when there is room and promote one only from a node holding ORDER keys |
| BTrees.AbsorbSplit | src/database/BTree.java:186-191 | with room for one more key, the node takes the separator and the new child and maps the grown contents |
| BTrees.PromoteSplit | src/database/BTree.java:192-195 | a full node splits into two valid halves of its height that divide the grown contents at the promoted key |
| BTrees.NewRoot | src/database/BTree.java:397-407 | the new root has exactly one key, with the old root as child 0 and the new sibling as child 1 |
| BTrees.NewRootValid | src/database/BTree.java:397-407 | the new root is valid, one level higher, and maps the whole grown map |
| BTrees.BTree.constructor | src/database/BTree.java:43-46 | a new tree has no root and maps nothing |
| BTrees.BTree.GetRecordList | src/database/BTree.java:48-51 | on a tree with a root, the key's list iff the key was inserted, None otherwise |
| BTrees.BTree.Insert | src/database/BTree.java:140-165 | the tree stays valid and maps the old map with the record appended under the key; the first insert makes a one-key leaf root; height grows only when the old root held ORDER keys, through a new root with one key and two children, and never for a present key |
| Records.DataRecord.constructor | src/database/DataRecord.java:14-19 | id and values are the arguments and the delete flag starts false |
| Records.DataRecord.SetDeletePending | src/database/DataRecord.java:36-39 | isDeletePending() returns the value set; id and values are constants |
| Database.OrderedSpec | src/database/DataFile.java:52-57 | the sorted record map yields records in strictly increasing id order, each stored record exactly once |
| Database.Matching | src/database/DataFile.java:52-69 | the records the backfill gives a key are live records whose column holds that key |
| Database.MatchingComplete | src/database/DataFile.java:52-69 | every live record whose column holds the key is among the records the backfill gives that key |
| Database.BackfillExact | src/database/DataFile.java:52-69 | a new index maps a key iff some live record has that value in the column, and then maps it to exactly those records in id order |
| Database.LiveRecords | src/database/DataFile.java:370-389 | compaction keeps exactly the records not marked for deletion, unchanged |
| Database.LiveRecordsIdempotent | src/database/DataFile.java:370-389 | compacting twice is compacting once |
| Database.RemoveFirst | src/database/DataFile.java:328 | removing a name from the list drops one element if present and changes nothing otherwise |
| Database.RemoveFirstAt | src/database/DataFile.java:328 | the removal takes out exactly the first occurrence |
| Database.RemoveFirstDistinct | src/database/DataFile.java:328 | on a duplicate-free list, removal keeps it duplicate-free and removes exactly that name |
| Database.ColumnNamed | src/database/DataFile.java:330-343 | the column whose index carries a name, or None when no index carries it |
| Database.RegistryAdd | src/database/DataFile.java:48-50 | registering a fresh name and a new column keeps names unique and every index under its own column |
| Database.RegistryRemove | src/database/DataFile.java:328-348 | removing an index with its name keeps the registry and the name is gone |
| Database.RegistryForget | src/database/DataFile.java:326-328 | unregistering a name no index carries keeps the registry |
| Database.Index.constructor | src/database/Index.java:15-21 | the index keeps its file, name and column (getIndexName/getColumnName, Index.java:61-69) and starts with an empty tree |
| Database.Index.InsertRecord | src/database/Index.java:56-59 | exactly BTree insert on the index's own tree |
| Database.DataFile.constructor | src/database/DataFile.java:21-32 | an empty table with the schema, id 0, counter 0, no indexes |
| Database.DataFile.CreateIndex | src/database/DataFile.java:34-73 | throws IllegalArgument iff the name is registered or the column indexed, changing nothing; otherwise registers a fresh index under the column and name, filled exactly with the live records having the column |
| Database.DataFile.Fill | src/database/DataFile.java:52-69 | the backfill loop hands every live record carrying the column to the index, in id order |
| Database.DataFile.GetRecord | src/database/DataFile.java:75-90 | the values iff the id is stored and not marked for deletion, null (None) otherwise |
| Database.DataFile.CheckValues | src/database/DataFile.java:96-110 | reports an IllegalArgument iff some value names no schema field or exceeds its field's maximum length, counted in UTF-16 code units as `String.length()` counts |
| Database.DataFile.InsertRecord | src/database/DataFile.java:92-123 | throws iff a value fails the schema, changing nothing; otherwise returns the old next id, stores a fresh live record under it with those values, feeds the indexes, and moves the id and counter by one |
| Database.DataFile.Store | src/database/DataFile.java:112-122 | the success half of insertRecord, with the same state change |
| Database.DataFile.UpdateIndexes | src/database/DataFile.java:125-142 | each index whose column the record carries has the record appended under its value; the other indexes are untouched |
| Database.DataFile.Clear | src/database/DataFile.java:254-263 | no records, no indexes, ids and counter back to 0 |
| Database.DataFile.IncrementModCount | src/database/DataFile.java:270-273 | only the counter moves, by one |
| Database.DataFile.FindColumn | src/database/DataFile.java:330-343 | the column of an index carrying the name, or None when no index carries it |
| Database.DataFile.DropIndex | src/database/DataFile.java:324-349 | an unknown name changes nothing; a known one is unregistered once, and the column whose index carries it is removed |
| Database.DataFile.Forget | src/database/DataFile.java:326-328 | a name no index carries is unregistered and the indexes stay |
| Database.DataFile.Unregister | src/database/DataFile.java:399-418 | the index under a column and its name are both removed |
| Database.DataFile.RebuildFile | src/database/DataFile.java:370-389 | removes exactly the records marked for deletion; getRecord answers as before; ids, counter and indexes unchanged |
| Database.DataFile.RebuildIndex | src/database/DataFile.java:391-424 | an unknown name, or one no index carries, changes nothing; otherwise a fresh index with the same name and column replaces the old one, filled from the live records only, and the name moves to the end of the list |
| Cursors.FirstLive | src/database/DataFile.java:462-473 | the first live position at or after a start, with every record skipped on the way marked for deletion |
| Cursors.FirstLiveIs | src/database/DataFile.java:462-473 | a position all skipped records and the found record pin down is FirstLive |
| Cursors.ScanLive | src/database/DataFile.java:460-480 | the scan caches the first live record and stops just past it, or clears the cache at the end |
| Cursors.FileIterator.constructor | src/database/DataFile.java:435-443 | a cursor at the start of the records, which it walks in strictly increasing id order, each stored record once; nothing cached or returned; in step with the table's counter |
| Cursors.FileIterator.HasNext | src/database/DataFile.java:445-482 | a cached record answers true, or throws ConcurrentModification if now marked; otherwise the scan caches the next live record and answers whether there is one; counters are not compared |
| Cursors.FileIterator.Next | src/database/DataFile.java:484-514 | throws ConcurrentModification on a counter mismatch, changing nothing; otherwise returns the id of the cached or next live record and makes it the last returned; NoSuchElement when none is left |
| Cursors.FileIterator.Remove | src/database/DataFile.java:516-543 | counter mismatch throws ConcurrentModification; no last-returned record throws IllegalState; an already-marked record changes nothing; otherwise marks it, so getRecord hides it, clears last-returned, and moves both counters by one, keeping this cursor in step |
| Cursors.IndexIterator.constructor | src/database/Index.java:72-76 | the key's record list, or no list when the key is absent, in step with the table's counter (constructor: Index.java:88-105) |
| Cursors.IndexIterator.HasNext | src/database/Index.java:108-151 | false without a list; otherwise as FileIterator.hasNext over the key's list |
| Cursors.IndexIterator.Next | src/database/Index.java:153-184 | compares with the table's getModCount first; without a list always NoSuchElement; otherwise as FileIterator.next |
| Cursors.IndexIterator.Remove | src/database/Index.java:186-214 | as FileIterator.remove, moving the table's counter through incrementModCount, so a second remove throws IllegalState |

## Left out

- `DataManager.java` is not part of this model. It is a process-wide registry of files, works with the disk, and prints to the console.
- `dumpFile`, `restoreFile`, `restoreIndex` and `dumpIndex` are left out. They are Java object serialization to and from disk.
- The file deletions in `dropIndex` and `dropFile` are left out, because they are file I/O. `dropFile`'s effect on the table is `Clear`.
- `viewFile`, `viewIndex`, `printTree` and `printTreeInorder` are left out. They only build diagnostic strings and print them.
- The node arrays `_keys`/`_children` and `_numKeys` are modelled as sequences inside a node value, not as heap arrays. The same index loops shift their slots. A node value is never shared, so aliasing between nodes is not captured.
- A key's record list is a `LinkedList` inside the tree that insert appends to. In the model it is a sequence value that insert replaces. An `IndexIterator` walks the list as it was when the cursor was created.
- BTrees.SplitLeaf: the leaf sibling link `_children[ORDER]`, which `splitLeaf` relinks to the new right leaf, is not modelled, because no lookup or insert reads it. That every key of the left leaf is below every key of the right leaf is stated through `Below`/`AtOrAbove`.
- The results that `splitLeaf`/`splitInteriorNode` pass back through the fields `_newKey`/`_newChild` are modelled as return values.
- The recursive `insert` is split into `InsertIntoNode`, `InsertIntoInterior`, `AbsorbSplit` and `PromoteSplit`. This only keeps each proof small. Together they cite the same lines.
- `Fill`, `CheckValues`, `Store`, `FindColumn`, `Unregister` and `Forget` are the loops and halves of `createIndex`, `insertRecord`, `dropIndex` and `rebuildIndex`, pulled out as methods.
- Database.DataFile.DropIndex:
  - it finds the index before it removes the name, where the source removes the name first; the end state is the same;
  - it does not fix which index goes when two indexes carry the same name. The table invariant rules that out.
- `getColumnName`, `getIndexName`, `getRecordId`, `getValues` and `isDeletePending` are reads of the fields `column`, `indexName`, `id`, `values` and `deletePending`. They are stated through the constructors' contracts.
- Database.DataFile.GetModCount: the plain read of `modCount` carries no contract of its own.
- Records.DataRecord.constructor: the values are an immutable map. The source stores, and `getValues` returns, the caller's own `HashMap`, so any holder can later change a stored record's values without a schema check, an index update or a counter change. That sharing is not modelled.
- Integer overflow of the 32-bit `_nextRecordId`, `_modCount` and `_expectedModCount` is not modelled: ids and counters are unbounded.
- The iteration order of `HashMap`s is not modelled:
  - `updateIndexes` updates each index independently, so order does not matter there;
  - when several values break the schema, the model does not fix which one the exception message names (CheckValues).
- Each cursor's source is a snapshot taken when it is created, so the `ConcurrentModificationException`s that Java's own `TreeMap`/`LinkedList` iterators throw on structural changes are not modelled. Only the cursors' own counter and delete-flag checks are.
- Cursors.IndexIterator.constructor requires a tree with a root, because the source's `getRecordList` dereferences a null root. A cursor over an index that has never received a record is outside the model.
