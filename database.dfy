/**
 * The table (DataFile) and its secondary indexes (Index).  A table keeps
 * its records under increasing integer ids, a schema of field -> maximum
 * value length, a modification counter shared with every cursor, and one
 * B+-tree index per indexed column.  Records are shared objects: the table
 * and the index trees hold the very same DataRecord references.
 */
module Database {
  import opened KeyOrder
  import opened Records
  import opened TreeMaps
  import opened BTrees

  /** The Java exceptions the core throws on purpose. */
  datatype Exception =
    | IllegalArgument(message: string)
    | ConcurrentModification
    | NoSuchElement
    | IllegalState

  /** A call either returns a value or throws. */
  datatype Result<T> = Ok(value: T) | Throws(exception: Exception)

  // ----- Specification functions -----

  /**
   * Every value names a schema field and fits the maximum length, counted
   * as String.length() counts: in UTF-16 code units.
   */
  predicate Conforms(fields: map<string, int>, values: map<string, string>) {
    forall f :: f in values ==> f in fields && |Utf16(values[f])| <= fields[f]
  }

  /**
   * The records stored under ids 0 .. n-1, in increasing id order: the
   * iteration order of the sorted map of the table when every id is below n.
   */
  function Ordered(m: map<int, DataRecord>, n: int): (rs: seq<DataRecord>)
    ensures forall r :: r in rs ==> r in m.Values
    decreases n
  {
    if n <= 0 then [] else Ordered(m, n - 1) + (if n - 1 in m then [m[n - 1]] else [])
  }

  lemma {:induction false} OrderedSpec(m: map<int, DataRecord>, n: int)
    requires forall id :: id in m ==> m[id].id == id
    ensures forall i, j :: 0 <= i < j < |Ordered(m, n)| ==> Ordered(m, n)[i].id < Ordered(m, n)[j].id
    ensures forall id :: id in m && 0 <= id < n ==> m[id] in Ordered(m, n)
    ensures forall r :: r in Ordered(m, n) ==> r.id in m && m[r.id] == r && r.id < n
    decreases n
  {
    if n > 0 {
      OrderedSpec(m, n - 1);
    }
  }

  /** A record an index over column must hold: live and carrying the column. */
  ghost predicate Indexable(r: DataRecord, column: string)
    reads r
  {
    !r.deletePending && column in r.values
  }

  /**
   * The entries an index over column receives when it is filled from rs in
   * order: each indexable record is appended under its column value.
   */
  ghost function Backfill(rs: seq<DataRecord>, column: string): Lists
    reads rs
  {
    if |rs| == 0 then map[]
    else
      var m := Backfill(rs[..|rs| - 1], column);
      var r := rs[|rs| - 1];
      if Indexable(r, column) then Added(m, r.values[column], r) else m
  }

  lemma BackfillSnoc(rs: seq<DataRecord>, r: DataRecord, column: string)
    ensures Backfill(rs + [r], column)
         == if Indexable(r, column) then Added(Backfill(rs, column), r.values[column], r)
            else Backfill(rs, column)
  {
    assert (rs + [r])[..|rs|] == rs;
  }

  /** The indexable records of rs whose column value is key, in order. */
  ghost function Matching(rs: seq<DataRecord>, column: string, key: string): (found: seq<DataRecord>)
    reads rs
    ensures forall r :: r in found ==> r in rs && Indexable(r, column) && r.values[column] == key
  {
    if |rs| == 0 then []
    else
      var r := rs[|rs| - 1];
      Matching(rs[..|rs| - 1], column, key)
        + (if Indexable(r, column) && r.values[column] == key then [r] else [])
  }

  /**
   * An index filled from rs holds exactly the indexable records of rs:
   * a key is present iff some indexable record carries it, and its list is
   * those records in order.
   */
  lemma {:induction false} BackfillExact(rs: seq<DataRecord>, column: string, key: string)
    ensures key in Backfill(rs, column) <==> Matching(rs, column, key) != []
    ensures key in Backfill(rs, column) ==> Backfill(rs, column)[key] == Matching(rs, column, key)
  {
    if |rs| > 0 {
      BackfillExact(rs[..|rs| - 1], column, key);
    }
  }

  lemma {:induction false} MatchingComplete(rs: seq<DataRecord>, column: string, key: string, i: nat)
    requires i < |rs| && Indexable(rs[i], column) && rs[i].values[column] == key
    ensures rs[i] in Matching(rs, column, key)
  {
    if i < |rs| - 1 {
      assert rs[..|rs| - 1][i] == rs[i];
      MatchingComplete(rs[..|rs| - 1], column, key, i);
    }
  }

  /** What updateIndexes does to the entries of the index over column c. */
  ghost function Fed(entries: Lists, c: string, record: DataRecord): Lists {
    if c in record.values then Added(entries, record.values[c], record) else entries
  }

  /** The records rebuildFile keeps: those not marked for deletion. */
  ghost function LiveRecords(m: map<int, DataRecord>): (live: map<int, DataRecord>)
    reads m.Values
    ensures forall id :: id in live ==> id in m && live[id] == m[id] && !m[id].deletePending
    ensures forall id :: id in m && !m[id].deletePending ==> id in live
  {
    map id | id in m && !m[id].deletePending :: m[id]
  }

  /** Compaction is idempotent: compacting a compacted table keeps every record. */
  lemma LiveRecordsIdempotent(m: map<int, DataRecord>)
    ensures LiveRecords(LiveRecords(m)) == LiveRecords(m)
  {
  }

  predicate Distinct<T(==)>(s: seq<T>) {
    forall i, j :: 0 <= i < j < |s| ==> s[i] != s[j]
  }

  /** LinkedList.remove(Object): drops the first occurrence of x, if any. */
  function RemoveFirst<T(==)>(s: seq<T>, x: T): (r: seq<T>)
    ensures x !in s ==> r == s
    ensures x in s ==> |r| == |s| - 1
  {
    if s == [] then []
    else if s[0] == x then s[1..]
    else [s[0]] + RemoveFirst(s[1..], x)
  }

  /** What is removed is the first occurrence: the elements before and after it stay in order. */
  lemma {:induction false} RemoveFirstAt<T>(s: seq<T>, x: T, i: nat)
    requires i < |s| && s[i] == x && x !in s[..i]
    ensures RemoveFirst(s, x) == s[..i] + s[i + 1..]
  {
    if i > 0 {
      assert s[1..][..i - 1] == s[1..i];
      assert x !in s[1..][..i - 1];
      RemoveFirstAt(s[1..], x, i - 1);
      assert s[1..][i..] == s[i + 1..];
    }
  }

  /** Without duplicates, removing x removes it entirely and keeps the rest distinct. */
  lemma {:induction false} RemoveFirstDistinct<T>(s: seq<T>, x: T)
    requires Distinct(s)
    ensures Distinct(RemoveFirst(s, x))
    ensures forall y :: y in RemoveFirst(s, x) <==> y in s && y != x
  {
    if s != [] {
      assert Distinct(s[1..]) by {
        forall i, j | 0 <= i < j < |s[1..]| ensures s[1..][i] != s[1..][j] {
          assert s[1..][i] == s[i + 1] && s[1..][j] == s[j + 1];
        }
      }
      assert s[0] !in s[1..] by {
        forall j | 0 <= j < |s[1..]| ensures s[1..][j] != s[0] {
          assert s[1..][j] == s[j + 1];
        }
      }
      if s[0] != x {
        RemoveFirstDistinct(s[1..], x);
        var r := RemoveFirst(s[1..], x);
        assert RemoveFirst(s, x) == [s[0]] + r;
        forall i, j | 0 <= i < j < |[s[0]] + r| ensures ([s[0]] + r)[i] != ([s[0]] + r)[j] {
          if i > 0 {
            assert ([s[0]] + r)[i] == r[i - 1];
          }
          assert ([s[0]] + r)[j] == r[j - 1];
        }
      }
    }
  }

  /** An index whose name is name is registered under column c. */
  ghost predicate Named(ixs: map<string, Index>, c: string, name: string) {
    c in ixs && ixs[c].indexName == name
  }

  /** A column whose index carries name, if there is one. */
  ghost function ColumnNamed(ixs: map<string, Index>, name: string): (c: Option<string>)
    ensures c.Some? ==> Named(ixs, c.value, name)
    ensures c.None? ==> forall d :: !Named(ixs, d, name)
  {
    if exists d :: Named(ixs, d, name) then
      var d :| Named(ixs, d, name); Some(d)
    else None
  }

  // ----- The index registry -----

  /**
   * The bookkeeping a table keeps about its indexes: each index sits under
   * its own column and belongs to owner; indexes have trees and names of
   * their own; every index name is registered, and registered once.
   */
  ghost predicate Registry(ixs: map<string, Index>, names: seq<string>, owner: DataFile) {
    && (forall c :: c in ixs ==>
          ixs[c].column == c && ixs[c].file == owner && ixs[c].indexName in names)
    && (forall c, d :: c in ixs && d in ixs && c != d ==>
          ixs[c].tree != ixs[d].tree && ixs[c].indexName != ixs[d].indexName)
    && Distinct(names)
  }

  ghost function TreesOf(ixs: map<string, Index>): set<BTree> {
    set c | c in ixs :: ixs[c].tree
  }

  ghost predicate TreesValid(ixs: map<string, Index>)
    reads TreesOf(ixs)
  {
    forall c :: c in ixs ==> ixs[c].tree.Valid()
  }

  /** Registering a new index under a free column and a free name keeps the registry. */
  lemma RegistryAdd(ixs: map<string, Index>, names: seq<string>, owner: DataFile, ix: Index)
    requires Registry(ixs, names, owner)
    requires ix.column !in ixs && ix.indexName !in names && ix.file == owner
    requires forall c :: c in ixs ==> ixs[c].tree != ix.tree
    ensures Registry(ixs[ix.column := ix], names + [ix.indexName], owner)
  {
    var ns := names + [ix.indexName];
    forall i, j | 0 <= i < j < |ns| ensures ns[i] != ns[j] {
      if j == |names| {
        assert ns[i] == names[i];
      }
    }
  }

  /** Removing the index under c together with its name keeps the registry. */
  lemma RegistryRemove(ixs: map<string, Index>, names: seq<string>, owner: DataFile, c: string)
    requires Registry(ixs, names, owner) && c in ixs
    ensures Registry(ixs - {c}, RemoveFirst(names, ixs[c].indexName), owner)
    ensures ixs[c].indexName !in RemoveFirst(names, ixs[c].indexName)
  {
    RemoveFirstDistinct(names, ixs[c].indexName);
  }

  /** Unregistering a name no index carries keeps the registry. */
  lemma RegistryForget(ixs: map<string, Index>, names: seq<string>, owner: DataFile, name: string)
    requires Registry(ixs, names, owner)
    requires forall c :: c in ixs ==> ixs[c].indexName != name
    ensures Registry(ixs, RemoveFirst(names, name), owner)
    ensures name !in RemoveFirst(names, name)
  {
    RemoveFirstDistinct(names, name);
  }

  // ----- Index -----

  /** A named index over one column, backed by its own B+-tree. */
  class Index {
    /** _file: the owning table, whose counter the index cursors check */
    const file: DataFile
    /** getIndexName() */
    const indexName: string
    /** getColumnName() */
    const column: string
    /** _bTree */
    const tree: BTree

    constructor (file: DataFile, indexName: string, column: string)
      ensures this.file == file && this.indexName == indexName && this.column == column
      ensures fresh(tree) && tree.Valid() && tree.Entries() == map[]
    {
      this.file := file;
      this.indexName := indexName;
      this.column := column;
      tree := new BTree();
    }

    /** insertRecord(key, r): exactly an insert into the tree of the index itself. */
    method InsertRecord(key: string, record: DataRecord)
      requires tree.Valid()
      modifies tree
      ensures tree.Valid()
      ensures tree.Entries() == Added(old(tree.Entries()), key, record)
    {
      tree.Insert(key, record);
    }
  }

  // ----- DataFile -----

  class DataFile {
    const fileName: string
    /** _fields: field name -> maximum value length */
    const fields: map<string, int>
    /** _dataRecords: id -> record (a sorted map in the source) */
    var dataRecords: map<int, DataRecord>
    var nextRecordId: int
    /** _indexNames, in registration order */
    var indexNames: seq<string>
    /** _indexes: column -> its index */
    var indexes: map<string, Index>
    var modCount: int

    ghost function Trees(): set<BTree>
      reads this
    {
      TreesOf(indexes)
    }

    /** Records are filed under their own ids, the registry holds, every index tree is valid. */
    ghost predicate Valid()
      reads this, Trees()
    {
      RecordsValid() && Registry(indexes, indexNames, this) && TreesValid(indexes)
    }

    /** Every stored id is below the next id and is the id its record carries. */
    ghost predicate RecordsValid()
      reads this
    {
      && 0 <= nextRecordId
      && (forall id :: id in dataRecords ==> 0 <= id < nextRecordId && dataRecords[id].id == id)
    }

    constructor (fileName: string, descriptor: map<string, int>)
      ensures Valid()
      ensures this.fileName == fileName && fields == descriptor
      ensures dataRecords == map[] && nextRecordId == 0 && modCount == 0
      ensures indexNames == [] && indexes == map[]
    {
      this.fileName := fileName;
      fields := descriptor;
      dataRecords := map[];
      nextRecordId := 0;
      indexNames := [];
      indexes := map[];
      modCount := 0;
    }

    /**
     * createIndex(name, column): refuses a registered name or an indexed
     * column; otherwise registers a new index and fills it, in id order,
     * with every live record that has the column.
     */
    method CreateIndex(indexName: string, column: string) returns (result: Result<Index>)
      requires Valid()
      modifies this
      ensures Valid()
      ensures result.Throws? <==> indexName in old(indexNames) || column in old(indexes)
      ensures result.Throws? ==> result.exception.IllegalArgument? && unchanged(this)
      ensures result.Ok? ==>
                && fresh(result.value) && fresh(result.value.tree)
                && result.value.indexName == indexName && result.value.column == column
                && indexNames == old(indexNames) + [indexName]
                && indexes == old(indexes)[column := result.value]
                && result.value.tree.Entries() == Backfill(Ordered(dataRecords, nextRecordId), column)
      ensures dataRecords == old(dataRecords) && nextRecordId == old(nextRecordId)
      ensures modCount == old(modCount)
    {
      if indexName in indexNames {
        return Throws(IllegalArgument("DataFile::createIndex(): " + indexName + " already exists"));
      } else if column in indexes {
        return Throws(IllegalArgument("DataFile::createIndex(): index over " + column + " already exists"));
      }
      var newIndex := new Index(this, indexName, column);
      Fill(newIndex);
      RegistryAdd(indexes, indexNames, this, newIndex);
      indexNames := indexNames + [indexName];
      indexes := indexes[column := newIndex];
      result := Ok(newIndex);
    }

    /**
     * The backfill loop of createIndex: walks the records in id order and
     * hands every live record that carries the indexed column to the index.
     */
    method Fill(ix: Index)
      requires ix.tree.Valid() && ix.tree.Entries() == map[]
      modifies ix.tree
      ensures ix.tree.Valid()
      ensures ix.tree.Entries() == Backfill(Ordered(dataRecords, nextRecordId), ix.column)
    {
      var id := 0;
      while id < nextRecordId
        invariant id <= nextRecordId || id == 0
        invariant ix.tree.Valid()
        invariant ix.tree.Entries() == Backfill(Ordered(dataRecords, id), ix.column)
      {
        if id in dataRecords {
          var record := dataRecords[id];
          ghost var rs := Ordered(dataRecords, id);
          ghost var before := Backfill(rs, ix.column);
          assert Ordered(dataRecords, id + 1) == rs + [record];
          BackfillSnoc(rs, record, ix.column);
          if !record.deletePending && ix.column in record.values {
            ix.InsertRecord(record.values[ix.column], record);
            assert Backfill(rs, ix.column) == before;
          }
        } else {
          assert Ordered(dataRecords, id + 1) == Ordered(dataRecords, id);
        }
        id := id + 1;
      }
      if nextRecordId < 0 {
        assert Ordered(dataRecords, nextRecordId) == [] == Ordered(dataRecords, 0);
      }
    }

    /** getRecord(id): the values of a stored record that is not marked for deletion. */
    function GetRecord(recordId: int): (values: Option<map<string, string>>)
      reads this, dataRecords.Values
      ensures values.Some? <==> recordId in dataRecords && !dataRecords[recordId].deletePending
      ensures values.Some? ==> values.value == dataRecords[recordId].values
    {
      if recordId in dataRecords && !dataRecords[recordId].deletePending
      then Some(dataRecords[recordId].values)
      else None
    }

    /**
     * The validation loop of insertRecord: the first entry that names no
     * schema field or exceeds the maximum length is reported.
     */
    method CheckValues(values: map<string, string>) returns (error: Option<Exception>)
      ensures error.None? <==> Conforms(fields, values)
      ensures error.Some? ==> error.value.IllegalArgument?
    {
      var todo := values.Keys;
      while todo != {}
        invariant todo <= values.Keys
        invariant forall f :: f in values && f !in todo ==> f in fields && |Utf16(values[f])| <= fields[f]
        decreases todo
      {
        var f :| f in todo;
        if f !in fields {
          return Some(IllegalArgument("DataFile::insertRecord(): " + f + " is invalid"));
        } else if |Utf16(values[f])| > fields[f] {
          return Some(IllegalArgument("DataFile::insertRecord(): " + f
                                      + " has value whose length exceeds allowable maximum"));
        }
        todo := todo - {f};
      }
      return None;
    }

    /**
     * insertRecord(values): validates every value against the schema before
     * changing anything, then stores a new record under the next id, feeds
     * the indexes and counts the modification.
     */
    method InsertRecord(values: map<string, string>) returns (result: Result<int>)
      requires Valid()
      modifies this, Trees()
      ensures Valid()
      ensures result.Throws? <==> !Conforms(fields, values)
      ensures result.Throws? ==>
                result.exception.IllegalArgument? && unchanged(this) && unchanged(Trees())
      ensures result.Ok? ==>
                && result.value == old(nextRecordId)
                && result.value !in old(dataRecords)
                && result.value in dataRecords
                && fresh(dataRecords[result.value])
                && dataRecords == old(dataRecords)[result.value := dataRecords[result.value]]
                && dataRecords[result.value].id == result.value
                && dataRecords[result.value].values == values
                && !dataRecords[result.value].deletePending
                && GetRecord(result.value) == Some(values)
                && nextRecordId == old(nextRecordId) + 1
                && modCount == old(modCount) + 1
                && indexNames == old(indexNames) && indexes == old(indexes)
                && (forall c :: c in indexes ==>
                      indexes[c].tree.Entries() == Fed(old(indexes[c].tree.Entries()), c, dataRecords[result.value]))
    {
      var error := CheckValues(values);
      if error.Some? {
        return Throws(error.value);
      }
      var id := Store(values);
      result := Ok(id);
    }

    /** The success half of insertRecord: store the record, feed the indexes, count. */
    method Store(values: map<string, string>) returns (id: int)
      requires Valid()
      modifies this, Trees()
      ensures Valid()
      ensures
                && id == old(nextRecordId)
                && id !in old(dataRecords)
                && id in dataRecords
                && fresh(dataRecords[id])
                && dataRecords == old(dataRecords)[id := dataRecords[id]]
                && dataRecords[id].id == id
                && dataRecords[id].values == values
                && !dataRecords[id].deletePending
                && GetRecord(id) == Some(values)
                && nextRecordId == old(nextRecordId) + 1
                && modCount == old(modCount) + 1
                && indexNames == old(indexNames) && indexes == old(indexes)
                && (forall c :: c in indexes ==>
                      indexes[c].tree.Entries() == Fed(old(indexes[c].tree.Entries()), c, dataRecords[id]))
    {
      var newRecord := new DataRecord(nextRecordId, values);
      dataRecords := dataRecords[nextRecordId := newRecord];
      UpdateIndexes(newRecord);
      nextRecordId := nextRecordId + 1;
      modCount := modCount + 1;
      id := nextRecordId - 1;
    }

    /** updateIndexes(record): every index whose column the record carries receives it. */
    method UpdateIndexes(record: DataRecord)
      requires TreesValid(indexes) && Registry(indexes, indexNames, this)
      modifies Trees()
      ensures TreesValid(indexes)
      ensures forall c :: c in indexes ==>
                indexes[c].tree.Entries() == Fed(old(indexes[c].tree.Entries()), c, record)
    {
      var ixs := indexes;
      var todo := ixs.Keys;
      while todo != {}
        invariant todo <= ixs.Keys
        invariant forall c :: c in ixs ==>
                    && ixs[c].tree.Valid()
                    && ixs[c].tree.Entries()
                       == if c in todo then old(ixs[c].tree.Entries()) else Fed(old(ixs[c].tree.Entries()), c, record)
        decreases todo
      {
        var c :| c in todo;
        if c in record.values {
          ixs[c].InsertRecord(record.values[c], record);
        }
        todo := todo - {c};
      }
    }

    /** clear(): forget every record and index and restart ids and the counter. */
    method Clear()
      modifies this
      ensures Valid()
      ensures dataRecords == map[] && nextRecordId == 0 && modCount == 0
      ensures indexNames == [] && indexes == map[]
    {
      dataRecords := map[];
      nextRecordId := 0;
      indexNames := [];
      indexes := map[];
      modCount := 0;
    }

    /** getModCount() */
    function GetModCount(): int
      reads this
    {
      modCount
    }

    /** incrementModCount(): only the counter moves. */
    method IncrementModCount()
      modifies this
      ensures modCount == old(modCount) + 1
      ensures dataRecords == old(dataRecords) && nextRecordId == old(nextRecordId)
      ensures indexNames == old(indexNames) && indexes == old(indexes)
    {
      modCount := modCount + 1;
    }

    /** The column whose index carries indexName, searched over every index. */
    method FindColumn(indexName: string) returns (key: Option<string>)
      ensures key.Some? ==> key.value in indexes && indexes[key.value].indexName == indexName
      ensures key.None? ==> forall c :: c in indexes ==> indexes[c].indexName != indexName
    {
      var todo := indexes.Keys;
      while todo != {}
        invariant todo <= indexes.Keys
        invariant forall c :: c in indexes && c !in todo ==> indexes[c].indexName != indexName
        decreases todo
      {
        var c :| c in todo;
        if indexName == indexes[c].indexName {
          return Some(c);
        }
        todo := todo - {c};
      }
      return None;
    }

    /**
     * dropIndex(name), bookkeeping only: a registered name is unregistered
     * and the index carrying it, if any, is removed; an unknown name changes
     * nothing.
     */
    method DropIndex(indexName: string)
      requires Valid()
      modifies this
      ensures Valid()
      ensures indexName !in old(indexNames) ==> unchanged(this)
      ensures indexName in old(indexNames) ==>
                indexNames == RemoveFirst(old(indexNames), indexName) && indexName !in indexNames
      ensures forall c :: indexName in old(indexNames) && Named(old(indexes), c, indexName) ==>
                indexes == old(indexes) - {c}
      ensures (forall c :: !Named(old(indexes), c, indexName)) ==> indexes == old(indexes)
      ensures dataRecords == old(dataRecords) && nextRecordId == old(nextRecordId)
      ensures modCount == old(modCount)
    {
      if indexName in indexNames {
        var key := FindColumn(indexName);
        if key.Some? {
          assert Named(indexes, key.value, indexName);
          assert forall c :: Named(indexes, c, indexName) ==> c == key.value;
          Unregister(key.value);
        } else {
          Forget(indexName);
        }
      }
    }

    /** The name half of dropIndex, for a name no index carries. */
    method Forget(indexName: string)
      requires Valid()
      requires forall c :: c in indexes ==> indexes[c].indexName != indexName
      modifies this
      ensures Valid()
      ensures indexNames == RemoveFirst(old(indexNames), indexName) && indexName !in indexNames
      ensures indexes == old(indexes)
      ensures dataRecords == old(dataRecords) && nextRecordId == old(nextRecordId)
      ensures modCount == old(modCount)
    {
      RegistryForget(indexes, indexNames, this, indexName);
      indexNames := RemoveFirst(indexNames, indexName);
    }

    /**
     * rebuildFile(): drops exactly the records marked for deletion; ids,
     * the counter and the indexes stay as they are.
     */
    method RebuildFile()
      requires Valid()
      modifies this
      ensures Valid()
      ensures dataRecords == LiveRecords(old(dataRecords))
      ensures forall id :: id in dataRecords ==> !dataRecords[id].deletePending
      ensures forall id :: GetRecord(id) == old(GetRecord(id))
      ensures nextRecordId == old(nextRecordId) && modCount == old(modCount)
      ensures indexNames == old(indexNames) && indexes == old(indexes)
    {
      var kept := dataRecords;
      var id := 0;
      while id < nextRecordId
        invariant 0 <= id <= nextRecordId
        invariant forall j :: j in kept <==> j in dataRecords && (j >= id || !dataRecords[j].deletePending)
        invariant forall j :: j in kept ==> kept[j] == dataRecords[j]
      {
        if id in kept && kept[id].deletePending {
          kept := kept - {id};
        }
        id := id + 1;
      }
      assert forall j :: j in kept <==> j in LiveRecords(dataRecords);
      assert forall j :: j in kept ==> kept[j] == LiveRecords(dataRecords)[j];
      assert kept == LiveRecords(dataRecords);
      dataRecords := kept;
    }

    /** The removal half of rebuildIndex: the index under c and its name go. */
    method Unregister(c: string)
      requires Valid() && c in indexes
      modifies this
      ensures Valid()
      ensures indexes == old(indexes) - {c}
      ensures indexNames == RemoveFirst(old(indexNames), old(indexes)[c].indexName)
      ensures old(indexes)[c].indexName !in indexNames
      ensures dataRecords == old(dataRecords) && nextRecordId == old(nextRecordId)
      ensures modCount == old(modCount)
    {
      RegistryRemove(indexes, indexNames, this, c);
      indexNames := RemoveFirst(indexNames, indexes[c].indexName);
      indexes := indexes - {c};
    }

    /**
     * rebuildIndex(name): an index registered under name is replaced by a
     * fresh one with the same name and column, filled from the live records;
     * an unknown name changes nothing.
     */
    method RebuildIndex(indexName: string)
      requires Valid()
      modifies this
      ensures Valid()
      ensures var c := ColumnNamed(old(indexes), indexName);
              if indexName !in old(indexNames) || c.None? then unchanged(this)
              else
                && c.value in indexes
                && indexes == old(indexes)[c.value := indexes[c.value]]
                && fresh(indexes[c.value])
                && indexes[c.value].indexName == indexName && indexes[c.value].column == c.value
                && indexes[c.value].tree.Entries() == Backfill(Ordered(dataRecords, nextRecordId), c.value)
                && indexNames == RemoveFirst(old(indexNames), indexName) + [indexName]
      ensures dataRecords == old(dataRecords) && nextRecordId == old(nextRecordId)
      ensures modCount == old(modCount)
    {
      if indexName in indexNames {
        var key := FindColumn(indexName);
        if key.Some? {
          assert Named(indexes, key.value, indexName);
          assert forall c :: Named(indexes, c, indexName) ==> c == key.value;
          assert ColumnNamed(indexes, indexName) == key;
          Unregister(key.value);
          var result := CreateIndex(indexName, key.value);
          assert result.Ok?;
        }
      }
    }
  }
}
