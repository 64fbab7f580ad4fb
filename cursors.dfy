/**
 * The two fail-fast cursors: FileIterator walks the records of a table in id
 * order, IndexIterator walks the record list an index holds for one key.
 * Both follow the same protocol: hasNext skips records marked for deletion
 * and caches the first live one; next and remove first compare the
 * expected modification count of the cursor with that of the table;
 * remove marks the last returned record for deletion and moves both
 * counts in lockstep, so the
 * removing cursor stays usable while every other cursor of the table is
 * invalidated.
 *
 * The underlying Java iterator is modelled by the sequence it walks,
 * taken when the cursor is created, and the number of entries it has
 * yielded so far (pos).
 */
module Cursors {
  import opened Records
  import opened BTrees
  import opened Database

  /** The first position at or after from whose record is live, or |s| when there is none. */
  ghost function FirstLive(s: seq<DataRecord>, from: nat): (k: nat)
    requires from <= |s|
    reads s
    ensures from <= k <= |s|
    ensures forall i :: from <= i < k ==> s[i].deletePending
    ensures k < |s| ==> !s[k].deletePending
    decreases |s| - from
  {
    if from == |s| || !s[from].deletePending then from else FirstLive(s, from + 1)
  }

  /**
   * The scanning half of hasNext: pulls entries from the underlying
   * iterator until a live record turns up. Every pulled record is cached
   * in turn; when the entries run out the cache is cleared.
   */
  method ScanLive(s: seq<DataRecord>, from: nat) returns (pos: nat, next: Option<DataRecord>)
    requires from <= |s|
    ensures var k := FirstLive(s, from);
            if k < |s| then pos == k + 1 && next == Some(s[k])
            else pos == |s| && next == None
  {
    pos := from;
    next := None;
    var found := false;
    while pos < |s| && !found
      invariant from <= pos <= |s|
      invariant forall i :: from <= i < pos ==> s[i].deletePending || (found && i == pos - 1)
      invariant found ==> from < pos && next == Some(s[pos - 1]) && !s[pos - 1].deletePending
      decreases |s| - pos, !found
    {
      next := Some(s[pos]);
      pos := pos + 1;
      if !next.value.deletePending {
        found := true;
      }
    }
    if !found {
      next := None;
    }
    FirstLiveIs(s, from, if found then pos - 1 else |s|);
  }

  /** A position that every skipped record and the record found pin down is FirstLive. */
  lemma {:induction false} FirstLiveIs(s: seq<DataRecord>, from: nat, k: nat)
    requires from <= k <= |s|
    requires forall i :: from <= i < k ==> s[i].deletePending
    requires k < |s| ==> !s[k].deletePending
    ensures FirstLive(s, from) == k
    decreases k - from
  {
    if from < k {
      FirstLiveIs(s, from + 1, k);
    }
  }

  // ----- FileIterator -----

  class FileIterator {
    /** The table the cursor belongs to (the enclosing DataFile instance). */
    const file: DataFile
    /** _iter: the records of the table in id order, as its sorted map yields them. */
    const source: seq<DataRecord>
    /** How many entries _iter has yielded. */
    var pos: nat
    /** _lastReturnedRecord */
    var lastReturned: Option<DataRecord>
    /** _nextRecordToReturn */
    var nextToReturn: Option<DataRecord>
    /** _expectedModCount */
    var expectedModCount: int

    /** The cache is the entry _iter yielded last. */
    ghost predicate Valid()
      reads this
    {
      pos <= |source| && (nextToReturn.Some? ==> 0 < pos && nextToReturn.value == source[pos - 1])
    }

    /**
     * iterator(): a cursor at the start of the table, in step with its counter.
     * It walks every stored record once, in increasing id order.
     */
    constructor (file: DataFile)
      requires file.Valid()
      ensures Valid()
      ensures this.file == file && source == Ordered(file.dataRecords, file.nextRecordId)
      ensures forall i, j :: 0 <= i < j < |source| ==> source[i].id < source[j].id
      ensures forall id :: id in file.dataRecords ==> file.dataRecords[id] in source
      ensures forall r :: r in source ==> r.id in file.dataRecords && file.dataRecords[r.id] == r
      ensures pos == 0 && lastReturned == None && nextToReturn == None
      ensures expectedModCount == file.modCount
    {
      this.file := file;
      source := Ordered(file.dataRecords, file.nextRecordId);
      OrderedSpec(file.dataRecords, file.nextRecordId);
      pos := 0;
      lastReturned := None;
      nextToReturn := None;
      expectedModCount := file.modCount;
    }

    /**
     * hasNext(): a cached record answers at once (and fails if it has been
     * marked for deletion since); otherwise the scan caches the next live
     * record. The modification counts are not compared.
     */
    method HasNext() returns (result: Result<bool>)
      requires Valid()
      modifies this
      ensures Valid()
      ensures old(nextToReturn).Some? ==>
                unchanged(this)
                && result == if old(nextToReturn).value.deletePending then Throws(ConcurrentModification) else Ok(true)
      ensures old(nextToReturn).None? ==>
                var k := FirstLive(source, old(pos));
                && result == Ok(k < |source|)
                && (k < |source| ==> pos == k + 1 && nextToReturn == Some(source[k]))
                && (k == |source| ==> pos == |source| && nextToReturn == None)
                && lastReturned == old(lastReturned) && expectedModCount == old(expectedModCount)
    {
      if nextToReturn.Some? {
        if !nextToReturn.value.deletePending {
          return Ok(true);
        } else {
          return Throws(ConcurrentModification);
        }
      }
      pos, nextToReturn := ScanLive(source, pos);
      result := Ok(nextToReturn.Some?);
    }

    /**
     * next(): fails fast on a counter mismatch; otherwise returns the id of
     * the cached or next live record and makes it the last returned one.
     */
    method Next() returns (result: Result<int>)
      requires Valid()
      modifies this
      ensures Valid()
      ensures expectedModCount == old(expectedModCount)
      ensures old(expectedModCount) != file.modCount ==>
                result == Throws(ConcurrentModification) && unchanged(this)
      ensures old(expectedModCount) == file.modCount && old(nextToReturn).Some? ==>
                if old(nextToReturn).value.deletePending then
                  result == Throws(ConcurrentModification) && unchanged(this)
                else
                  && result == Ok(old(nextToReturn).value.id)
                  && lastReturned == old(nextToReturn) && nextToReturn == None && pos == old(pos)
      ensures old(expectedModCount) == file.modCount && old(nextToReturn).None? ==>
                var k := FirstLive(source, old(pos));
                if k < |source| then
                  && result == Ok(source[k].id)
                  && lastReturned == Some(source[k]) && nextToReturn == None && pos == k + 1
                else
                  && result == Throws(NoSuchElement)
                  && lastReturned == old(lastReturned) && nextToReturn == None && pos == |source|
    {
      if expectedModCount != file.modCount {
        return Throws(ConcurrentModification);
      }
      if nextToReturn.Some? {
        if !nextToReturn.value.deletePending {
          lastReturned := nextToReturn;
          nextToReturn := None;
          return Ok(lastReturned.value.id);
        } else {
          return Throws(ConcurrentModification);
        }
      }
      var more := HasNext();
      if more == Ok(true) {
        lastReturned := nextToReturn;
        nextToReturn := None;
        result := Ok(lastReturned.value.id);
      } else {
        result := Throws(NoSuchElement);
      }
    }

    /**
     * remove(): fails fast on a counter mismatch, refuses when nothing was
     * returned since the last removal, ignores a record already marked,
     * and otherwise marks the record and moves both counters by one.
     */
    method Remove() returns (result: Result<()>)
      requires Valid()
      modifies this, file, if lastReturned.Some? then {lastReturned.value} else {}
      ensures Valid()
      ensures pos == old(pos) && nextToReturn == old(nextToReturn)
      ensures file.dataRecords == old(file.dataRecords) && file.nextRecordId == old(file.nextRecordId)
      ensures file.indexNames == old(file.indexNames) && file.indexes == old(file.indexes)
      ensures old(expectedModCount) != old(file.modCount) ==>
                result == Throws(ConcurrentModification) && unchanged(this, file)
                && (old(lastReturned).Some? ==> unchanged(old(lastReturned).value))
      ensures old(expectedModCount) == old(file.modCount) && old(lastReturned).None? ==>
                result == Throws(IllegalState) && unchanged(this, file)
      ensures old(expectedModCount) == old(file.modCount) && old(lastReturned).Some? ==>
                result == Ok(())
                && if old(lastReturned.value.deletePending) then unchanged(this, file, old(lastReturned).value)
                   else
                     && old(lastReturned).value.deletePending
                     && lastReturned == None
                     && expectedModCount == old(expectedModCount) + 1
                     && file.modCount == old(file.modCount) + 1
                     && expectedModCount == file.modCount
                     && forall id :: id in file.dataRecords && file.dataRecords[id] == old(lastReturned).value ==>
                          file.GetRecord(id) == None
    {
      if expectedModCount != file.modCount {
        return Throws(ConcurrentModification);
      }
      if lastReturned.None? {
        return Throws(IllegalState);
      }
      if !lastReturned.value.deletePending {
        lastReturned.value.SetDeletePending(true);
        lastReturned := None;
        expectedModCount := expectedModCount + 1;
        file.modCount := file.modCount + 1;
      }
      result := Ok(());
    }
  }

  // ----- IndexIterator -----

  class IndexIterator {
    /** The index the cursor belongs to (the enclosing Index instance). */
    const index: Index
    /** _iter: the record list of the key, or None when the key has no entry (_iter == null). */
    const source: Option<seq<DataRecord>>
    /** How many entries _iter has yielded. */
    var pos: nat
    /** _lastReturnedRecord */
    var lastReturned: Option<DataRecord>
    /** _nextRecordToReturn */
    var nextToReturn: Option<DataRecord>
    /** _expectedModCount */
    var expectedModCount: int

    /** The cache is the entry _iter yielded last; without a list nothing is ever yielded. */
    ghost predicate Valid()
      reads this
    {
      if source.None? then pos == 0 && nextToReturn.None?
      else pos <= |source.value| && (nextToReturn.Some? ==> 0 < pos && nextToReturn.value == source.value[pos - 1])
    }

    /**
     * iterator(key): a cursor over the records the index holds for key,
     * in step with the counter of the table. The lookup needs a tree that has
     * a root.
     */
    constructor (index: Index, key: string)
      requires index.tree.Valid() && index.tree.root.Some?
      ensures Valid()
      ensures this.index == index
      ensures source == if key in index.tree.Entries() then Some(index.tree.Entries()[key]) else None
      ensures pos == 0 && lastReturned == None && nextToReturn == None
      ensures expectedModCount == index.file.modCount
    {
      this.index := index;
      var list := index.tree.GetRecordList(key);
      source := list;
      pos := 0;
      lastReturned := None;
      nextToReturn := None;
      expectedModCount := index.file.GetModCount();
    }

    /**
     * hasNext(): false without a list; otherwise a cached record answers at
     * once (and fails if it has been marked for deletion since), or the scan
     * caches the next live record.
     */
    method HasNext() returns (result: Result<bool>)
      requires Valid()
      modifies this
      ensures Valid()
      ensures source.None? ==> result == Ok(false) && unchanged(this)
      ensures source.Some? && old(nextToReturn).Some? ==>
                unchanged(this)
                && result == if old(nextToReturn).value.deletePending then Throws(ConcurrentModification) else Ok(true)
      ensures source.Some? && old(nextToReturn).None? ==>
                var s := source.value;
                var k := FirstLive(s, old(pos));
                && result == Ok(k < |s|)
                && (k < |s| ==> pos == k + 1 && nextToReturn == Some(s[k]))
                && (k == |s| ==> pos == |s| && nextToReturn == None)
                && lastReturned == old(lastReturned) && expectedModCount == old(expectedModCount)
    {
      if source.None? {
        return Ok(false);
      }
      if nextToReturn.Some? {
        if !nextToReturn.value.deletePending {
          return Ok(true);
        } else {
          return Throws(ConcurrentModification);
        }
      }
      pos, nextToReturn := ScanLive(source.value, pos);
      result := Ok(nextToReturn.Some?);
    }

    /**
     * next(): fails fast when the counter of the table has moved; otherwise
     * returns the id of the cached or next live record and makes it the
     * last returned one. Without a list it always reports exhaustion.
     */
    method Next() returns (result: Result<int>)
      requires Valid()
      modifies this
      ensures Valid()
      ensures expectedModCount == old(expectedModCount)
      ensures old(expectedModCount) != index.file.modCount ==>
                result == Throws(ConcurrentModification) && unchanged(this)
      ensures old(expectedModCount) == index.file.modCount && source.None? ==>
                result == Throws(NoSuchElement) && unchanged(this)
      ensures old(expectedModCount) == index.file.modCount && old(nextToReturn).Some? ==>
                if old(nextToReturn).value.deletePending then
                  result == Throws(ConcurrentModification) && unchanged(this)
                else
                  && result == Ok(old(nextToReturn).value.id)
                  && lastReturned == old(nextToReturn) && nextToReturn == None && pos == old(pos)
      ensures old(expectedModCount) == index.file.modCount && source.Some? && old(nextToReturn).None? ==>
                var s := source.value;
                var k := FirstLive(s, old(pos));
                if k < |s| then
                  && result == Ok(s[k].id)
                  && lastReturned == Some(s[k]) && nextToReturn == None && pos == k + 1
                else
                  && result == Throws(NoSuchElement)
                  && lastReturned == old(lastReturned) && nextToReturn == None && pos == |s|
    {
      if expectedModCount != index.file.GetModCount() {
        return Throws(ConcurrentModification);
      }
      if nextToReturn.Some? {
        if !nextToReturn.value.deletePending {
          lastReturned := nextToReturn;
          nextToReturn := None;
          return Ok(lastReturned.value.id);
        } else {
          return Throws(ConcurrentModification);
        }
      }
      var more := HasNext();
      if more == Ok(true) {
        lastReturned := nextToReturn;
        nextToReturn := None;
        result := Ok(lastReturned.value.id);
      } else {
        result := Throws(NoSuchElement);
      }
    }

    /**
     * remove(): fails fast when the counter of the table has moved, refuses when
     * nothing was returned since the last removal, ignores a record already
     * marked, and otherwise marks the record, moves its own count and has
     * the table move its counter.
     */
    method Remove() returns (result: Result<()>)
      requires Valid()
      modifies this, index.file, if lastReturned.Some? then {lastReturned.value} else {}
      ensures Valid()
      ensures pos == old(pos) && nextToReturn == old(nextToReturn)
      ensures index.file.dataRecords == old(index.file.dataRecords)
      ensures index.file.nextRecordId == old(index.file.nextRecordId)
      ensures index.file.indexNames == old(index.file.indexNames) && index.file.indexes == old(index.file.indexes)
      ensures old(expectedModCount) != old(index.file.modCount) ==>
                result == Throws(ConcurrentModification) && unchanged(this, index.file)
                && (old(lastReturned).Some? ==> unchanged(old(lastReturned).value))
      ensures old(expectedModCount) == old(index.file.modCount) && old(lastReturned).None? ==>
                result == Throws(IllegalState) && unchanged(this, index.file)
      ensures old(expectedModCount) == old(index.file.modCount) && old(lastReturned).Some? ==>
                result == Ok(())
                && if old(lastReturned.value.deletePending) then unchanged(this, index.file, old(lastReturned).value)
                   else
                     && old(lastReturned).value.deletePending
                     && lastReturned == None
                     && expectedModCount == old(expectedModCount) + 1
                     && index.file.modCount == old(index.file.modCount) + 1
                     && expectedModCount == index.file.modCount
                     && forall id :: id in index.file.dataRecords && index.file.dataRecords[id] == old(lastReturned).value ==>
                          index.file.GetRecord(id) == None
    {
      if expectedModCount != index.file.GetModCount() {
        return Throws(ConcurrentModification);
      }
      if lastReturned.None? {
        return Throws(IllegalState);
      }
      if !lastReturned.value.deletePending {
        lastReturned.value.SetDeletePending(true);
        lastReturned := None;
        expectedModCount := expectedModCount + 1;
        index.file.IncrementModCount();
      }
      result := Ok(());
    }
  }
}
