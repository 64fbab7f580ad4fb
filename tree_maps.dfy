/**
 * The abstract contents of a B+-tree node (key -> record list) and the
 * routing invariant that ties the separator keys of an interior node to the
 * contents of its children; also the map that the parallel key and list
 * sequences of a leaf denote.
 */
module TreeMaps {
  import opened KeyOrder
  import opened Records

  /** What a tree (or subtree) maps: key -> its record list, in insertion order. */
  type Lists = map<string, seq<DataRecord>>

  /** The abstract effect of insert(key, r): r is appended to the list of key. */
  function Added(m: Lists, key: string, r: DataRecord): (added: Lists)
    ensures added.Keys == m.Keys + {key}
    ensures added[key] == (if key in m then m[key] else []) + [r]
    ensures forall k :: k in m && k != key ==> added[k] == m[k]
  {
    m[key := (if key in m then m[key] else []) + [r]]
  }

  /** The entries a split leaves in the left half. */
  ghost function Below(m: Lists, sep: string): Lists {
    map k | k in m && Less(k, sep) :: m[k]
  }

  /** The entries a split moves to the right half. */
  ghost function AtOrAbove(m: Lists, sep: string): Lists {
    map k | k in m && LessEq(sep, k) :: m[k]
  }

  /** Every entry of a map lies below or at-or-above a separator, never both. */
  lemma BelowAtOrAbove(m: Lists, sep: string)
    ensures Below(m, sep) + AtOrAbove(m, sep) == m
    ensures Below(m, sep).Keys !! AtOrAbove(m, sep).Keys
  {
    forall k | k in m ensures k in Below(m, sep) || k in AtOrAbove(m, sep) {
      LessTotal(k, sep);
    }
    forall k | k in Below(m, sep) ensures k !in AtOrAbove(m, sep) {
      LessTotal(k, sep);
    }
  }

  /** How a single update moves across a split at sep. */
  lemma SplitOfUpdate(m: Lists, key: string, v: seq<DataRecord>, sep: string)
    ensures Less(key, sep) ==>
              Below(m[key := v], sep) == Below(m, sep)[key := v] &&
              AtOrAbove(m[key := v], sep) == AtOrAbove(m, sep)
    ensures !Less(key, sep) ==>
              Below(m[key := v], sep) == Below(m, sep) &&
              AtOrAbove(m[key := v], sep) == AtOrAbove(m, sep)[key := v]
  {
    LessTotal(key, sep);
  }

  /**
   * An interior node with separators ks and children contents cs denotes m:
   * child i holds exactly the keys that ChildIndex routes to i, and m is
   * the union of the children.
   */
  ghost predicate Routed(ks: seq<string>, cs: seq<Lists>, m: Lists) {
    && |cs| == |ks| + 1
    && (forall i, k :: 0 <= i < |cs| && k in cs[i] ==> ChildIndex(ks, k) == i)
    && (forall k :: k in m <==> k in cs[ChildIndex(ks, k)])
    && (forall k :: k in m ==> m[k] == cs[ChildIndex(ks, k)][k])
  }

  /** Routing into the first n separators: everything past n lands in child n. */
  lemma ChildIndexPrefix(ks: seq<string>, n: nat, k: string)
    requires Sorted(ks) && n <= |ks|
    ensures ChildIndex(ks[..n], k) == if ChildIndex(ks, k) < n then ChildIndex(ks, k) else n
  {
    var c := ChildIndex(ks, k);
    var c1 := if c < n then c else n;
    ChildIndexStops(ks, k);
    SortedSlices(ks, n);
    ChildIndexRange(ks[..n], k, c1);
    if c1 > 0 {
      assert ks[..n][c1 - 1] == ks[c1 - 1];
      LessTotal(k, ks[c1 - 1]);
    }
    if c1 < n {
      assert ks[..n][c1] == ks[c1];
    }
  }

  /** Routing into the separators from n on, for a key routed at or past n. */
  lemma ChildIndexSuffix(ks: seq<string>, n: nat, k: string)
    requires Sorted(ks) && n <= |ks| && n <= ChildIndex(ks, k)
    ensures ChildIndex(ks[n..], k) == ChildIndex(ks, k) - n
  {
    var c := ChildIndex(ks, k);
    ChildIndexRange(ks, k, c);
    SortedSlices(ks, n);
    ChildIndexRange(ks[n..], k, c - n);
  }

  /** A separator strictly between ks[i-1] and ks[i] keeps ks sorted when inserted at i. */
  lemma InsertBetweenSorted(ks: seq<string>, i: nat, sep: string)
    requires Sorted(ks) && i <= |ks|
    requires i == 0 || Less(ks[i - 1], sep)
    requires i == |ks| || Less(sep, ks[i])
    ensures Sorted(InsertAt(ks, i, sep)) && InsertPos(ks, sep) == i
  {
    var ks1 := InsertAt(ks, i, sep);
    forall a, b | 0 <= a < b < |ks1| ensures Less(ks1[a], ks1[b]) {
      if a < i && b == i {
        if a < i - 1 { LessTransitive(ks[a], ks[i - 1], sep); }
      } else if a == i && b > i {
        if b > i + 1 { LessTransitive(sep, ks[i], ks[b - 1]); }
      } else if a < i && b > i {
        if a < i - 1 { LessTransitive(ks[a], ks[i - 1], sep); }
        if b > i + 1 { LessTransitive(sep, ks[i], ks[b - 1]); }
        LessTransitive(ks[a], sep, ks[b - 1]);
      }
    }
    forall j | 0 <= j < i ensures Less(ks[j], sep) {
      if j < i - 1 { LessTransitive(ks[j], ks[i - 1], sep); }
    }
    if i < |ks| {
      LessTotal(ks[i], sep);
    }
    InsertPosOfScan(ks, sep, i);
  }

  /**
   * Such a separator reroutes keys: keys routed left of i keep their
   * child, keys routed right of i shift by one, and keys routed to i go to
   * i or i+1 by the new separator.
   */
  lemma ChildIndexAfterInsert(ks: seq<string>, i: nat, sep: string, k: string)
    requires Sorted(ks) && i <= |ks|
    requires i == 0 || Less(ks[i - 1], sep)
    requires i == |ks| || Less(sep, ks[i])
    ensures Sorted(InsertAt(ks, i, sep)) && InsertPos(ks, sep) == i
    ensures var c := ChildIndex(ks, k);
            ChildIndex(InsertAt(ks, i, sep), k) ==
              if c < i then c else if c > i then c + 1 else if Less(k, sep) then i else i + 1
  {
    InsertBetweenSorted(ks, i, sep);
    var ks1 := InsertAt(ks, i, sep);
    var c := ChildIndex(ks, k);
    ChildIndexRange(ks, k, c);
    var c1 := if c < i then c else if c > i then c + 1 else if Less(k, sep) then i else i + 1;
    ChildIndexRange(ks1, k, c1);
    if c == i {
      LessTotal(k, sep);
    }
  }

  /** RoutedAdd for one key k. */
  lemma AddRoutesKey(ks: seq<string>, cs: seq<Lists>, m: Lists, key: string, r: DataRecord, k: string)
    requires Routed(ks, cs, m)
    ensures var i := ChildIndex(ks, key);
            var cs1, m1 := cs[i := Added(cs[i], key, r)], Added(m, key, r);
            && (forall j :: 0 <= j < |cs1| && k in cs1[j] ==> ChildIndex(ks, k) == j)
            && (k in m1 <==> k in cs1[ChildIndex(ks, k)])
            && (k in m1 ==> m1[k] == cs1[ChildIndex(ks, k)][k])
  {
    var i, c := ChildIndex(ks, key), ChildIndex(ks, k);
    if k != key {
      assert forall j :: 0 <= j < |cs| && k in cs[j] ==> c == j;
      assert k in m <==> k in cs[c];
      assert k in m ==> m[k] == cs[c][k];
    } else {
      assert key in m <==> key in cs[i];
    }
  }

  /** Appending to the list of a key touches only the child it routes to. */
  lemma RoutedAdd(ks: seq<string>, cs: seq<Lists>, m: Lists, key: string, r: DataRecord)
    requires Routed(ks, cs, m)
    ensures var i := ChildIndex(ks, key);
            Routed(ks, cs[i := Added(cs[i], key, r)], Added(m, key, r))
  {
    forall k {
      AddRoutesKey(ks, cs, m, key, r, k);
    }
  }

  /** The children of a node after child i is split at sep. */
  ghost function SplitChildren(cs: seq<Lists>, i: nat, sep: string): seq<Lists>
    requires i < |cs|
  {
    InsertAt(cs[i := Below(cs[i], sep)], i + 1, AtOrAbove(cs[i], sep))
  }

  /** RoutedSplit for one key. */
  lemma SplitRoutesKey(ks: seq<string>, cs: seq<Lists>, m: Lists, i: nat, sep: string, k: string)
    requires Sorted(ks) && Routed(ks, cs, m) && i < |cs|
    requires i == 0 || Less(ks[i - 1], sep)
    requires i == |ks| || Less(sep, ks[i])
    ensures var c1, cs1 := ChildIndex(InsertAt(ks, i, sep), k), SplitChildren(cs, i, sep);
            && (forall j :: 0 <= j < |cs1| && k in cs1[j] ==> c1 == j)
            && (k in m <==> k in cs1[c1])
            && (k in m ==> m[k] == cs1[c1][k])
  {
    ChildIndexAfterInsert(ks, i, sep, k);
    LessTotal(k, sep);
    var cs1 := SplitChildren(cs, i, sep);
    forall j | 0 <= j < |cs1| && k in cs1[j] ensures ChildIndex(InsertAt(ks, i, sep), k) == j {
      if j < i {
        assert k in cs[j];
      } else if j > i + 1 {
        assert k in cs[j - 1];
      }
    }
  }

  /**
   * Child i split at sep, with entries on both sides: sep goes in at i,
   * the entries below it stay in child i and the rest form child i+1.
   */
  lemma RoutedSplit(ks: seq<string>, cs: seq<Lists>, m: Lists, i: nat, sep: string,
                    lo: string, hi: string)
    requires Sorted(ks) && Routed(ks, cs, m) && i < |cs|
    requires lo in cs[i] && Less(lo, sep) && hi in cs[i] && LessEq(sep, hi)
    ensures Sorted(InsertAt(ks, i, sep)) && InsertPos(ks, sep) == i
    ensures Routed(InsertAt(ks, i, sep), SplitChildren(cs, i, sep), m)
  {
    ChildIndexRange(ks, lo, i);
    ChildIndexRange(ks, hi, i);
    if i > 0 {
      LessLessEq(ks[i - 1], lo, sep);
    }
    if i < |ks| {
      LessLessEq(sep, hi, ks[i]);
    }
    ChildIndexAfterInsert(ks, i, sep, lo);
    forall k {
      SplitRoutesKey(ks, cs, m, i, sep, k);
    }
  }

  /** How cutting the separators at h reroutes one key. */
  lemma HalvesRouteKey(ks: seq<string>, h: nat, k: string)
    requires Sorted(ks) && h < |ks|
    ensures Less(k, ks[h]) <==> ChildIndex(ks, k) <= h
    ensures ChildIndex(ks[..h], k) == if ChildIndex(ks, k) < h then ChildIndex(ks, k) else h
    ensures ChildIndex(ks, k) > h ==> ChildIndex(ks[h + 1..], k) == ChildIndex(ks, k) - h - 1
  {
    var c := ChildIndex(ks, k);
    ChildIndexRange(ks, k, c);
    LessTotal(k, ks[h]);
    if c <= h {
      if c < h { LessTransitive(k, ks[c], ks[h]); }
    } else {
      if c - 1 > h { LessLessEq(ks[h], ks[c - 1], k); }
      ChildIndexSuffix(ks, h + 1, k);
    }
    ChildIndexPrefix(ks, h, k);
  }

  /**
   * Cutting the separators of a node at h: separators before h with children up
   * to h denote the entries below ks[h] ...
   */
  lemma RoutedLowHalf(ks: seq<string>, cs: seq<Lists>, m: Lists, h: nat)
    requires Sorted(ks) && Routed(ks, cs, m) && h < |ks|
    ensures Separated(ks[..h], cs[..h + 1]) && Below(m, ks[h]) == Merge(ks[..h], cs[..h + 1])
  {
    var lo, lcs := Below(m, ks[h]), cs[..h + 1];
    forall j, k | 0 <= j < |lcs| && k in lcs[j] ensures ChildIndex(ks[..h], k) == j {
      assert lcs[j] == cs[j];
      HalvesRouteKey(ks, h, k);
    }
    forall k ensures k in lo <==> k in lcs[ChildIndex(ks[..h], k)] {
      HalvesRouteKey(ks, h, k);
    }
    forall k | k in lo ensures lo[k] == lcs[ChildIndex(ks[..h], k)][k] {
      HalvesRouteKey(ks, h, k);
    }
    RoutedUnique(ks[..h], lcs, lo);
  }

  /** RoutedHighHalf for one key k. */
  lemma HighHalfRoutesKey(ks: seq<string>, cs: seq<Lists>, m: Lists, h: nat, k: string)
    requires Sorted(ks) && Routed(ks, cs, m) && h < |ks|
    ensures var hi, hks, hcs := AtOrAbove(m, ks[h]), ks[h + 1..], cs[h + 1..];
            && (forall j :: 0 <= j < |hcs| && k in hcs[j] ==> ChildIndex(hks, k) == j)
            && (k in hi <==> k in hcs[ChildIndex(hks, k)])
            && (k in hi ==> hi[k] == hcs[ChildIndex(hks, k)][k])
  {
    var hks, hcs := ks[h + 1..], cs[h + 1..];
    HalvesRouteKey(ks, h, k);
    LessTotal(k, ks[h]);
    var c := ChildIndex(ks, k);
    assert forall j :: 0 <= j < |hcs| ==> hcs[j] == cs[j + h + 1];
    if c > h {
      assert hcs[ChildIndex(hks, k)] == cs[c];
    }
  }

  /** ... and those after h with the remaining children denote the rest. */
  lemma RoutedHighHalf(ks: seq<string>, cs: seq<Lists>, m: Lists, h: nat)
    requires Sorted(ks) && Routed(ks, cs, m) && h < |ks|
    ensures Separated(ks[h + 1..], cs[h + 1..]) && AtOrAbove(m, ks[h]) == Merge(ks[h + 1..], cs[h + 1..])
  {
    var hi, hks, hcs := AtOrAbove(m, ks[h]), ks[h + 1..], cs[h + 1..];
    forall j, k | 0 <= j < |hcs| && k in hcs[j] ensures ChildIndex(hks, k) == j {
      HighHalfRoutesKey(ks, cs, m, h, k);
    }
    forall k ensures k in hi <==> k in hcs[ChildIndex(hks, k)] {
      HighHalfRoutesKey(ks, cs, m, h, k);
    }
    forall k | k in hi ensures hi[k] == hcs[ChildIndex(hks, k)][k] {
      HighHalfRoutesKey(ks, cs, m, h, k);
    }
    RoutedUnique(hks, hcs, hi);
  }

  /** A new root with one separator over the two halves of a split. */
  lemma RoutedRoot(m: Lists, sep: string)
    ensures Routed([sep], [Below(m, sep), AtOrAbove(m, sep)], m)
  {
    forall k ensures ChildIndex([sep], k) == if Less(k, sep) then 0 else 1 {
      assert [sep][1..] == [];
    }
    forall k ensures Less(k, sep) || LessEq(sep, k) {
      LessTotal(k, sep);
    }
    forall k | k in Below(m, sep) ensures !LessEq(sep, k) {
      LessTotal(k, sep);
    }
  }

  /** The map that the first numKeys keys and record lists of a leaf denote. */
  ghost function LeafMap(ks: seq<string>, ls: seq<seq<DataRecord>>): Lists
    requires |ks| == |ls|
  {
    if |ks| == 0 then map[] else LeafMap(ks[1..], ls[1..])[ks[0] := ls[0]]
  }

  /** A leaf maps exactly its keys, each to the list stored beside it. */
  lemma {:induction false} LeafMapAt(ks: seq<string>, ls: seq<seq<DataRecord>>)
    requires |ks| == |ls| && Sorted(ks)
    ensures forall k :: k in LeafMap(ks, ls) <==> k in ks
    ensures forall i :: 0 <= i < |ks| ==> LeafMap(ks, ls)[ks[i]] == ls[i]
  {
    if |ks| > 0 {
      LeafMapAt(ks[1..], ls[1..]);
      forall i | 0 < i < |ks| ensures ks[i] != ks[0] {
        LessIrreflexive(ks[0]);
      }
    }
  }

  lemma LeafMapEq(ks: seq<string>, ls: seq<seq<DataRecord>>, m: Lists)
    requires |ks| == |ls| && Sorted(ks)
    requires forall k :: k in m <==> k in ks
    requires forall i :: 0 <= i < |ks| ==> m[ks[i]] == ls[i]
    ensures LeafMap(ks, ls) == m
  {
    LeafMapAt(ks, ls);
    var lm := LeafMap(ks, ls);
    forall k | k in m ensures lm[k] == m[k] {
      var i :| 0 <= i < |ks| && ks[i] == k;
    }
  }

  lemma InsertAtHas<T>(s: seq<T>, p: nat, x: T)
    requires p <= |s|
    ensures forall y :: y in InsertAt(s, p, x) <==> y == x || y in s
  {
    assert s == s[..p] + s[p..];
  }

  /** A new key entered at its sorted position adds exactly that entry. */
  lemma LeafMapInsert(ks: seq<string>, ls: seq<seq<DataRecord>>, key: string, r: DataRecord)
    requires |ks| == |ls| && Sorted(ks) && key !in ks
    ensures Sorted(InsertAt(ks, InsertPos(ks, key), key))
    ensures LeafMap(InsertAt(ks, InsertPos(ks, key), key), InsertAt(ls, InsertPos(ks, key), [r]))
            == LeafMap(ks, ls)[key := [r]]
  {
    var p := InsertPos(ks, key);
    InsertKeepsSorted(ks, key);
    var ks1, ls1 := InsertAt(ks, p, key), InsertAt(ls, p, [r]);
    LeafMapAt(ks, ls);
    LeafMapAt(ks1, ls1);
    var m := LeafMap(ks, ls)[key := [r]];
    InsertAtHas(ks, p, key);
    forall i | 0 <= i < |ks1| ensures m[ks1[i]] == ls1[i] {
      if i < p {
        assert ks1[i] == ks[i];
      } else if i > p {
        assert ks1[i] == ks[i - 1];
      }
    }
    LeafMapEq(ks1, ls1, m);
  }

  /** Appending to the list of a present key is Added on the leaf map. */
  lemma LeafMapAppend(ks: seq<string>, ls: seq<seq<DataRecord>>, i: nat, r: DataRecord)
    requires |ks| == |ls| && Sorted(ks) && i < |ks|
    ensures LeafMap(ks, ls[i := ls[i] + [r]]) == Added(LeafMap(ks, ls), ks[i], r)
  {
    var ls1 := ls[i := ls[i] + [r]];
    LeafMapAt(ks, ls);
    LeafMapAt(ks, ls1);
    var m := Added(LeafMap(ks, ls), ks[i], r);
    forall j | 0 <= j < |ks| ensures m[ks[j]] == ls1[j] {
      if j != i {
        LessIrreflexive(ks[i]);
        assert ks[j] != ks[i] by {
          if j < i { LessIrreflexive(ks[j]); } else { LessIrreflexive(ks[i]); }
        }
      }
    }
    LeafMapEq(ks, ls1, m);
  }

  /** Cutting a sorted leaf at m splits its map around ks[m]. */
  lemma LeafMapSplit(ks: seq<string>, ls: seq<seq<DataRecord>>, m: nat)
    requires |ks| == |ls| && Sorted(ks) && 0 < m < |ks|
    ensures LeafMap(ks[..m], ls[..m]) == Below(LeafMap(ks, ls), ks[m])
    ensures LeafMap(ks[m..], ls[m..]) == AtOrAbove(LeafMap(ks, ls), ks[m])
  {
    LeafMapAt(ks, ls);
    var whole := LeafMap(ks, ls);
    var lo, hi := Below(whole, ks[m]), AtOrAbove(whole, ks[m]);
    forall k ensures k in lo <==> k in ks[..m] {
      if k in ks {
        var i :| 0 <= i < |ks| && ks[i] == k;
        LessTotal(k, ks[m]);
        LessIrreflexive(k);
        if i > m {
          LessTotal(ks[m], ks[i]);
        }
        assert k in ks[..m] <==> i < m;
      }
    }
    forall k ensures k in hi <==> k in ks[m..] {
      if k in ks {
        var i :| 0 <= i < |ks| && ks[i] == k;
        LessTotal(k, ks[m]);
        assert k in ks[m..] <==> i >= m;
      }
    }
    LeafMapEq(ks[..m], ls[..m], lo);
    forall i | 0 <= i < |ks| - m ensures hi[ks[m..][i]] == ls[m..][i] {
      assert ks[m..][i] == ks[m + i];
    }
    LeafMapEq(ks[m..], ls[m..], hi);
  }

  /** The keys held by any of the children. */
  ghost function KeysOf(cs: seq<Lists>): set<string> {
    set i, k | 0 <= i < |cs| && k in cs[i] :: k
  }

  /** Each child holds only keys routed to it by the separators. */
  ghost predicate Separated(ks: seq<string>, cs: seq<Lists>) {
    forall i, k :: 0 <= i < |cs| && k in cs[i] ==> ChildIndex(ks, k) == i
  }

  /** What an interior node denotes: each key looked up in the child it routes to. */
  ghost function Merge(ks: seq<string>, cs: seq<Lists>): Lists {
    map k | k in KeysOf(cs) && ChildIndex(ks, k) < |cs| && k in cs[ChildIndex(ks, k)]
      :: cs[ChildIndex(ks, k)][k]
  }

  /** Separated children are routed by their separators to their merge ... */
  lemma RoutedMerge(ks: seq<string>, cs: seq<Lists>)
    requires |cs| == |ks| + 1 && Separated(ks, cs)
    ensures Routed(ks, cs, Merge(ks, cs))
  {
    forall k | k in cs[ChildIndex(ks, k)] ensures k in KeysOf(cs) {
      var c := ChildIndex(ks, k);
      assert k in cs[c];
    }
  }

  /** ... and the merge is the only map they route. */
  lemma RoutedUnique(ks: seq<string>, cs: seq<Lists>, m: Lists)
    requires Routed(ks, cs, m)
    ensures m == Merge(ks, cs)
  {
    forall k | k in cs[ChildIndex(ks, k)] ensures k in KeysOf(cs) {
      var c := ChildIndex(ks, k);
      assert k in cs[c];
    }
    assert m.Keys == Merge(ks, cs).Keys;
  }
}
