/**
 * The secondary-index B+-tree: string keys mapped to lists of shared
 * DataRecord references, at most ORDER keys per node.  Leaves split 4/4
 * with copy-up of the first key of the right leaf, interior nodes split around
 * a 9-key temporary node with promote-up of the middle key, and the root
 * grows by one level when a split reaches it.
 *
 * Nodes are values here: an operation that shifts the arrays of a node in place
 * takes the node and yields the updated one, running the same index loops
 * over sequences.  The abstract contents of a node (key -> record list) is
 * the function Contents, and ValidNode states the structural invariants:
 * sorted keys, 1..ORDER keys per node, numKeys+1 children per interior
 * node, all leaves at the same depth, and the routing order (child i holds
 * exactly the keys k with keys[i-1] <= k < keys[i]).
 */
module BTrees {
  import opened KeyOrder
  import opened Records
  import opened TreeMaps

  datatype Option<T> = None | Some(value: T)

  /** The most keys a node holds. */
  const ORDER: nat := 8

  /**
   * BTree.Node.  _numKeys is the length of keys; a leaf keeps the record
   * list of keys[i] in lists[i] (its _children[i]), an interior node its
   * numKeys + 1 subtrees in children.
   */
  datatype Node =
    | Leaf(keys: seq<string>, lists: seq<seq<DataRecord>>)
    | Interior(keys: seq<string>, children: seq<Node>)

  /** Distance from a node down to its leaves, along the first child. */
  function Height(n: Node): nat {
    match n
    case Leaf(_, _) => 0
    case Interior(_, ch) => if |ch| == 0 then 1 else 1 + Height(ch[0])
  }

  /** What a subtree maps: each key to its record list. */
  ghost function Contents(n: Node): Lists
    decreases n
  {
    match n
    case Leaf(ks, ls) => if |ks| == |ls| then LeafMap(ks, ls) else map[]
    case Interior(ks, ch) => Merge(ks, ChildContents(ch))
  }

  /** The contents of some subtrees, in order. */
  ghost function ChildContents(ch: seq<Node>): (cs: seq<Lists>)
    ensures |cs| == |ch| && forall i :: 0 <= i < |ch| ==> cs[i] == Contents(ch[i])
    decreases ch
  {
    seq(|ch|, i requires 0 <= i < |ch| => Contents(ch[i]))
  }

  /**
   * A well-formed subtree: every node holds 1..ORDER strictly increasing
   * keys, an interior node has one child more than it has keys, all
   * children of a node have the same height, and each child holds only
   * keys that the separators route to it.
   */
  ghost predicate ValidNode(n: Node)
    decreases n
  {
    match n
    case Leaf(ks, ls) => 0 < |ks| <= ORDER && |ls| == |ks| && Sorted(ks)
    case Interior(ks, ch) =>
      && 0 < |ks| <= ORDER && |ch| == |ks| + 1 && Sorted(ks)
      && (forall i :: 0 <= i < |ch| ==> ValidNode(ch[i]) && Height(ch[i]) == Height(ch[0]))
      && Separated(ks, ChildContents(ch))
  }

  /**
   * left and right are the two halves of m split at sep: valid subtrees of
   * height h, left mapping the keys below sep and right those at or above.
   */
  ghost predicate SplitHalves(m: Lists, sep: string, left: Node, right: Node, h: nat) {
    && ValidNode(left) && Height(left) == h && ValidNode(right) && Height(right) == h
    && Contents(left) == Below(m, sep) && Contents(right) == AtOrAbove(m, sep)
  }

  /** The children of a valid interior node are valid and one level lower. */
  lemma KidsValid(n: Node)
    requires ValidNode(n) && n.Interior?
    ensures forall i :: 0 <= i < |n.children| ==>
              ValidNode(n.children[i]) && Height(n.children[i]) + 1 == Height(n)
  {
  }

  /** The separators of a valid interior node route its contents to its children. */
  lemma InteriorRouted(n: Node)
    requires ValidNode(n) && n.Interior?
    ensures Routed(n.keys, ChildContents(n.children), Contents(n))
  {
    RoutedMerge(n.keys, ChildContents(n.children));
  }

  /**
   * An interior node built from valid children of one height whose
   * contents the separators route to m is valid and maps m.
   */
  lemma Assemble(ks: seq<string>, ch: seq<Node>, cs: seq<Lists>, m: Lists, h: nat)
    requires 0 < |ks| <= ORDER && Sorted(ks)
    requires forall i :: 0 <= i < |ch| ==> ValidNode(ch[i]) && Height(ch[i]) == h
    requires ChildContents(ch) == cs && Routed(ks, cs, m)
    ensures ValidNode(Interior(ks, ch)) && Contents(Interior(ks, ch)) == m
    ensures Height(Interior(ks, ch)) == h + 1
  {
    RoutedUnique(ks, cs, m);
  }

  /**
   * The same with the contents given as the merge of separated children.
   */
  lemma AssembleMerged(ks: seq<string>, ch: seq<Node>, cs: seq<Lists>, h: nat)
    requires 0 < |ks| <= ORDER && Sorted(ks) && |ch| == |ks| + 1
    requires forall i :: 0 <= i < |ch| ==> ValidNode(ch[i]) && Height(ch[i]) == h
    requires ChildContents(ch) == cs && Separated(ks, cs)
    ensures ValidNode(Interior(ks, ch)) && Contents(Interior(ks, ch)) == Merge(ks, cs)
    ensures Height(Interior(ks, ch)) == h + 1
  {
  }

  /** A valid subtree is never empty. */
  ghost function AnyKey(n: Node): (k: string)
    requires ValidNode(n)
    ensures k in Contents(n)
    decreases n
  {
    match n
    case Leaf(ks, ls) =>
      LeafMapAt(ks, ls);
      ks[0]
    case Interior(ks, ch) =>
      KidsValid(n);
      InteriorRouted(n);
      AnyKey(ch[0])
  }

  /**
   * getRecordList(node, key): descend by ChildIndex, then scan the leaf,
   * stopping at the key or at the first key greater than it.  The source
   * null result is None.
   */
  method GetNodeRecordList(n: Node, key: string) returns (list: Option<seq<DataRecord>>)
    requires ValidNode(n)
    ensures list == if key in Contents(n) then Some(Contents(n)[key]) else None
    decreases n
  {
    match n
    case Leaf(ks, ls) =>
      LeafMapAt(ks, ls);
      list := None;
      var i := 0;
      while i < |ks|
        invariant 0 <= i <= |ks|
        invariant forall j :: 0 <= j < i ==> ks[j] != key
      {
        if key == ks[i] {
          list := Some(ls[i]);
          break;
        } else if Less(key, ks[i]) {
          forall j | i <= j < |ks| ensures ks[j] != key {
            LessIrreflexive(key);
            if j > i {
              LessTransitive(key, ks[i], ks[j]);
            }
          }
          break;
        }
        i := i + 1;
      }
    case Interior(ks, ch) =>
      var index := 0;
      while index < |ks| && !Less(key, ks[index])
        invariant 0 <= index <= |ks|
        invariant forall j :: 0 <= j < index ==> !Less(key, ks[j])
      {
        index := index + 1;
      }
      ChildIndexOfScan(ks, key, index);
      KidsValid(n);
      InteriorRouted(n);
      list := GetNodeRecordList(ch[index], key);
  }

  /**
   * The scan of insertIntoNonfullLeaf, insertIntoNonfullInteriorNode and
   * splitInteriorNode: advance while the key is greater than keys[index].
   */
  method LocateInsertion(keys: seq<string>, key: string) returns (index: nat)
    ensures index == InsertPos(keys, key)
  {
    index := 0;
    while index < |keys| && Less(keys[index], key)
      invariant index <= |keys|
      invariant forall j :: 0 <= j < index ==> Less(keys[j], key)
    {
      index := index + 1;
    }
    InsertPosOfScan(keys, key, index);
  }

  /**
   * insertIntoNonfullLeaf: shift the keys and lists from the insertion
   * position one slot right into the spare slot, and store key there with
   * a one-record list.  On a sorted leaf without the key this adds exactly
   * that entry and keeps the keys sorted.
   */
  method InsertIntoNonfullLeaf(leaf: Node, key: string, r: DataRecord) returns (updated: Node)
    requires leaf.Leaf? && |leaf.lists| == |leaf.keys| < ORDER
    ensures updated.Leaf? && |updated.lists| == |updated.keys|
    ensures var p := InsertPos(leaf.keys, key);
            updated.keys == InsertAt(leaf.keys, p, key) && updated.lists == InsertAt(leaf.lists, p, [r])
    ensures Sorted(leaf.keys) && key !in leaf.keys ==>
              Sorted(updated.keys) && Contents(updated) == Contents(leaf)[key := [r]]
  {
    var index := LocateInsertion(leaf.keys, key);
    var n := |leaf.keys|;
    var keys, lists := leaf.keys + [key], leaf.lists + [[r]];
    var tempIndex := n;
    while tempIndex > index
      invariant index <= tempIndex <= n && |keys| == |lists| == n + 1
      invariant forall j :: 0 <= j < tempIndex ==> keys[j] == leaf.keys[j] && lists[j] == leaf.lists[j]
      invariant forall j :: tempIndex < j <= n ==> keys[j] == leaf.keys[j - 1] && lists[j] == leaf.lists[j - 1]
    {
      keys := keys[tempIndex := keys[tempIndex - 1]];
      lists := lists[tempIndex := lists[tempIndex - 1]];
      tempIndex := tempIndex - 1;
    }
    keys := keys[index := key];
    lists := lists[index := [r]];
    updated := Leaf(keys, lists);
    ghost var ik, il := InsertAt(leaf.keys, index, key), InsertAt(leaf.lists, index, [r]);
    assert forall j :: 0 <= j <= n ==> keys[j] == ik[j] && lists[j] == il[j];
    assert keys == ik && lists == il;
    if Sorted(leaf.keys) && key !in leaf.keys {
      LeafMapInsert(leaf.keys, leaf.lists, key, r);
    }
  }

  /**
   * The halves of a full sorted leaf around its middle key, with an absent
   * key entered on the side the split sends it to, denote the halves of
   * the grown map; entered on the right it stays behind the first key.
   */
  lemma LeafHalves(ks: seq<string>, ls: seq<seq<DataRecord>>, key: string, r: DataRecord)
    requires |ks| == |ls| == ORDER && Sorted(ks) && key !in LeafMap(ks, ls)
    ensures var h, c := ORDER / 2, LeafMap(ks, ls);
            var m := Added(c, key, r);
            && Sorted(ks[..h]) && Sorted(ks[h..]) && key !in ks[..h] && key !in ks[h..]
            && (LessEq(key, ks[h]) ==>
                  && LeafMap(ks[..h], ls[..h])[key := [r]] == Below(m, ks[h])
                  && LeafMap(ks[h..], ls[h..]) == AtOrAbove(m, ks[h]))
            && (!LessEq(key, ks[h]) ==>
                  && LeafMap(ks[..h], ls[..h]) == Below(m, ks[h])
                  && LeafMap(ks[h..], ls[h..])[key := [r]] == AtOrAbove(m, ks[h])
                  && InsertAt(ks[h..], InsertPos(ks[h..], key), key)[0] == ks[h])
  {
    var h, c := ORDER / 2, LeafMap(ks, ls);
    LeafMapAt(ks, ls);
    LeafMapSplit(ks, ls, h);
    SortedSlices(ks, h);
    assert [] + [r] == [r];
    assert Added(c, key, r) == c[key := [r]];
    SplitOfUpdate(c, key, [r], ks[h]);
    LessTotal(key, ks[h]);
    assert ks[h..][0] == ks[h];
  }

  /**
   * splitLeaf: keys [0, ORDER/2) stay, [ORDER/2, ORDER) move to a new right
   * leaf, the new key goes left iff it is <= the first key of the right leaf,
   * and that first key, which stays in the right leaf, is copied up.
   */
  method SplitLeaf(leaf: Node, key: string, r: DataRecord) returns (left: Node, newKey: string, right: Node)
    requires ValidNode(leaf) && leaf.Leaf? && |leaf.keys| == ORDER && key !in Contents(leaf)
    ensures left.Leaf? && right.Leaf?
    ensures SplitHalves(Added(Contents(leaf), key, r), newKey, left, right, 0)
    ensures newKey == leaf.keys[ORDER / 2] && newKey == right.keys[0]
    ensures var lo, hi := leaf.keys[..ORDER / 2], leaf.keys[ORDER / 2..];
            if LessEq(key, newKey) then
              left.keys == InsertAt(lo, InsertPos(lo, key), key) && right.keys == hi
            else
              left.keys == lo && right.keys == InsertAt(hi, InsertPos(hi, key), key)
  {
    var indexOffset := ORDER / 2;
    // Move elements to the new leaf
    var rightKeys, rightLists := [], [];
    for i := 0 to indexOffset
      invariant |rightKeys| == |rightLists| == i
      invariant forall j :: 0 <= j < i ==>
                  rightKeys[j] == leaf.keys[j + indexOffset] && rightLists[j] == leaf.lists[j + indexOffset]
    {
      rightKeys := rightKeys + [leaf.keys[i + indexOffset]];
      rightLists := rightLists + [leaf.lists[i + indexOffset]];
    }
    var ks, ls := leaf.keys, leaf.lists;
    assert rightKeys == ks[indexOffset..] && rightLists == ls[indexOffset..];
    left := Leaf(ks[..indexOffset], ls[..indexOffset]);
    right := Leaf(rightKeys, rightLists);
    newKey := rightKeys[0];
    LeafHalves(ks, ls, key, r);
    if LessEq(key, newKey) {
      // Insert into the left leaf, which is now non-full
      left := InsertIntoNonfullLeaf(left, key, r);
    } else {
      // Insert into the right leaf, which is non-full
      right := InsertIntoNonfullLeaf(right, key, r);
    }
  }

  /**
   * insertIntoLeaf: a key already present gets the record appended to its
   * list and nothing else changes; otherwise the key is inserted, and a
   * full leaf splits.
   */
  method InsertIntoLeaf(leaf: Node, key: string, r: DataRecord)
    returns (updated: Node, newKey: string, newChild: Option<Node>)
    requires ValidNode(leaf) && leaf.Leaf?
    ensures ValidNode(updated) && updated.Leaf?
    ensures newChild.None? <==> key in Contents(leaf) || |leaf.keys| < ORDER
    ensures key in Contents(leaf) ==> updated.keys == leaf.keys
    ensures newChild.None? ==> Contents(updated) == Added(Contents(leaf), key, r)
    ensures newChild.Some? ==>
              && SplitHalves(Added(Contents(leaf), key, r), newKey, updated, newChild.value, 0)
              && newChild.value.Leaf? && newKey == newChild.value.keys[0]
  {
    updated, newKey, newChild := leaf, "", None;
    var ks, ls := leaf.keys, leaf.lists;
    LeafMapAt(ks, ls);
    var uniqueKey := true;
    var i := 0;
    while i < |ks|
      invariant 0 <= i <= |ks|
      invariant uniqueKey ==> updated == leaf && forall j :: 0 <= j < i ==> ks[j] != key
      invariant !uniqueKey ==> key in Contents(leaf) && updated.Leaf? && updated.keys == ks
      invariant !uniqueKey ==> ValidNode(updated) && Contents(updated) == Added(Contents(leaf), key, r)
    {
      if ks[i] == key {
        uniqueKey := false;
        updated := Leaf(ks, ls[i := ls[i] + [r]]);
        LeafMapAppend(ks, ls, i, r);
        break;
      }
      i := i + 1;
    }
    if uniqueKey {
      if |ks| < ORDER {
        assert [] + [r] == [r];
        updated := InsertIntoNonfullLeaf(leaf, key, r);
      } else {
        var right;
        updated, newKey, right := SplitLeaf(leaf, key, r);
        newChild := Some(right);
      }
    }
  }

  /**
   * insertIntoNonfullInteriorNode: shift the keys from the insertion
   * position, and the children after it, one slot right, and store newKey
   * with newChild directly to its right.
   */
  method InsertIntoNonfullInteriorNode(node: Node, newKey: string, newChild: Node) returns (updated: Node)
    requires node.Interior? && |node.children| == |node.keys| + 1 && |node.keys| < ORDER
    ensures updated.Interior?
    ensures var p := InsertPos(node.keys, newKey);
            && updated.keys == InsertAt(node.keys, p, newKey)
            && updated.children == InsertAt(node.children, p + 1, newChild)
  {
    var index := LocateInsertion(node.keys, newKey);
    var n := |node.keys|;
    var keys, children := node.keys + [newKey], node.children + [newChild];
    var tempIndex := n;
    while tempIndex > index
      invariant index <= tempIndex <= n && |keys| == n + 1 && |children| == n + 2
      invariant forall j :: 0 <= j < tempIndex ==> keys[j] == node.keys[j]
      invariant forall j :: tempIndex < j <= n ==> keys[j] == node.keys[j - 1]
      invariant forall j :: 0 <= j <= tempIndex ==> children[j] == node.children[j]
      invariant forall j :: tempIndex + 1 < j <= n + 1 ==> children[j] == node.children[j - 1]
    {
      keys := keys[tempIndex := keys[tempIndex - 1]];
      children := children[tempIndex + 1 := children[tempIndex]];
      tempIndex := tempIndex - 1;
    }
    keys := keys[index := newKey];
    children := children[index + 1 := newChild];
    updated := Interior(keys, children);
    ghost var ik, ic := InsertAt(node.keys, index, newKey), InsertAt(node.children, index + 1, newChild);
    assert forall j :: 0 <= j <= n ==> keys[j] == ik[j];
    assert forall j :: 0 <= j <= n + 1 ==> children[j] == ic[j];
    assert keys == ik && children == ic;
  }

  /**
   * splitInteriorNode: the ORDER keys and ORDER+1 children plus the new
   * separator and child are laid out in temporary sequences as
   * insertIntoNonfullInteriorNode would; the first ORDER/2 keys and
   * ORDER/2+1 children stay, the middle key is promoted, and the rest move
   * to a new interior node.
   */
  method SplitInteriorNode(node: Node, newKey: string, newChild: Node)
    returns (left: Node, promoted: string, right: Node)
    requires node.Interior? && |node.keys| == ORDER && |node.children| == ORDER + 1
    ensures left.Interior? && right.Interior?
    ensures var p := InsertPos(node.keys, newKey);
            var tempKeys := InsertAt(node.keys, p, newKey);
            var tempChildren := InsertAt(node.children, p + 1, newChild);
            && left.keys == tempKeys[..ORDER / 2] && left.children == tempChildren[..ORDER / 2 + 1]
            && promoted == tempKeys[ORDER / 2]
            && right.keys == tempKeys[ORDER / 2 + 1..] && right.children == tempChildren[ORDER / 2 + 1..]
  {
    // Temporary sequences imitating an extended node, spare slot included
    var tempKeys, tempChildren := node.keys + [newKey], node.children + [newChild];
    // Locate the insertion index in the temp node
    var index := LocateInsertion(node.keys, newKey);
    // Insert the new key and child into the temp sequences
    var tempIndex := ORDER;
    while tempIndex > index
      invariant index <= tempIndex <= ORDER && |tempKeys| == ORDER + 1 && |tempChildren| == ORDER + 2
      invariant forall j :: 0 <= j < tempIndex ==> tempKeys[j] == node.keys[j]
      invariant forall j :: tempIndex < j <= ORDER ==> tempKeys[j] == node.keys[j - 1]
      invariant forall j :: 0 <= j <= tempIndex ==> tempChildren[j] == node.children[j]
      invariant forall j :: tempIndex + 1 < j <= ORDER + 1 ==> tempChildren[j] == node.children[j - 1]
    {
      tempKeys := tempKeys[tempIndex := tempKeys[tempIndex - 1]];
      tempChildren := tempChildren[tempIndex + 1 := tempChildren[tempIndex]];
      tempIndex := tempIndex - 1;
    }
    tempKeys := tempKeys[index := newKey];
    tempChildren := tempChildren[index + 1 := newChild];
    ghost var ik, ic := InsertAt(node.keys, index, newKey), InsertAt(node.children, index + 1, newChild);
    assert forall j :: 0 <= j <= ORDER ==> tempKeys[j] == ik[j];
    assert forall j :: 0 <= j <= ORDER + 1 ==> tempChildren[j] == ic[j];
    assert tempKeys == ik && tempChildren == ic;
    // The upper half goes to a new interior node, the lower half stays
    var offset := ORDER / 2 + 1;
    right := Interior(tempKeys[offset..], tempChildren[offset..]);
    left := Interior(tempKeys[..ORDER / 2], tempChildren[..ORDER / 2 + 1]);
    promoted := tempKeys[ORDER / 2];
  }

  /**
   * The recursive insert into child i returned a grown child without a
   * split: the node with that child is valid and maps m with r appended.
   */
  lemma ChildGrown(n: Node, i: nat, child: Node, key: string, r: DataRecord)
    requires ValidNode(n) && n.Interior? && i == ChildIndex(n.keys, key)
    requires ValidNode(child) && Height(child) == Height(n.children[i])
    requires Contents(child) == Added(Contents(n.children[i]), key, r)
    ensures ValidNode(Interior(n.keys, n.children[i := child]))
    ensures Contents(Interior(n.keys, n.children[i := child])) == Added(Contents(n), key, r)
    ensures Height(Interior(n.keys, n.children[i := child])) == Height(n)
  {
    KidsValid(n);
    InteriorRouted(n);
    var cs := ChildContents(n.children);
    RoutedAdd(n.keys, cs, Contents(n), key, r);
    var ch := n.children[i := child];
    assert ChildContents(ch) == cs[i := Added(cs[i], key, r)];
    Assemble(n.keys, ch, cs[i := Added(cs[i], key, r)], Added(Contents(n), key, r), Height(n) - 1);
  }

  /** Child i replaced by a left half followed by a right half. */
  function Splice(ch: seq<Node>, i: nat, left: Node, right: Node): seq<Node>
    requires i < |ch|
  {
    InsertAt(ch[i := left], i + 1, right)
  }

  /** Replacing one subtree replaces its contents and nothing else. */
  lemma ChildContentsUpdate(ch: seq<Node>, i: nat, c: Node)
    requires i < |ch|
    ensures ChildContents(ch[i := c]) == ChildContents(ch)[i := Contents(c)]
  {
    var u, cs := ChildContents(ch[i := c]), ChildContents(ch)[i := Contents(c)];
    forall j | 0 <= j < |ch| ensures u[j] == cs[j] {
      if j != i {
        assert ch[i := c][j] == ch[j];
      }
    }
  }

  /** Inserting a subtree inserts its contents at the same place. */
  lemma ChildContentsInsert(ch: seq<Node>, i: nat, c: Node)
    requires i <= |ch|
    ensures ChildContents(InsertAt(ch, i, c)) == InsertAt(ChildContents(ch), i, Contents(c))
  {
    var u, cs := ChildContents(InsertAt(ch, i, c)), InsertAt(ChildContents(ch), i, Contents(c));
    forall j | 0 <= j <= |ch| ensures u[j] == cs[j] {
      if j < i {
        assert InsertAt(ch, i, c)[j] == ch[j];
      } else if i < j {
        assert InsertAt(ch, i, c)[j] == ch[j - 1];
      }
    }
  }

  /**
   * Child i replaced by the two halves of its split at sep: the children
   * are still valid and of one height ...
   */
  lemma SplicedValid(ch: seq<Node>, i: nat, child: Node, right: Node, h: nat)
    requires i < |ch|
    requires forall j :: 0 <= j < |ch| ==> ValidNode(ch[j]) && Height(ch[j]) == h
    requires ValidNode(child) && Height(child) == h
    requires ValidNode(right) && Height(right) == h
    ensures forall j :: 0 <= j <= |ch| ==>
              ValidNode(Splice(ch, i, child, right)[j]) &&
              Height(Splice(ch, i, child, right)[j]) == h
  {
    var spliced := Splice(ch, i, child, right);
    forall j | 0 <= j < |spliced|
      ensures ValidNode(spliced[j]) && Height(spliced[j]) == h
    {
      if j < i {
        assert spliced[j] == ch[j];
      } else if i + 1 < j {
        assert spliced[j] == ch[j - 1];
      }
    }
  }

  /** ... and their contents are the split of the contents of the grown child. */
  lemma Spliced(ch: seq<Node>, i: nat, child: Node, right: Node, grown: Lists, sep: string)
    requires i < |ch|
    requires Contents(child) == Below(grown, sep) && Contents(right) == AtOrAbove(grown, sep)
    ensures ChildContents(Splice(ch, i, child, right)) ==
              SplitChildren(ChildContents(ch)[i := grown], i, sep)
  {
    var cs := ChildContents(ch);
    ChildContentsUpdate(ch, i, child);
    ChildContentsInsert(ch[i := child], i + 1, right);
    assert cs[i := grown][i := Below(grown, sep)] == cs[i := Below(grown, sep)];
  }

  /**
   * The recursive insert into child i split it at sep: putting sep at i
   * and the split-off right sibling after the child keeps the keys sorted
   * and routes the grown contents.
   */
  lemma ChildSplit(n: Node, i: nat, child: Node, sep: string, right: Node, key: string, r: DataRecord)
    requires ValidNode(n) && n.Interior? && i == ChildIndex(n.keys, key)
    requires ValidNode(child) && Height(child) == Height(n.children[i])
    requires ValidNode(right) && Height(right) == Height(n.children[i])
    requires Contents(child) == Below(Added(Contents(n.children[i]), key, r), sep)
    requires Contents(right) == AtOrAbove(Added(Contents(n.children[i]), key, r), sep)
    ensures InsertPos(n.keys, sep) == i && Sorted(InsertAt(n.keys, i, sep))
    ensures forall j :: 0 <= j <= |n.children| ==>
              ValidNode(Splice(n.children, i, child, right)[j]) &&
              Height(Splice(n.children, i, child, right)[j]) + 1 == Height(n)
    ensures Routed(InsertAt(n.keys, i, sep), ChildContents(Splice(n.children, i, child, right)),
                   Added(Contents(n), key, r))
  {
    KidsValid(n);
    var cs := ChildContents(n.children);
    var m := Added(Contents(n), key, r);
    var cs1 := cs[i := Added(cs[i], key, r)];
    var grown := Added(Contents(n.children[i]), key, r);
    assert cs1 == cs[i := grown];
    var lo, hi := AnyKey(child), AnyKey(right);
    assert lo in cs1[i] && Less(lo, sep) && hi in cs1[i] && LessEq(sep, hi);
    SplicedValid(n.children, i, child, right, Height(n) - 1);
    Spliced(n.children, i, child, right, grown, sep);
    assert Routed(n.keys, cs1, m) by {
      InteriorRouted(n);
      RoutedAdd(n.keys, cs, Contents(n), key, r);
    }
    RoutedSplit(n.keys, cs1, m, i, sep, lo, hi);
  }

  /**
   * ... so with room for one more key, the node with sep inserted at i and
   * the two halves in place of child i is valid and maps the grown contents.
   */
  lemma AbsorbedValid(n: Node, i: nat, child: Node, sep: string, right: Node, key: string, r: DataRecord)
    requires ValidNode(n) && n.Interior? && i == ChildIndex(n.keys, key) && |n.keys| < ORDER
    requires ValidNode(child) && Height(child) == Height(n.children[i])
    requires ValidNode(right) && Height(right) == Height(n.children[i])
    requires Contents(child) == Below(Added(Contents(n.children[i]), key, r), sep)
    requires Contents(right) == AtOrAbove(Added(Contents(n.children[i]), key, r), sep)
    ensures InsertPos(n.keys, sep) == i
    ensures ValidNode(Interior(InsertAt(n.keys, i, sep), Splice(n.children, i, child, right)))
    ensures Contents(Interior(InsertAt(n.keys, i, sep), Splice(n.children, i, child, right))) ==
              Added(Contents(n), key, r)
    ensures Height(Interior(InsertAt(n.keys, i, sep), Splice(n.children, i, child, right))) == Height(n)
  {
    ChildSplit(n, i, child, sep, right, key, r);
    var ch := Splice(n.children, i, child, right);
    Assemble(InsertAt(n.keys, i, sep), ch, ChildContents(ch), Added(Contents(n), key, r), Height(n) - 1);
  }

  /** The first k of some valid children: their contents are the first k contents. */
  lemma ChildrenTake(ch: seq<Node>, k: nat, h: nat)
    requires k <= |ch|
    requires forall j :: 0 <= j < |ch| ==> ValidNode(ch[j]) && Height(ch[j]) == h
    ensures forall j :: 0 <= j < k ==> ValidNode(ch[..k][j]) && Height(ch[..k][j]) == h
    ensures ChildContents(ch[..k]) == ChildContents(ch)[..k]
  {
  }

  /** The children after the first k: their contents are the contents after k. */
  lemma ChildrenDrop(ch: seq<Node>, k: nat, h: nat)
    requires k <= |ch|
    requires forall j :: 0 <= j < |ch| ==> ValidNode(ch[j]) && Height(ch[j]) == h
    ensures forall j :: 0 <= j < |ch| - k ==> ValidNode(ch[k..][j]) && Height(ch[k..][j]) == h
    ensures ChildContents(ch[k..]) == ChildContents(ch)[k..]
  {
    var d := ch[k..];
    assert forall j :: 0 <= j < |d| ==> d[j] == ch[j + k];
  }

  /**
   * Splitting a valid extended node (ORDER + 1 routed keys) around its
   * middle key: the lower half is a valid node one level above the
   * children holding the entries below that key ...
   */
  lemma LowHalfValid(ks: seq<string>, ch: seq<Node>, m: Lists, h: nat)
    requires |ks| == ORDER + 1 && Sorted(ks) && |ch| == |ks| + 1
    requires forall j :: 0 <= j < |ch| ==> ValidNode(ch[j]) && Height(ch[j]) == h
    requires Routed(ks, ChildContents(ch), m)
    ensures ValidNode(Interior(ks[..ORDER / 2], ch[..ORDER / 2 + 1]))
    ensures Contents(Interior(ks[..ORDER / 2], ch[..ORDER / 2 + 1])) == Below(m, ks[ORDER / 2])
    ensures Height(Interior(ks[..ORDER / 2], ch[..ORDER / 2 + 1])) == h + 1
  {
    var lk, lc, cs := ks[..ORDER / 2], ch[..ORDER / 2 + 1], ChildContents(ch)[..ORDER / 2 + 1];
    ChildrenTake(ch, ORDER / 2 + 1, h);
    SortedSlices(ks, ORDER / 2);
    RoutedLowHalf(ks, ChildContents(ch), m, ORDER / 2);
    AssembleMerged(lk, lc, cs, h);
  }

  /** ... and the upper half one holding the entries at or above it. */
  lemma HighHalfValid(ks: seq<string>, ch: seq<Node>, m: Lists, h: nat)
    requires |ks| == ORDER + 1 && Sorted(ks) && |ch| == |ks| + 1
    requires forall j :: 0 <= j < |ch| ==> ValidNode(ch[j]) && Height(ch[j]) == h
    requires Routed(ks, ChildContents(ch), m)
    ensures ValidNode(Interior(ks[ORDER / 2 + 1..], ch[ORDER / 2 + 1..]))
    ensures Contents(Interior(ks[ORDER / 2 + 1..], ch[ORDER / 2 + 1..])) == AtOrAbove(m, ks[ORDER / 2])
    ensures Height(Interior(ks[ORDER / 2 + 1..], ch[ORDER / 2 + 1..])) == h + 1
  {
    var hk, hc, cs := ks[ORDER / 2 + 1..], ch[ORDER / 2 + 1..], ChildContents(ch)[ORDER / 2 + 1..];
    ChildrenDrop(ch, ORDER / 2 + 1, h);
    SortedSlices(ks, ORDER / 2 + 1);
    RoutedHighHalf(ks, ChildContents(ch), m, ORDER / 2);
    AssembleMerged(hk, hc, cs, h);
  }

  /**
   * A full node absorbing the split of child i: the two halves of the
   * extended node around its middle key are valid and split the grown
   * contents at that key.
   */
  lemma PromotedValid(n: Node, i: nat, child: Node, sep: string, right: Node, key: string, r: DataRecord)
    requires ValidNode(n) && n.Interior? && i == ChildIndex(n.keys, key) && |n.keys| == ORDER
    requires ValidNode(child) && Height(child) == Height(n.children[i])
    requires ValidNode(right) && Height(right) == Height(n.children[i])
    requires Contents(child) == Below(Added(Contents(n.children[i]), key, r), sep)
    requires Contents(right) == AtOrAbove(Added(Contents(n.children[i]), key, r), sep)
    ensures InsertPos(n.keys, sep) == i
    ensures ValidNode(Interior(InsertAt(n.keys, i, sep)[..ORDER / 2], Splice(n.children, i, child, right)[..ORDER / 2 + 1]))
    ensures ValidNode(Interior(InsertAt(n.keys, i, sep)[ORDER / 2 + 1..], Splice(n.children, i, child, right)[ORDER / 2 + 1..]))
    ensures Height(Interior(InsertAt(n.keys, i, sep)[..ORDER / 2], Splice(n.children, i, child, right)[..ORDER / 2 + 1])) == Height(n)
    ensures Height(Interior(InsertAt(n.keys, i, sep)[ORDER / 2 + 1..], Splice(n.children, i, child, right)[ORDER / 2 + 1..])) == Height(n)
    ensures Contents(Interior(InsertAt(n.keys, i, sep)[..ORDER / 2], Splice(n.children, i, child, right)[..ORDER / 2 + 1])) ==
              Below(Added(Contents(n), key, r), InsertAt(n.keys, i, sep)[ORDER / 2])
    ensures Contents(Interior(InsertAt(n.keys, i, sep)[ORDER / 2 + 1..], Splice(n.children, i, child, right)[ORDER / 2 + 1..])) ==
              AtOrAbove(Added(Contents(n), key, r), InsertAt(n.keys, i, sep)[ORDER / 2])
  {
    ChildSplit(n, i, child, sep, right, key, r);
    var ch, m := Splice(n.children, i, child, right), Added(Contents(n), key, r);
    LowHalfValid(InsertAt(n.keys, i, sep), ch, m, Height(n) - 1);
    HighHalfValid(InsertAt(n.keys, i, sep), ch, m, Height(n) - 1);
  }

  /**
   * insert(node, key, record): the record is appended under key in the
   * subtree; when the root of the subtree splits, the split-off right sibling
   * and the separator to put before it are returned (the source passes
   * them back in the _newChild and _newKey fields).  A key that is
   * already present never causes a split.
   */
  method InsertIntoNode(n: Node, key: string, r: DataRecord) returns (node: Node, newKey: string, newChild: Option<Node>)
    requires ValidNode(n)
    ensures ValidNode(node) && Height(node) == Height(n)
    ensures newChild.None? ==> Contents(node) == Added(Contents(n), key, r)
    ensures newChild.Some? ==> SplitHalves(Added(Contents(n), key, r), newKey, node, newChild.value, Height(n))
    ensures key in Contents(n) ==> newChild.None?
    ensures newChild.Some? ==> |n.keys| == ORDER
    decreases n, 1
  {
    if n.Leaf? {
      node, newKey, newChild := InsertIntoLeaf(n, key, r);
    } else {
      node, newKey, newChild := InsertIntoInterior(n, key, r);
    }
  }

  /** The interior-node branch of insert: descend, insert, absorb a split. */
  method InsertIntoInterior(n: Node, key: string, r: DataRecord) returns (node: Node, newKey: string, newChild: Option<Node>)
    requires ValidNode(n) && n.Interior?
    ensures ValidNode(node) && Height(node) == Height(n)
    ensures newChild.None? ==> Contents(node) == Added(Contents(n), key, r)
    ensures newChild.Some? ==> SplitHalves(Added(Contents(n), key, r), newKey, node, newChild.value, Height(n))
    ensures key in Contents(n) ==> newChild.None?
    ensures newChild.Some? ==> |n.keys| == ORDER
    decreases n, 0
  {
    var ks := n.keys;
    var index := 0;
    while index < |ks| && !Less(key, ks[index])
      invariant 0 <= index <= |ks|
      invariant forall j :: 0 <= j < index ==> !Less(key, ks[j])
    {
      index := index + 1;
    }
    ChildIndexOfScan(ks, key, index);
    KidsValid(n);
    assert key in Contents(n) <==> key in Contents(n.children[index]) by {
      InteriorRouted(n);
    }
    var child, sep, right := InsertIntoNode(n.children[index], key, r);
    if right.None? {
      node, newKey, newChild := Interior(ks, n.children[index := child]), "", None;
      ChildGrown(n, index, child, key, r);
    } else {
      if |ks| < ORDER {
        node := AbsorbSplit(n, index, child, sep, right.value, key, r);
        newKey, newChild := "", None;
      } else {
        var rightNode;
        node, newKey, rightNode := PromoteSplit(n, index, child, sep, right.value, key, r);
        newChild := Some(rightNode);
      }
    }
  }

  /**
   * Child i of n split into child and right at sep and n has room: sep and
   * right go into n, which then maps the grown contents.
   */
  method AbsorbSplit(n: Node, i: nat, child: Node, sep: string, right: Node, key: string, r: DataRecord)
      returns (node: Node)
    requires ValidNode(n) && n.Interior? && i == ChildIndex(n.keys, key) && |n.keys| < ORDER
    requires SplitHalves(Added(Contents(n.children[i]), key, r), sep, child, right, Height(n.children[i]))
    ensures ValidNode(node) && Height(node) == Height(n)
    ensures Contents(node) == Added(Contents(n), key, r)
  {
    assert InsertPos(n.keys, sep) == i by {
      ChildSplit(n, i, child, sep, right, key, r);
    }
    node := InsertIntoNonfullInteriorNode(Interior(n.keys, n.children[i := child]), sep, right);
    assert node == Interior(InsertAt(n.keys, i, sep), Splice(n.children, i, child, right));
    AbsorbedValid(n, i, child, sep, right, key, r);
  }

  /**
   * ... and when n is full: n splits around the middle key of the extended
   * node, whose halves split the grown contents at the promoted key.
   */
  method PromoteSplit(n: Node, i: nat, child: Node, sep: string, right: Node, key: string, r: DataRecord)
      returns (left: Node, promoted: string, upper: Node)
    requires ValidNode(n) && n.Interior? && i == ChildIndex(n.keys, key) && |n.keys| == ORDER
    requires SplitHalves(Added(Contents(n.children[i]), key, r), sep, child, right, Height(n.children[i]))
    ensures SplitHalves(Added(Contents(n), key, r), promoted, left, upper, Height(n))
  {
    assert InsertPos(n.keys, sep) == i by {
      ChildSplit(n, i, child, sep, right, key, r);
    }
    left, promoted, upper := SplitInteriorNode(Interior(n.keys, n.children[i := child]), sep, right);
    assert SplitHalves(Added(Contents(n), key, r), promoted, left, upper, Height(n)) by {
      ghost var ks, ch := InsertAt(n.keys, i, sep), Splice(n.children, i, child, right);
      assert left == Interior(ks[..ORDER / 2], ch[..ORDER / 2 + 1]) && promoted == ks[ORDER / 2];
      assert upper == Interior(ks[ORDER / 2 + 1..], ch[ORDER / 2 + 1..]);
      PromotedValid(n, i, child, sep, right, key, r);
    }
  }

  /**
   * createNewRoot: one separator over the old root and the split-off
   * sibling.
   */
  function NewRoot(oldRoot: Node, newKey: string, newChild: Node): (root: Node)
    ensures root.Interior? && root.keys == [newKey] && root.children == [oldRoot, newChild]
  {
    Interior([newKey], [oldRoot, newChild])
  }

  /**
   * The new root is valid and one level higher than the old one when the
   * two children are the halves of a split at its separator.
   */
  lemma NewRootValid(oldRoot: Node, newKey: string, newChild: Node, m: Lists)
    requires SplitHalves(m, newKey, oldRoot, newChild, Height(oldRoot))
    ensures ValidNode(NewRoot(oldRoot, newKey, newChild))
    ensures Contents(NewRoot(oldRoot, newKey, newChild)) == m
    ensures Height(NewRoot(oldRoot, newKey, newChild)) == Height(oldRoot) + 1
  {
    RoutedRoot(m, newKey);
    var ch := [oldRoot, newChild];
    assert ChildContents(ch) == [Below(m, newKey), AtOrAbove(m, newKey)];
    Assemble([newKey], ch, [Below(m, newKey), AtOrAbove(m, newKey)], m, Height(oldRoot));
  }

  /**
   * BTree: the root is null until the first insert.  Every record list
   * reachable from it holds DataRecord objects owned by the table.
   */
  class BTree {
    /** _root; None is null in the source */
    var root: Option<Node>

    ghost predicate Valid()
      reads this
    {
      root.Some? ==> ValidNode(root.value)
    }

    /** The key -> record list map the tree stands for. */
    ghost function Entries(): Lists
      reads this
    {
      if root.None? then map[] else Contents(root.value)
    }

    constructor ()
      ensures Valid() && root == None && Entries() == map[]
    {
      root := None;
    }

    /**
     * getRecordList(key): the list stored under key, None when the key was
     * never inserted.  The source dereferences the root without a null
     * check, so an empty tree is outside its domain.
     */
    method GetRecordList(key: string) returns (list: Option<seq<DataRecord>>)
      requires Valid() && root.Some?
      ensures list == if key in Entries() then Some(Entries()[key]) else None
    {
      list := GetNodeRecordList(root.value, key);
    }

    /**
     * insert(key, record): the first insert creates a one-key leaf root;
     * later ones insert below the root and, when the root splits, grow the
     * tree by one level through createNewRoot.
     */
    method Insert(key: string, r: DataRecord)
      requires Valid()
      modifies this
      ensures Valid() && root.Some?
      ensures Entries() == Added(old(Entries()), key, r)
      ensures old(root).None? ==> root == Some(Leaf([key], [[r]]))
      ensures old(root).Some? ==>
                || Height(root.value) == Height(old(root).value)
                || (&& key !in old(Entries()) && |old(root).value.keys| == ORDER
                    && Height(root.value) == Height(old(root).value) + 1
                    && root.value.Interior? && |root.value.keys| == 1 && |root.value.children| == 2)
    {
      if root.None? {
        root := Some(Leaf([key], [[r]]));
        assert Contents(root.value) == map[key := [r]] == Added(map[], key, r) by {
          assert LeafMap([key], [[r]]) == LeafMap([], [])[key := [r]];
          assert [] + [r] == [r];
        }
      } else {
        var node, newKey, newChild := InsertIntoNode(root.value, key, r);
        if newChild.Some? {
          NewRootValid(node, newKey, newChild.value, Added(Contents(root.value), key, r));
          root := Some(NewRoot(node, newKey, newChild.value));
        } else {
          root := Some(node);
        }
      }
    }
  }
}
