/**
 * The key order of the B+-tree: String.compareTo in Java, which compares two
 * strings by their UTF-16 code units and, when one is a prefix of the other,
 * puts the shorter one first.  Also the two scans over the sorted key
 * array that the tree code performs (descent and insertion position).
 */
module KeyOrder {

  /**
   * The first UTF-16 code unit of c: c itself inside the Basic Multilingual
   * Plane, its high surrogate (0xD800..0xDBFF) above it.
   */
  function HighUnit(c: char): (u: int)
    ensures c as int < 0x1_0000 ==> u == c as int
    ensures c as int >= 0x1_0000 ==> 0xD800 <= u < 0xDC00
  {
    if c as int < 0x1_0000 then c as int else 0xD800 + (c as int - 0x1_0000) / 0x400
  }

  /**
   * Two different characters in code-unit order: their first units decide;
   * two characters sharing a high surrogate are ordered by their low
   * surrogates, which follow the code points.
   */
  predicate CharLess(x: char, y: char) {
    if HighUnit(x) != HighUnit(y) then HighUnit(x) < HighUnit(y) else x < y
  }

  /**
   * Where code-unit order and code-point order part: a supplementary
   * character (here U+1F600, units D83D DE00) sorts before a character
   * from U+E000 upwards (here U+FF01), although its code point is larger.
   */
  lemma SurrogatesSortFirst()
    ensures CharLess('\U{1F600}', '\U{FF01}') && !CharLess('\U{FF01}', '\U{1F600}')
    ensures '\U{FF01}' < '\U{1F600}'
  {
  }

  /** The UTF-16 code units of c: one inside the BMP, a surrogate pair above it. */
  function Units(c: char): (us: seq<int>)
    ensures |us| == if c as int < 0x1_0000 then 1 else 2
    ensures us[0] == HighUnit(c)
  {
    if c as int < 0x1_0000 then [c as int]
    else [HighUnit(c), 0xDC00 + (c as int - 0x1_0000) % 0x400]
  }

  /** The UTF-16 encoding of s, the char array a Java String holds. */
  function Utf16(s: string): (us: seq<int>)
    ensures |s| <= |us| <= 2 * |s|
    ensures |us| == |s| <==> forall i :: 0 <= i < |s| ==> s[i] as int < 0x1_0000
  {
    if |s| == 0 then [] else Units(s[0]) + Utf16(s[1..])
  }

  /** Lexicographic order on code-unit arrays, the loop of String.compareTo. */
  predicate LexLess(x: seq<int>, y: seq<int>)
    decreases |x|
  {
    if |x| == 0 then |y| > 0
    else if |y| == 0 then false
    else if x[0] != y[0] then x[0] < y[0]
    else LexLess(x[1..], y[1..])
  }

  lemma {:induction false} LexLessCommonPrefix(p: seq<int>, x: seq<int>, y: seq<int>)
    ensures LexLess(p + x, p + y) <==> LexLess(x, y)
    decreases |p|
  {
    if |p| == 0 {
      assert p + x == x && p + y == y;
    } else {
      assert (p + x)[1..] == p[1..] + x && (p + y)[1..] == p[1..] + y;
      LexLessCommonPrefix(p[1..], x, y);
    }
  }

  /** Two different characters: their unit sequences decide as CharLess does. */
  lemma UnitsDecide(c: char, d: char, x: seq<int>, y: seq<int>)
    requires c != d
    ensures LexLess(Units(c) + x, Units(d) + y) <==> CharLess(c, d)
  {
  }

  /**
   * compareTo order is the lexicographic order of the UTF-16 encodings,
   * for all strings.
   */
  lemma {:induction false} LessIsUtf16Order(a: string, b: string)
    ensures Less(a, b) <==> LexLess(Utf16(a), Utf16(b))
    decreases |a|
  {
    if |a| > 0 && |b| > 0 {
      if a[0] == b[0] {
        LessIsUtf16Order(a[1..], b[1..]);
        LexLessCommonPrefix(Units(a[0]), Utf16(a[1..]), Utf16(b[1..]));
      } else {
        UnitsDecide(a[0], b[0], Utf16(a[1..]), Utf16(b[1..]));
      }
    }
  }

  /** `a.compareTo(b) < 0` */
  predicate Less(a: string, b: string)
    decreases |a|
  {
    if |a| == 0 then |b| > 0
    else if |b| == 0 then false
    else if a[0] != b[0] then CharLess(a[0], b[0])
    else Less(a[1..], b[1..])
  }

  /** `a.compareTo(b) <= 0` */
  predicate LessEq(a: string, b: string) {
    a == b || Less(a, b)
  }

  lemma {:induction false} LessIrreflexive(a: string)
    ensures !Less(a, a)
    decreases |a|
  {
    if |a| > 0 {
      LessIrreflexive(a[1..]);
    }
  }

  lemma {:induction false} LessTransitive(a: string, b: string, c: string)
    requires Less(a, b) && Less(b, c)
    ensures Less(a, c)
    decreases |a|
  {
    if |a| > 0 && a[0] == b[0] && b[0] == c[0] {
      LessTransitive(a[1..], b[1..], c[1..]);
    }
  }

  /** compareTo is a total order: exactly one of <, ==, > holds. */
  lemma {:induction false} LessTotal(a: string, b: string)
    ensures a == b || Less(a, b) || Less(b, a)
    ensures !(Less(a, b) && Less(b, a))
    decreases |a|
  {
    if |a| > 0 && |b| > 0 && a[0] == b[0] {
      LessTotal(a[1..], b[1..]);
      if a[1..] == b[1..] {
        assert a == [a[0]] + a[1..] && b == [b[0]] + b[1..];
      }
    }
  }

  lemma LessLessEq(a: string, b: string, c: string)
    requires (Less(a, b) && LessEq(b, c)) || (LessEq(a, b) && Less(b, c))
    ensures Less(a, c)
  {
    if a != b && b != c {
      LessTransitive(a, b, c);
    }
  }

  /** Keys of a node: strictly increasing. */
  ghost predicate Sorted(s: seq<string>) {
    forall i, j :: 0 <= i < j < |s| ==> Less(s[i], s[j])
  }

  lemma SortedSlices(ks: seq<string>, h: nat)
    requires Sorted(ks) && h <= |ks|
    ensures Sorted(ks[..h]) && Sorted(ks[h..])
  {
    assert forall i :: 0 <= i < |ks| - h ==> ks[h..][i] == ks[h + i];
  }

  function InsertAt<T>(s: seq<T>, i: nat, x: T): (r: seq<T>)
    requires i <= |s|
    ensures |r| == |s| + 1 && r[i] == x
    ensures forall j :: 0 <= j < i ==> r[j] == s[j]
    ensures forall j :: i < j < |r| ==> r[j] == s[j - 1]
  {
    s[..i] + [x] + s[i..]
  }

  /**
   * The descent rule of getRecordList and insert: advance while
   * `key.compareTo(keys[index]) >= 0`, so the result is the number of
   * leading keys that are <= key.
   */
  function ChildIndex(ks: seq<string>, key: string): (i: nat)
    ensures i <= |ks|
  {
    if |ks| == 0 || Less(key, ks[0]) then 0 else 1 + ChildIndex(ks[1..], key)
  }

  /**
   * The insertion-position rule of the insertInto... helpers: advance while
   * `key.compareTo(keys[index]) > 0`, so the result is the number of leading
   * keys that are < key.
   */
  function InsertPos(ks: seq<string>, key: string): (i: nat)
    ensures i <= |ks|
  {
    if |ks| == 0 || !Less(ks[0], key) then 0 else 1 + InsertPos(ks[1..], key)
  }

  /** ChildIndex stops exactly at the first key greater than `key`. */
  lemma {:induction false} ChildIndexStops(ks: seq<string>, key: string)
    ensures forall j :: 0 <= j < ChildIndex(ks, key) ==> !Less(key, ks[j])
    ensures ChildIndex(ks, key) < |ks| ==> Less(key, ks[ChildIndex(ks, key)])
  {
    if |ks| > 0 && !Less(key, ks[0]) {
      ChildIndexStops(ks[1..], key);
    }
  }

  /** The loop of the source computes ChildIndex. */
  lemma {:induction false} ChildIndexOfScan(ks: seq<string>, key: string, i: nat)
    requires i <= |ks|
    requires forall j :: 0 <= j < i ==> !Less(key, ks[j])
    requires i == |ks| || Less(key, ks[i])
    ensures ChildIndex(ks, key) == i
  {
    if i > 0 {
      ChildIndexOfScan(ks[1..], key, i - 1);
    }
  }

  lemma {:induction false} InsertPosStops(ks: seq<string>, key: string)
    ensures forall j :: 0 <= j < InsertPos(ks, key) ==> Less(ks[j], key)
    ensures InsertPos(ks, key) < |ks| ==> !Less(ks[InsertPos(ks, key)], key)
  {
    if |ks| > 0 && Less(ks[0], key) {
      InsertPosStops(ks[1..], key);
    }
  }

  lemma {:induction false} InsertPosOfScan(ks: seq<string>, key: string, i: nat)
    requires i <= |ks|
    requires forall j :: 0 <= j < i ==> Less(ks[j], key)
    requires i == |ks| || !Less(ks[i], key)
    ensures InsertPos(ks, key) == i
  {
    if i > 0 {
      InsertPosOfScan(ks[1..], key, i - 1);
    }
  }

  /**
   * In a sorted key array, child i receives exactly the keys k with
   * keys[i-1] <= k < keys[i]: the routing order of the tree.
   */
  lemma ChildIndexRange(ks: seq<string>, key: string, i: nat)
    requires Sorted(ks) && i <= |ks|
    ensures ChildIndex(ks, key) == i <==>
              (i == 0 || LessEq(ks[i - 1], key)) && (i == |ks| || Less(key, ks[i]))
  {
    ChildIndexStops(ks, key);
    var c := ChildIndex(ks, key);
    if c < i && i > 0 && LessEq(ks[i - 1], key) {
      if c < i - 1 {
        LessTransitive(key, ks[c], ks[i - 1]);
      }
      LessTotal(key, ks[i - 1]);
      LessIrreflexive(key);
    }
    if c == i && i > 0 {
      LessTotal(key, ks[i - 1]);
    }
  }

  /** Every key at or after InsertPos is greater than a key that is absent. */
  lemma InsertPosAfter(ks: seq<string>, key: string)
    requires Sorted(ks) && key !in ks
    ensures forall m :: InsertPos(ks, key) <= m < |ks| ==> Less(key, ks[m])
  {
    var p := InsertPos(ks, key);
    InsertPosStops(ks, key);
    if p < |ks| {
      LessTotal(key, ks[p]);
      forall m | p < m < |ks| ensures Less(key, ks[m]) {
        LessTransitive(key, ks[p], ks[m]);
      }
    }
  }

  /** Inserting a new key at its InsertPos keeps a key array sorted. */
  lemma InsertKeepsSorted(ks: seq<string>, key: string)
    requires Sorted(ks) && key !in ks
    ensures Sorted(InsertAt(ks, InsertPos(ks, key), key))
  {
    var p := InsertPos(ks, key);
    InsertPosStops(ks, key);
    InsertPosAfter(ks, key);
    var r := InsertAt(ks, p, key);
    forall i, j | 0 <= i < j < |r|
      ensures Less(r[i], r[j])
    {
      if i < p < j {
        LessTransitive(ks[i], key, ks[j - 1]);
      }
    }
  }
}
