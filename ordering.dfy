/** `ORDER BY` for the catalog's queries. Text columns compare under SQLite's
    default BINARY collation, which on well-formed text is the code-point
    lexicographic order. Every ORDER BY of the core is one integer key taken
    descending, optionally followed by one text key taken ascending. */
module Ordering {

  /** Lexicographic order on strings (a prefix sorts first). */
  predicate TextLe(a: string, b: string)
  {
    if a == [] then true
    else if b == [] then false
    else a[0] < b[0] || (a[0] == b[0] && TextLe(a[1..], b[1..]))
  }

  lemma {:induction false} TextLeTotal(a: string, b: string)
    ensures TextLe(a, b) || TextLe(b, a)
  {
    if a != [] && b != [] && a[0] == b[0] {
      TextLeTotal(a[1..], b[1..]);
    }
  }

  lemma {:induction false} TextLeTransitive(a: string, b: string, c: string)
    requires TextLe(a, b) && TextLe(b, c)
    ensures TextLe(a, c)
  {
    if a != [] && b != [] && c != [] && a[0] == b[0] && b[0] == c[0] {
      TextLeTransitive(a[1..], b[1..], c[1..]);
    }
  }

  lemma {:induction false} TextLeAntisymmetric(a: string, b: string)
    requires TextLe(a, b) && TextLe(b, a)
    ensures a == b
  {
    if a != [] && b != [] {
      TextLeAntisymmetric(a[1..], b[1..]);
      assert a == [a[0]] + a[1..] && b == [b[0]] + b[1..];
    }
  }

  /** A sort key: `rank` is taken DESC, then `text` ASC. */
  datatype Key = Key(rank: int, text: string)

  predicate KeyLe(x: Key, y: Key)
  {
    x.rank > y.rank || (x.rank == y.rank && TextLe(x.text, y.text))
  }

  lemma KeyLeTotal(x: Key, y: Key)
    ensures KeyLe(x, y) || KeyLe(y, x)
  {
    TextLeTotal(x.text, y.text);
  }

  lemma KeyLeTransitive(x: Key, y: Key, z: Key)
    requires KeyLe(x, y) && KeyLe(y, z)
    ensures KeyLe(x, z)
  {
    if x.rank == y.rank && y.rank == z.rank {
      TextLeTransitive(x.text, y.text, z.text);
    }
  }

  ghost predicate SortedBy<T>(s: seq<T>, key: T -> Key)
  {
    forall i, j | 0 <= i < j < |s| :: KeyLe(key(s[i]), key(s[j]))
  }

  /** Places `x` before the first element it does not sort after; rows with
      equal keys therefore keep the order in which they are inserted. */
  function Insert<T>(x: T, s: seq<T>, key: T -> Key): (r: seq<T>)
    ensures |r| == |s| + 1
  {
    if s == [] then [x]
    else if KeyLe(key(x), key(s[0])) then [x] + s
    else [s[0]] + Insert(x, s[1..], key)
  }

  /** Insertion sort: the rows of `s` in key order, ties in table order. */
  function Sort<T>(s: seq<T>, key: T -> Key): (r: seq<T>)
    ensures |r| == |s|
  {
    if s == [] then [] else Insert(s[0], Sort(s[1..], key), key)
  }

  lemma {:induction false} InsertPermutes<T>(x: T, s: seq<T>, key: T -> Key)
    ensures multiset(Insert(x, s, key)) == multiset(s) + multiset{x}
  {
    if s != [] && !KeyLe(key(x), key(s[0])) {
      InsertPermutes(x, s[1..], key);
      assert s == [s[0]] + s[1..];
    }
  }

  /** Sorting is a permutation: it keeps every row, as often as it occurs. */
  lemma {:induction false} SortPermutes<T>(s: seq<T>, key: T -> Key)
    ensures multiset(Sort(s, key)) == multiset(s)
  {
    if s != [] {
      SortPermutes(s[1..], key);
      InsertPermutes(s[0], Sort(s[1..], key), key);
      assert s == [s[0]] + s[1..];
    }
  }

  lemma {:induction false} InsertSorted<T>(x: T, s: seq<T>, key: T -> Key)
    requires SortedBy(s, key)
    ensures SortedBy(Insert(x, s, key), key)
  {
    if s == [] {
    } else if KeyLe(key(x), key(s[0])) {
      var out := [x] + s;
      forall i, j | 0 <= i < j < |out| ensures KeyLe(key(out[i]), key(out[j])) {
        if i == 0 {
          assert out[j] == s[j - 1];
          if j > 1 { KeyLeTransitive(key(x), key(s[0]), key(s[j - 1])); }
        } else {
          assert out[i] == s[i - 1] && out[j] == s[j - 1];
        }
      }
    } else {
      KeyLeTotal(key(x), key(s[0]));
      var tail := s[1..];
      assert SortedBy(tail, key) by {
        forall i | 0 <= i < |tail| ensures tail[i] == s[i + 1] { }
      }
      InsertSorted(x, tail, key);
      InsertPermutes(x, tail, key);
      var r := Insert(x, tail, key);
      forall i | 0 <= i < |r| ensures KeyLe(key(s[0]), key(r[i])) {
        assert r[i] in multiset(r);
        if r[i] != x {
          assert r[i] in multiset(tail);
          var j :| 0 <= j < |tail| && tail[j] == r[i];
          assert s[j + 1] == r[i];
        }
      }
      ConsSorted(s[0], r, key);
    }
  }

  lemma ConsSorted<T>(x: T, r: seq<T>, key: T -> Key)
    requires SortedBy(r, key)
    requires forall i | 0 <= i < |r| :: KeyLe(key(x), key(r[i]))
    ensures SortedBy([x] + r, key)
  {
    var out := [x] + r;
    forall i, j | 0 <= i < j < |out| ensures KeyLe(key(out[i]), key(out[j])) {
      assert out[j] == r[j - 1];
      if i > 0 { assert out[i] == r[i - 1]; }
    }
  }

  /** The sorted rows are in key order. */
  lemma {:induction false} SortSorted<T>(s: seq<T>, key: T -> Key)
    ensures SortedBy(Sort(s, key), key)
  {
    if s != [] {
      SortSorted(s[1..], key);
      InsertSorted(s[0], Sort(s[1..], key), key);
    }
  }

  /** Sorting keeps exactly the rows it was given. */
  lemma SortSameRows<T>(s: seq<T>, key: T -> Key, x: T)
    ensures x in Sort(s, key) <==> x in s
  {
    var r := Sort(s, key);
    SortPermutes(s, key);
    assert x in r <==> x in multiset(r);
    assert x in s <==> x in multiset(s);
  }
}
