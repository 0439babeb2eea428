/**
 * Ordering a sequence of rows by an integer key, ascending or descending:
 * the meaning of `Queryable.OrderBy` and `Queryable.OrderByDescending`.
 */
module Sorting {

  /** Key x may stand before key y in the requested direction. */
  predicate InOrder(x: int, y: int, desc: bool) {
    if desc then x >= y else x <= y
  }

  ghost predicate SortedBy<R>(s: seq<R>, key: R -> int, desc: bool) {
    forall i, j :: 0 <= i < j < |s| ==> InOrder(key(s[i]), key(s[j]), desc)
  }

  /** Inserts x after every row whose key does not come strictly after x's key. */
  function Insert<R>(x: R, s: seq<R>, key: R -> int, desc: bool): (r: seq<R>)
    requires SortedBy(s, key, desc)
    ensures SortedBy(r, key, desc)
    ensures multiset(r) == multiset(s) + multiset{x}
  {
    if s == [] then [x]
    else if key(x) != key(s[0]) && InOrder(key(x), key(s[0]), desc) then [x] + s
    else
      var rest := Insert(x, s[1..], key, desc);
      assert s == [s[0]] + s[1..];
      assert InOrder(key(s[0]), key(x), desc);
      HeadBeforeRest(s, key, desc);
      PrependSorted(s[0], rest, key, desc);
      [s[0]] + rest
  }

  /** In a sorted sequence the first row may stand before every later row. */
  lemma HeadBeforeRest<R>(s: seq<R>, key: R -> int, desc: bool)
    requires SortedBy(s, key, desc) && s != []
    ensures forall y :: y in multiset(s[1..]) ==> InOrder(key(s[0]), key(y), desc)
  {
    forall y | y in multiset(s[1..]) ensures InOrder(key(s[0]), key(y), desc) {
      assert y in s[1..];
      var i :| 0 <= i < |s[1..]| && s[1..][i] == y;
      assert s[i + 1] == y;
    }
  }

  /** A row that may stand before every row of a sorted sequence can be put in front of it. */
  lemma PrependSorted<R>(h: R, t: seq<R>, key: R -> int, desc: bool)
    requires SortedBy(t, key, desc)
    requires forall y :: y in multiset(t) ==> InOrder(key(h), key(y), desc)
    ensures SortedBy([h] + t, key, desc)
  {
    var r := [h] + t;
    forall i, j | 0 <= i < j < |r| ensures InOrder(key(r[i]), key(r[j]), desc) {
      assert r[j] == t[j - 1];
      if i == 0 {
        assert t[j - 1] in multiset(t);
      } else {
        assert r[i] == t[i - 1];
      }
    }
  }

  /** A stable insertion sort of the rows by key, in the requested direction. */
  function OrderByKey<R>(s: seq<R>, key: R -> int, desc: bool): (r: seq<R>)
    ensures SortedBy(r, key, desc)
    ensures multiset(r) == multiset(s)
  {
    if s == [] then []
    else
      assert s == s[..|s| - 1] + [s[|s| - 1]];
      Insert(s[|s| - 1], OrderByKey(s[..|s| - 1], key, desc), key, desc)
  }

  /** The key distinguishes the rows: no two different rows share a key. */
  ghost predicate KeyIsUnique<R>(s: seq<R>, key: R -> int) {
    forall x, y :: x in s && y in s && key(x) == key(y) ==> x == y
  }

  /**
   * With a key that distinguishes the rows, there is exactly one sorted
   * arrangement of a given collection of rows: ordering by such a key fixes
   * the page boundaries whatever order the rows arrive in.
   */
  lemma {:induction false} SortedPermutationUnique<R>(a: seq<R>, b: seq<R>, key: R -> int, desc: bool)
    requires SortedBy(a, key, desc) && SortedBy(b, key, desc)
    requires multiset(a) == multiset(b)
    requires KeyIsUnique(a, key)
    ensures a == b
  {
    if a != [] {
      SameHead(a, b, key, desc);
      SameTailRows(a, b);
      assert KeyIsUnique(a[1..], key) by {
        forall x, y | x in a[1..] && y in a[1..] && key(x) == key(y) ensures x == y {
          assert x in a && y in a;
        }
      }
      SortedPermutationUnique(a[1..], b[1..], key, desc);
      assert a == [a[0]] + a[1..] && b == [b[0]] + b[1..];
    }
  }

  /** Two sorted arrangements of the same rows under a distinguishing key start with the same row. */
  lemma SameHead<R>(a: seq<R>, b: seq<R>, key: R -> int, desc: bool)
    requires SortedBy(a, key, desc) && SortedBy(b, key, desc)
    requires multiset(a) == multiset(b) && a != []
    requires KeyIsUnique(a, key)
    ensures b != [] && a[0] == b[0]
  {
    assert a[0] in multiset(b);
    var k :| 0 <= k < |b| && b[k] == a[0];
    assert b[0] in multiset(a);
    var m :| 0 <= m < |a| && a[m] == b[0];
    if m > 0 { assert InOrder(key(a[0]), key(a[m]), desc); }
    if k > 0 { assert InOrder(key(b[0]), key(b[k]), desc); }
    assert a[0] in a && a[m] in a;
  }

  /** Removing the same first row from two arrangements of the same rows leaves the same rows. */
  lemma SameTailRows<R>(a: seq<R>, b: seq<R>)
    requires multiset(a) == multiset(b) && a != [] && b != [] && a[0] == b[0]
    ensures multiset(a[1..]) == multiset(b[1..])
  {
    assert a == [a[0]] + a[1..];
    assert b == [b[0]] + b[1..];
    assert multiset(a[1..]) == multiset(a) - multiset([a[0]]);
    assert multiset(b[1..]) == multiset(b) - multiset([b[0]]);
  }
}
