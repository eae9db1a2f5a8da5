/**
 * A stable insertion sort over an arbitrary total preorder. Both orderings of the
 * vault use it: the server's `{ pinned: -1, createdAt: -1 }` listing order and the
 * dashboard's three-key comparator.
 */
module Sorting {

  ghost predicate Total<T(!new)>(le: (T, T) -> bool) {
    forall x, y :: le(x, y) || le(y, x)
  }

  ghost predicate Transitive<T(!new)>(le: (T, T) -> bool) {
    forall x, y, z :: le(x, y) && le(y, z) ==> le(x, z)
  }

  ghost predicate TotalPreorder<T(!new)>(le: (T, T) -> bool) {
    Total(le) && Transitive(le)
  }

  /** Every earlier element is `le` every later one. */
  predicate SortedBy<T>(le: (T, T) -> bool, s: seq<T>) {
    forall i, j :: 0 <= i < j < |s| ==> le(s[i], s[j])
  }

  /** Places `x` before the first element it is `le` to. */
  function Insert<T>(x: T, s: seq<T>, le: (T, T) -> bool): (r: seq<T>)
    ensures multiset(r) == multiset(s) + multiset{x}
    ensures |r| == |s| + 1
  {
    if |s| == 0 then [x]
    else if le(x, s[0]) then [x] + s
    else
      var t := Insert(x, s[1..], le);
      assert s == [s[0]] + s[1..];
      [s[0]] + t
  }

  lemma {:induction false} InsertSorted<T(!new)>(x: T, s: seq<T>, le: (T, T) -> bool)
    requires TotalPreorder(le)
    requires SortedBy(le, s)
    ensures SortedBy(le, Insert(x, s, le))
    decreases |s|
  {
    if |s| == 0 {
    } else if le(x, s[0]) {
      var r := [x] + s;
      forall i, j | 0 <= i < j < |r|
        ensures le(r[i], r[j])
      {
        if i == 0 && j > 1 {
          assert le(s[0], s[j - 1]);
        }
      }
    } else {
      var t := Insert(x, s[1..], le);
      InsertSorted(x, s[1..], le);
      assert le(s[0], x);
      var r := [s[0]] + t;
      forall j | 0 < j < |r|
        ensures le(s[0], r[j])
      {
        var e := t[j - 1];
        assert e in multiset(t);
        assert e in multiset(s[1..]) + multiset{x};
        if e != x {
          assert e in s[1..];
          var k :| 0 <= k < |s[1..]| && s[1..][k] == e;
          assert s[k + 1] == e;
        }
      }
      assert SortedBy(le, r);
    }
  }

  /** Sorts `s` by `le`; the result is a permutation of `s` in `le` order. */
  function Sort<T(!new)>(s: seq<T>, le: (T, T) -> bool): (r: seq<T>)
    requires TotalPreorder(le)
    ensures multiset(r) == multiset(s)
    ensures SortedBy(le, r)
    decreases |s|
  {
    if |s| == 0 then []
    else
      var rest := Sort(s[1..], le);
      InsertSorted(s[0], rest, le);
      assert s == [s[0]] + s[1..];
      Insert(s[0], rest, le)
  }

  /** The elements of `s` that `le` ranks level with `c`, in their order in `s`. */
  function Level<T>(s: seq<T>, le: (T, T) -> bool, c: T): (r: seq<T>)
    ensures |r| <= |s|
    ensures forall x :: x in r ==> x in s && le(c, x) && le(x, c)
  {
    if |s| == 0 then []
    else (if le(c, s[0]) && le(s[0], c) then [s[0]] else []) + Level(s[1..], le, c)
  }

  /** The level of a sequence with `a` in front. */
  lemma LevelCons<T>(a: T, t: seq<T>, le: (T, T) -> bool, c: T)
    ensures Level([a] + t, le, c) == (if le(c, a) && le(a, c) then [a] else []) + Level(t, le, c)
  {
    assert ([a] + t)[1..] == t;
  }

  /** Inserting `x` puts it ahead of every element level with it and leaves other levels alone. */
  lemma {:induction false} InsertLevel<T(!new)>(x: T, s: seq<T>, le: (T, T) -> bool, c: T)
    requires TotalPreorder(le)
    ensures Level(Insert(x, s, le), le, c)
      == (if le(c, x) && le(x, c) then [x] else []) + Level(s, le, c)
    decreases |s|
  {
    if |s| == 0 {
      LevelCons(x, s, le, c);
    } else if le(x, s[0]) {
      LevelCons(x, s, le, c);
    } else {
      var t := Insert(x, s[1..], le);
      InsertLevel(x, s[1..], le, c);
      LevelCons(s[0], t, le, c);
      LevelCons(s[0], s[1..], le, c);
      assert s == [s[0]] + s[1..];
      assert !(le(x, c) && le(c, s[0]));
    }
  }

  /**
   * The sort is stable: for every level of the preorder, the elements on that level
   * keep their relative order.
   */
  lemma {:induction false} SortStable<T(!new)>(s: seq<T>, le: (T, T) -> bool, c: T)
    requires TotalPreorder(le)
    ensures Level(Sort(s, le), le, c) == Level(s, le, c)
    decreases |s|
  {
    if |s| > 0 {
      SortStable(s[1..], le, c);
      InsertLevel(s[0], Sort(s[1..], le), le, c);
    }
  }
}
