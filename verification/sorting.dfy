/** Stable insertion sort by an integer key, the model of Rust's `sort`,
    `sort_by` and `sort_by_key` on the shapes this repository sorts. */
module Sorting {

  predicate SortedBy<T>(s: seq<T>, key: T -> int)
  {
    forall i, j :: 0 <= i < j < |s| ==> key(s[i]) <= key(s[j])
  }

  /** Inserts `x` before the first element with a larger key. */
  function InsertByKey<T>(x: T, s: seq<T>, key: T -> int): (r: seq<T>)
    requires SortedBy(s, key)
    ensures SortedBy(r, key)
    ensures multiset(r) == multiset(s) + multiset{x}
    ensures |r| == |s| + 1
  {
    if s == [] then [x]
    else if key(x) <= key(s[0]) then [x] + s
    else
      var tail := InsertByKey(x, s[1..], key);
      assert s == [s[0]] + s[1..];
      LowerBound(x, s, key, tail);
      [s[0]] + tail
  }

  lemma LowerBound<T>(x: T, s: seq<T>, key: T -> int, tail: seq<T>)
    requires s != [] && SortedBy(s, key) && key(s[0]) < key(x)
    requires multiset(tail) == multiset(s[1..]) + multiset{x}
    ensures forall k :: 0 <= k < |tail| ==> key(s[0]) <= key(tail[k])
  {
    forall k | 0 <= k < |tail|
      ensures key(s[0]) <= key(tail[k])
    {
      assert tail[k] in multiset(tail);
      if tail[k] != x {
        assert tail[k] in multiset(s[1..]);
        var m :| 0 <= m < |s[1..]| && s[1..][m] == tail[k];
        assert s[m + 1] == tail[k];
      }
    }
  }

  /** The elements of `s` whose key is `v`, in their order in `s`. */
  function WithKey<T>(s: seq<T>, key: T -> int, v: int): seq<T>
  {
    if s == [] then [] else (if key(s[0]) == v then [s[0]] else []) + WithKey(s[1..], key, v)
  }

  /** Inserting `x` puts it in front of every element with its key. */
  lemma {:induction false} InsertWithKey<T>(x: T, s: seq<T>, key: T -> int, v: int)
    requires SortedBy(s, key)
    ensures WithKey(InsertByKey(x, s, key), key, v) == (if key(x) == v then [x] else []) + WithKey(s, key, v)
  {
    if s == [] || key(x) <= key(s[0]) {
      InsertWithKeyFront(x, s, key, v);
    } else {
      assert SortedBy(s[1..], key);
      InsertWithKey(x, s[1..], key, v);
      InsertWithKeyLater(x, s, InsertByKey(x, s[1..], key), key, v);
    }
  }

  /** When `x` goes in front, it is in front of the elements with its key. */
  lemma InsertWithKeyFront<T>(x: T, s: seq<T>, key: T -> int, v: int)
    requires SortedBy(s, key) && (s == [] || key(x) <= key(s[0]))
    ensures WithKey(InsertByKey(x, s, key), key, v) == (if key(x) == v then [x] else []) + WithKey(s, key, v)
  {
    if s == [] {
      WithKeyCons(x, [], key, v);
    } else {
      WithKeyCons(x, s, key, v);
    }
  }

  /** When `x` goes after the head, the head's own key does not disturb
      `x`'s place in front of the elements with its key. */
  lemma InsertWithKeyLater<T>(x: T, s: seq<T>, tail: seq<T>, key: T -> int, v: int)
    requires s != [] && key(s[0]) < key(x)
    requires WithKey(tail, key, v) == (if key(x) == v then [x] else []) + WithKey(s[1..], key, v)
    ensures WithKey([s[0]] + tail, key, v) == (if key(x) == v then [x] else []) + WithKey(s, key, v)
  {
    WithKeyCons(s[0], tail, key, v);
    WithKeyCons(s[0], s[1..], key, v);
    assert [s[0]] + s[1..] == s;
  }

  lemma WithKeyCons<T>(y: T, t: seq<T>, key: T -> int, v: int)
    ensures WithKey([y] + t, key, v) == (if key(y) == v then [y] else []) + WithKey(t, key, v)
  {
    assert ([y] + t)[1..] == t;
  }

  /** The stable sort: the elements of each key keep their order in `s`. */
  function SortByKey<T>(s: seq<T>, key: T -> int): (r: seq<T>)
    ensures SortedBy(r, key)
    ensures multiset(r) == multiset(s)
    ensures |r| == |s|
    ensures forall v :: WithKey(r, key, v) == WithKey(s, key, v)
  {
    if s == [] then []
    else
      assert s == [s[0]] + s[1..];
      var tail := SortByKey(s[1..], key);
      InsertStable(s[0], tail, key);
      InsertByKey(s[0], tail, key)
  }

  lemma InsertStable<T>(x: T, s: seq<T>, key: T -> int)
    requires SortedBy(s, key)
    ensures forall v :: WithKey(InsertByKey(x, s, key), key, v) == (if key(x) == v then [x] else []) + WithKey(s, key, v)
  {
    forall v
      ensures WithKey(InsertByKey(x, s, key), key, v) == (if key(x) == v then [x] else []) + WithKey(s, key, v)
    {
      InsertWithKey(x, s, key, v);
    }
  }

  predicate Sorted(s: seq<int>)
  {
    forall i, j :: 0 <= i < j < |s| ==> s[i] <= s[j]
  }

  /** `v.sort()` on integers. */
  function Sort(s: seq<int>): (r: seq<int>)
    ensures Sorted(r)
    ensures multiset(r) == multiset(s)
    ensures |r| == |s|
  {
    var r := SortByKey(s, x => x);
    assert SortedBy(r, x => x);
    r
  }

  // ------------------------------------------------- strings and pairs

  /** Rust's `Ord` on `str`: lexicographic, a prefix first. Comparing the
      bytes of UTF-8 and comparing code points agree. */
  predicate StrLe(a: string, b: string)
    decreases |a|
  {
    a == [] || (b != [] && (a[0] < b[0] || (a[0] == b[0] && StrLe(a[1..], b[1..]))))
  }

  predicate StrLt(a: string, b: string)
  {
    StrLe(a, b) && a != b
  }

  lemma {:induction false} StrLeRefl(a: string)
    ensures StrLe(a, a)
    decreases |a|
  {
    if a != [] {
      StrLeRefl(a[1..]);
    }
  }

  lemma {:induction false} StrLeTotal(a: string, b: string)
    ensures StrLe(a, b) || StrLe(b, a)
    decreases |a|
  {
    if a != [] && b != [] && a[0] == b[0] {
      StrLeTotal(a[1..], b[1..]);
    }
  }

  lemma {:induction false} StrLeTrans(a: string, b: string, c: string)
    requires StrLe(a, b) && StrLe(b, c)
    ensures StrLe(a, c)
    decreases |a|
  {
    if a != [] && b != [] && c != [] && a[0] == b[0] && b[0] == c[0] {
      StrLeTrans(a[1..], b[1..], c[1..]);
    }
  }

  lemma {:induction false} StrLeAntisym(a: string, b: string)
    requires StrLe(a, b) && StrLe(b, a)
    ensures a == b
    decreases |a|
  {
    if a != [] && b != [] {
      StrLeAntisym(a[1..], b[1..]);
      assert a == [a[0]] + a[1..] && b == [b[0]] + b[1..];
    }
  }

  /** Rust's `Ord` on `(&str, &str)`: by the first component, then by the
      second. */
  predicate PairLe(p: (string, string), q: (string, string))
  {
    StrLt(p.0, q.0) || (p.0 == q.0 && StrLe(p.1, q.1))
  }

  lemma PairLeTotal(p: (string, string), q: (string, string))
    ensures PairLe(p, q) || PairLe(q, p)
  {
    StrLeTotal(p.0, q.0);
    StrLeTotal(p.1, q.1);
  }

  lemma PairLeTrans(p: (string, string), q: (string, string), r: (string, string))
    requires PairLe(p, q) && PairLe(q, r)
    ensures PairLe(p, r)
  {
    if p.0 == q.0 && q.0 == r.0 {
      StrLeTrans(p.1, q.1, r.1);
    } else {
      StrLeRefl(p.0);
      StrLeRefl(q.0);
      StrLeTrans(p.0, q.0, r.0);
      if p.0 == r.0 {
        StrLeAntisym(p.0, q.0);
      }
    }
  }

  predicate PairsSorted(s: seq<(string, string)>)
  {
    forall i, j :: 0 <= i < j < |s| ==> PairLe(s[i], s[j])
  }

  /** Inserts `p` before the first element it does not follow. */
  function InsertPair(p: (string, string), s: seq<(string, string)>): (r: seq<(string, string)>)
    requires PairsSorted(s)
    ensures PairsSorted(r)
    ensures multiset(r) == multiset(s) + multiset{p}
    ensures |r| == |s| + 1
  {
    if s == [] then [p]
    else if PairLe(p, s[0]) then
      PairsBelow(p, s);
      [p] + s
    else
      var tail := InsertPair(p, s[1..]);
      assert s == [s[0]] + s[1..];
      PairLeTotal(p, s[0]);
      PairsAbove(s, p, tail);
      [s[0]] + tail
  }

  lemma PairsBelow(p: (string, string), s: seq<(string, string)>)
    requires s != [] && PairsSorted(s) && PairLe(p, s[0])
    ensures PairsSorted([p] + s)
  {
    forall k | 0 <= k < |s|
      ensures PairLe(p, s[k])
    {
      if k > 0 {
        PairLeTrans(p, s[0], s[k]);
      }
    }
    forall i, j | 0 <= i < j < |[p] + s|
      ensures PairLe(([p] + s)[i], ([p] + s)[j])
    {
      if i > 0 {
        assert ([p] + s)[i] == s[i - 1] && ([p] + s)[j] == s[j - 1];
      } else {
        assert ([p] + s)[j] == s[j - 1];
      }
    }
  }

  lemma PairsAbove(s: seq<(string, string)>, p: (string, string), tail: seq<(string, string)>)
    requires s != [] && PairsSorted(s) && PairLe(s[0], p) && PairsSorted(tail)
    requires multiset(tail) == multiset(s[1..]) + multiset{p}
    ensures PairsSorted([s[0]] + tail)
  {
    forall k | 0 <= k < |tail|
      ensures PairLe(s[0], tail[k])
    {
      assert tail[k] in multiset(tail);
      if tail[k] != p {
        assert tail[k] in multiset(s[1..]);
        var m :| 0 <= m < |s[1..]| && s[1..][m] == tail[k];
        assert s[m + 1] == tail[k];
      }
    }
    forall i, j | 0 <= i < j < |[s[0]] + tail|
      ensures PairLe(([s[0]] + tail)[i], ([s[0]] + tail)[j])
    {
      if i > 0 {
        assert ([s[0]] + tail)[i] == tail[i - 1] && ([s[0]] + tail)[j] == tail[j - 1];
      } else {
        assert ([s[0]] + tail)[j] == tail[j - 1];
      }
    }
  }

  /** `v.sort()` on pairs of strings: a sorted permutation. */
  function SortPairs(s: seq<(string, string)>): (r: seq<(string, string)>)
    ensures PairsSorted(r)
    ensures multiset(r) == multiset(s)
    ensures |r| == |s|
  {
    if s == [] then []
    else
      assert s == [s[0]] + s[1..];
      InsertPair(s[0], SortPairs(s[1..]))
  }
}
