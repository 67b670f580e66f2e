/**
 * What `list.sort(key=key, reverse=True)` does to a list: it orders the elements by
 * descending key and, because Python's sort is stable also when reversed, keeps
 * elements with equal keys in their original order.
 */
module StableSort {

  /** Inserts x, which came before every element of s, behind the elements of s whose
      key is strictly larger and in front of all the others. */
  function Insert<T>(x: T, s: seq<T>, key: T -> real): (r: seq<T>)
    ensures |r| == |s| + 1
  {
    if s == [] then [x]
    else if key(s[0]) > key(x) then [s[0]] + Insert(x, s[1..], key)
    else [x] + s
  }

  /** The list after `sort(key=key, reverse=True)`. */
  function SortDesc<T>(s: seq<T>, key: T -> real): (r: seq<T>)
    ensures |r| == |s|
  {
    if s == [] then [] else Insert(s[0], SortDesc(s[1..], key), key)
  }

  ghost predicate SortedDesc<T>(s: seq<T>, key: T -> real) {
    forall i, j :: 0 <= i < j < |s| ==> key(s[i]) >= key(s[j])
  }

  /** The elements of s whose key is v, in the order of s. */
  function WithKey<T>(s: seq<T>, key: T -> real, v: real): (r: seq<T>)
    ensures |r| <= |s|
    ensures forall x :: x in r ==> x in s && key(x) == v
  {
    if s == [] then [] else (if key(s[0]) == v then [s[0]] else []) + WithKey(s[1..], key, v)
  }

  lemma {:induction false} WithKeyAppend<T>(a: seq<T>, b: seq<T>, key: T -> real, v: real)
    ensures WithKey(a + b, key, v) == WithKey(a, key, v) + WithKey(b, key, v)
  {
    if a != [] {
      assert (a + b)[0] == a[0];
      assert (a + b)[1..] == a[1..] + b;
      WithKeyAppend(a[1..], b, key, v);
    } else {
      assert a + b == b;
    }
  }

  lemma {:induction false} InsertPerm<T>(x: T, s: seq<T>, key: T -> real)
    ensures multiset(Insert(x, s, key)) == multiset(s) + multiset{x}
  {
    if s != [] && key(s[0]) > key(x) {
      InsertPerm(x, s[1..], key);
      assert s == [s[0]] + s[1..];
    }
  }

  lemma {:induction false} InsertSorted<T>(x: T, s: seq<T>, key: T -> real)
    requires SortedDesc(s, key)
    ensures SortedDesc(Insert(x, s, key), key)
  {
    if s != [] && key(s[0]) > key(x) {
      var t := s[1..];
      assert SortedDesc(t, key) by {
        forall i, j | 0 <= i < j < |t| ensures key(t[i]) >= key(t[j]) {
          assert t[i] == s[i + 1] && t[j] == s[j + 1];
        }
      }
      InsertSorted(x, t, key);
      InsertPerm(x, t, key);
      var r := Insert(x, s, key);
      forall i, j | 0 <= i < j < |r| ensures key(r[i]) >= key(r[j]) {
        if i == 0 {
          var y := r[j];
          assert y in multiset(Insert(x, t, key));
          assert y in multiset(t) || y == x;
          if y in t {
            var q :| 0 <= q < |t| && t[q] == y;
            assert s[q + 1] == y;
          }
        }
      }
    }
  }

  lemma {:induction false} InsertWithKey<T>(x: T, s: seq<T>, key: T -> real, v: real)
    ensures WithKey(Insert(x, s, key), key, v) == (if key(x) == v then [x] else []) + WithKey(s, key, v)
  {
    if s == [] {
    } else if key(s[0]) > key(x) {
      var head := if key(s[0]) == v then [s[0]] else [];
      var rest := Insert(x, s[1..], key);
      assert Insert(x, s, key) == [s[0]] + rest;
      assert WithKey([s[0]] + rest, key, v) == head + WithKey(rest, key, v) by {
        assert ([s[0]] + rest)[1..] == rest;
      }
      InsertWithKey(x, s[1..], key, v);
      assert WithKey(s, key, v) == head + WithKey(s[1..], key, v);
    } else {
      assert Insert(x, s, key) == [x] + s;
      assert ([x] + s)[1..] == s;
    }
  }

  /** The sorted list holds the same elements as the original, each as often. */
  lemma {:induction false} SortDescPerm<T>(s: seq<T>, key: T -> real)
    ensures multiset(SortDesc(s, key)) == multiset(s)
  {
    if s != [] {
      SortDescPerm(s[1..], key);
      InsertPerm(s[0], SortDesc(s[1..], key), key);
      assert s == [s[0]] + s[1..];
    }
  }

  /** The sorted list is non-increasing in the key. */
  lemma {:induction false} SortDescSorted<T>(s: seq<T>, key: T -> real)
    ensures SortedDesc(SortDesc(s, key), key)
  {
    if s != [] {
      SortDescSorted(s[1..], key);
      InsertSorted(s[0], SortDesc(s[1..], key), key);
    }
  }

  /** Stability: among the elements with any one key, the order is the original one. */
  lemma {:induction false} SortDescStable<T>(s: seq<T>, key: T -> real)
    ensures forall v :: WithKey(SortDesc(s, key), key, v) == WithKey(s, key, v)
  {
    if s != [] {
      SortDescStable(s[1..], key);
      forall v ensures WithKey(SortDesc(s, key), key, v) == WithKey(s, key, v) {
        InsertWithKey(s[0], SortDesc(s[1..], key), key, v);
      }
    }
  }

  lemma {:induction false} WithKeyHead<T>(s: seq<T>, key: T -> real)
    requires s != []
    ensures WithKey(s, key, key(s[0])) == [s[0]] + WithKey(s[1..], key, key(s[0]))
    ensures forall v :: v != key(s[0]) ==> WithKey(s, key, v) == WithKey(s[1..], key, v)
  {
  }

  lemma {:induction false} SortedTail<T>(s: seq<T>, key: T -> real)
    requires s != [] && SortedDesc(s, key)
    ensures SortedDesc(s[1..], key)
    ensures forall x :: x in s ==> key(s[0]) >= key(x)
  {
    var t := s[1..];
    forall i, j | 0 <= i < j < |t| ensures key(t[i]) >= key(t[j]) {
      assert t[i] == s[i + 1] && t[j] == s[j + 1];
    }
  }

  /** Two lists sorted by descending key that agree on the order within every key are equal. */
  lemma {:induction false} SortedSameGroupsEqual<T>(r1: seq<T>, r2: seq<T>, key: T -> real)
    requires SortedDesc(r1, key) && SortedDesc(r2, key)
    requires forall v :: WithKey(r1, key, v) == WithKey(r2, key, v)
    ensures r1 == r2
    decreases |r1| + |r2|
  {
    if r1 != [] {
      WithKeyHead(r1, key);
      SortedTail(r1, key);
      var x := r1[0];
      assert x in WithKey(r2, key, key(x));
    }
    if r2 != [] {
      WithKeyHead(r2, key);
      SortedTail(r2, key);
      var y := r2[0];
      assert y in WithKey(r1, key, key(y));
    }
    if r1 != [] && r2 != [] {
      assert key(r1[0]) == key(r2[0]);
      var k := key(r1[0]);
      assert r1[0] == WithKey(r1, key, k)[0] == WithKey(r2, key, k)[0] == r2[0];
      forall v ensures WithKey(r1[1..], key, v) == WithKey(r2[1..], key, v) {
        if v == k {
          var a := [r1[0]] + WithKey(r1[1..], key, v);
          var b := [r2[0]] + WithKey(r2[1..], key, v);
          assert a == b;
          assert a[1..] == WithKey(r1[1..], key, v);
          assert b[1..] == WithKey(r2[1..], key, v);
        }
      }
      SortedSameGroupsEqual(r1[1..], r2[1..], key);
      assert r1 == [r1[0]] + r1[1..];
      assert r2 == [r2[0]] + r2[1..];
    }
  }

  /** SortDesc is the only stable descending sort: any list sorted by descending key that
      keeps the original order within every key is SortDesc of the original. */
  lemma SortDescUnique<T>(s: seq<T>, r: seq<T>, key: T -> real)
    requires SortedDesc(r, key)
    requires forall v :: WithKey(r, key, v) == WithKey(s, key, v)
    ensures r == SortDesc(s, key)
  {
    SortDescSorted(s, key);
    SortDescStable(s, key);
    SortedSameGroupsEqual(r, SortDesc(s, key), key);
  }
}
