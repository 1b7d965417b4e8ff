/**
 * Python's `list.sort(key=key, reverse=True)` as used by both ranking call
 * sites of backend/app.py: a stable sort into non-increasing key order.
 */
module Ranking {

  /** Keys never increase from left to right. */
  predicate NonIncreasing<T>(s: seq<T>, key: T -> int) {
    forall i, j :: 0 <= i < j < |s| ==> key(s[i]) >= key(s[j])
  }

  /** The elements of `s` whose key is `k`, in their order in `s`. */
  function WithKey<T>(s: seq<T>, key: T -> int, k: int): (r: seq<T>)
    ensures |r| <= |s|
  {
    if s == [] then [] else (if key(s[0]) == k then [s[0]] else []) + WithKey(s[1..], key, k)
  }

  /** Inserts `x` in front of the first element whose key does not exceed
      its own: `x` lands after every larger key and before every equal one. */
  function Insert<T>(x: T, s: seq<T>, key: T -> int): (r: seq<T>)
    ensures |r| == |s| + 1
    ensures multiset(r) == multiset(s) + multiset{x}
  {
    if s == [] || key(s[0]) <= key(x) then [x] + s
    else
      assert s == [s[0]] + s[1..];
      [s[0]] + Insert(x, s[1..], key)
  }

  /** The stable descending sort: each element is inserted, from the back,
      in front of the equal keys that follow it in the input. */
  function SortDesc<T>(s: seq<T>, key: T -> int): (r: seq<T>)
    ensures |r| == |s|
    ensures multiset(r) == multiset(s)
  {
    if s == [] then []
    else
      assert s == [s[0]] + s[1..];
      Insert(s[0], SortDesc(s[1..], key), key)
  }

  /** The inserted element or the old first element comes first. */
  /** The sort only rearranges: its output holds exactly the input's elements. */
  lemma SortDescMembers<T>(s: seq<T>, key: T -> int)
    ensures forall x :: x in SortDesc(s, key) <==> x in s
  {
    forall x ensures x in SortDesc(s, key) <==> x in s {
      assert x in SortDesc(s, key) <==> x in multiset(SortDesc(s, key));
    }
  }

  lemma InsertHead<T>(x: T, s: seq<T>, key: T -> int)
    ensures Insert(x, s, key)[0] == x || (s != [] && Insert(x, s, key)[0] == s[0])
  {
  }

  /** Putting an element no smaller than the head in front keeps the order. */
  lemma ConsKeepsOrder<T>(y: T, t: seq<T>, key: T -> int)
    requires NonIncreasing(t, key) && (t != [] ==> key(y) >= key(t[0]))
    ensures NonIncreasing([y] + t, key)
  {
    var r := [y] + t;
    forall i, j | 0 <= i < j < |r| ensures key(r[i]) >= key(r[j]) {
      if i == 0 {
        assert r[j] == t[j - 1];
      } else {
        assert r[i] == t[i - 1] && r[j] == t[j - 1];
      }
    }
  }

  lemma {:induction false} InsertKeepsOrder<T>(x: T, s: seq<T>, key: T -> int)
    requires NonIncreasing(s, key)
    ensures NonIncreasing(Insert(x, s, key), key)
  {
    if s == [] || key(s[0]) <= key(x) {
      ConsKeepsOrder(x, s, key);
    } else {
      var t := Insert(x, s[1..], key);
      assert NonIncreasing(s[1..], key);
      InsertKeepsOrder(x, s[1..], key);
      InsertHead(x, s[1..], key);
      ConsKeepsOrder(s[0], t, key);
    }
  }

  /** The result of the sort is in non-increasing key order. */
  lemma {:induction false} SortDescIsSorted<T>(s: seq<T>, key: T -> int)
    ensures NonIncreasing(SortDesc(s, key), key)
  {
    if s != [] {
      SortDescIsSorted(s[1..], key);
      InsertKeepsOrder(s[0], SortDesc(s[1..], key), key);
    }
  }

  lemma WithKeyCons<T>(y: T, t: seq<T>, key: T -> int, k: int)
    ensures WithKey([y] + t, key, k) == (if key(y) == k then [y] else []) + WithKey(t, key, k)
  {
    assert ([y] + t)[0] == y && ([y] + t)[1..] == t;
  }

  /** The step of `InsertWithKey` past an element that stays in front of `x`. */
  lemma PassWithKey<T>(x: T, y: T, t: seq<T>, u: seq<T>, key: T -> int, k: int)
    requires key(y) > key(x)
    requires WithKey(t, key, k) == (if key(x) == k then [x] else []) + WithKey(u, key, k)
    ensures WithKey([y] + t, key, k) == (if key(x) == k then [x] else []) + WithKey([y] + u, key, k)
  {
    WithKeyCons(y, t, key, k);
    WithKeyCons(y, u, key, k);
    var rest := WithKey(u, key, k);
    if key(x) == k {
      assert [] + ([x] + rest) == [x] + ([] + rest);
    } else if key(y) == k {
      assert [y] + ([] + rest) == [] + ([y] + rest);
    } else {
      assert [] + ([] + rest) == [] + ([] + rest);
    }
  }

  lemma {:induction false} InsertWithKey<T>(x: T, s: seq<T>, key: T -> int, k: int)
    ensures WithKey(Insert(x, s, key), key, k) ==
      (if key(x) == k then [x] else []) + WithKey(s, key, k)
  {
    if s == [] || key(s[0]) <= key(x) {
      WithKeyCons(x, s, key, k);
    } else {
      InsertWithKey(x, s[1..], key, k);
      PassWithKey(x, s[0], Insert(x, s[1..], key), s[1..], key, k);
      assert s == [s[0]] + s[1..];
    }
  }

  /** Stability: among equal keys the sort keeps the input order. */
  lemma {:induction false} SortDescIsStable<T>(s: seq<T>, key: T -> int, k: int)
    ensures WithKey(SortDesc(s, key), key, k) == WithKey(s, key, k)
  {
    if s != [] {
      SortDescIsStable(s[1..], key, k);
      InsertWithKey(s[0], SortDesc(s[1..], key), key, k);
    }
  }

  lemma {:induction false} WithKeyHead<T>(s: seq<T>, key: T -> int)
    requires s != []
    ensures WithKey(s, key, key(s[0])) != [] && WithKey(s, key, key(s[0]))[0] == s[0]
  {
  }

  lemma {:induction false} WithKeyTail<T>(s: seq<T>, key: T -> int, k: int)
    requires s != []
    ensures WithKey(s[1..], key, k) ==
      if key(s[0]) == k then WithKey(s, key, k)[1..] else WithKey(s, key, k)
  {
  }

  /** Every element picked out for key `k` has key `k` and comes from `s`. */
  lemma {:induction false} WithKeyMember<T>(s: seq<T>, key: T -> int, k: int, x: T)
    requires x in WithKey(s, key, k)
    ensures x in s && key(x) == k
  {
    var head := if key(s[0]) == k then [s[0]] else [];
    assert WithKey(s, key, k) == head + WithKey(s[1..], key, k);
    if x !in head {
      WithKeyMember(s[1..], key, k, x);
    }
  }

  lemma FirstIsLargest<T>(s: seq<T>, key: T -> int, x: T)
    requires NonIncreasing(s, key) && x in s
    ensures key(s[0]) >= key(x)
  {
    var i :| 0 <= i < |s| && s[i] == x;
  }

  /** Two sorted sequences with the same elements of each key start alike. */
  lemma SameHead<T>(t: seq<T>, u: seq<T>, key: T -> int)
    requires t != [] && u != []
    requires NonIncreasing(t, key) && NonIncreasing(u, key)
    requires forall k :: WithKey(t, key, k) == WithKey(u, key, k)
    ensures t[0] == u[0]
  {
    var a, b := key(t[0]), key(u[0]);
    WithKeyHead(t, key);
    WithKeyHead(u, key);
    var ta, ub := WithKey(t, key, a), WithKey(u, key, b);
    assert ta == WithKey(u, key, a) && ub == WithKey(t, key, b);
    assert t[0] in ta && u[0] in ub;
    WithKeyMember(u, key, a, t[0]);
    WithKeyMember(t, key, b, u[0]);
    FirstIsLargest(u, key, t[0]);
    FirstIsLargest(t, key, u[0]);
    assert a == b;
  }

  /** A sequence in non-increasing order with the same elements of each key,
      in the same order, is unique: the stable sort is determined by
      sortedness and stability alone. */
  lemma {:induction false} SortedAndStableIsUnique<T>(t: seq<T>, u: seq<T>, key: T -> int)
    requires NonIncreasing(t, key) && NonIncreasing(u, key)
    requires forall k :: WithKey(t, key, k) == WithKey(u, key, k)
    ensures t == u
  {
    if t == [] {
      if u != [] {
        WithKeyHead(u, key);
        assert false;
      }
    } else if u == [] {
      WithKeyHead(t, key);
      assert false;
    } else {
      SameHead(t, u, key);
      forall k ensures WithKey(t[1..], key, k) == WithKey(u[1..], key, k) {
        WithKeyTail(t, key, k);
        WithKeyTail(u, key, k);
      }
      SortedAndStableIsUnique(t[1..], u[1..], key);
      assert t == [t[0]] + t[1..] && u == [u[0]] + u[1..];
    }
  }

  /** The sort is the only sorted, stable rearrangement of its input. */
  lemma SortDescCharacterised<T>(s: seq<T>, t: seq<T>, key: T -> int)
    requires NonIncreasing(t, key)
    requires forall k :: WithKey(t, key, k) == WithKey(s, key, k)
    ensures t == SortDesc(s, key)
  {
    SortDescIsSorted(s, key);
    forall k ensures WithKey(t, key, k) == WithKey(SortDesc(s, key), key, k) {
      SortDescIsStable(s, key, k);
    }
    SortedAndStableIsUnique(t, SortDesc(s, key), key);
  }

  lemma {:induction false} WithKeyOfPrefix<T>(s: seq<T>, key: T -> int, k: int, n: nat)
    requires n <= |s|
    ensures WithKey(s[..n], key, k) <= WithKey(s, key, k)
  {
    if n > 0 {
      WithKeyOfPrefix(s[1..], key, k, n - 1);
      assert s[..n][1..] == s[1..][..n - 1];
    }
  }

  /** Sorting commutes with a projection that preserves keys. */
  lemma {:induction false} SortDescMaps<T, U>(s: seq<T>, key: T -> int, f: T -> U, key': U -> int)
    requires forall x :: x in s ==> key'(f(x)) == key(x)
    ensures Map(SortDesc(s, key), f) == SortDesc(Map(s, f), key')
  {
    if s != [] {
      SortDescMaps(s[1..], key, f, key');
      forall x | x in SortDesc(s[1..], key) ensures key'(f(x)) == key(x) {
        assert x in multiset(SortDesc(s[1..], key));
      }
      InsertMaps(s[0], SortDesc(s[1..], key), key, f, key');
      assert Map(s, f)[1..] == Map(s[1..], f);
    }
  }

  lemma {:induction false} InsertMaps<T, U>(x: T, s: seq<T>, key: T -> int, f: T -> U, key': U -> int)
    requires key'(f(x)) == key(x)
    requires forall y :: y in s ==> key'(f(y)) == key(y)
    ensures Map(Insert(x, s, key), f) == Insert(f(x), Map(s, f), key')
  {
    if s == [] || key(s[0]) <= key(x) {
      assert Map([x] + s, f) == [f(x)] + Map(s, f);
    } else {
      InsertMaps(x, s[1..], key, f, key');
      assert Map([s[0]] + Insert(x, s[1..], key), f) == [f(s[0])] + Map(Insert(x, s[1..], key), f);
      assert Map(s, f)[1..] == Map(s[1..], f);
    }
  }

  /** `[f(x) for x in s]`. */
  function Map<T, U>(s: seq<T>, f: T -> U): (r: seq<U>)
    ensures |r| == |s| && forall i :: 0 <= i < |s| ==> r[i] == f(s[i])
  {
    if s == [] then [] else [f(s[0])] + Map(s[1..], f)
  }
}
