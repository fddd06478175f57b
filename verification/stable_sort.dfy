/** The stable descending sort both the scanner report and the letter-frequency table
    rely on: `Array.prototype.sort` with a comparator `(a, b) => key(b) - key(a)`, which
    ECMAScript requires to be stable. It is modelled as insertion sort, where each new
    element goes after every element whose key is at least its own. */
module StableSort {

  predicate SortedDesc<T>(s: seq<T>, key: T -> int)
  {
    forall i, j :: 0 <= i < j < |s| ==> key(s[i]) >= key(s[j])
  }

  /** The elements of `s` whose key is `k`, in their order in `s`. */
  function WithKey<T>(s: seq<T>, key: T -> int, k: int): seq<T>
  {
    if |s| == 0 then []
    else (if key(s[0]) == k then [s[0]] else []) + WithKey(s[1..], key, k)
  }

  /** Every key in `s` is at most `b`. */
  predicate AtMost<T>(s: seq<T>, key: T -> int, b: int)
  {
    forall i :: 0 <= i < |s| ==> key(s[i]) <= b
  }

  /** Places `x` in a descending sequence after every element whose key is at least its own. */
  function Insert<T>(x: T, s: seq<T>, key: T -> int): (r: seq<T>)
    ensures |r| == |s| + 1
  {
    if |s| == 0 then [x]
    else if key(s[0]) < key(x) then [x] + s
    else [s[0]] + Insert(x, s[1..], key)
  }

  /** The sort: elements in order of non-increasing key, ties in their original order. */
  function SortDesc<T>(s: seq<T>, key: T -> int): (r: seq<T>)
    ensures |r| == |s|
  {
    if |s| == 0 then []
    else Insert(s[|s| - 1], SortDesc(s[..|s| - 1], key), key)
  }

  lemma SortedCons<T>(h: T, t: seq<T>, key: T -> int)
    requires AtMost(t, key, key(h)) && SortedDesc(t, key)
    ensures SortedDesc([h] + t, key)
  {
    var s := [h] + t;
    forall i, j | 0 <= i < j < |s|
      ensures key(s[i]) >= key(s[j])
    {
      assert s[j] == t[j - 1];
      if i > 0 {
        assert s[i] == t[i - 1];
      }
    }
  }

  lemma SortedTail<T>(s: seq<T>, key: T -> int)
    requires |s| > 0 && SortedDesc(s, key)
    ensures SortedDesc(s[1..], key) && AtMost(s[1..], key, key(s[0]))
  {
    forall i | 0 <= i < |s| - 1
      ensures key(s[1..][i]) <= key(s[0])
    {
      assert s[1..][i] == s[i + 1];
    }
  }

  lemma {:induction false} InsertAtMost<T>(x: T, s: seq<T>, key: T -> int, b: int)
    requires AtMost(s, key, b) && key(x) <= b
    ensures AtMost(Insert(x, s, key), key, b)
    decreases |s|
  {
    if |s| > 0 && key(s[0]) >= key(x) {
      assert AtMost(s[1..], key, b) by {
        forall i | 0 <= i < |s| - 1
          ensures key(s[1..][i]) <= b
        {
          assert s[1..][i] == s[i + 1];
        }
      }
      InsertAtMost(x, s[1..], key, b);
      var r := Insert(x, s[1..], key);
      forall i | 0 <= i < |r| + 1
        ensures key(([s[0]] + r)[i]) <= b
      {
        if i > 0 {
          assert ([s[0]] + r)[i] == r[i - 1];
        }
      }
    }
  }

  /** Insertion keeps a sequence in descending order. */
  lemma {:induction false} InsertSorted<T>(x: T, s: seq<T>, key: T -> int)
    requires SortedDesc(s, key)
    ensures SortedDesc(Insert(x, s, key), key)
    decreases |s|
  {
    if |s| > 0 {
      SortedTail(s, key);
      if key(s[0]) < key(x) {
        assert AtMost(s, key, key(x));
        SortedCons(x, s, key);
      } else {
        InsertSorted(x, s[1..], key);
        InsertAtMost(x, s[1..], key, key(s[0]));
        SortedCons(s[0], Insert(x, s[1..], key), key);
      }
    }
  }

  /** Insertion adds exactly `x`. */
  lemma {:induction false} InsertPermutes<T>(x: T, s: seq<T>, key: T -> int)
    ensures multiset(Insert(x, s, key)) == multiset(s) + multiset{x}
    decreases |s|
  {
    if |s| > 0 && key(s[0]) >= key(x) {
      InsertPermutes(x, s[1..], key);
      assert s == [s[0]] + s[1..];
    }
  }

  /** The result is in descending key order. */
  lemma {:induction false} SortOrders<T>(s: seq<T>, key: T -> int)
    ensures SortedDesc(SortDesc(s, key), key)
    decreases |s|
  {
    if |s| > 0 {
      SortOrders(s[..|s| - 1], key);
      InsertSorted(s[|s| - 1], SortDesc(s[..|s| - 1], key), key);
    }
  }

  /** The result is a permutation of the input. */
  lemma {:induction false} SortPermutes<T>(s: seq<T>, key: T -> int)
    ensures multiset(SortDesc(s, key)) == multiset(s)
    decreases |s|
  {
    if |s| > 0 {
      SortPermutes(s[..|s| - 1], key);
      InsertPermutes(s[|s| - 1], SortDesc(s[..|s| - 1], key), key);
      assert s == s[..|s| - 1] + [s[|s| - 1]];
    }
  }

  lemma {:induction false} WithKeyAppend<T>(a: seq<T>, b: seq<T>, key: T -> int, k: int)
    ensures WithKey(a + b, key, k) == WithKey(a, key, k) + WithKey(b, key, k)
    decreases |a|
  {
    if |a| > 0 {
      assert (a + b)[1..] == a[1..] + b;
      WithKeyAppend(a[1..], b, key, k);
    } else {
      assert a + b == b;
    }
  }

  /** Nothing in a descending sequence whose first key is below `k` has key `k`. */
  lemma {:induction false} WithKeyBelow<T>(s: seq<T>, key: T -> int, k: int)
    requires SortedDesc(s, key) && (|s| > 0 ==> key(s[0]) < k)
    ensures WithKey(s, key, k) == []
    decreases |s|
  {
    if |s| > 0 {
      SortedTail(s, key);
      WithKeyBelow(s[1..], key, k);
    }
  }

  /** Insertion keeps every tie group in order and appends `x` to its own group. */
  lemma {:induction false} WithKeyInsert<T>(x: T, s: seq<T>, key: T -> int, k: int)
    requires SortedDesc(s, key)
    ensures WithKey(Insert(x, s, key), key, k) ==
              WithKey(s, key, k) + (if key(x) == k then [x] else [])
    decreases |s|
  {
    if |s| == 0 {
      assert WithKey([x], key, k) == (if key(x) == k then [x] else []) + WithKey([], key, k);
    } else if key(s[0]) < key(x) {
      WithKeyAppend([x], s, key, k);
      assert WithKey([x], key, k) == (if key(x) == k then [x] else []) + WithKey([], key, k);
      if key(x) == k {
        WithKeyBelow(s, key, k);
      }
    } else {
      SortedTail(s, key);
      WithKeyInsert(x, s[1..], key, k);
      assert Insert(x, s, key)[1..] == Insert(x, s[1..], key);
    }
  }

  /** Stability: for every key, the elements carrying it keep their relative order. */
  lemma {:induction false} SortStable<T>(s: seq<T>, key: T -> int, k: int)
    ensures WithKey(SortDesc(s, key), key, k) == WithKey(s, key, k)
    decreases |s|
  {
    if |s| > 0 {
      var init, last := s[..|s| - 1], s[|s| - 1];
      SortStable(init, key, k);
      SortOrders(init, key);
      WithKeyInsert(last, SortDesc(init, key), key, k);
      assert s == init + [last];
      WithKeyAppend(init, [last], key, k);
      assert WithKey([last], key, k) == (if key(last) == k then [last] else []) + WithKey([], key, k);
    }
  }

  /** A sequence already in descending order is left as it is. */
  lemma {:induction false} SortSorted<T>(s: seq<T>, key: T -> int)
    requires SortedDesc(s, key)
    ensures SortDesc(s, key) == s
    decreases |s|
  {
    if |s| > 0 {
      var init, last := s[..|s| - 1], s[|s| - 1];
      assert SortedDesc(init, key);
      SortSorted(init, key);
      InsertLast(last, init, key);
      assert init + [last] == s;
    }
  }

  /** An element whose key is at most every key already present goes at the end. */
  lemma {:induction false} InsertLast<T>(x: T, s: seq<T>, key: T -> int)
    requires forall i :: 0 <= i < |s| ==> key(x) <= key(s[i])
    ensures Insert(x, s, key) == s + [x]
    decreases |s|
  {
    if |s| > 0 {
      InsertLast(x, s[1..], key);
      assert [s[0]] + (s[1..] + [x]) == s + [x];
    }
  }

  /** In a descending sequence whose keys are at most `k`, the elements with key `k` are
      exactly its front. */
  lemma {:induction false} TopKeyPrefix<T>(s: seq<T>, key: T -> int, k: int)
    requires SortedDesc(s, key) && AtMost(s, key, k)
    ensures |WithKey(s, key, k)| <= |s| && s[..|WithKey(s, key, k)|] == WithKey(s, key, k)
    decreases |s|
  {
    if |s| > 0 {
      SortedTail(s, key);
      if key(s[0]) == k {
        assert AtMost(s[1..], key, k);
        TopKeyPrefix(s[1..], key, k);
        var m := |WithKey(s[1..], key, k)|;
        assert s[..m + 1] == [s[0]] + s[1..][..m];
      } else {
        WithKeyBelow(s, key, k);
      }
    }
  }
}
