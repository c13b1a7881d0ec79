/** The stable sort `Array.prototype.sort` performs with a comparator that
    compares a string key of each element by `localeCompare`, modelled as
    insertion sort. */
module Sorting {
  import opened Lex

  /** Every earlier element's key sorts at or before every later element's key. */
  predicate SortedBy<T>(s: seq<T>, key: T -> string) {
    forall i, j :: 0 <= i < j < |s| ==> LexLe(key(s[i]), key(s[j]))
  }

  /** Puts `x` after the leading run of elements whose key sorts at or before
      its own. On a sorted `s` that is after every element with an equal key,
      which is what a stable sort does with an element pushed at the end. */
  function Insert<T>(s: seq<T>, x: T, key: T -> string): seq<T>
  {
    if |s| == 0 then [x]
    else if LexLe(key(s[0]), key(x)) then [s[0]] + Insert(s[1..], x, key)
    else [x] + s
  }

  /** The position `Insert` puts `x` at. */
  function InsertionPoint<T>(s: seq<T>, x: T, key: T -> string): (k: nat)
    ensures k <= |s|
  {
    if |s| == 0 || !LexLe(key(s[0]), key(x)) then 0
    else 1 + InsertionPoint(s[1..], x, key)
  }

  /** Stable sort: sort all but the last element, then insert the last one. */
  function SortByKey<T>(s: seq<T>, key: T -> string): seq<T>
  {
    if |s| == 0 then [] else Insert(SortByKey(s[..|s| - 1], key), s[|s| - 1], key)
  }

  /** `Insert` only splices `x` in: everything before the insertion point sorts
      at or before `x`, everything after it sorts after `x`. */
  lemma {:induction false} InsertShape<T>(s: seq<T>, x: T, key: T -> string)
    requires SortedBy(s, key)
    ensures var k := InsertionPoint(s, x, key);
      && Insert(s, x, key) == s[..k] + [x] + s[k..]
      && (forall i :: 0 <= i < k ==> LexLe(key(s[i]), key(x)))
      && (forall i :: k <= i < |s| ==> LexLess(key(x), key(s[i])))
    decreases |s|
  {
    if |s| > 0 {
      if LexLe(key(s[0]), key(x)) {
        InsertShape(s[1..], x, key);
        var k := InsertionPoint(s[1..], x, key);
        assert s[..k + 1] == [s[0]] + s[1..][..k];
        assert s[k + 1..] == s[1..][k..];
        forall i | 0 <= i < k + 1
          ensures LexLe(key(s[i]), key(x))
        {
          if i > 0 { assert s[i] == s[1..][i - 1]; }
        }
      } else {
        LexLeTotal(key(s[0]), key(x));
        forall i | 0 <= i < |s|
          ensures LexLess(key(x), key(s[i]))
        {
          if i > 0 {
            LexLeTransitive(key(x), key(s[0]), key(s[i]));
          }
        }
      }
    }
  }

  lemma {:induction false} InsertMultiset<T>(s: seq<T>, x: T, key: T -> string)
    ensures multiset(Insert(s, x, key)) == multiset(s) + multiset{x}
    ensures |Insert(s, x, key)| == |s| + 1
    decreases |s|
  {
    if |s| > 0 {
      assert s == [s[0]] + s[1..];
      if LexLe(key(s[0]), key(x)) {
        InsertMultiset(s[1..], x, key);
      }
    }
  }

  /** Inserting into a sorted sequence keeps it sorted. */
  lemma InsertSorted<T>(s: seq<T>, x: T, key: T -> string)
    requires SortedBy(s, key)
    ensures SortedBy(Insert(s, x, key), key)
  {
    InsertShape(s, x, key);
    var k := InsertionPoint(s, x, key);
    var r := Insert(s, x, key);
    forall i, j | 0 <= i < j < |r|
      ensures LexLe(key(r[i]), key(r[j]))
    {
      if j < k || i > k {
        var i', j' := if i < k then i else i - 1, if j < k then j else j - 1;
        assert r[i] == s[i'] && r[j] == s[j'];
      } else if i == k {
        assert r[j] == s[j - 1];
      } else if j == k {
        assert r[i] == s[i];
      } else {
        assert r[i] == s[i] && r[j] == s[j - 1];
        LexLeTransitive(key(s[i]), key(x), key(s[j - 1]));
      }
    }
  }

  /** The stable sort yields a sorted permutation of its input. */
  lemma {:induction false} SortByKeySorted<T>(s: seq<T>, key: T -> string)
    ensures SortedBy(SortByKey(s, key), key)
    ensures multiset(SortByKey(s, key)) == multiset(s)
    ensures |SortByKey(s, key)| == |s|
    decreases |s|
  {
    if |s| > 0 {
      var init := s[..|s| - 1];
      SortByKeySorted(init, key);
      InsertSorted(SortByKey(init, key), s[|s| - 1], key);
      InsertMultiset(SortByKey(init, key), s[|s| - 1], key);
      assert s == init + [s[|s| - 1]];
    }
  }

  /** Sorting after pushing one element onto a sequence is inserting that element
      into the sorted sequence. */
  lemma SortAfterPush<T>(s: seq<T>, x: T, key: T -> string)
    ensures SortByKey(s + [x], key) == Insert(SortByKey(s, key), x, key)
  {
    assert (s + [x])[..|s|] == s;
  }

  /** The elements of `s` whose key is exactly `k`, in their order in `s`. */
  function WithKey<T>(s: seq<T>, k: string, key: T -> string): seq<T>
  {
    if |s| == 0 then [] else (if key(s[0]) == k then [s[0]] else []) + WithKey(s[1..], k, key)
  }

  lemma {:induction false} WithKeyConcat<T>(a: seq<T>, b: seq<T>, k: string, key: T -> string)
    ensures WithKey(a + b, k, key) == WithKey(a, k, key) + WithKey(b, k, key)
    decreases |a|
  {
    if |a| == 0 {
      assert a + b == b;
    } else {
      var head := if key(a[0]) == k then [a[0]] else [];
      var rest := WithKey(a[1..], k, key);
      assert (a + b)[0] == a[0] && (a + b)[1..] == a[1..] + b;
      assert WithKey(a + b, k, key) == head + WithKey(a[1..] + b, k, key);
      WithKeyConcat(a[1..], b, k, key);
      assert head + (rest + WithKey(b, k, key)) == (head + rest) + WithKey(b, k, key);
    }
  }

  lemma {:induction false} WithKeyAbsent<T>(s: seq<T>, k: string, key: T -> string)
    requires forall i :: 0 <= i < |s| ==> key(s[i]) != k
    ensures WithKey(s, k, key) == []
    decreases |s|
  {
    if |s| > 0 {
      WithKeyAbsent(s[1..], k, key);
    }
  }

  /** Splicing `x` in between `a` and `b` appends it to the elements of its
      key when `b` holds none of them. */
  lemma WithKeySplice<T>(a: seq<T>, x: T, b: seq<T>, k: string, key: T -> string)
    requires key(x) == k ==> forall i :: 0 <= i < |b| ==> key(b[i]) != k
    ensures WithKey(a + [x] + b, k, key) == WithKey(a + b, k, key) + (if key(x) == k then [x] else [])
  {
    assert WithKey([x], k, key) == if key(x) == k then [x] else [];
    WithKeyConcat(a, b, k, key);
    WithKeyConcat(a + [x], b, k, key);
    WithKeyConcat(a, [x], k, key);
    if key(x) == k {
      WithKeyAbsent(b, k, key);
    }
  }

  /** Inserting into a sorted sequence puts `x` after every element that
      shares its key, and leaves the elements of every other key in place. */
  lemma {:induction false} InsertAfterEqualKeys<T>(s: seq<T>, x: T, k: string, key: T -> string)
    requires SortedBy(s, key)
    ensures WithKey(Insert(s, x, key), k, key) == WithKey(s, k, key) + (if key(x) == k then [x] else [])
  {
    var p := InsertionPoint(s, x, key);
    var a, b := s[..p], s[p..];
    assert Insert(s, x, key) == a + [x] + b && s == a + b && (forall i :: 0 <= i < |b| ==> key(b[i]) != key(x)) by {
      InsertShape(s, x, key);
      forall i | 0 <= i < |b| ensures key(b[i]) != key(x) {
        assert LexLess(key(x), key(s[p + i]));
      }
    }
    WithKeySplice(a, x, b, k, key);
  }

  /** Stability: for every key, the elements carrying it keep their input
      order in the sorted sequence. */
  lemma {:induction false} SortByKeyStable<T>(s: seq<T>, k: string, key: T -> string)
    ensures WithKey(SortByKey(s, key), k, key) == WithKey(s, k, key)
    decreases |s|
  {
    if |s| > 0 {
      var init, x := s[..|s| - 1], s[|s| - 1];
      var sorted := SortByKey(init, key);
      var wx := if key(x) == k then [x] else [];
      assert SortByKey(s, key) == Insert(sorted, x, key);
      assert WithKey(Insert(sorted, x, key), k, key) == WithKey(sorted, k, key) + wx by {
        SortByKeySorted(init, key);
        InsertAfterEqualKeys(sorted, x, k, key);
      }
      assert WithKey(sorted, k, key) == WithKey(init, k, key) by {
        SortByKeyStable(init, k, key);
      }
      assert WithKey(s, k, key) == WithKey(init, k, key) + wx by {
        assert s == init + [x];
        assert WithKey([x], k, key) == wx;
        WithKeyConcat(init, [x], k, key);
      }
    }
  }

  /** An element whose key sorts at or after every key of a sorted sequence
      lands at its end. */
  lemma {:induction false} InsertLast<T>(s: seq<T>, x: T, key: T -> string)
    requires forall i :: 0 <= i < |s| ==> LexLe(key(s[i]), key(x))
    ensures Insert(s, x, key) == s + [x]
    decreases |s|
  {
    if |s| > 0 {
      InsertLast(s[1..], x, key);
      assert s == [s[0]] + s[1..];
    }
  }

  /** `SortedIsFixpoint` as an implication, for callers that do not know
      whether `s` is sorted. */
  lemma SortedIsFixpointWhenSorted<T>(s: seq<T>, key: T -> string)
    ensures SortedBy(s, key) ==> SortByKey(s, key) == s
  {
    if SortedBy(s, key) {
      SortedIsFixpoint(s, key);
    }
  }

  /** Re-sorting a sorted sequence changes nothing. */
  lemma {:induction false} SortedIsFixpoint<T>(s: seq<T>, key: T -> string)
    requires SortedBy(s, key)
    ensures SortByKey(s, key) == s
    decreases |s|
  {
    if |s| > 0 {
      var init := s[..|s| - 1];
      assert SortedBy(init, key);
      SortedIsFixpoint(init, key);
      InsertLast(init, s[|s| - 1], key);
      assert s == init + [s[|s| - 1]];
    }
  }
}
