/** `Vec::sort_by` with a comparison of string keys, as the calculator uses it
    for the country list (by lower-cased name) and for the observations (by
    period token). The library sort is stable, so it is specified by three
    facts: the result is ordered by key, it holds the same elements, and the
    elements that share a key keep their original order. */
module Sorting {
  import opened Texts

  /** Ordered by key: no element has a key smaller than an earlier one's. */
  predicate SortedBy<T>(s: seq<T>, key: T -> string) {
    forall i, j :: 0 <= i < j < |s| ==> !LexLess(key(s[j]), key(s[i]))
  }

  /** The elements whose key is k, in their order. */
  function WithKey<T>(s: seq<T>, key: T -> string, k: string): seq<T> {
    if s == [] then []
    else (if key(s[0]) == k then [s[0]] else []) + WithKey(s[1..], key, k)
  }

  /** x placed after every element whose key is not greater than its own. */
  function Insert<T>(t: seq<T>, x: T, key: T -> string): seq<T> {
    if t == [] then [x]
    else if LexLess(key(x), key(t[0])) then [x] + t
    else [t[0]] + Insert(t[1..], x, key)
  }

  /** Insertion sort, one element at a time from the left. */
  function SortBy<T>(s: seq<T>, key: T -> string): seq<T> {
    if s == [] then [] else Insert(SortBy(s[..|s| - 1], key), s[|s| - 1], key)
  }

  // --------------------------------------------------------------- lemmas

  lemma {:induction false} WithKeyConcat<T>(a: seq<T>, b: seq<T>, key: T -> string, k: string)
    ensures WithKey(a + b, key, k) == WithKey(a, key, k) + WithKey(b, key, k)
  {
    if a == [] {
      assert a + b == b;
    } else {
      var h: seq<T> := if key(a[0]) == k then [a[0]] else [];
      assert (a + b)[0] == a[0];
      assert (a + b)[1..] == a[1..] + b;
      assert WithKey(a + b, key, k) == h + WithKey(a[1..] + b, key, k);
      WithKeyConcat(a[1..], b, key, k);
      assert WithKey(a, key, k) == h + WithKey(a[1..], key, k);
    }
  }

  /** The first element of key k is the first element of the sequence to have
      that key. */
  lemma {:induction false} WithKeyFirst<T>(s: seq<T>, key: T -> string, k: string, i: nat)
    requires i < |s| && key(s[i]) == k
    requires forall j :: 0 <= j < i ==> key(s[j]) != k
    ensures WithKey(s, key, k) != [] && WithKey(s, key, k)[0] == s[i]
  {
    if i > 0 {
      assert forall j :: 0 <= j < i - 1 ==> s[1..][j] == s[j + 1];
      WithKeyFirst(s[1..], key, k, i - 1);
    }
  }

  /** The last element of a sequence is the last element of its own key. */
  lemma WithKeyLast<T>(s: seq<T>, key: T -> string)
    requires s != []
    ensures var w := WithKey(s, key, key(s[|s| - 1]));
      w != [] && w[|w| - 1] == s[|s| - 1]
  {
    var x := s[|s| - 1];
    assert s == s[..|s| - 1] + [x];
    WithKeyConcat(s[..|s| - 1], [x], key, key(x));
    assert WithKey([x], key, key(x)) == [x] + WithKey([], key, key(x));
  }

  lemma {:induction false} InsertMultiset<T>(t: seq<T>, x: T, key: T -> string)
    ensures multiset(Insert(t, x, key)) == multiset(t) + multiset{x}
  {
    if t != [] && !LexLess(key(x), key(t[0])) {
      InsertMultiset(t[1..], x, key);
      assert t == [t[0]] + t[1..];
    }
  }

  lemma SortedTail<T>(t: seq<T>, key: T -> string)
    requires t != [] && SortedBy(t, key)
    ensures SortedBy(t[1..], key)
  {
    assert forall i :: 0 <= i < |t[1..]| ==> t[1..][i] == t[i + 1];
  }

  /** An element whose key is below the first key of a sorted sequence is below
      every key there. */
  lemma AboveFirst<T>(t: seq<T>, x: T, key: T -> string)
    requires t != [] && SortedBy(t, key) && LexLess(key(x), key(t[0]))
    ensures forall j :: 0 <= j < |t| ==> LexLess(key(x), key(t[j]))
  {
    forall j | 0 <= j < |t|
      ensures LexLess(key(x), key(t[j]))
    {
      if j > 0 {
        LexLessTotal(key(t[0]), key(t[j]));
        if key(t[0]) != key(t[j]) {
          LexLessTransitive(key(x), key(t[0]), key(t[j]));
        }
      }
    }
  }

  /** Inserting an element whose key is at least k0 into a sequence whose keys
      are at least k0 keeps all keys at least k0. */
  lemma {:induction false} InsertKeysAtLeast<T>(t: seq<T>, x: T, key: T -> string, k0: string)
    requires forall j :: 0 <= j < |t| ==> !LexLess(key(t[j]), k0)
    requires !LexLess(key(x), k0)
    ensures forall j :: 0 <= j < |Insert(t, x, key)| ==> !LexLess(key(Insert(t, x, key)[j]), k0)
  {
    if t != [] && !LexLess(key(x), key(t[0])) {
      assert forall j :: 0 <= j < |t[1..]| ==> t[1..][j] == t[j + 1];
      InsertKeysAtLeast(t[1..], x, key, k0);
    }
  }

  /** Prepending an element whose key is at most every key of a sorted sequence
      keeps it sorted. */
  lemma PrependSorted<T>(y: T, rest: seq<T>, key: T -> string)
    requires SortedBy(rest, key)
    requires forall j :: 0 <= j < |rest| ==> !LexLess(key(rest[j]), key(y))
    ensures SortedBy([y] + rest, key)
  {
    var r := [y] + rest;
    forall i, j | 0 <= i < j < |r|
      ensures !LexLess(key(r[j]), key(r[i]))
    {
      assert r[j] == rest[j - 1];
      if i > 0 {
        assert r[i] == rest[i - 1];
      }
    }
  }

  lemma {:induction false} InsertSorted<T>(t: seq<T>, x: T, key: T -> string)
    requires SortedBy(t, key)
    ensures SortedBy(Insert(t, x, key), key)
  {
    if t == [] {
    } else if LexLess(key(x), key(t[0])) {
      AboveFirst(t, x, key);
      forall j | 0 <= j < |t|
        ensures !LexLess(key(t[j]), key(x))
      {
        LexLessAsymmetric(key(x), key(t[j]));
      }
      PrependSorted(x, t, key);
    } else {
      SortedTail(t, key);
      InsertSorted(t[1..], x, key);
      assert forall j :: 0 <= j < |t[1..]| ==> t[1..][j] == t[j + 1];
      InsertKeysAtLeast(t[1..], x, key, key(t[0]));
      PrependSorted(t[0], Insert(t[1..], x, key), key);
    }
  }

  /** Nothing in a sorted sequence has a key equal to one below its first key. */
  lemma NoneWithKey<T>(t: seq<T>, key: T -> string, k: string)
    requires forall j :: 0 <= j < |t| ==> LexLess(k, key(t[j]))
    ensures WithKey(t, key, k) == []
    decreases |t|
  {
    if t != [] {
      LexLessIrreflexive(k);
      assert forall j :: 0 <= j < |t[1..]| ==> t[1..][j] == t[j + 1];
      NoneWithKey(t[1..], key, k);
    }
  }

  /** Inserting x into a sorted sequence puts it after every element of its own
      key. */
  lemma {:induction false} InsertStable<T>(t: seq<T>, x: T, key: T -> string, k: string)
    requires SortedBy(t, key)
    ensures WithKey(Insert(t, x, key), key, k) == WithKey(t, key, k) + (if key(x) == k then [x] else [])
  {
    var mine: seq<T> := if key(x) == k then [x] else [];
    if t == [] {
      assert WithKey([x], key, k) == mine + WithKey([], key, k);
    } else if LexLess(key(x), key(t[0])) {
      var r := [x] + t;
      assert r[0] == x && r[1..] == t;
      assert WithKey(r, key, k) == mine + WithKey(t, key, k);
      if key(x) == k {
        AboveFirst(t, x, key);
        NoneWithKey(t, key, k);
      }
    } else {
      var head: seq<T> := if key(t[0]) == k then [t[0]] else [];
      var rest := Insert(t[1..], x, key);
      var r := [t[0]] + rest;
      assert r[0] == t[0] && r[1..] == rest;
      assert WithKey(r, key, k) == head + WithKey(rest, key, k);
      SortedTail(t, key);
      InsertStable(t[1..], x, key, k);
      assert WithKey(t, key, k) == head + WithKey(t[1..], key, k);
    }
  }

  /** The sort orders by key. */
  lemma {:induction false} SortBySorted<T>(s: seq<T>, key: T -> string)
    ensures SortedBy(SortBy(s, key), key)
  {
    if s != [] {
      SortBySorted(s[..|s| - 1], key);
      InsertSorted(SortBy(s[..|s| - 1], key), s[|s| - 1], key);
    }
  }

  /** The sort keeps every element, as often as it occurs. */
  lemma {:induction false} SortByPermutation<T>(s: seq<T>, key: T -> string)
    ensures multiset(SortBy(s, key)) == multiset(s)
  {
    if s != [] {
      SortByPermutation(s[..|s| - 1], key);
      InsertMultiset(SortBy(s[..|s| - 1], key), s[|s| - 1], key);
      assert s == s[..|s| - 1] + [s[|s| - 1]];
    }
  }

  /** The sort is stable: the elements of each key come out in their original
      order. */
  lemma {:induction false} SortByStable<T>(s: seq<T>, key: T -> string, k: string)
    ensures WithKey(SortBy(s, key), key, k) == WithKey(s, key, k)
  {
    if s != [] {
      var init, x := s[..|s| - 1], s[|s| - 1];
      SortByStable(init, key, k);
      SortBySorted(init, key);
      InsertStable(SortBy(init, key), x, key, k);
      assert s == init + [x];
      WithKeyConcat(init, [x], key, k);
      assert WithKey([x], key, k) == (if key(x) == k then [x] else []) + WithKey([], key, k);
    }
  }

  /** The sort changes nothing in a sequence that is already ordered... */
  lemma {:induction false} InsertAtEnd<T>(t: seq<T>, x: T, key: T -> string)
    requires forall j :: 0 <= j < |t| ==> !LexLess(key(x), key(t[j]))
    ensures Insert(t, x, key) == t + [x]
  {
    if t != [] {
      assert forall j :: 0 <= j < |t[1..]| ==> t[1..][j] == t[j + 1];
      InsertAtEnd(t[1..], x, key);
      assert t == [t[0]] + t[1..];
    }
  }

  /** ...so sorting is idempotent. */
  lemma {:induction false} SortByOfSorted<T>(s: seq<T>, key: T -> string)
    requires SortedBy(s, key)
    ensures SortBy(s, key) == s
  {
    if s != [] {
      var init := s[..|s| - 1];
      assert SortedBy(init, key) by {
        assert forall i :: 0 <= i < |init| ==> init[i] == s[i];
      }
      SortByOfSorted(init, key);
      InsertAtEnd(init, s[|s| - 1], key);
    }
  }
}
