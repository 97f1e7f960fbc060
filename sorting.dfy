/**
 * Python's `list.sort(key=..., reverse=True)`: a stable sort, descending by key.
 * A stable sort is pinned down by two facts, both stated here: the result is
 * ordered by key, and for every key value the elements carrying it appear in
 * their input order. StableSortIsUnique shows that these two facts determine
 * the result, so the insertion sort below returns what Timsort returns.
 */
module Sorting {

  /** Non-increasing by key. */
  predicate SortedDesc<T>(s: seq<T>, key: T -> int) {
    forall i, j :: 0 <= i < j < |s| ==> key(s[i]) >= key(s[j])
  }

  /** The subsequence of `s` whose elements have key `t`, in order. */
  function WithKey<T>(s: seq<T>, key: T -> int, t: int): seq<T> {
    if s == [] then []
    else (if key(s[0]) == t then [s[0]] else []) + WithKey(s[1..], key, t)
  }

  lemma {:induction false} WithKeyAppend<T>(a: seq<T>, b: seq<T>, key: T -> int, t: int)
    ensures WithKey(a + b, key, t) == WithKey(a, key, t) + WithKey(b, key, t)
  {
    if a == [] {
      assert a + b == b;
    } else {
      var head := if key(a[0]) == t then [a[0]] else [];
      assert (a + b)[0] == a[0] && (a + b)[1..] == a[1..] + b;
      WithKeyAppend(a[1..], b, key, t);
      assert WithKey(a + b, key, t) == head + (WithKey(a[1..], key, t) + WithKey(b, key, t));
      assert WithKey(a, key, t) == head + WithKey(a[1..], key, t);
    }
  }

  lemma {:induction false} WithKeyNone<T>(s: seq<T>, key: T -> int, t: int)
    requires forall i :: 0 <= i < |s| ==> key(s[i]) != t
    ensures WithKey(s, key, t) == []
  {
    if s != [] {
      WithKeyNone(s[1..], key, t);
    }
  }

  lemma {:induction false} WithKeyHead<T>(s: seq<T>, key: T -> int)
    requires s != []
    ensures WithKey(s, key, key(s[0])) != [] && WithKey(s, key, key(s[0]))[0] == s[0]
  {
  }

  /** Every element of WithKey(s, key, t) is an element of `s` with key t. */
  lemma {:induction false} WithKeyMembers<T>(s: seq<T>, key: T -> int, t: int)
    ensures forall x :: x in WithKey(s, key, t) <==> x in s && key(x) == t
  {
    if s != [] {
      WithKeyMembers(s[1..], key, t);
      assert s == [s[0]] + s[1..];
    }
  }

  /** WithKey distributes over the three pieces of an insertion. */
  lemma {:induction false} WithKeySplit<T>(r: seq<T>, j: nat, x: T, key: T -> int, t: int)
    requires j <= |r|
    ensures WithKey(r[..j] + [x] + r[j..], key, t) == WithKey(r[..j], key, t) + WithKey([x], key, t) + WithKey(r[j..], key, t)
    ensures WithKey(r, key, t) == WithKey(r[..j], key, t) + WithKey(r[j..], key, t)
  {
    var front, back := r[..j], r[j..];
    assert r == front + back;
    assert r[..j] + [x] + r[j..] == (front + [x]) + back;
    WithKeyAppend(front + [x], back, key, t);
    WithKeyAppend(front, [x], key, t);
    WithKeyAppend(front, back, key, t);
  }

  /** Inserting x before every element whose key is below key(x) keeps each key's elements in order. */
  lemma InsertStable<T>(r: seq<T>, j: nat, x: T, key: T -> int, t: int)
    requires j <= |r|
    requires forall i :: j <= i < |r| ==> key(r[i]) < key(x)
    ensures WithKey(r[..j] + [x] + r[j..], key, t) == WithKey(r, key, t) + WithKey([x], key, t)
  {
    WithKeySplit(r, j, x, key, t);
    var front, back, single := WithKey(r[..j], key, t), WithKey(r[j..], key, t), WithKey([x], key, t);
    if t == key(x) {
      forall i | 0 <= i < |r[j..]| ensures key(r[j..][i]) != t {
        assert r[j..][i] == r[j + i];
      }
      WithKeyNone(r[j..], key, t);
      assert back == [];
      assert front + single + [] == front + single;
    } else {
      assert single == [];
      assert front + [] == front;
    }
  }

  /** Inserting x between the elements with key >= key(x) and those with key < key(x) keeps the order. */
  lemma InsertSorted<T>(r: seq<T>, j: nat, x: T, key: T -> int)
    requires j <= |r| && SortedDesc(r, key)
    requires forall i :: 0 <= i < j ==> key(r[i]) >= key(x)
    requires forall i :: j <= i < |r| ==> key(r[i]) < key(x)
    ensures SortedDesc(r[..j] + [x] + r[j..], key)
  {
    var s := r[..j] + [x] + r[j..];
    forall a, b | 0 <= a < b < |s| ensures key(s[a]) >= key(s[b]) {
      if b < j {
        assert s[a] == r[a] && s[b] == r[b];
      } else if b == j {
        assert s[a] == r[a] && s[b] == x;
      } else if a < j {
        assert s[a] == r[a] && s[b] == r[b - 1];
      } else if a == j {
        assert s[a] == x && s[b] == r[b - 1];
      } else {
        assert s[a] == r[a - 1] && s[b] == r[b - 1];
      }
    }
  }

  lemma InsertStepAt<T>(r: seq<T>, j: nat, s: seq<T>, i: nat, key: T -> int, t: int)
    requires j <= |r| && i < |s|
    requires forall k :: j <= k < |r| ==> key(r[k]) < key(s[i])
    requires WithKey(r, key, t) == WithKey(s[..i], key, t)
    ensures WithKey(r[..j] + [s[i]] + r[j..], key, t) == WithKey(s[..i + 1], key, t)
  {
    assert s[..i + 1] == s[..i] + [s[i]];
    InsertStable(r, j, s[i], key, t);
    WithKeyAppend(s[..i], [s[i]], key, t);
  }

  /** For every key value, `a` and `b` hold the elements carrying it in the same order. */
  ghost predicate SameKeyOrder<T>(a: seq<T>, b: seq<T>, key: T -> int) {
    forall t :: WithKey(a, key, t) == WithKey(b, key, t)
  }

  /** One step of the insertion sort keeps, for every key, the placed elements in input order. */
  lemma InsertStep<T>(r: seq<T>, j: nat, s: seq<T>, i: nat, key: T -> int)
    requires j <= |r| && i < |s|
    requires forall k :: j <= k < |r| ==> key(r[k]) < key(s[i])
    requires SameKeyOrder(r, s[..i], key)
    ensures SameKeyOrder(r[..j] + [s[i]] + r[j..], s[..i + 1], key)
  {
    forall t ensures WithKey(r[..j] + [s[i]] + r[j..], key, t) == WithKey(s[..i + 1], key, t) {
      InsertStepAt(r, j, s, i, key, t);
    }
  }

  /** Inserting the next input element keeps the placed elements a rearrangement of the input read so far. */
  lemma InsertMultiset<T>(r: seq<T>, j: nat, s: seq<T>, i: nat)
    requires j <= |r| && i < |s| && multiset(r) == multiset(s[..i])
    ensures multiset(r[..j] + [s[i]] + r[j..]) == multiset(s[..i + 1])
  {
    assert r == r[..j] + r[j..];
    assert s[..i + 1] == s[..i] + [s[i]];
  }

  /**
   * Stable sort, descending by key: an insertion sort that places each element
   * after every element already placed whose key is at least its own.
   */
  method SortDescStable<T(==)>(s: seq<T>, key: T -> int) returns (r: seq<T>)
    ensures SortedDesc(r, key)
    ensures multiset(r) == multiset(s)
    ensures forall t :: WithKey(r, key, t) == WithKey(s, key, t)
  {
    r := [];
    var i := 0;
    while i < |s|
      invariant 0 <= i <= |s|
      invariant SortedDesc(r, key)
      invariant multiset(r) == multiset(s[..i])
      invariant SameKeyOrder(r, s[..i], key)
    {
      var x := s[i];
      var j := 0;
      while j < |r| && key(r[j]) >= key(x)
        invariant 0 <= j <= |r|
        invariant forall k :: 0 <= k < j ==> key(r[k]) >= key(x)
      {
        j := j + 1;
      }
      assert forall k :: j <= k < |r| ==> key(r[k]) < key(x);
      InsertSorted(r, j, x, key);
      InsertMultiset(r, j, s, i);
      InsertStep(r, j, s, i, key);
      r := r[..j] + [x] + r[j..];
      i := i + 1;
    }
    assert s[..i] == s;
  }

  /** Two sorted lists with the same elements per key start with the same element. */
  lemma HeadsAgree<T>(a: seq<T>, b: seq<T>, key: T -> int)
    requires a != [] && b != [] && SortedDesc(a, key) && SortedDesc(b, key)
    requires SameKeyOrder(a, b, key)
    ensures a[0] == b[0]
  {
    WithKeyHead(a, key);
    WithKeyHead(b, key);
    var ka, kb := key(a[0]), key(b[0]);
    WithKeyMembers(a, key, kb);
    WithKeyMembers(b, key, ka);
    assert b[0] in WithKey(a, key, kb);
    assert a[0] in WithKey(b, key, ka);
    assert ka == kb;
  }

  /** Dropping a common first element keeps the per-key order equal. */
  lemma TailsAgree<T>(a: seq<T>, b: seq<T>, key: T -> int)
    requires a != [] && b != [] && a[0] == b[0]
    requires SameKeyOrder(a, b, key)
    ensures SameKeyOrder(a[1..], b[1..], key)
  {
    forall t ensures WithKey(a[1..], key, t) == WithKey(b[1..], key, t) {
      var head := if key(a[0]) == t then [a[0]] else [];
      assert WithKey(a, key, t) == head + WithKey(a[1..], key, t);
      assert WithKey(b, key, t) == head + WithKey(b[1..], key, t);
      assert WithKey(a[1..], key, t) == (head + WithKey(a[1..], key, t))[|head|..];
      assert WithKey(b[1..], key, t) == (head + WithKey(b[1..], key, t))[|head|..];
    }
  }

  /** Any two stable descending sorts of the same list agree element for element. */
  lemma {:induction false} StableSortIsUnique<T>(a: seq<T>, b: seq<T>, key: T -> int)
    requires SortedDesc(a, key) && SortedDesc(b, key)
    requires forall t :: WithKey(a, key, t) == WithKey(b, key, t)
    ensures a == b
    decreases |a|
  {
    if a == [] {
      if b != [] {
        WithKeyHead(b, key);
        assert false;
      }
    } else {
      WithKeyHead(a, key);
      if b == [] {
        assert false;
      }
      HeadsAgree(a, b, key);
      TailsAgree(a, b, key);
      StableSortIsUnique(a[1..], b[1..], key);
      assert a == [a[0]] + a[1..] && b == [b[0]] + b[1..];
    }
  }

  /** A list without repeated elements. */
  predicate Distinct<T(==)>(s: seq<T>) {
    forall i, j :: 0 <= i < j < |s| ==> s[i] != s[j]
  }

  /** Two lists without repeats and without common elements concatenate to a list without repeats. */
  lemma DistinctAppend<T>(a: seq<T>, b: seq<T>)
    requires Distinct(a) && Distinct(b)
    requires forall x :: x in a ==> x !in b
    ensures Distinct(a + b)
  {
    var ab := a + b;
    forall i, j | 0 <= i < j < |ab| ensures ab[i] != ab[j] {
      if j < |a| {
        assert ab[i] == a[i] && ab[j] == a[j];
      } else if i < |a| {
        assert ab[i] == a[i] && ab[j] == b[j - |a|];
        assert a[i] in a;
      } else {
        assert ab[i] == b[i - |a|] && ab[j] == b[j - |a|];
      }
    }
  }

  lemma {:induction false} DistinctMultiplicity<T>(s: seq<T>, x: T)
    requires Distinct(s)
    ensures multiset(s)[x] <= 1
  {
    if s != [] {
      assert s == [s[0]] + s[1..];
      DistinctMultiplicity(s[1..], x);
      if x == s[0] {
        assert x !in s[1..];
      }
    }
  }

  /** A permutation of a list without repeats has no repeats. */
  lemma PermutationKeepsDistinct<T>(a: seq<T>, b: seq<T>)
    requires multiset(a) == multiset(b) && Distinct(a)
    ensures Distinct(b)
  {
    forall i, j | 0 <= i < j < |b| ensures b[i] != b[j] {
      if b[i] == b[j] {
        var x := b[i];
        assert b == b[..i] + [b[i]] + b[i + 1..j] + [b[j]] + b[j + 1..];
        assert multiset(b)[x] >= 2;
        DistinctMultiplicity(a, x);
        assert false;
      }
    }
  }
}
