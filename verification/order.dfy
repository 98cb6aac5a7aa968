/**
 * The two orders the dashboard relies on: Python's `<` on strings (which
 * orders the groups of `groupby`) and ascending order on a numeric column
 * (`sort_values`).
 */
module Order {

  /** Python's `a < b` on `str`: lexicographic by code point, a proper prefix first. */
  predicate LexLess(a: string, b: string)
    decreases |a|
  {
    if |a| == 0 then |b| > 0
    else if |b| == 0 then false
    else a[0] < b[0] || (a[0] == b[0] && LexLess(a[1..], b[1..]))
  }

  lemma {:induction false} LexLessIrreflexive(a: string)
    ensures !LexLess(a, a)
    decreases |a|
  {
    if |a| > 0 {
      LexLessIrreflexive(a[1..]);
    }
  }

  lemma {:induction false} LexLessTransitive(a: string, b: string, c: string)
    requires LexLess(a, b) && LexLess(b, c)
    ensures LexLess(a, c)
    decreases |a|
  {
    if |a| > 0 && a[0] == b[0] && b[0] == c[0] {
      LexLessTransitive(a[1..], b[1..], c[1..]);
    }
  }

  /** Any two different strings are ordered one way or the other. */
  lemma {:induction false} LexLessTotal(a: string, b: string)
    requires a != b
    ensures LexLess(a, b) || LexLess(b, a)
    decreases |a|
  {
    if |a| > 0 && |b| > 0 && a[0] == b[0] {
      assert a == [a[0]] + a[1..] && b == [b[0]] + b[1..];
      LexLessTotal(a[1..], b[1..]);
    }
  }

  /** Strictly increasing under Python's string order, hence without repeats. */
  predicate StrictlyIncreasing(s: seq<string>) {
    forall i, j :: 0 <= i < j < |s| ==> LexLess(s[i], s[j])
  }

  /** Non-decreasing in the given numeric column. */
  predicate SortedBy<T>(s: seq<T>, key: T -> real) {
    forall i, j :: 0 <= i < j < |s| ==> key(s[i]) <= key(s[j])
  }

  /** Place `x` into a sorted sequence before the first element whose key is not smaller. */
  function InsertBy<T>(x: T, s: seq<T>, key: T -> real): (r: seq<T>)
    requires SortedBy(s, key)
    ensures SortedBy(r, key)
    ensures multiset(r) == multiset(s) + multiset{x}
  {
    if |s| == 0 then [x]
    else if key(x) <= key(s[0]) then [x] + s
    else
      var tail := InsertBy(x, s[1..], key);
      assert s == [s[0]] + s[1..];
      ConsSorted(s[0], tail, x, s[1..], key);
      [s[0]] + tail
  }

  /** Putting a head before a sorted tail keeps it sorted if no tail element has a smaller key. */
  lemma ConsSorted<T>(h: T, tail: seq<T>, x: T, rest: seq<T>, key: T -> real)
    requires SortedBy(tail, key) && multiset(tail) == multiset(rest) + multiset{x}
    requires key(h) <= key(x)
    requires forall k :: 0 <= k < |rest| ==> key(h) <= key(rest[k])
    ensures SortedBy([h] + tail, key)
  {
    var r := [h] + tail;
    forall i, j | 0 <= i < j < |r| ensures key(r[i]) <= key(r[j]) {
      var y := tail[j - 1];
      assert r[j] == y;
      if i == 0 {
        assert y in multiset(tail);
        if y != x {
          assert y in multiset(rest);
          var k :| 0 <= k < |rest| && rest[k] == y;
        }
      } else {
        assert r[i] == tail[i - 1];
      }
    }
  }

  /**
   * `sort_values` on one numeric column. Its default algorithm is not
   * stable, so only the resulting order of keys is specified: the result is
   * sorted and a permutation of the input.
   */
  function SortBy<T>(s: seq<T>, key: T -> real): (r: seq<T>)
    ensures SortedBy(r, key)
    ensures multiset(r) == multiset(s)
  {
    if |s| == 0 then []
    else
      assert s == [s[0]] + s[1..];
      InsertBy(s[0], SortBy(s[1..], key), key)
  }

  /** The column of keys of a sequence. */
  function Keys<T>(s: seq<T>, key: T -> real): (ks: seq<real>)
    ensures |ks| == |s|
  {
    seq(|s|, i requires 0 <= i < |s| => key(s[i]))
  }

  lemma {:induction false} KeysPermutation<T>(a: seq<T>, b: seq<T>, key: T -> real)
    requires multiset(a) == multiset(b)
    ensures multiset(Keys(a, key)) == multiset(Keys(b, key))
    decreases |a|
  {
    if |a| == 0 {
      assert |b| == |multiset(b)| == 0;
    } else {
      assert a[0] in multiset(b);
      var j :| 0 <= j < |b| && b[j] == a[0];
      var b' := b[..j] + b[j + 1..];
      RemoveMatching(a, b, j);
      KeysPermutation(a[1..], b', key);
      KeysRemove(a, 0, key);
      KeysRemove(b, j, key);
      assert a[..0] + a[1..] == a[1..];
    }
  }

  /** Removing equal elements from two permutations of each other leaves permutations. */
  lemma RemoveMatching<T>(a: seq<T>, b: seq<T>, j: nat)
    requires multiset(a) == multiset(b) && |a| > 0 && j < |b| && b[j] == a[0]
    ensures multiset(a[1..]) == multiset(b[..j] + b[j + 1..])
  {
    RemoveAt(b, j);
    RemoveAt(a, 0);
    assert a[..0] + a[1..] == a[1..];
    MultisetCancel(multiset(a[1..]), multiset(b[..j] + b[j + 1..]), a[0]);
  }

  /** Removing the element at `j` removes its key from the multiset of keys. */
  lemma KeysRemove<T>(s: seq<T>, j: nat, key: T -> real)
    requires j < |s|
    ensures multiset(Keys(s, key)) == multiset(Keys(s[..j] + s[j + 1..], key)) + multiset{key(s[j])}
  {
    var ks := Keys(s, key);
    RemoveAt(ks, j);
    assert ks[..j] + ks[j + 1..] == Keys(s[..j] + s[j + 1..], key);
  }

  /** Taking out the element at `j` takes one copy of it out of the multiset. */
  lemma RemoveAt<T>(s: seq<T>, j: nat)
    requires j < |s|
    ensures multiset(s) == multiset(s[..j] + s[j + 1..]) + multiset{s[j]}
  {
    assert s == s[..j] + [s[j]] + s[j + 1..];
  }

  lemma MultisetCancel<T>(a: multiset<T>, b: multiset<T>, x: T)
    requires a + multiset{x} == b + multiset{x}
    ensures a == b
  {
    assert a == a + multiset{x} - multiset{x};
  }

  predicate NonDecreasing(s: seq<real>) {
    forall i, j :: 0 <= i < j < |s| ==> s[i] <= s[j]
  }

  /** Two sorted sequences with the same values start with the same, smallest, value. */
  lemma SameHead(a: seq<real>, b: seq<real>)
    requires NonDecreasing(a) && NonDecreasing(b)
    requires multiset(a) == multiset(b) && |a| > 0 && |b| > 0
    ensures a[0] == b[0]
  {
    assert a[0] in multiset(b) && b[0] in multiset(a);
    var k :| 0 <= k < |b| && b[k] == a[0];
    var l :| 0 <= l < |a| && a[l] == b[0];
    assert b[0] <= b[k] && a[0] <= a[l];
  }

  lemma TailNonDecreasing(a: seq<real>)
    requires NonDecreasing(a) && |a| > 0
    ensures NonDecreasing(a[1..])
  {
  }

  lemma DropHead(a: seq<real>, b: seq<real>)
    requires |a| > 0 && |b| > 0 && a[0] == b[0] && multiset(a) == multiset(b)
    ensures multiset(a[1..]) == multiset(b[1..])
  {
    RemoveAt(a, 0);
    RemoveAt(b, 0);
    assert a[..0] + a[1..] == a[1..] && b[..0] + b[1..] == b[1..];
    MultisetCancel(multiset(a[1..]), multiset(b[1..]), a[0]);
  }

  /** Sorted sequences of numbers holding the same values are equal. */
  lemma {:induction false} SortedRealsUnique(a: seq<real>, b: seq<real>)
    requires NonDecreasing(a) && NonDecreasing(b)
    requires multiset(a) == multiset(b)
    ensures a == b
    decreases |a|
  {
    assert |b| == |multiset(b)|;
    if |a| > 0 {
      SameHead(a, b);
      DropHead(a, b);
      TailNonDecreasing(a);
      TailNonDecreasing(b);
      SortedRealsUnique(a[1..], b[1..]);
      assert a == [a[0]] + a[1..] && b == [b[0]] + b[1..];
    }
  }

  /**
   * Whichever way an unstable sort breaks ties, the column it sorts by comes
   * out the same: two sorted permutations of one sequence agree on every key.
   */
  lemma SortedPermutationsAgree<T>(a: seq<T>, b: seq<T>, key: T -> real)
    requires SortedBy(a, key) && SortedBy(b, key)
    requires multiset(a) == multiset(b)
    ensures |a| == |b|
    ensures forall i :: 0 <= i < |a| ==> key(a[i]) == key(b[i])
  {
    var ka, kb := Keys(a, key), Keys(b, key);
    KeysPermutation(a, b, key);
    assert NonDecreasing(ka) && NonDecreasing(kb);
    SortedRealsUnique(ka, kb);
    forall i | 0 <= i < |a| ensures key(a[i]) == key(b[i]) {
      assert ka[i] == key(a[i]) && kb[i] == key(b[i]);
    }
  }

  /** `idxmin` of a numeric column: the first position holding the minimum. */
  function ArgMin<T>(s: seq<T>, key: T -> real): (k: nat)
    requires |s| > 0
    ensures k < |s|
    ensures forall i :: 0 <= i < |s| ==> key(s[k]) <= key(s[i])
    ensures forall i :: 0 <= i < k ==> key(s[k]) < key(s[i])
    decreases |s|
  {
    if |s| == 1 then 0
    else
      var n := |s| - 1;
      var k := ArgMin(s[..n], key);
      assert forall i :: 0 <= i < n ==> s[..n][i] == s[i];
      if key(s[n]) < key(s[k]) then n else k
  }

  /** In a sorted column the first minimum is at the front. */
  lemma SortedArgMin<T>(s: seq<T>, key: T -> real)
    requires SortedBy(s, key) && |s| > 0
    ensures ArgMin(s, key) == 0
  {
  }
}
