/** A stable sort into descending order of a real-valued key, written as an
    insertion sort over sequences, with the properties that characterise it:
    it permutes its input, its output is non-increasing, elements with equal
    keys keep their input order, and it is the only sequence with all three
    properties.

    This is the ordering Python's `sorted(xs, key=k, reverse=True)` promises:
    the sort is stable, and `reverse=True` still leaves elements with equal
    keys in their original order.
 */
module StableSort {

  /** `s` is in non-increasing order of `key`. */
  ghost predicate SortedDesc<T>(s: seq<T>, key: T -> real) {
    forall i, j | 0 <= i < j < |s| :: key(s[i]) >= key(s[j])
  }

  /** The elements of `s` whose key is `k`, in their order in `s`. */
  function Filter<T>(s: seq<T>, key: T -> real, k: real): seq<T> {
    if |s| == 0 then []
    else (if key(s[0]) == k then [s[0]] else []) + Filter(s[1..], key, k)
  }

  /** `t` is `s` sorted stably into descending order of `key`: a permutation
      of `s`, non-increasing, and with each group of equal keys in the order
      that group has in `s`. */
  ghost predicate IsStableSortOf<T>(t: seq<T>, s: seq<T>, key: T -> real) {
    && multiset(t) == multiset(s)
    && SortedDesc(t, key)
    && forall k :: Filter(t, key, k) == Filter(s, key, k)
  }

  /** Places `x` in front of the first element of `s` whose key is not
      greater than its own, so `x` precedes every element with an equal key. */
  function Insert<T>(x: T, s: seq<T>, key: T -> real): (r: seq<T>)
    ensures multiset(r) == multiset(s) + multiset{x}
    ensures SortedDesc(s, key) ==> SortedDesc(r, key)
  {
    if |s| == 0 || key(s[0]) <= key(x) then
      [x] + s
    else
      var rest := Insert(x, s[1..], key);
      assert s == [s[0]] + s[1..];
      assert SortedDesc(s, key) ==> forall j | 0 <= j < |rest| :: key(s[0]) >= key(rest[j]) by {
        if SortedDesc(s, key) {
          forall j | 0 <= j < |rest|
            ensures key(s[0]) >= key(rest[j])
          {
            assert rest[j] in multiset(rest);
            if rest[j] != x {
              assert rest[j] in multiset(s[1..]);
              var m :| 0 <= m < |s[1..]| && s[1..][m] == rest[j];
              assert s[m + 1] == rest[j];
            }
          }
        }
      }
      [s[0]] + rest
  }

  /** Insertion sort: sorts the tail, then inserts the head. */
  function Sort<T>(s: seq<T>, key: T -> real): (r: seq<T>)
    ensures multiset(r) == multiset(s)
    ensures |r| == |s|
    ensures SortedDesc(r, key)
  {
    if |s| == 0 then
      []
    else
      assert s == [s[0]] + s[1..];
      Insert(s[0], Sort(s[1..], key), key)
  }

  lemma {:induction false} FilterAppend<T>(a: seq<T>, b: seq<T>, key: T -> real, k: real)
    ensures Filter(a + b, key, k) == Filter(a, key, k) + Filter(b, key, k)
    decreases |a|
  {
    if |a| == 0 {
      assert a + b == b;
    } else {
      assert (a + b)[1..] == a[1..] + b;
      FilterAppend(a[1..], b, key, k);
    }
  }

  /** Filtering keeps exactly the elements whose key is `k`. */
  lemma {:induction false} FilterMembers<T>(s: seq<T>, key: T -> real, k: real)
    ensures forall x :: x in Filter(s, key, k) <==> x in s && key(x) == k
    decreases |s|
  {
    if |s| > 0 {
      FilterMembers(s[1..], key, k);
      assert s == [s[0]] + s[1..];
    }
  }

  /** Inserting `x` adds it to the front of its own key's group and leaves
      every other group unchanged. */
  lemma {:induction false} InsertFilter<T>(x: T, s: seq<T>, key: T -> real, k: real)
    ensures Filter(Insert(x, s, key), key, k)
         == (if key(x) == k then [x] else []) + Filter(s, key, k)
    decreases |s|
  {
    if |s| == 0 || key(s[0]) <= key(x) {
      assert ([x] + s)[1..] == s;
    } else {
      var rest := Insert(x, s[1..], key);
      assert ([s[0]] + rest)[1..] == rest;
      InsertFilter(x, s[1..], key, k);
    }
  }

  /** The sort is stable: each group of equal keys keeps its input order. */
  lemma {:induction false} SortStable<T>(s: seq<T>, key: T -> real, k: real)
    ensures Filter(Sort(s, key), key, k) == Filter(s, key, k)
    decreases |s|
  {
    if |s| > 0 {
      SortStable(s[1..], key, k);
      InsertFilter(s[0], Sort(s[1..], key), key, k);
    }
  }

  /** `Sort` meets the definition of a stable descending sort. */
  lemma SortIsStableSort<T>(s: seq<T>, key: T -> real)
    ensures IsStableSortOf(Sort(s, key), s, key)
  {
    forall k
      ensures Filter(Sort(s, key), key, k) == Filter(s, key, k)
    {
      SortStable(s, key, k);
    }
  }

  /** The group of a non-empty sequence's first key is non-empty. */
  lemma HeadGroupNonEmpty<T>(s: seq<T>, key: T -> real)
    ensures |s| > 0 ==> Filter(s, key, key(s[0])) != []
  {
  }

  /** Two non-increasing sequences whose groups of equal keys agree start
      with the same element. */
  lemma SameGroupsSameHead<T>(t: seq<T>, u: seq<T>, key: T -> real)
    requires SortedDesc(t, key) && SortedDesc(u, key)
    requires forall k :: Filter(t, key, k) == Filter(u, key, k)
    requires |t| > 0 && |u| > 0
    ensures t[0] == u[0]
  {
    var kt, ku := key(t[0]), key(u[0]);
    FilterMembers(t, key, ku);
    FilterMembers(u, key, kt);
    assert Filter(t, key, kt) == Filter(u, key, kt);
    assert Filter(t, key, ku) == Filter(u, key, ku);
    assert u[0] in Filter(t, key, ku);
    assert t[0] in Filter(u, key, kt);
    assert kt == ku;
    assert Filter(t, key, kt)[0] == t[0];
    assert Filter(u, key, kt)[0] == u[0];
  }

  /** Removing equal heads leaves tails whose groups still agree. */
  lemma SameGroupsTails<T>(t: seq<T>, u: seq<T>, key: T -> real)
    requires forall k :: Filter(t, key, k) == Filter(u, key, k)
    requires |t| > 0 && |u| > 0 && t[0] == u[0]
    ensures forall k :: Filter(t[1..], key, k) == Filter(u[1..], key, k)
  {
    forall k
      ensures Filter(t[1..], key, k) == Filter(u[1..], key, k)
    {
      var head := if key(t[0]) == k then [t[0]] else [];
      assert Filter(t, key, k) == Filter(u, key, k);
      assert Filter(t[1..], key, k) == Filter(t, key, k)[|head|..];
      assert Filter(u[1..], key, k) == Filter(u, key, k)[|head|..];
    }
  }

  /** Two non-increasing sequences whose groups of equal keys agree are equal. */
  lemma {:induction false} SortedWithSameGroupsEqual<T>(t: seq<T>, u: seq<T>, key: T -> real)
    requires SortedDesc(t, key) && SortedDesc(u, key)
    requires forall k :: Filter(t, key, k) == Filter(u, key, k)
    ensures t == u
    decreases |t|
  {
    HeadGroupNonEmpty(t, key);
    HeadGroupNonEmpty(u, key);
    assert |t| > 0 ==> Filter(u, key, key(t[0])) != [];
    assert |u| > 0 ==> Filter(t, key, key(u[0])) != [];
    if |t| == 0 && |u| == 0 {
    } else if |t| == 0 || |u| == 0 {
      assert false;
    } else {
      SameGroupsSameHead(t, u, key);
      SameGroupsTails(t, u, key);
      var t', u' := t[1..], u[1..];
      assert SortedDesc(t', key) && SortedDesc(u', key);
      SortedWithSameGroupsEqual(t', u', key);
      assert t == [t[0]] + t' && u == [u[0]] + u';
    }
  }

  /** The stable descending sort of a sequence is unique, and `Sort` is it. */
  lemma SortUnique<T>(t: seq<T>, s: seq<T>, key: T -> real)
    requires IsStableSortOf(t, s, key)
    ensures t == Sort(s, key)
  {
    forall k
      ensures Filter(t, key, k) == Filter(Sort(s, key), key, k)
    {
      SortStable(s, key, k);
    }
    SortedWithSameGroupsEqual(t, Sort(s, key), key);
  }

  /** A prefix of a sorted sequence is sorted and draws on its elements. */
  lemma PrefixOfSorted<T>(s: seq<T>, key: T -> real, n: int)
    requires 0 <= n <= |s|
    ensures multiset(s[..n]) <= multiset(s)
    ensures SortedDesc(s, key) ==> SortedDesc(s[..n], key)
  {
    assert s == s[..n] + s[n..];
  }

  /** In a sorted sequence, everything in a prefix has a key at least that of
      everything left after it. */
  lemma PrefixDominatesRest<T>(s: seq<T>, key: T -> real, n: int)
    requires 0 <= n <= |s|
    requires SortedDesc(s, key)
    ensures forall x, y | x in s[..n] && y in multiset(s) - multiset(s[..n]) :: key(x) >= key(y)
  {
    assert s == s[..n] + s[n..];
    assert multiset(s) - multiset(s[..n]) == multiset(s[n..]);
    forall x, y | x in s[..n] && y in multiset(s) - multiset(s[..n])
      ensures key(x) >= key(y)
    {
      var i :| 0 <= i < n && s[..n][i] == x;
      assert y in s[n..];
      var j :| 0 <= j < |s| - n && s[n..][j] == y;
      assert s[i] == x && s[n + j] == y;
    }
  }
}
