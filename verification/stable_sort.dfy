/** Python's `list.sort(key=...)` on scored entries: an ascending sort by the
    key that is stable, so entries with equal keys keep the order they had. */
module StableSort {

  /** A point paired with its distance from the reference location, in
      hundredths of a kilometre (the distance rounded to two decimals). */
  datatype Ranked<P> = Ranked(point: P, distanceHundredths: int)

  ghost predicate Sorted<P>(s: seq<Ranked<P>>)
  {
    forall i, j :: 0 <= i < j < |s| ==> s[i].distanceHundredths <= s[j].distanceHundredths
  }

  /** The entries of `s` whose key is `k`, in the order they occur in `s`. */
  function WithKey<P>(s: seq<Ranked<P>>, k: int): (r: seq<Ranked<P>>)
    ensures |r| <= |s|
  {
    if s == [] then []
    else (if s[0].distanceHundredths == k then [s[0]] else []) + WithKey(s[1..], k)
  }

  /** The entries picked for key `k` are entries of `s` with key `k`. */
  lemma {:induction false} WithKeyMembers<P>(s: seq<Ranked<P>>, k: int, x: Ranked<P>)
    requires x in WithKey(s, k)
    ensures x in s && x.distanceHundredths == k
    decreases |s|
  {
    if s[0] != x || s[0].distanceHundredths != k {
      WithKeyMembers(s[1..], k, x);
    }
  }

  /** `t` keeps, for every key, the entries of `s` with that key in the order
      they had in `s`: the meaning of a stable sort, which also makes `t` a
      permutation of `s`. */
  ghost predicate KeepsTiesInOrder<P>(s: seq<Ranked<P>>, t: seq<Ranked<P>>)
  {
    forall k :: WithKey(t, k) == WithKey(s, k)
  }

  /** `x` placed in front of the first entry of `s` whose key is not smaller. */
  function Insert<P>(x: Ranked<P>, s: seq<Ranked<P>>): (r: seq<Ranked<P>>)
    ensures |r| == |s| + 1
  {
    if s == [] || x.distanceHundredths <= s[0].distanceHundredths then [x] + s
    else [s[0]] + Insert(x, s[1..])
  }

  /** Inserting adds exactly the one new entry. */
  lemma {:induction false} InsertAddsEntry<P>(x: Ranked<P>, s: seq<Ranked<P>>)
    ensures multiset(Insert(x, s)) == multiset(s) + multiset{x}
    decreases |s|
  {
    if s != [] && s[0].distanceHundredths < x.distanceHundredths {
      InsertAddsEntry(x, s[1..]);
      assert s == [s[0]] + s[1..];
      assert multiset(s) == multiset([s[0]]) + multiset(s[1..]);
    }
  }

  /** When `x` is inserted past the head of a sorted `s`, the head stays a
      lower bound of everything after it. */
  lemma HeadBelowInserted<P>(x: Ranked<P>, s: seq<Ranked<P>>, rest: seq<Ranked<P>>)
    requires Sorted(s) && s != [] && s[0].distanceHundredths < x.distanceHundredths
    requires Sorted(rest) && multiset(rest) == multiset(s[1..]) + multiset{x}
    ensures Sorted([s[0]] + rest)
  {
    var r := [s[0]] + rest;
    forall i, j | 0 <= i < j < |r|
      ensures r[i].distanceHundredths <= r[j].distanceHundredths
    {
      if i == 0 {
        var y := rest[j - 1];
        assert y in multiset(rest);
        if y != x {
          assert y in multiset(s[1..]);
          assert y in s[1..];
          var m :| 0 <= m < |s[1..]| && s[1..][m] == y;
          assert s[m + 1] == y;
        }
      } else {
        assert r[i] == rest[i - 1] && r[j] == rest[j - 1];
      }
    }
  }

  /** Inserting into a sorted sequence keeps it sorted. */
  lemma {:induction false} InsertKeepsSorted<P>(x: Ranked<P>, s: seq<Ranked<P>>)
    requires Sorted(s)
    ensures Sorted(Insert(x, s))
    decreases |s|
  {
    if s != [] && s[0].distanceHundredths < x.distanceHundredths {
      var rest := Insert(x, s[1..]);
      InsertKeepsSorted(x, s[1..]);
      InsertAddsEntry(x, s[1..]);
      HeadBelowInserted(x, s, rest);
    }
  }

  /** Insertion sort, inserting each entry in front of the already sorted
      entries that came after it. */
  function SortByDistance<P>(s: seq<Ranked<P>>): (r: seq<Ranked<P>>)
    ensures |r| == |s|
    ensures Sorted(r)
    ensures multiset(r) == multiset(s)
  {
    if s == [] then []
    else
      var sortedTail := SortByDistance(s[1..]);
      InsertKeepsSorted(s[0], sortedTail);
      InsertAddsEntry(s[0], sortedTail);
      assert s == [s[0]] + s[1..];
      Insert(s[0], sortedTail)
  }

  lemma WithKeyCons<P>(y: Ranked<P>, t: seq<Ranked<P>>, k: int)
    ensures WithKey([y] + t, k) == (if y.distanceHundredths == k then [y] else []) + WithKey(t, k)
  {
    assert ([y] + t)[1..] == t;
  }

  lemma {:induction false} WithKeyAppend<P>(a: seq<Ranked<P>>, b: seq<Ranked<P>>, k: int)
    ensures WithKey(a + b, k) == WithKey(a, k) + WithKey(b, k)
    decreases |a|
  {
    if a == [] {
      assert a + b == b;
    } else {
      var head := if a[0].distanceHundredths == k then [a[0]] else [];
      assert a + b == [a[0]] + (a[1..] + b);
      WithKeyCons(a[0], a[1..] + b, k);
      WithKeyAppend(a[1..], b, k);
      assert WithKey(a, k) == head + WithKey(a[1..], k);
      assert head + (WithKey(a[1..], k) + WithKey(b, k)) == (head + WithKey(a[1..], k)) + WithKey(b, k);
    }
  }

  /** Inserting `x` puts it in front of every entry that shares its key,
      since all entries passed over have a smaller key. Sorting inserts each
      entry into the already sorted rest of the input, which only holds
      entries that came after it, so this is what keeps ties in input order. */
  lemma {:induction false} InsertKeepsTies<P>(x: Ranked<P>, s: seq<Ranked<P>>, k: int)
    ensures WithKey(Insert(x, s), k) == WithKey([x] + s, k)
    decreases |s|
  {
    if s != [] && s[0].distanceHundredths < x.distanceHundredths {
      var tail := s[1..];
      var rest := Insert(x, tail);
      assert Insert(x, s) == [s[0]] + rest;
      assert s == [s[0]] + tail;
      InsertKeepsTies(x, tail, k);
      WithKeyCons(s[0], rest, k);
      WithKeyCons(x, tail, k);
      WithKeyCons(x, s, k);
      WithKeyCons(s[0], tail, k);
      if s[0].distanceHundredths == k {
        assert WithKey(Insert(x, s), k) == [s[0]] + WithKey(tail, k);
      } else if x.distanceHundredths == k {
        assert WithKey(Insert(x, s), k) == [x] + WithKey(tail, k);
      } else {
        assert WithKey(Insert(x, s), k) == WithKey(tail, k);
      }
    }
  }

  /** The sort is stable. */
  lemma {:induction false} SortKeepsTiesInOrder<P>(s: seq<Ranked<P>>)
    ensures KeepsTiesInOrder(s, SortByDistance(s))
    decreases |s|
  {
    if s != [] {
      SortKeepsTiesInOrder(s[1..]);
      forall k
        ensures WithKey(SortByDistance(s), k) == WithKey(s, k)
      {
        InsertKeepsTies(s[0], SortByDistance(s[1..]), k);
        assert ([s[0]] + SortByDistance(s[1..]))[1..] == SortByDistance(s[1..]);
      }
    }
  }

  lemma {:induction false} SortedTailAtLeastHead<P>(s: seq<Ranked<P>>, x: Ranked<P>)
    requires Sorted(s) && x in s
    ensures s[0].distanceHundredths <= x.distanceHundredths
  {
    var i :| 0 <= i < |s| && s[i] == x;
    if i > 0 {
      assert s[0].distanceHundredths <= s[i].distanceHundredths;
    }
  }

  lemma HeadHasItsKey<P>(s: seq<Ranked<P>>)
    requires s != []
    ensures WithKey(s, s[0].distanceHundredths) == [s[0]] + WithKey(s[1..], s[0].distanceHundredths)
  {
  }

  /** Dropping equal heads from two sequences that agree on every key leaves
      two sequences that still agree on every key. */
  lemma TailsAgreeOnTies<P>(a: seq<Ranked<P>>, b: seq<Ranked<P>>)
    requires a != [] && b != [] && a[0] == b[0]
    requires forall k :: WithKey(a, k) == WithKey(b, k)
    ensures forall k :: WithKey(a[1..], k) == WithKey(b[1..], k)
  {
    var m := a[0].distanceHundredths;
    forall k
      ensures WithKey(a[1..], k) == WithKey(b[1..], k)
    {
      if k == m {
        HeadHasItsKey(a);
        HeadHasItsKey(b);
        assert WithKey(a[1..], k) == WithKey(a, m)[1..];
        assert WithKey(b[1..], k) == WithKey(b, m)[1..];
      } else {
        assert WithKey(a[1..], k) == WithKey(a, k);
        assert WithKey(b[1..], k) == WithKey(b, k);
      }
    }
  }

  /** A sequence that agrees on every key with an empty one is empty. */
  lemma NoTiesMeansEmpty<P>(a: seq<Ranked<P>>, b: seq<Ranked<P>>)
    requires b == []
    requires forall k :: WithKey(a, k) == WithKey(b, k)
    ensures a == []
  {
    if a != [] {
      HeadHasItsKey(a);
      assert false;
    }
  }

  /** Two nonempty sorted sequences that agree on every key start with the
      same entry: both heads carry the least key, and are the first entry
      with that key. */
  lemma SameHeads<P>(a: seq<Ranked<P>>, b: seq<Ranked<P>>)
    requires a != [] && b != [] && Sorted(a) && Sorted(b)
    requires forall k :: WithKey(a, k) == WithKey(b, k)
    ensures a[0] == b[0]
  {
    var m := a[0].distanceHundredths;
    var n := b[0].distanceHundredths;
    HeadHasItsKey(a);
    HeadHasItsKey(b);
    assert WithKey(a, n) == WithKey(b, n);
    assert b[0] in WithKey(a, n);
    WithKeyMembers(a, n, b[0]);
    SortedTailAtLeastHead(a, b[0]);
    assert WithKey(a, m) == WithKey(b, m);
    assert a[0] in WithKey(b, m);
    WithKeyMembers(b, m, a[0]);
    SortedTailAtLeastHead(b, a[0]);
    assert a[0] == WithKey(a, m)[0] == WithKey(b, m)[0] == b[0];
  }

  /** Two sorted sequences that agree on the entries of every key are equal. */
  lemma {:induction false} SortedWithSameTiesAreEqual<P>(a: seq<Ranked<P>>, b: seq<Ranked<P>>)
    requires Sorted(a) && Sorted(b)
    requires forall k :: WithKey(a, k) == WithKey(b, k)
    ensures a == b
    decreases |a|
  {
    if b == [] {
      NoTiesMeansEmpty(a, b);
    } else if a == [] {
      NoTiesMeansEmpty(b, a);
    } else {
      SameHeads(a, b);
      TailsAgreeOnTies(a, b);
      SortedWithSameTiesAreEqual(a[1..], b[1..]);
      assert a == [a[0]] + a[1..];
      assert b == [b[0]] + b[1..];
    }
  }

  /** The sort is the only sorted arrangement that keeps ties in order: any
      sequence with those two properties is the sort's result. */
  lemma SortIsUniqueStableOrder<P>(s: seq<Ranked<P>>, t: seq<Ranked<P>>)
    requires Sorted(t) && KeepsTiesInOrder(s, t)
    ensures t == SortByDistance(s)
  {
    SortKeepsTiesInOrder(s);
    SortedWithSameTiesAreEqual(t, SortByDistance(s));
  }

  /** Cutting a sorted sequence after `n` entries leaves out nothing nearer
      than what it keeps. */
  lemma SortedPrefixIsClosest<P>(s: seq<Ranked<P>>, n: nat)
    requires Sorted(s) && n <= |s|
    ensures multiset(s[..n]) <= multiset(s)
    ensures forall e, i :: e in multiset(s) - multiset(s[..n]) && 0 <= i < n ==>
              s[i].distanceHundredths <= e.distanceHundredths
  {
    var rest := s[n..];
    assert s == s[..n] + rest;
    assert multiset(s) == multiset(s[..n]) + multiset(rest);
    forall e, i | e in multiset(s) - multiset(s[..n]) && 0 <= i < n
      ensures s[i].distanceHundredths <= e.distanceHundredths
    {
      assert e in multiset(rest);
      assert e in rest;
      var j :| 0 <= j < |rest| && rest[j] == e;
      assert s[n + j] == e;
    }
  }

  /** Cutting a sequence after `n` entries keeps, for every key, a prefix of
      the entries with that key. */
  lemma PrefixKeepsEarliestTies<P>(s: seq<Ranked<P>>, n: nat)
    requires n <= |s|
    ensures forall k :: WithKey(s[..n], k) <= WithKey(s, k)
  {
    forall k
      ensures WithKey(s[..n], k) <= WithKey(s, k)
    {
      assert s == s[..n] + s[n..];
      WithKeyAppend(s[..n], s[n..], k);
    }
  }
}
