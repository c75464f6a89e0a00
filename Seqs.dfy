/**
 * The generic table operations the scripts get from pandas: `sort_values`,
 * `drop_duplicates(keep="first")`, `head`, and applying a function to every
 * row. Sorting is specified by a comparison that is a total preorder.
 */
module Seqs {

  /** `le` compares by a sort key: it is total and transitive. */
  ghost predicate TotalPreorder<T(!new)>(le: (T, T) -> bool)
  {
    && (forall a, b :: le(a, b) || le(b, a))
    && (forall a, b, c :: le(a, b) && le(b, c) ==> le(a, c))
  }

  /** Every element is `le` every element after it. */
  ghost predicate Sorted<T>(le: (T, T) -> bool, s: seq<T>)
  {
    forall i, j :: 0 <= i < j < |s| ==> le(s[i], s[j])
  }

  /** No element occurs twice. */
  ghost predicate Distinct<T>(s: seq<T>)
  {
    forall i, j :: 0 <= i < j < |s| ==> s[i] != s[j]
  }

  /** No two elements of `s` share a key. */
  ghost predicate DistinctKeys<T, K>(s: seq<T>, key: T -> K)
  {
    forall i, j :: 0 <= i < j < |s| ==> key(s[i]) != key(s[j])
  }

  // ---------------------------------------------------------------- sorting

  /** Inserts `x` into the sorted `s`, after the elements that are strictly below it. */
  function Insert<T(!new)>(x: T, s: seq<T>, le: (T, T) -> bool): (r: seq<T>)
    requires TotalPreorder(le) && Sorted(le, s)
    ensures Sorted(le, r)
    ensures multiset(r) == multiset(s) + multiset{x}
  {
    if s == [] then [x]
    else if le(x, s[0]) then
      assert forall j :: 0 <= j < |s| ==> le(x, s[j]) by {
        assert forall j :: 0 < j < |s| ==> le(s[0], s[j]);
      }
      ConsSorted(x, s, le);
      [x] + s
    else
      assert Sorted(le, s[1..]);
      var rest := Insert(x, s[1..], le);
      assert s == [s[0]] + s[1..];
      BelowAll(s[0], x, s[1..], rest, le);
      ConsSorted(s[0], rest, le);
      [s[0]] + rest
  }

  /** An element below every element of a sorted sequence can go in front. */
  lemma ConsSorted<T>(y: T, r: seq<T>, le: (T, T) -> bool)
    requires Sorted(le, r) && forall j :: 0 <= j < |r| ==> le(y, r[j])
    ensures Sorted(le, [y] + r)
  {
    var c := [y] + r;
    assert forall j :: 0 < j < |c| ==> c[j] == r[j - 1];
  }

  /** `y`, below `x` and below every element of `t`, is below every element of a permutation of `t` plus `x`. */
  lemma BelowAll<T>(y: T, x: T, t: seq<T>, r: seq<T>, le: (T, T) -> bool)
    requires le(y, x) && forall j :: 0 <= j < |t| ==> le(y, t[j])
    requires multiset(r) == multiset(t) + multiset{x}
    ensures forall j :: 0 <= j < |r| ==> le(y, r[j])
  {
    forall j | 0 <= j < |r| ensures le(y, r[j]) {
      assert r[j] in multiset(r);
      if r[j] != x {
        assert r[j] in multiset(t);
        var k :| 0 <= k < |t| && t[k] == r[j];
      }
    }
  }

  /** `sort_values`: a sorted permutation of `s`. */
  function SortBy<T(!new)>(s: seq<T>, le: (T, T) -> bool): (r: seq<T>)
    requires TotalPreorder(le)
    ensures Sorted(le, r)
    ensures multiset(r) == multiset(s)
  {
    if s == [] then []
    else
      assert s == [s[0]] + s[1..];
      Insert(s[0], SortBy(s[1..], le), le)
  }

  lemma SortByLength<T(!new)>(s: seq<T>, le: (T, T) -> bool)
    requires TotalPreorder(le)
    ensures |SortBy(s, le)| == |s|
  {
    assert |multiset(SortBy(s, le))| == |multiset(s)|;
  }

  lemma SortByMembership<T(!new)>(s: seq<T>, le: (T, T) -> bool, x: T)
    requires TotalPreorder(le)
    ensures x in SortBy(s, le) <==> x in s
  {
    assert x in SortBy(s, le) <==> x in multiset(SortBy(s, le));
  }

  /** Inserting an element whose key is new keeps the keys distinct. */
  lemma {:induction false} InsertKeepsDistinctKeys<T(!new), K>(x: T, s: seq<T>, le: (T, T) -> bool, key: T -> K)
    requires TotalPreorder(le) && Sorted(le, s)
    requires DistinctKeys(s, key)
    requires forall y :: y in s ==> key(y) != key(x)
    ensures DistinctKeys(Insert(x, s, le), key)
  {
    if s != [] && !le(x, s[0]) {
      assert forall y :: y in s[1..] ==> y in s;
      assert DistinctKeys(s[1..], key) by {
        forall i, j | 0 <= i < j < |s[1..]| ensures key(s[1..][i]) != key(s[1..][j]) {
          assert s[1..][i] == s[i + 1] && s[1..][j] == s[j + 1];
        }
      }
      InsertKeepsDistinctKeys(x, s[1..], le, key);
      var rest := Insert(x, s[1..], le);
      forall j | 0 <= j < |rest| ensures key(s[0]) != key(rest[j]) {
        assert rest[j] in multiset(rest);
        if rest[j] != x {
          assert rest[j] in multiset(s[1..]);
          var k :| 0 <= k < |s[1..]| && s[1..][k] == rest[j];
          assert s[k + 1] == rest[j];
        }
      }
      assert Insert(x, s, le) == [s[0]] + rest;
    }
  }

  /** Sorting keeps keys distinct. */
  lemma {:induction false} SortByKeepsDistinctKeys<T(!new), K>(s: seq<T>, le: (T, T) -> bool, key: T -> K)
    requires TotalPreorder(le)
    requires DistinctKeys(s, key)
    ensures DistinctKeys(SortBy(s, le), key)
  {
    if s != [] {
      assert DistinctKeys(s[1..], key) by {
        forall i, j | 0 <= i < j < |s[1..]| ensures key(s[1..][i]) != key(s[1..][j]) {
          assert s[1..][i] == s[i + 1] && s[1..][j] == s[j + 1];
        }
      }
      SortByKeepsDistinctKeys(s[1..], le, key);
      var t := SortBy(s[1..], le);
      forall y | y in t ensures key(y) != key(s[0]) {
        assert y in multiset(t);
        assert y in multiset(s[1..]);
        var k :| 0 <= k < |s[1..]| && s[1..][k] == y;
        assert s[k + 1] == y;
      }
      InsertKeepsDistinctKeys(s[0], t, le, key);
    }
  }

  // ---------------------------------------------------------------- subsequences

  /** `a` is `b` with some elements left out. */
  ghost predicate IsSubseq<T>(a: seq<T>, b: seq<T>)
    decreases |b|
  {
    || a == []
    || (&& b != []
        && (|| (a[|a| - 1] == b[|b| - 1] && IsSubseq(a[..|a| - 1], b[..|b| - 1]))
            || IsSubseq(a, b[..|b| - 1])))
  }

  /** A prefix of a subsequence is a subsequence. */
  lemma {:induction false} IsSubseqPrefix<T>(a: seq<T>, b: seq<T>, k: nat)
    requires IsSubseq(a, b) && k <= |a|
    ensures IsSubseq(a[..k], b)
    decreases |b|
  {
    if k == |a| {
      assert a[..k] == a;
    } else if k != 0 {
      var b' := b[..|b| - 1];
      if a[|a| - 1] == b[|b| - 1] && IsSubseq(a[..|a| - 1], b') {
        IsSubseqPrefix(a[..|a| - 1], b', k);
        assert a[..|a| - 1][..k] == a[..k];
      } else {
        IsSubseqPrefix(a, b', k);
      }
    }
  }

  /** A subsequence holds only elements of the sequence. */
  lemma {:induction false} IsSubseqMembers<T>(a: seq<T>, b: seq<T>)
    requires IsSubseq(a, b)
    ensures forall x :: x in a ==> x in b
    decreases |b|
  {
    if a != [] {
      var b' := b[..|b| - 1];
      assert forall x :: x in b' ==> x in b;
      if a[|a| - 1] == b[|b| - 1] && IsSubseq(a[..|a| - 1], b') {
        IsSubseqMembers(a[..|a| - 1], b');
        assert a == a[..|a| - 1] + [a[|a| - 1]];
      } else {
        IsSubseqMembers(a, b');
      }
    }
  }

  /** A subsequence of a subsequence is a subsequence. */
  lemma {:induction false} IsSubseqTrans<T>(a: seq<T>, b: seq<T>, c: seq<T>)
    requires IsSubseq(a, b) && IsSubseq(b, c)
    ensures IsSubseq(a, c)
    decreases |c|
  {
    if a != [] {
      var b', c' := b[..|b| - 1], c[..|c| - 1];
      if b[|b| - 1] == c[|c| - 1] && IsSubseq(b', c') {
        if a[|a| - 1] == b[|b| - 1] && IsSubseq(a[..|a| - 1], b') {
          IsSubseqTrans(a[..|a| - 1], b', c');
        } else {
          IsSubseqTrans(a, b', c');
        }
      } else {
        IsSubseqTrans(a, b, c');
      }
    }
  }

  // ---------------------------------------------------------------- deduplication

  /** `s[i]` is the first element of `s` with its key. */
  ghost predicate FirstWithKey<T, K>(s: seq<T>, key: T -> K, i: int)
  {
    0 <= i < |s| && forall j :: 0 <= j < i ==> key(s[j]) != key(s[i])
  }

  /**
   * `drop_duplicates(subset=key, keep="first")`: `s` with every element whose
   * key was already seen left out.
   */
  function Dedup<T, K(==)>(s: seq<T>, key: T -> K): (r: seq<T>)
    ensures DistinctKeys(r, key)
    ensures IsSubseq(r, s)
    ensures forall x :: x in r ==> x in s
    decreases |s|
  {
    if s == [] then []
    else
      var d := Dedup(s[..|s| - 1], key);
      var last := s[|s| - 1];
      assert forall x :: x in s[..|s| - 1] ==> x in s;
      if exists i :: 0 <= i < |d| && key(d[i]) == key(last) then d
      else
        assert d + [last] == (d + [last])[..|d|] + [last];
        d + [last]
  }

  /** Every key of `s` survives in `Dedup(s)`. */
  lemma {:induction false} DedupCovers<T, K>(s: seq<T>, key: T -> K, y: T)
    requires y in s
    ensures exists x :: x in Dedup(s, key) && key(x) == key(y)
    decreases |s|
  {
    var s' := s[..|s| - 1];
    var d := Dedup(s', key);
    var last := s[|s| - 1];
    if exists i :: 0 <= i < |d| && key(d[i]) == key(last) {
      assert Dedup(s, key) == d;
      if y in s' {
        DedupCovers(s', key, y);
      } else {
        assert y == last;
        var i :| 0 <= i < |d| && key(d[i]) == key(last);
        assert d[i] in d;
      }
    } else {
      assert Dedup(s, key) == d + [last];
      if y in s' {
        DedupCovers(s', key, y);
        var x :| x in d && key(x) == key(y);
        assert x in d + [last];
      } else {
        assert y == last && last in d + [last];
      }
    }
  }

  /** What survives deduplication is the first element of `s` with its key. */
  lemma {:induction false} DedupKeepsFirst<T, K>(s: seq<T>, key: T -> K, x: T)
    requires x in Dedup(s, key)
    ensures exists i :: FirstWithKey(s, key, i) && s[i] == x
    decreases |s|
  {
    var s' := s[..|s| - 1];
    var d := Dedup(s', key);
    var last := s[|s| - 1];
    var seen := exists k :: 0 <= k < |d| && key(d[k]) == key(last);
    assert Dedup(s, key) == if seen then d else d + [last];
    if x in d {
      DedupKeepsFirst(s', key, x);
      var i :| FirstWithKey(s', key, i) && s'[i] == x;
      assert forall j :: 0 <= j < i ==> s[j] == s'[j];
      assert FirstWithKey(s, key, i) && s[i] == x;
    } else {
      assert !seen && x == last;
      forall j | 0 <= j < |s| - 1 ensures key(s[j]) != key(last) {
        assert s[j] == s'[j] && s'[j] in s';
        DedupCovers(s', key, s[j]);
        var y :| y in d && key(y) == key(s[j]);
        var k :| 0 <= k < |d| && d[k] == y;
      }
      assert FirstWithKey(s, key, |s| - 1);
    }
  }

  /** Conversely, the first element of `s` with a key survives deduplication. */
  lemma {:induction false} DedupFirstSurvives<T, K>(s: seq<T>, key: T -> K, i: int)
    requires FirstWithKey(s, key, i)
    ensures s[i] in Dedup(s, key)
    decreases |s|
  {
    var s' := s[..|s| - 1];
    var d := Dedup(s', key);
    if i < |s| - 1 {
      assert FirstWithKey(s', key, i);
      DedupFirstSurvives(s', key, i);
    } else {
      forall x | x in d ensures key(x) != key(s[i]) {
        DedupKeepsFirst(s', key, x);
        var j :| FirstWithKey(s', key, j) && s'[j] == x;
        assert s[j] == x;
      }
    }
  }

  /** Index of the first element of `s` with key `k`, or `|s|` when there is none. */
  function FirstIndex<T, K(==)>(s: seq<T>, key: T -> K, k: K): (i: nat)
    ensures i <= |s|
    ensures forall j :: 0 <= j < i ==> key(s[j]) != k
    ensures i < |s| ==> key(s[i]) == k
    decreases |s|
  {
    if s == [] || key(s[0]) == k then 0 else 1 + FirstIndex(s[1..], key, k)
  }

  /** Appending an element does not move the first occurrence of a key already present. */
  lemma FirstIndexInit<T, K>(s: seq<T>, key: T -> K, m: int)
    requires 0 <= m < |s| - 1
    ensures FirstIndex(s, key, key(s[m])) == FirstIndex(s[..|s| - 1], key, key(s[m]))
  {
    var k := key(s[m]);
    var s' := s[..|s| - 1];
    var a, b := FirstIndex(s, key, k), FirstIndex(s', key, k);
    assert s'[m] == s[m];
    assert b < |s'| && s'[b] == s[b];
    assert forall j :: 0 <= j < b ==> s'[j] == s[j];
  }

  /**
   * The survivors keep the order of their keys' first occurrences: the
   * earlier a key first appears in `s`, the earlier its survivor comes.
   */
  lemma {:induction false} DedupInFirstOrder<T, K>(s: seq<T>, key: T -> K, i: int, j: int)
    requires 0 <= i < j < |Dedup(s, key)|
    ensures FirstIndex(s, key, key(Dedup(s, key)[i])) < FirstIndex(s, key, key(Dedup(s, key)[j]))
    decreases |s|
  {
    var s' := s[..|s| - 1];
    var d := Dedup(s', key);
    var last := s[|s| - 1];
    var r := Dedup(s, key);
    var seen := exists k :: 0 <= k < |d| && key(d[k]) == key(last);
    assert r == if seen then d else d + [last];
    assert d[i] == r[i] && d[i] in s';
    var mi :| 0 <= mi < |s'| && s'[mi] == d[i];
    FirstIndexInit(s, key, mi);
    if j < |d| {
      DedupInFirstOrder(s', key, i, j);
      assert d[j] == r[j] && d[j] in s';
      var mj :| 0 <= mj < |s'| && s'[mj] == d[j];
      FirstIndexInit(s, key, mj);
    } else {
      assert !seen && r[j] == last;
      forall m | 0 <= m < |s| - 1 ensures key(s[m]) != key(last) {
        assert s[m] == s'[m] && s'[m] in s';
        DedupCovers(s', key, s[m]);
        var y :| y in d && key(y) == key(s[m]);
        var k :| 0 <= k < |d| && d[k] == y;
      }
      assert FirstIndex(s, key, key(last)) == |s| - 1;
    }
  }

  // ---------------------------------------------------------------- mapping

  /** `f` applied to every element, in order. */
  function Map<A, B>(s: seq<A>, f: A -> B): (r: seq<B>)
    ensures |r| == |s|
    ensures forall i :: 0 <= i < |s| ==> r[i] == f(s[i])
  {
    if s == [] then [] else [f(s[0])] + Map(s[1..], f)
  }

  lemma MapAppend<A, B>(x: seq<A>, y: seq<A>, f: A -> B)
    ensures Map(x + y, f) == Map(x, f) + Map(y, f)
  {
  }

  /** Mapping a permutation gives a permutation of the mapped sequence. */
  lemma {:induction false} MapPermutation<A, B>(a: seq<A>, b: seq<A>, f: A -> B)
    requires multiset(a) == multiset(b)
    ensures multiset(Map(a, f)) == multiset(Map(b, f))
    decreases |a|
  {
    if a == [] {
      assert |b| == |multiset(b)| == 0;
    } else {
      var x := a[0];
      assert x in multiset(b);
      var j :| 0 <= j < |b| && b[j] == x;
      var u, v := b[..j], b[j + 1..];
      assert b == u + [x] + v;
      RemoveFirst(a, u, v);
      MapPermutation(a[1..], u + v, f);
      MapSplit(u, x, v, f);
      assert Map(a, f) == [f(x)] + Map(a[1..], f);
    }
  }

  /** Taking the first element of `a` out of a permutation of `a` leaves a permutation of the rest. */
  lemma RemoveFirst<A>(a: seq<A>, u: seq<A>, v: seq<A>)
    requires a != [] && multiset(a) == multiset(u + [a[0]] + v)
    ensures multiset(u + v) == multiset(a[1..])
  {
    assert a == [a[0]] + a[1..];
    assert multiset(a[1..]) == multiset(a) - multiset{a[0]};
    assert multiset(u + [a[0]] + v) == multiset(u) + multiset{a[0]} + multiset(v);
    assert multiset(u + v) == multiset(u) + multiset(v);
  }

  /** Taking one element out of the middle of a sequence takes its image out of the mapped one. */
  lemma MapSplit<A, B>(u: seq<A>, x: A, v: seq<A>, f: A -> B)
    ensures multiset(Map(u + [x] + v, f)) == multiset{f(x)} + multiset(Map(u + v, f))
  {
    MapAppend(u + [x], v, f);
    MapAppend(u, [x], f);
    MapAppend(u, v, f);
    assert Map([x], f) == [f(x)];
  }

  // ---------------------------------------------------------------- filtering

  /** Boolean indexing `df[mask]`: the elements that satisfy `p`, in order. */
  function Filter<T(!new)>(s: seq<T>, p: T -> bool): (r: seq<T>)
    ensures forall x :: x in r <==> x in s && p(x)
    ensures IsSubseq(r, s) && |r| <= |s|
    decreases |s|
  {
    if s == [] then []
    else
      var init := s[..|s| - 1];
      var last := s[|s| - 1];
      var d := Filter(init, p);
      assert s == init + [last];
      if !p(last) then
        assert IsSubseq(d, s);
        d
      else
        assert (d + [last])[..|d|] == d;
        d + [last]
  }

  /** Filtering works element by element. */
  lemma {:induction false} FilterAppend<T(!new)>(a: seq<T>, b: seq<T>, p: T -> bool)
    ensures Filter(a + b, p) == Filter(a, p) + Filter(b, p)
    decreases |b|
  {
    if b == [] {
      assert a + b == a;
    } else {
      var b' := b[..|b| - 1];
      assert (a + b)[..|a + b| - 1] == a + b';
      assert (a + b)[|a + b| - 1] == b[|b| - 1];
      FilterAppend(a, b', p);
    }
  }

  /** The images of the kept elements are exactly the images of the elements satisfying `p`. */
  lemma MapFilterMembers<A(!new), B>(s: seq<A>, p: A -> bool, f: A -> B, y: B)
    ensures y in Map(Filter(s, p), f) <==> exists i :: 0 <= i < |s| && p(s[i]) && f(s[i]) == y
  {
    var kept := Filter(s, p);
    var m := Map(kept, f);
    if y in m {
      var j :| 0 <= j < |m| && m[j] == y;
      assert kept[j] in kept;
      var i :| 0 <= i < |s| && s[i] == kept[j];
    }
    if exists i :: 0 <= i < |s| && p(s[i]) && f(s[i]) == y {
      var i :| 0 <= i < |s| && p(s[i]) && f(s[i]) == y;
      assert s[i] in kept;
      var j :| 0 <= j < |kept| && kept[j] == s[i];
      assert m[j] == y;
    }
  }

  // ---------------------------------------------------------------- head

  /** `head(n)`: the first `n` elements, or all of them when there are fewer. */
  function Take<T>(s: seq<T>, n: nat): (r: seq<T>)
    ensures |r| == if n <= |s| then n else |s|
    ensures forall i :: 0 <= i < |r| ==> r[i] == s[i]
    ensures IsSubseq(r, s)
  {
    var k := if |s| <= n then |s| else n;
    IsSubseqRefl(s);
    IsSubseqPrefix(s, s, k);
    assert s[..|s|] == s;
    s[..k]
  }

  lemma {:induction false} IsSubseqRefl<T>(s: seq<T>)
    ensures IsSubseq(s, s)
    decreases |s|
  {
    if s != [] {
      IsSubseqRefl(s[..|s| - 1]);
    }
  }
}
