/** Sequence facts shared by the table operations: boolean-mask selection,
    keep-first de-duplication, occurrence counting and a stable sort. */
module Seqs {

  predicate Increasing(p: seq<nat>) {
    forall i, j :: 0 <= i < j < |p| ==> p[i] < p[j]
  }

  predicate NoDuplicates<T(==)>(s: seq<T>) {
    forall i, j :: 0 <= i < j < |s| ==> s[i] != s[j]
  }

  /** The positions at which `mask` holds, in ascending order: what pandas
      boolean indexing `df[mask]` keeps. */
  function Kept(mask: seq<bool>): (p: seq<nat>)
    ensures forall i :: 0 <= i < |p| ==> p[i] < |mask| && mask[p[i]]
    ensures forall k :: 0 <= k < |mask| && mask[k] ==> k in p
    ensures Increasing(p)
    ensures |p| <= |mask|
  {
    if mask == [] then []
    else
      var last := |mask| - 1;
      Kept(mask[..last]) + (if mask[last] then [last] else [])
  }

  lemma KeptSnoc(mask: seq<bool>)
    requires mask != []
    ensures Kept(mask) == Kept(mask[..|mask| - 1]) + (if mask[|mask| - 1] then [|mask| - 1] else [])
  {
  }

  function AllTrue(n: nat): (m: seq<bool>)
    ensures |m| == n && forall k :: 0 <= k < n ==> m[k]
  {
    seq(n, k => true)
  }

  function Not(mask: seq<bool>): (m: seq<bool>)
    ensures |m| == |mask| && forall k :: 0 <= k < |mask| ==> m[k] == !mask[k]
  {
    seq(|mask|, k requires 0 <= k < |mask| => !mask[k])
  }

  /** Number of true entries of a mask. */
  function CountTrue(mask: seq<bool>): nat {
    if mask == [] then 0
    else CountTrue(mask[..|mask| - 1]) + (if mask[|mask| - 1] then 1 else 0)
  }

  lemma {:induction false} KeptLength(mask: seq<bool>)
    ensures |Kept(mask)| == CountTrue(mask)
  {
    if mask != [] {
      KeptLength(mask[..|mask| - 1]);
    }
  }

  /** Counting true entries distributes over concatenation. */
  lemma {:induction false} CountTrueAppend(a: seq<bool>, b: seq<bool>)
    ensures CountTrue(a + b) == CountTrue(a) + CountTrue(b)
  {
    if b != [] {
      var b0 := b[..|b| - 1];
      CountTrueAppend(a, b0);
      assert (a + b)[..|a + b| - 1] == a + b0;
    } else {
      assert a + b == a;
    }
  }

  /** An all-true mask counts its length. */
  lemma {:induction false} CountTrueAllTrue(n: nat)
    ensures CountTrue(AllTrue(n)) == n
  {
    if n > 0 {
      CountTrueAllTrue(n - 1);
      assert AllTrue(n)[..n - 1] == AllTrue(n - 1);
    }
  }

  /** A mask with no true entry keeps nothing. */
  lemma {:induction false} KeptNone(mask: seq<bool>)
    requires forall k :: 0 <= k < |mask| ==> !mask[k]
    ensures CountTrue(mask) == 0 && Kept(mask) == []
  {
    if mask != [] {
      var init := mask[..|mask| - 1];
      assert forall k :: 0 <= k < |init| ==> init[k] == mask[k];
      KeptNone(init);
    }
  }

  /** A position and its negation together cover the whole mask once. */
  lemma {:induction false} CountComplement(mask: seq<bool>)
    ensures CountTrue(mask) + CountTrue(Not(mask)) == |mask|
  {
    if mask != [] {
      var last := |mask| - 1;
      assert Not(mask)[..last] == Not(mask[..last]);
      CountComplement(mask[..last]);
    }
  }

  /** Two ascending position lists with the same elements are equal. */
  lemma {:induction false} IncreasingUnique(p: seq<nat>, q: seq<nat>)
    requires Increasing(p) && Increasing(q)
    requires forall x :: x in p <==> x in q
    ensures p == q
  {
    IncreasingCardinality(p);
    IncreasingCardinality(q);
    assert Elems(p) == Elems(q);
    if |p| > 0 {
      assert p[0] in q;
      assert q[0] in p;
      assert p[0] == q[0];
      forall x
        ensures x in p[1..] <==> x in q[1..]
      {
        if x in p[1..] {
          assert x in q && x != q[0];
        }
        if x in q[1..] {
          assert x in p && x != p[0];
        }
      }
      IncreasingUnique(p[1..], q[1..]);
    }
  }

  function Elems(p: seq<nat>): set<nat> {
    set x | x in p
  }

  lemma {:induction false} IncreasingCardinality(p: seq<nat>)
    requires Increasing(p)
    ensures |Elems(p)| == |p|
  {
    if p != [] {
      var n := |p| - 1;
      var init := p[..n];
      assert Increasing(init);
      IncreasingCardinality(init);
      assert p == init + [p[n]];
      assert p[n] !in init;
      assert Elems(p) == Elems(init) + {p[n]};
    }
  }

  /** The elements of `s` at positions `p`, in the order of `p`. */
  function Pick<T>(s: seq<T>, p: seq<nat>): (r: seq<T>)
    requires forall i :: 0 <= i < |p| ==> p[i] < |s|
    ensures |r| == |p| && forall i :: 0 <= i < |p| ==> r[i] == s[p[i]]
  {
    seq(|p|, i requires 0 <= i < |p| => s[p[i]])
  }

  /** The mask that keeps every position reproduces every position. */
  lemma KeptAllTrue(n: nat)
    ensures Kept(AllTrue(n)) == seq(n, k => k)
  {
    var r: seq<nat> := seq(n, k => k);
    var p := Kept(AllTrue(n));
    assert Increasing(r);
    forall x: nat ensures x in p <==> x in r {
      if x < n {
        assert r[x] == x;
        assert AllTrue(n)[x];
      }
      if x in p {
        assert x < n;
      }
      if x in r {
        assert x < n;
      }
    }
    IncreasingUnique(p, r);
  }

  lemma KeptMember(mask: seq<bool>, x: nat)
    requires x in Kept(mask)
    ensures x < |mask| && mask[x]
  {
  }

  /** Selecting with `m2` among the positions kept by `m1` is the same as
      selecting once with the conjunction, when `m2` reads `m` through `m1`. */
  lemma KeptCompose(m1: seq<bool>, m: seq<bool>, m2: seq<bool>)
    requires |m| == |m1|
    requires |m2| == |Kept(m1)|
    requires forall i :: 0 <= i < |m2| ==> m2[i] == m[Kept(m1)[i]]
    ensures Kept(And(m1, m)) == Pick(Kept(m1), Kept(m2))
  {
    var p1, p2 := Kept(m1), Kept(m2);
    var c := Pick(p1, p2);
    assert Increasing(c);
    var both := Kept(And(m1, m));
    forall x ensures x in both ==> x in c {
      if x in both {
        KeptMember(And(m1, m), x);
        ComposeIn(m1, m, m2, x);
      }
    }
    forall x ensures x in c ==> x in both {
      if x in c {
        var j :| 0 <= j < |c| && c[j] == x;
        assert m2[p2[j]];
      }
    }
    IncreasingUnique(both, c);
  }

  lemma ComposeIn(m1: seq<bool>, m: seq<bool>, m2: seq<bool>, x: nat)
    requires |m| == |m1|
    requires |m2| == |Kept(m1)|
    requires forall i :: 0 <= i < |m2| ==> m2[i] == m[Kept(m1)[i]]
    requires x < |m1| && m1[x] && m[x]
    ensures x in Pick(Kept(m1), Kept(m2))
  {
    var p1, p2 := Kept(m1), Kept(m2);
    assert x in p1;
    var i :| 0 <= i < |p1| && p1[i] == x;
    assert m2[i];
    assert i in p2;
    var j :| 0 <= j < |p2| && p2[j] == i;
    assert Pick(p1, p2)[j] == x;
  }

  function And(a: seq<bool>, b: seq<bool>): (m: seq<bool>)
    requires |a| == |b|
    ensures |m| == |a| && forall k :: 0 <= k < |a| ==> m[k] == (a[k] && b[k])
  {
    seq(|a|, k requires 0 <= k < |a| => a[k] && b[k])
  }

  /** Keep-first de-duplication: the first occurrence of each element, in
      order of first appearance (what pandas `unique()` returns). */
  function Distinct<T(==)>(s: seq<T>): (r: seq<T>)
    ensures NoDuplicates(r)
    ensures forall i :: 0 <= i < |r| ==> r[i] in s
    ensures forall i :: 0 <= i < |s| ==> s[i] in r
    ensures |r| <= |s|
  {
    if s == [] then []
    else
      var init := s[..|s| - 1];
      var d := Distinct(init);
      assert forall i :: 0 <= i < |init| ==> init[i] == s[i];
      if s[|s| - 1] in init then d else d + [s[|s| - 1]]
  }

  /** `mask[k]` says that `s[k]` already occurred before position k: pandas
      `duplicated()` with its default `keep='first'`. */
  function DuplicatedMask<T(==)>(s: seq<T>): (m: seq<bool>)
    ensures |m| == |s|
    ensures forall k :: 0 <= k < |s| ==> (m[k] <==> s[k] in s[..k])
  {
    seq(|s|, k requires 0 <= k < |s| => s[k] in s[..k])
  }

  lemma PickPrefix<T>(s: seq<T>, p: seq<nat>, n: nat)
    requires n <= |s|
    requires forall i :: 0 <= i < |p| ==> p[i] < n
    ensures Pick(s, p) == Pick(s[..n], p)
  {
  }

  lemma PickSnoc<T>(s: seq<T>, p: seq<nat>, k: nat)
    requires k < |s|
    requires forall i :: 0 <= i < |p| ==> p[i] < |s|
    ensures Pick(s, p + [k]) == Pick(s, p) + [s[k]]
  {
  }

  /** The duplicate mask of a prefix is the prefix of the duplicate mask. */
  lemma DuplicatedMaskPrefix<T>(s: seq<T>, n: nat)
    requires n <= |s|
    ensures DuplicatedMask(s)[..n] == DuplicatedMask(s[..n])
  {
    forall k | 0 <= k < n ensures DuplicatedMask(s)[k] == DuplicatedMask(s[..n])[k] {
      assert s[..n][..k] == s[..k];
    }
  }

  /** In a sequence followed by a copy of itself, every element of the copy
      repeats an earlier one; the first half is marked as on its own. */
  lemma DuplicatedMaskDoubled<T>(s: seq<T>)
    ensures DuplicatedMask(s + s) == DuplicatedMask(s) + AllTrue(|s|)
  {
    var d := s + s;
    forall k | 0 <= k < |d| ensures DuplicatedMask(d)[k] == (DuplicatedMask(s) + AllTrue(|s|))[k] {
      if k < |s| {
        assert d[..k] == s[..k];
      } else {
        assert d[k] == d[..k][k - |s|];
      }
    }
  }

  /** The elements that are not duplicates of an earlier one are exactly the
      keep-first distinct elements, in order. */
  lemma {:induction false} FirstOccurrencesAreDistinct<T>(s: seq<T>)
    ensures Distinct(s) == Pick(s, Kept(Not(DuplicatedMask(s))))
  {
    if s != [] {
      FirstOccurrencesAreDistinct(s[..|s| - 1]);
      FirstOccurrencesStep(s);
    }
  }

  lemma FirstOccurrencesStep<T>(s: seq<T>)
    requires s != []
    requires var init := s[..|s| - 1];
             Distinct(init) == Pick(init, Kept(Not(DuplicatedMask(init))))
    ensures Distinct(s) == Pick(s, Kept(Not(DuplicatedMask(s))))
  {
    var n := |s| - 1;
    var init := s[..n];
    var mask := Not(DuplicatedMask(s));
    DuplicatedMaskPrefix(s, n);
    assert mask[..n] == Not(DuplicatedMask(init));
    var pi := Kept(Not(DuplicatedMask(init)));
    PickPrefix(s, pi, n);
    assert mask[n] == (s[n] !in init);
    KeptSnoc(mask);
    assert |mask| == |s|;
    assert Kept(mask[..n]) == pi;
    if mask[n] {
      assert Kept(mask) == pi + [n];
      PickSnoc(s, pi, n);
      assert Distinct(s) == Distinct(init) + [s[n]];
    } else {
      assert Kept(mask) == pi + [];
      assert pi + [] == pi;
      assert Distinct(s) == Distinct(init);
    }
  }

  /** Number of occurrences of x in s. */
  function Count<T(==)>(s: seq<T>, x: T): (c: nat)
    ensures c <= |s|
  {
    if s == [] then 0
    else Count(s[..|s| - 1], x) + (if s[|s| - 1] == x then 1 else 0)
  }

  /** An element occurs exactly when its count is positive. */
  lemma {:induction false} CountPositive<T>(s: seq<T>, x: T)
    ensures Count(s, x) > 0 <==> x in s
  {
    if s != [] {
      CountPositive(s[..|s| - 1], x);
      assert s == s[..|s| - 1] + [s[|s| - 1]];
    }
  }

  lemma {:induction false} CountAppend<T>(a: seq<T>, b: seq<T>, x: T)
    ensures Count(a + b, x) == Count(a, x) + Count(b, x)
  {
    if b != [] {
      var n := |b| - 1;
      assert (a + b)[..|a + b| - 1] == a + b[..n];
      CountAppend(a, b[..n], x);
    } else {
      assert a + b == a;
    }
  }

  /** The number of distinct elements is the size of the element set. */
  lemma {:induction false} DistinctCardinality<T>(s: seq<T>)
    ensures |Distinct(s)| == |set x | x in s|
  {
    if s != [] {
      var init := s[..|s| - 1];
      var last := s[|s| - 1];
      DistinctCardinality(init);
      var si := set x | x in init;
      var ss := set x | x in s;
      assert ss == si + {last} by {
        assert forall x :: x in s <==> x in init || x == last;
      }
      if last !in init {
        assert last !in si;
        assert |ss| == |si| + 1;
      } else {
        assert ss == si;
      }
    }
  }

  predicate SortedBy<T>(s: seq<T>, key: T -> real) {
    forall i, j :: 0 <= i < j < |s| ==> key(s[i]) <= key(s[j])
  }

  /** Insert x before the first element whose key is not smaller. */
  function Insert<T>(x: T, s: seq<T>, key: T -> real): seq<T>
  {
    if s == [] || key(x) <= key(s[0]) then [x] + s
    else [s[0]] + Insert(x, s[1..], key)
  }

  /** Inserting adds exactly one occurrence of x and nothing else. */
  lemma {:induction false} InsertElements<T>(x: T, s: seq<T>, key: T -> real)
    ensures var r := Insert(x, s, key);
            && multiset(r) == multiset{x} + multiset(s)
            && |r| == |s| + 1
            && forall i :: 0 <= i < |r| ==> r[i] == x || r[i] in s
  {
    if s != [] && key(x) > key(s[0]) {
      var rest := Insert(x, s[1..], key);
      InsertElements(x, s[1..], key);
      assert s == [s[0]] + s[1..];
      var r := [s[0]] + rest;
      assert forall i :: 1 <= i < |r| ==> r[i] == rest[i - 1];
    }
  }

  /** Inserting into an ascending sequence keeps it ascending. */
  lemma {:induction false} InsertSorted<T>(x: T, s: seq<T>, key: T -> real)
    requires SortedBy(s, key)
    ensures SortedBy(Insert(x, s, key), key)
  {
    if s != [] && key(x) > key(s[0]) {
      var rest := Insert(x, s[1..], key);
      InsertSorted(x, s[1..], key);
      InsertElements(x, s[1..], key);
      forall i | 0 <= i < |rest| ensures key(s[0]) <= key(rest[i]) {
        if rest[i] != x {
          var k :| 0 <= k < |s[1..]| && s[1..][k] == rest[i];
          assert s[1..][k] == s[k + 1];
        }
      }
      var r := [s[0]] + rest;
      assert forall i :: 1 <= i < |r| ==> r[i] == rest[i - 1];
    }
  }

  /** Two elements whose keys are in strictly increasing order are already sorted. */
  lemma SortTwo<T>(a: T, b: T, key: T -> real)
    requires key(a) < key(b)
    ensures SortBy([a, b], key) == [a, b]
  {
    var r := SortBy([a, b], key);
    assert multiset(r) == multiset{a, b};
    assert r[0] in multiset(r) && r[1] in multiset(r);
    assert key(r[0]) <= key(r[1]);
  }

  /** Insertion sort by ascending key; it keeps the input order of equal keys. */
  function SortBy<T(==)>(s: seq<T>, key: T -> real): (r: seq<T>)
    ensures SortedBy(r, key)
    ensures multiset(r) == multiset(s)
    ensures |r| == |s|
  {
    if s == [] then []
    else
      assert s == [s[0]] + s[1..];
      InsertElements(s[0], SortBy(s[1..], key), key);
      InsertSorted(s[0], SortBy(s[1..], key), key);
      Insert(s[0], SortBy(s[1..], key), key)
  }

  /** Sorting an already sorted sequence gives it back. */
  lemma {:induction false} SortBySorted<T>(s: seq<T>, key: T -> real)
    requires SortedBy(s, key)
    ensures SortBy(s, key) == s
  {
    if s != [] {
      assert SortedBy(s[1..], key);
      SortBySorted(s[1..], key);
      assert s == [s[0]] + s[1..];
    }
  }

  /** `f` applied to the first n positions of p, in order. */
  function MapPrefix<T>(f: nat --> T, p: seq<nat>, n: nat): seq<T>
    requires n <= |p| && forall i :: 0 <= i < |p| ==> f.requires(p[i])
  {
    if n == 0 then [] else MapPrefix(f, p, n - 1) + [f(p[n - 1])]
  }

  lemma {:induction false} MapPrefixMeaning<T>(f: nat --> T, p: seq<nat>, n: nat)
    requires n <= |p| && forall i :: 0 <= i < |p| ==> f.requires(p[i])
    ensures |MapPrefix(f, p, n)| == n
    ensures forall i :: 0 <= i < n ==> MapPrefix(f, p, n)[i] == f(p[i])
  {
    if n > 0 {
      MapPrefixMeaning(f, p, n - 1);
    }
  }

  lemma MapPrefixEqual<T>(f: nat --> T, p: seq<nat>, n: nat, r: seq<T>)
    requires n <= |p| && forall i :: 0 <= i < |p| ==> f.requires(p[i])
    requires |r| == n && forall i :: 0 <= i < n ==> r[i] == f(p[i])
    ensures r == MapPrefix(f, p, n)
  {
    MapPrefixMeaning(f, p, n);
  }

  function Take<T>(s: seq<T>, n: nat): (r: seq<T>)
    ensures |r| == if |s| <= n then |s| else n
    ensures r == s[..|r|]
  {
    if |s| <= n then s else s[..n]
  }
}
