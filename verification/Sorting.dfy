/** Python's stable `sorted` on items decorated with a key, and permutations. */
module Sorting {
  /** Text as code units, compared lexicographically. */
  type Text = seq<int>

  predicate Leq(a: Text, b: Text) {
    a == [] || (b != [] && (a[0] < b[0] || (a[0] == b[0] && Leq(a[1..], b[1..]))))
  }

  lemma {:induction false} LeqTotal(a: Text, b: Text)
    ensures Leq(a, b) || Leq(b, a)
    ensures Leq(a, a)
  {
    if a != [] {
      LeqTotal(a[1..], if b == [] then [] else b[1..]);
    }
  }

  lemma {:induction false} LeqAntisymmetric(a: Text, b: Text)
    requires Leq(a, b) && Leq(b, a)
    ensures a == b
  {
    if a != [] {
      LeqAntisymmetric(a[1..], b[1..]);
      assert a == [a[0]] + a[1..] && b == [b[0]] + b[1..];
    }
  }

  lemma {:induction false} LeqTransitive(a: Text, b: Text, c: Text)
    requires Leq(a, b) && Leq(b, c)
    ensures Leq(a, c)
  {
    if a != [] && b[0] == a[0] && c[0] == b[0] {
      LeqTransitive(a[1..], b[1..], c[1..]);
    }
  }

  datatype Keyed<T> = Keyed(key: Text, item: T)

  function Items<T>(xs: seq<Keyed<T>>): seq<T> {
    seq(|xs|, i requires 0 <= i < |xs| => xs[i].item)
  }

  ghost predicate Sorted<T>(xs: seq<Keyed<T>>) {
    forall i, j :: 0 <= i < j < |xs| ==> Leq(xs[i].key, xs[j].key)
  }

  /** Insert before the first element whose key is not smaller. */
  function Insert<T>(x: Keyed<T>, xs: seq<Keyed<T>>): seq<Keyed<T>> {
    if xs == [] || Leq(x.key, xs[0].key) then [x] + xs
    else [xs[0]] + Insert(x, xs[1..])
  }

  /** Later elements go in first, so that equal keys keep their order. */
  function Sort<T>(xs: seq<Keyed<T>>): seq<Keyed<T>> {
    if xs == [] then [] else Insert(xs[0], Sort(xs[1..]))
  }

  lemma {:induction false} InsertPermutes<T>(x: Keyed<T>, xs: seq<Keyed<T>>)
    ensures multiset(Insert(x, xs)) == multiset(xs) + multiset{x}
  {
    if xs == [] || Leq(x.key, xs[0].key) {
    } else {
      InsertPermutes(x, xs[1..]);
      assert xs == [xs[0]] + xs[1..];
    }
  }

  lemma {:induction false} SortPermutes<T>(xs: seq<Keyed<T>>)
    ensures multiset(Sort(xs)) == multiset(xs) && |Sort(xs)| == |xs|
  {
    hide Insert, Leq;
    if xs != [] {
      SortPermutes(xs[1..]);
      InsertPermutes(xs[0], Sort(xs[1..]));
      assert xs == [xs[0]] + xs[1..];
    }
    SameMembers(Sort(xs), xs);
  }

  lemma SortMembers<T>(xs: seq<Keyed<T>>)
    ensures forall x :: x in Sort(xs) <==> x in xs
  {
    SortPermutes(xs);
    forall x ensures x in Sort(xs) <==> x in xs {
      assert x in Sort(xs) <==> x in multiset(Sort(xs));
      assert x in xs <==> x in multiset(xs);
    }
  }

  lemma SortedCons<T>(x: Keyed<T>, xs: seq<Keyed<T>>)
    requires Sorted(xs) && forall y :: y in xs ==> Leq(x.key, y.key)
    ensures Sorted([x] + xs)
  {
  }

  lemma {:induction false} InsertSorts<T>(x: Keyed<T>, xs: seq<Keyed<T>>)
    requires Sorted(xs)
    ensures Sorted(Insert(x, xs))
  {
    hide Leq;
    if xs == [] {
    } else if Leq(x.key, xs[0].key) {
      forall y | y in xs ensures Leq(x.key, y.key) {
        if y != xs[0] {
          LeqTransitive(x.key, xs[0].key, y.key);
        }
      }
      SortedCons(x, xs);
    } else {
      InsertSorts(x, xs[1..]);
      InsertPermutes(x, xs[1..]);
      LeqTotal(x.key, xs[0].key);
      forall y | y in Insert(x, xs[1..]) ensures Leq(xs[0].key, y.key) {
        assert y in multiset(Insert(x, xs[1..]));
      }
      SortedCons(xs[0], Insert(x, xs[1..]));
    }
  }

  lemma {:induction false} SortSorts<T>(xs: seq<Keyed<T>>)
    ensures Sorted(Sort(xs))
  {
    if xs != [] {
      SortSorts(xs[1..]);
      InsertSorts(xs[0], Sort(xs[1..]));
    }
  }

  /** Stability: a list already in order is left as it is. */
  lemma {:induction false} SortKeepsSorted<T>(xs: seq<Keyed<T>>)
    requires Sorted(xs)
    ensures Sort(xs) == xs
  {
    if xs != [] {
      SortKeepsSorted(xs[1..]);
    }
  }

  /** Keys tell the items apart. */
  ghost predicate Determined<T>(xs: seq<Keyed<T>>) {
    forall x, y :: x in xs && y in xs && x.key == y.key ==> x == y
  }

  lemma HeadIsLeast<T>(xs: seq<Keyed<T>>, x: Keyed<T>)
    requires Sorted(xs) && x in xs
    ensures Leq(xs[0].key, x.key)
  {
    var i :| 0 <= i < |xs| && xs[i] == x;
    LeqTotal(x.key, x.key);
  }

  lemma SortedTail<T>(xs: seq<Keyed<T>>)
    requires xs != [] && Sorted(xs) && Determined(xs)
    ensures Sorted(xs[1..]) && Determined(xs[1..])
    ensures multiset(xs[1..]) == multiset(xs) - multiset{xs[0]}
  {
    assert xs == [xs[0]] + xs[1..];
  }

  lemma SameMembers<T>(xs: seq<T>, ys: seq<T>)
    requires multiset(xs) == multiset(ys)
    ensures |xs| == |ys|
    ensures forall x :: x in xs <==> x in ys
  {
    assert |multiset(xs)| == |xs| && |multiset(ys)| == |ys|;
    forall x ensures x in xs <==> x in ys {
      assert x in xs <==> x in multiset(xs);
      assert x in ys <==> x in multiset(ys);
    }
  }

  lemma HeadsAgree<T>(xs: seq<Keyed<T>>, ys: seq<Keyed<T>>)
    requires xs != [] && Sorted(xs) && Sorted(ys) && Determined(xs) && multiset(xs) == multiset(ys)
    ensures ys != [] && xs[0] == ys[0]
  {
    hide Leq, Sorted, Determined;
    SameMembers(xs, ys);
    HeadIsLeast(xs, ys[0]);
    HeadIsLeast(ys, xs[0]);
    LeqAntisymmetric(xs[0].key, ys[0].key);
    SameKeySameItem(xs, xs[0], ys[0]);
  }

  lemma ConsEqual<T>(xs: seq<T>, ys: seq<T>)
    requires xs != [] && ys != [] && xs[0] == ys[0] && xs[1..] == ys[1..]
    ensures xs == ys
  {
    assert xs == [xs[0]] + xs[1..] && ys == [ys[0]] + ys[1..];
  }

  /** The order of a list with telling keys is forgotten by sorting it. */
  lemma {:induction false} SortedUnique<T>(xs: seq<Keyed<T>>, ys: seq<Keyed<T>>)
    requires Sorted(xs) && Sorted(ys) && Determined(xs) && multiset(xs) == multiset(ys)
    ensures xs == ys
  {
    hide *;
    SameMembers(xs, ys);
    if xs != [] {
      HeadsAgree(xs, ys);
      DeterminedPermuted(xs, ys);
      SortedTail(xs);
      SortedTail(ys);
      SortedUnique(xs[1..], ys[1..]);
      ConsEqual(xs, ys);
    }
  }

  lemma SameKeySameItem<T>(xs: seq<Keyed<T>>, x: Keyed<T>, y: Keyed<T>)
    requires Determined(xs) && x in xs && y in xs && x.key == y.key
    ensures x == y
  {
  }

  lemma DeterminedPermuted<T>(xs: seq<Keyed<T>>, ys: seq<Keyed<T>>)
    requires multiset(xs) == multiset(ys) && Determined(xs)
    ensures Determined(ys)
  {
    SameMembers(xs, ys);
  }

  lemma SortForgetsOrder<T>(xs: seq<Keyed<T>>, ys: seq<Keyed<T>>)
    requires multiset(xs) == multiset(ys) && Determined(xs)
    ensures Sort(xs) == Sort(ys)
  {
    hide Sort, Sorted, Determined;
    SortPermutes(xs);
    SortPermutes(ys);
    SortSorts(xs);
    SortSorts(ys);
    DeterminedPermuted(xs, Sort(xs));
    SortedUnique(Sort(xs), Sort(ys));
  }

  // ----- Permutations -----

  /** `p` lists every index below `n` exactly once. */
  ghost predicate Permutation(p: seq<nat>, n: nat) {
    && |p| == n
    && (forall i :: 0 <= i < n ==> p[i] < n)
    && (forall i, j :: 0 <= i < j < n ==> p[i] != p[j])
  }

  /** Reindexing a list by a permutation. */
  ghost predicate Rearranges<T>(xs: seq<T>, ys: seq<T>, p: seq<nat>) {
    && |xs| == |ys| && |p| == |xs| && Permutation(p, |xs|)
    && (forall i :: 0 <= i < |xs| ==> p[i] < |xs|)
    && forall i :: 0 <= i < |xs| ==> xs[i] == ys[p[i]]
  }

  function Without<T>(xs: seq<T>, k: nat): seq<T>
    requires k < |xs|
  {
    xs[..k] + xs[k + 1..]
  }

  lemma WithoutMultiset<T>(xs: seq<T>, k: nat)
    requires k < |xs|
    ensures multiset(Without(xs, k)) == multiset(xs) - multiset{xs[k]}
  {
    assert xs == xs[..k] + [xs[k]] + xs[k + 1..];
  }

  /** Make room for `k` in a permutation, and put it first. */
  function Lifted(q: seq<nat>, k: nat): (p: seq<nat>) {
    [k] + seq(|q|, i requires 0 <= i < |q| => if q[i] < k then q[i] else q[i] + 1)
  }

  lemma LiftedPermutes(q: seq<nat>, n: nat, k: nat)
    requires Permutation(q, n) && k <= n
    ensures Permutation(Lifted(q, k), n + 1)
  {
    var p := Lifted(q, k);
    forall i, j | 0 <= i < j < n + 1 ensures p[i] != p[j] {
      if i > 0 {
        assert q[i - 1] != q[j - 1];
      }
    }
  }

  lemma LiftedRearranges<T>(xs: seq<T>, ys: seq<T>, k: nat, q: seq<nat>)
    requires xs != [] && k < |ys| && ys[k] == xs[0]
    requires Rearranges(xs[1..], Without(ys, k), q)
    ensures Rearranges(xs, ys, Lifted(q, k))
  {
    hide Permutation;
    var p := Lifted(q, k);
    LiftedPermutes(q, |xs| - 1, k);
    PermutationSize(p, |xs|);
    forall i | 0 <= i < |xs| ensures xs[i] == ys[p[i]] {
      if i > 0 {
        assert xs[i] == xs[1..][i - 1] == Without(ys, k)[q[i - 1]];
      }
    }
  }

  lemma TailMultiset<T>(xs: seq<T>)
    requires xs != []
    ensures multiset(xs[1..]) == multiset(xs) - multiset{xs[0]}
  {
    assert xs == [xs[0]] + xs[1..];
  }

  /** Lists with the same elements, counted, are rearrangements of each other. */
  lemma {:induction false} RearrangementExists<T>(xs: seq<T>, ys: seq<T>) returns (p: seq<nat>)
    requires multiset(xs) == multiset(ys)
    ensures Rearranges(xs, ys, p)
  {
    hide Permutation, Rearranges, Without, Lifted;
    SameMembers(xs, ys);
    if xs == [] {
      p := [];
      NothingRearranged<T>(xs, ys);
    } else {
      assert xs[0] in ys;
      var k :| 0 <= k < |ys| && ys[k] == xs[0];
      TailMultiset(xs);
      WithoutMultiset(ys, k);
      var q := RearrangementExists(xs[1..], Without(ys, k));
      LiftedRearranges(xs, ys, k, q);
      p := Lifted(q, k);
    }
  }

  lemma NothingRearranged<T>(xs: seq<T>, ys: seq<T>)
    requires xs == ys == []
    ensures Rearranges(xs, ys, [])
  {
  }

  lemma PermutationSize(p: seq<nat>, n: nat)
    requires Permutation(p, n)
    ensures |p| == n && forall i :: 0 <= i < n ==> p[i] < n
  {
  }

  /** Drop the first index of a permutation, and close the gap. */
  function Lowered(p: seq<nat>): seq<nat>
    requires p != [] && forall i :: 0 < i < |p| ==> p[i] != p[0]
  {
    seq(|p| - 1, i requires 0 <= i < |p| - 1 => if p[i + 1] < p[0] then p[i + 1] else p[i + 1] - 1)
  }

  lemma LoweredPermutes(p: seq<nat>, n: nat)
    requires n > 0 && Permutation(p, n)
    ensures (forall i :: 0 < i < |p| ==> p[i] != p[0]) && Permutation(Lowered(p), n - 1)
  {
    forall i | 0 < i < |p| ensures p[i] != p[0] {
      assert p[0] != p[i];
    }
    var q := Lowered(p);
    forall i, j | 0 <= i < j < n - 1 ensures q[i] != q[j] {
      assert p[i + 1] != p[j + 1];
    }
  }

  lemma PutBack<T>(xs: seq<T>, ys: seq<T>, k: nat)
    requires xs != [] && k < |ys| && xs[0] == ys[k]
    requires multiset(xs) - multiset{xs[0]} == multiset(ys) - multiset{ys[k]}
    ensures multiset(xs) == multiset(ys)
  {
    assert xs[0] in multiset(xs) && ys[k] in multiset(ys);
    assert multiset(xs) == (multiset(xs) - multiset{xs[0]}) + multiset{xs[0]};
    assert multiset(ys) == (multiset(ys) - multiset{ys[k]}) + multiset{ys[k]};
  }

  /** A rearrangement has the same elements, counted. */
  lemma {:induction false} RearrangementMultiset<T>(xs: seq<T>, ys: seq<T>, p: seq<nat>)
    requires Rearranges(xs, ys, p)
    ensures multiset(xs) == multiset(ys)
  {
    hide Permutation;
    if xs != [] {
      LoweredPermutes(p, |xs|);
      var k, q := p[0], Lowered(p);
      PermutationSize(q, |xs| - 1);
      forall i | 0 <= i < |xs| - 1 ensures xs[1..][i] == Without(ys, k)[q[i]] {
        assert xs[1..][i] == ys[p[i + 1]];
      }
      RearrangementMultiset(xs[1..], Without(ys, k), q);
      WithoutMultiset(ys, k);
      TailMultiset(xs);
      PutBack(xs, ys, k);
    }
  }
}
