/** Python's `sorted(set(...))` of strings. */
module StringSets {
  import opened Sorting

  function Codes(s: string): Text {
    seq(|s|, i requires 0 <= i < |s| => s[i] as int)
  }

  function ByCodes(xs: seq<string>): seq<Keyed<string>> {
    seq(|xs|, i requires 0 <= i < |xs| => Keyed(Codes(xs[i]), xs[i]))
  }

  function Dedup(xs: seq<string>): (r: seq<string>)
    ensures forall x :: x in r <==> x in xs
  {
    if xs == [] then []
    else if xs[0] in xs[1..] then Dedup(xs[1..])
    else [xs[0]] + Dedup(xs[1..])
  }

  /** `sorted(set(xs))`. */
  function SortedSet(xs: seq<string>): seq<string> {
    SortedList(Dedup(xs))
  }

  /** `sorted(xs)`. */
  function SortedList(xs: seq<string>): seq<string> {
    Items(Sort(ByCodes(xs)))
  }

  lemma SortedListMembers(xs: seq<string>)
    ensures |SortedList(xs)| == |xs|
    ensures forall x :: x in SortedList(xs) <==> x in xs
  {
    hide Sort, Codes;
    var sorted := Sort(ByCodes(xs));
    SortPermutes(ByCodes(xs));
    SortMembers(ByCodes(xs));
    forall x ensures x in SortedList(xs) <==> x in xs {
      if x in SortedList(xs) {
        var i :| 0 <= i < |sorted| && Items(sorted)[i] == x;
        assert sorted[i] in sorted;
      }
      if x in xs {
        var i :| 0 <= i < |xs| && xs[i] == x;
        assert ByCodes(xs)[i] in sorted;
        var j :| 0 <= j < |sorted| && sorted[j] == ByCodes(xs)[i];
        assert Items(sorted)[j] == x;
      }
    }
  }

  ghost predicate Distinct(xs: seq<string>) {
    forall i, j :: 0 <= i < j < |xs| ==> xs[i] != xs[j]
  }

  lemma {:induction false} DedupDistinct(xs: seq<string>)
    ensures Distinct(Dedup(xs))
    ensures Distinct(xs) ==> Dedup(xs) == xs
  {
    if xs != [] {
      DedupDistinct(xs[1..]);
      if Distinct(xs) {
        assert Distinct(xs[1..]);
        assert xs[0] !in xs[1..];
      }
    }
  }

  lemma SortedDistinct(xs: seq<string>)
    requires Distinct(xs)
    ensures Distinct(SortedList(xs))
  {
    hide Sort, Permutation;
    SortPermutes(ByCodes(xs));
    var p := RearrangementExists(Sort(ByCodes(xs)), ByCodes(xs));
    PermutationInjective(p, |xs|);
    var ys := Items(Sort(ByCodes(xs)));
    forall i, j | 0 <= i < j < |ys| ensures ys[i] != ys[j] {
      assert ys[i] == xs[p[i]] && ys[j] == xs[p[j]];
    }
  }

  lemma PermutationInjective(p: seq<nat>, n: nat)
    requires Permutation(p, n)
    ensures |p| == n && forall i, j :: 0 <= i < j < n ==> p[i] != p[j]
  {
  }

  lemma KeyedAgain(xs: seq<string>)
    ensures var sorted := Sort(ByCodes(xs)); ByCodes(Items(sorted)) == sorted
  {
    hide Sort, Codes;
    var sorted := Sort(ByCodes(xs));
    SortMembers(ByCodes(xs));
    forall i | 0 <= i < |sorted| ensures sorted[i] == Keyed(Codes(sorted[i].item), sorted[i].item) {
      assert sorted[i] in sorted;
    }
  }

  /** A sorted set is its own sorted set. */
  lemma SortedSetTwice(xs: seq<string>)
    ensures SortedSet(SortedSet(xs)) == SortedSet(xs)
  {
    hide Sort, ByCodes, Items, Dedup, Sorted, Distinct;
    var once := Dedup(xs);
    DedupDistinct(xs);
    SortedDistinct(once);
    DedupDistinct(SortedSet(xs));
    KeyedAgain(once);
    SortSorts(ByCodes(once));
    SortKeepsSorted(Sort(ByCodes(once)));
  }

  lemma SortedSetMembers(xs: seq<string>)
    ensures forall x :: x in SortedSet(xs) <==> x in xs
    ensures Distinct(SortedSet(xs))
  {
    SortedListMembers(Dedup(xs));
    DedupDistinct(xs);
    SortedDistinct(Dedup(xs));
  }
}
