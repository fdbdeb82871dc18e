/** The complete listings that scripts/ci/github_api.py reads page by page. */
module GithubMetadata {
  import opened Wrappers

  const PAGE := 100
  const MAX_PAGES := 20

  /** A page and the number of items it declares the listing to have. */
  datatype Page<T> = Page(total: int, items: seq<T>)

  datatype ReadError = InvalidPage | CountChanged | DuplicateItem | ExceedsCount | Incomplete | TooManyPages

  predicate PageOk<T>(p: Option<Page<T>>) {
    p.Some? && 0 <= p.value.total && |p.value.items| <= PAGE
  }

  /** Pages `1` to `k` are readable and declare one total. */
  ghost predicate Agree<T>(read: nat -> Option<Page<T>>, k: nat) {
    && (k >= 1 ==> read(1).Some?)
    && forall i: nat :: 1 <= i <= k ==>
         && read(i).Some? && 0 <= read(i).value.total && |read(i).value.items| <= 100
         && read(i).value.total == read(1).value.total
  }

  ghost function Items<T>(read: nat -> Option<Page<T>>, k: nat): seq<T>
    requires Agree(read, k)
  {
    if k == 0 then [] else Items(read, k - 1) + read(k).value.items
  }

  /** Every item has a positive identity of its own. An item without an integer identity has 0. */
  ghost predicate Identified<T>(id: T -> int, items: seq<T>) {
    && (forall i :: 0 <= i < |items| ==> id(items[i]) > 0)
    && forall i, j :: 0 <= i < j < |items| ==> id(items[i]) != id(items[j])
  }

  /** Full pages that do not reach the total yet. */
  ghost predicate Partial<T>(read: nat -> Option<Page<T>>, k: nat)
    requires Agree(read, k)
  {
    forall i: nat :: 1 <= i <= k ==> |read(i).value.items| == 100 && |Items(read, i)| < read(1).value.total
  }

  /** The listing ends with page `k`, and is whole. */
  ghost predicate Complete<T>(read: nat -> Option<Page<T>>, id: T -> int, k: nat) {
    && 1 <= k <= 20 && Agree(read, k) && Partial(read, k - 1)
    && Identified(id, Items(read, k)) && |Items(read, k)| == read(1).value.total
  }

  lemma {:induction false} ItemsGrow<T>(read: nat -> Option<Page<T>>, j: nat, k: nat)
    requires j <= k && Agree(read, k)
    ensures Items(read, j) <= Items(read, k)
  {
    if j < k {
      ItemsGrow(read, j, k - 1);
    }
  }

  /** The whole listing, if there is one. */
  ghost function Whole<T>(read: nat -> Option<Page<T>>, id: T -> int): (r: Option<seq<T>>)
    ensures r.Some? ==> Identified(id, r.value)
  {
    if k: nat :| Complete(read, id, k) then Some(Items(read, k)) else None
  }

  /** Which listings are whole. */
  lemma WholeExactly<T>(read: nat -> Option<Page<T>>, id: T -> int)
    ensures Whole(read, id).Some? <==> exists k: nat :: Complete(read, id, k)
    ensures Whole(read, id).Some? ==> exists k: nat :: Complete(read, id, k) && Whole(read, id).value == Items(read, k)
  {
  }

  lemma OneEnd<T>(read: nat -> Option<Page<T>>, id: T -> int, j: nat, k: nat)
    requires Complete(read, id, j) && Complete(read, id, k)
    ensures j == k
  {
  }

  lemma WholeAt<T>(read: nat -> Option<Page<T>>, id: T -> int, n: nat)
    requires Complete(read, id, n)
    ensures Whole(read, id) == Some(Items(read, n))
  {
    var k: nat :| Complete(read, id, k) && Whole(read, id) == Some(Items(read, k));
    OneEnd(read, id, n, k);
  }

  lemma PrefixIdentified<T>(id: T -> int, items: seq<T>, prefix: seq<T>)
    requires prefix <= items && Identified(id, items)
    ensures Identified(id, prefix)
  {
    assert forall i :: 0 <= i < |prefix| ==> prefix[i] == items[i];
  }

  /** A listing that fails at page `n`, with partial pages before it, does not end anywhere. */
  lemma FailsAt<T>(read: nat -> Option<Page<T>>, id: T -> int, n: nat)
    requires n >= 1 && Agree(read, n - 1) && Partial(read, n - 1)
    requires Agree(read, n) ==>
               || !Identified(id, Items(read, n)) || |Items(read, n)| > read(1).value.total
               || (|Items(read, n)| != read(1).value.total && |read(n).value.items| < PAGE)
    ensures Whole(read, id).None?
  {
    hide Identified;
    forall k: nat ensures !Complete(read, id, k) {
      if Complete(read, id, k) && k >= n {
        ItemsGrow(read, n, k);
        PrefixIdentified(id, Items(read, k), Items(read, n));
      }
    }
  }

  /** Reading succeeds exactly for a whole listing, and gives its items. */
  method Pages<T>(read: nat -> Option<Page<T>>, id: T -> int) returns (r: Result<seq<T>, ReadError>)
    ensures r.Ok? <==> Whole(read, id).Some?
    ensures r.Ok? ==> r.value == Whole(read, id).value && Identified(id, r.value)
  {
    hide Identified, IdsOf, Whole, Complete, Items;
    NothingRead(read, id);
    var items: seq<T>, seen: set<int> := [], {};
    for n := 1 to MAX_PAGES + 1
      invariant Agree(read, n - 1) && Partial(read, n - 1)
      invariant items == Items(read, n - 1) && Identified(id, items)
      invariant seen == IdsOf(id, items)
    {
      var page := read(n);
      if !PageOk(page) {
        FailsAt(read, id, n);
        return Err(InvalidPage);
      }
      if page.value.total != read(1).value.total {
        FailsAt(read, id, n);
        return Err(CountChanged);
      }
      PageAdds(read, n);
      var ok, seen' := AddPage(id, items, seen, page.value.items);
      if !ok {
        FailsAt(read, id, n);
        return Err(DuplicateItem);
      }
      items, seen := items + page.value.items, seen';
      if |items| > page.value.total {
        FailsAt(read, id, n);
        return Err(ExceedsCount);
      }
      if |items| == page.value.total {
        Completes(read, id, n);
        return Ok(items);
      }
      if |page.value.items| < PAGE {
        FailsAt(read, id, n);
        return Err(Incomplete);
      }
    }
    NeverEnds(read, id);
    r := Err(TooManyPages);
  }

  lemma PageAdds<T>(read: nat -> Option<Page<T>>, n: nat)
    requires n >= 1 && Agree(read, n - 1) && Agree(read, n)
    ensures Items(read, n) == Items(read, n - 1) + read(n).value.items
  {
  }

  lemma Completes<T>(read: nat -> Option<Page<T>>, id: T -> int, n: nat)
    requires 1 <= n <= 20 && Agree(read, n) && Partial(read, n - 1)
    requires Identified(id, Items(read, n)) && |Items(read, n)| == read(1).value.total
    ensures Whole(read, id) == Some(Items(read, n))
  {
    hide Identified, Items;
    WholeAt(read, id, n);
  }

  lemma NothingRead<T>(read: nat -> Option<Page<T>>, id: T -> int)
    ensures Items(read, 0) == [] && Identified(id, []) && IdsOf(id, []) == {}
  {
  }

  lemma NeverEnds<T>(read: nat -> Option<Page<T>>, id: T -> int)
    requires Agree(read, MAX_PAGES) && Partial(read, MAX_PAGES)
    ensures Whole(read, id).None?
  {
  }

  ghost function IdsOf<T>(id: T -> int, items: seq<T>): set<int> {
    set i | 0 <= i < |items| :: id(items[i])
  }

  /** The loop over the items of one page. */
  method AddPage<T>(id: T -> int, items: seq<T>, seen: set<int>, more: seq<T>) returns (ok: bool, seen': set<int>)
    requires Identified(id, items) && seen == IdsOf(id, items)
    ensures ok <==> Identified(id, items + more)
    ensures ok ==> seen' == IdsOf(id, items + more)
  {
    seen' := seen;
    assert items + more[..0] == items;
    for n := 0 to |more|
      invariant Identified(id, items + more[..n]) && seen' == IdsOf(id, items + more[..n])
    {
      OneItem(id, items + more[..n], more[n]);
      assert items + more[..n] + [more[n]] == items + more[..n + 1];
      if id(more[n]) <= 0 || id(more[n]) in seen' {
        NotIdentified(id, items, more, n + 1);
        return false, seen';
      }
      seen' := seen' + {id(more[n])};
    }
    assert more[..|more|] == more;
    ok := true;
  }

  lemma OneItem<T>(id: T -> int, items: seq<T>, x: T)
    requires Identified(id, items)
    ensures Identified(id, items + [x]) <==> id(x) > 0 && id(x) !in IdsOf(id, items)
    ensures IdsOf(id, items + [x]) == IdsOf(id, items) + {id(x)}
  {
    var all := items + [x];
    assert all[|items|] == x && forall i :: 0 <= i < |items| ==> all[i] == items[i];
    assert id(all[|items|]) in IdsOf(id, all);
    forall y | y in IdsOf(id, items) ensures y in IdsOf(id, all) {
      var i :| 0 <= i < |items| && id(items[i]) == y;
      assert id(all[i]) == y;
    }
    if id(x) in IdsOf(id, items) {
      var i :| 0 <= i < |items| && id(items[i]) == id(x);
      assert id(all[i]) == id(all[|items|]);
    }
  }

  lemma NotIdentified<T>(id: T -> int, items: seq<T>, more: seq<T>, n: nat)
    requires n <= |more| && !Identified(id, items + more[..n])
    ensures !Identified(id, items + more)
  {
    if Identified(id, items + more) {
      assert items + more == items + more[..n] + more[n..];
      PrefixIdentified(id, items + more, items + more[..n]);
    }
  }
}
