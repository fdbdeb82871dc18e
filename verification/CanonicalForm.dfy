/** The policy-result equivalence of scripts/ci/benchmark-security-reuse.py. */
module CanonicalForm {
  import opened Sorting
  import opened JsonText
  import opened Wrappers

  // ----- Equal texts are equal values -----

  lemma SelfKeyedItems(xs: seq<Keyed<Text>>, ys: seq<Keyed<Text>>)
    requires Items(xs) == Items(ys)
    requires forall x :: x in xs ==> x.key == x.item
    requires forall y :: y in ys ==> y.key == y.item
    ensures xs == ys
  {
    assert |xs| == |Items(xs)| == |Items(ys)| == |ys|;
    forall i | 0 <= i < |xs| ensures xs[i] == ys[i] {
      assert xs[i] in xs && ys[i] in ys;
      assert xs[i].item == Items(xs)[i] == Items(ys)[i] == ys[i].item;
    }
  }

  lemma SelfKeyedSorted(texts: seq<Text>)
    ensures forall x :: x in Sort(SelfKeyed(texts)) ==> x.key == x.item
    ensures Determined(SelfKeyed(texts))
  {
    SortMembers(SelfKeyed(texts));
  }

  /** Two lists of texts are arranged alike exactly if one rearranges the other. */
  lemma ArrangedEqual(ts: seq<Text>, us: seq<Text>, sorted: bool) returns (p: seq<nat>)
    requires Arranged(ts, sorted) == Arranged(us, sorted)
    ensures Rearranges(ts, us, p) && (!sorted ==> Identity(p))
  {
    hide Sort, Permutation, Items;
    if sorted {
      var xs, ys := SelfKeyed(ts), SelfKeyed(us);
      SelfKeyedSorted(ts);
      SelfKeyedSorted(us);
      SelfKeyedItems(Sort(xs), Sort(ys));
      SortPermutes(xs);
      SortPermutes(ys);
      p := RearrangementExists(xs, ys);
      forall i | 0 <= i < |ts| ensures ts[i] == us[p[i]] {
        assert xs[i] == ys[p[i]];
      }
    } else {
      p := seq(|ts|, i requires 0 <= i < |ts| => i);
      IdentityPermutes(p);
    }
  }

  lemma IdentityPermutes(p: seq<nat>)
    requires Identity(p)
    ensures Permutation(p, |p|)
  {
  }

  lemma RearrangedSelfKeyed(ts: seq<Text>, us: seq<Text>, p: seq<nat>)
    requires Rearranges(ts, us, p)
    ensures Rearranges(SelfKeyed(ts), SelfKeyed(us), p)
  {
  }

  lemma ArrangeRearranged(ts: seq<Text>, us: seq<Text>, sorted: bool, p: seq<nat>)
    requires Rearranges(ts, us, p) && (!sorted ==> Identity(p))
    ensures Arranged(ts, sorted) == Arranged(us, sorted)
  {
    hide Sort, Items;
    if sorted {
      RearrangedSelfKeyed(ts, us, p);
      RearrangementMultiset(SelfKeyed(ts), SelfKeyed(us), p);
      SelfKeyedSorted(ts);
      SortForgetsOrder(SelfKeyed(ts), SelfKeyed(us));
    } else {
      assert ts == us;
    }
  }

  lemma EntriesDetermined(members: seq<Member>, style: Style, sorted: bool)
    requires DistinctNames(members)
    ensures Determined(Entries(members, style, sorted))
  {
    hide Print, EntryText;
    var xs := Entries(members, style, sorted);
    forall x, y | x in xs && y in xs && x.key == y.key ensures x == y {
      var i :| 0 <= i < |xs| && xs[i] == x;
      var j :| 0 <= j < |xs| && xs[j] == y;
      assert members[i].name == members[j].name;
    }
  }

  /** The printed entries of two dicts agree only if the entries themselves do. */
  lemma EntryItems(ms: seq<Member>, ns: seq<Member>, style: Style, sorted: bool)
    requires Valid(Dict(ms)) && Valid(Dict(ns))
    requires Items(Sort(Entries(ms, style, sorted))) == Items(Sort(Entries(ns, style, sorted)))
    ensures Sort(Entries(ms, style, sorted)) == Sort(Entries(ns, style, sorted))
  {
    hide Sort, Entries, Print;
    var xs, ys := Sort(Entries(ms, style, sorted)), Sort(Entries(ns, style, sorted));
    assert |xs| == |Items(xs)| == |Items(ys)| == |ys|;
    forall i | 0 <= i < |xs| ensures xs[i] == ys[i] {
      assert Items(xs)[i] == Items(ys)[i];
      EntryKeys(ms, ns, style, sorted, xs[i], ys[i]);
    }
  }

  lemma EntryKeys(ms: seq<Member>, ns: seq<Member>, style: Style, sorted: bool, x: Keyed<Text>, y: Keyed<Text>)
    requires Valid(Dict(ms)) && Valid(Dict(ns))
    requires x in Sort(Entries(ms, style, sorted)) && y in Sort(Entries(ns, style, sorted)) && x.item == y.item
    ensures x == y
  {
    hide Sort, Print, EntryText;
    var xs, ys := Entries(ms, style, sorted), Entries(ns, style, sorted);
    SortMembers(xs);
    SortMembers(ys);
    var i :| 0 <= i < |xs| && xs[i] == x;
    var j :| 0 <= j < |ys| && ys[j] == y;
    assert ms[i] in ms && ns[j] in ns;
    EqualTexts(x.item, y.item);
    EntryPrefix(ms[i].name, Print(ms[i].value, style, sorted), ns[j].name, Print(ns[j].value, style, sorted), style);
  }

  lemma EqualTexts(t: Text, u: Text)
    requires t == u
    ensures Prefix(t, u)
  {
  }

  lemma EntryTextsEqual(k: Text, t: Text, l: Text, u: Text, style: Style)
    requires CodeUnits(k) && CodeUnits(l) && EntryText(k, t, style) == EntryText(l, u, style)
    ensures k == l && t == u
  {
    EntryPrefix(k, t, l, u, style);
    EntryPrefix(l, u, k, t, style);
  }

  lemma ListTexts(xs: seq<Json>, ys: seq<Json>, style: Style, sorted: bool) returns (p: seq<nat>)
    requires Valid(List(xs)) && Valid(List(ys)) && style.Ok()
    requires Print(List(xs), style, sorted) == Print(List(ys), style, sorted)
    ensures |xs| == |ys| && Permutation(p, |xs|) && (!sorted ==> Identity(p))
    ensures forall i :: 0 <= i < |xs| ==> Print(xs[i], style, sorted) == Print(ys[p[i]], style, sorted)
  {
    hide Arranged, Prefix, Joined, Permutation;
    var ts, us := PrintAll(xs, style, sorted), PrintAll(ys, style, sorted);
    forall i, j | 0 <= i < |xs| && 0 <= j < |ys|
      ensures Apart(Print(xs[i], style, sorted), Print(ys[j], style, sorted))
    {
      PrintApart(xs[i], ys[j], style, sorted);
    }
    ListsAllApart(xs, ys, style, sorted);
    var t := Joined(Arranged(ts, sorted), style.comma, CLOSE_LIST);
    var u := Joined(Arranged(us, sorted), style.comma, CLOSE_LIST);
    EqualTexts([OPEN_LIST] + t, [OPEN_LIST] + u);
    PrefixCons(t, u, [OPEN_LIST]);
    JoinedPrefix(Arranged(ts, sorted), Arranged(us, sorted), style, CLOSE_LIST);
    p := ArrangedEqual(ts, us, sorted);
  }

  lemma DictTexts(ms: seq<Member>, ns: seq<Member>, style: Style, sorted: bool) returns (p: seq<nat>)
    requires Valid(Dict(ms)) && Valid(Dict(ns)) && style.Ok()
    requires Print(Dict(ms), style, sorted) == Print(Dict(ns), style, sorted)
    ensures |ms| == |ns| && Permutation(p, |ms|)
    ensures forall i :: 0 <= i < |ms| ==>
              ms[i].name == ns[p[i]].name && Print(ms[i].value, style, sorted) == Print(ns[p[i]].value, style, sorted)
  {
    hide Items, Sort, Prefix, Joined, Permutation, EntryText;
    var es, fs := Entries(ms, style, sorted), Entries(ns, style, sorted);
    forall i, j | 0 <= i < |ms| && 0 <= j < |ns|
      ensures Apart(Print(ms[i].value, style, sorted), Print(ns[j].value, style, sorted))
    {
      PrintApart(ms[i].value, ns[j].value, style, sorted);
    }
    DictsAllApart(ms, ns, style, sorted);
    var t, u := Joined(Items(Sort(es)), style.comma, CLOSE_DICT), Joined(Items(Sort(fs)), style.comma, CLOSE_DICT);
    EqualTexts([OPEN_DICT] + t, [OPEN_DICT] + u);
    PrefixCons(t, u, [OPEN_DICT]);
    JoinedPrefix(Items(Sort(es)), Items(Sort(fs)), style, CLOSE_DICT);
    EntryItems(ms, ns, style, sorted);
    SortPermutes(es);
    SortPermutes(fs);
    p := RearrangementExists(es, fs);
    forall i | 0 <= i < |ms|
      ensures ms[i].name == ns[p[i]].name && Print(ms[i].value, style, sorted) == Print(ns[p[i]].value, style, sorted)
    {
      assert es[i] == fs[p[i]];
      assert ms[i] in ms && ns[p[i]] in ns;
      EntryTextsEqual(ms[i].name, Print(ms[i].value, style, sorted),
                      ns[p[i]].name, Print(ns[p[i]].value, style, sorted), style);
    }
  }

  /** Equal texts come from values that are the same. */
  lemma {:induction false} EqualTextsSame(a: Json, b: Json, style: Style, sorted: bool)
    requires Valid(a) && Valid(b) && style.Ok()
    requires Print(a, style, sorted) == Print(b, style, sorted)
    ensures Same(a, b, !sorted)
    decreases a
  {
    hide Permutation, Joined, Sort, Items, Arranged;
    match (a, b)
    case (List(xs), List(ys)) =>
      var p := ListTexts(xs, ys, style, sorted);
      PermutationSize(p, |xs|);
      forall i | 0 <= i < |xs| ensures Same(xs[i], ys[p[i]], !sorted) {
        EqualTextsSame(xs[i], ys[p[i]], style, sorted);
      }
      assert Matched(xs, ys, p, !sorted);
    case (Dict(ms), Dict(ns)) =>
      var p := DictTexts(ms, ns, style, sorted);
      PermutationSize(p, |ms|);
      forall i | 0 <= i < |ms|
        ensures ms[i].name == ns[p[i]].name && Same(ms[i].value, ns[p[i]].value, !sorted)
      {
        EqualTextsSame(ms[i].value, ns[p[i]].value, style, sorted);
      }
      assert MatchedMembers(ms, ns, p, !sorted);
    case (String(s), String(t)) =>
      EqualTexts(Quoted(s) + [], Quoted(t) + []);
      QuotedPrefix(s, [], t, []);
    case _ =>
      KindsDiffer(a, b, style, sorted);
  }

  lemma KindsDiffer(a: Json, b: Json, style: Style, sorted: bool)
    requires Valid(a) && Valid(b) && Print(a, style, sorted) == Print(b, style, sorted)
    requires !(a.String? && b.String?) && !(a.List? && b.List?) && !(a.Dict? && b.Dict?)
    ensures a == b && !a.List? && !a.Dict?
  {
    PrintElement(a, style, sorted);
    assert Print(a, style, sorted)[0] == Print(b, style, sorted)[0];
  }

  /** Values that are the same have equal texts. */
  lemma {:induction false} SameEqualTexts(a: Json, b: Json, style: Style, sorted: bool)
    requires Valid(a) && Valid(b) && Same(a, b, !sorted)
    ensures Print(a, style, sorted) == Print(b, style, sorted)
    decreases a
  {
    hide Permutation, Print;
    match (a, b)
    case (List(xs), List(ys)) =>
      var p :| Permutation(p, |xs|) && Matched(xs, ys, p, !sorted) && (!sorted ==> Identity(p));
      PermutationSize(p, |xs|);
      forall i | 0 <= i < |xs| ensures Print(xs[i], style, sorted) == Print(ys[p[i]], style, sorted) {
        SameEqualTexts(xs[i], ys[p[i]], style, sorted);
      }
      SameLists(xs, ys, style, sorted, p);
    case (Dict(ms), Dict(ns)) =>
      var p :| Permutation(p, |ms|) && MatchedMembers(ms, ns, p, !sorted);
      PermutationSize(p, |ms|);
      forall i | 0 <= i < |ms|
        ensures ms[i].name == ns[p[i]].name && Print(ms[i].value, style, sorted) == Print(ns[p[i]].value, style, sorted)
      {
        SameEqualTexts(ms[i].value, ns[p[i]].value, style, sorted);
      }
      SameDicts(ms, ns, style, sorted, p);
    case _ =>
  }

  lemma SameLists(xs: seq<Json>, ys: seq<Json>, style: Style, sorted: bool, p: seq<nat>)
    requires |xs| == |ys| == |p| && Permutation(p, |xs|) && (!sorted ==> Identity(p))
    requires forall i :: 0 <= i < |p| ==> p[i] < |ys|
    requires forall i :: 0 <= i < |xs| ==> Print(xs[i], style, sorted) == Print(ys[p[i]], style, sorted)
    ensures Print(List(xs), style, sorted) == Print(List(ys), style, sorted)
  {
    hide Permutation, Joined, Arranged;
    ArrangeRearranged(PrintAll(xs, style, sorted), PrintAll(ys, style, sorted), sorted, p);
  }

  lemma SameDicts(ms: seq<Member>, ns: seq<Member>, style: Style, sorted: bool, p: seq<nat>)
    requires |ms| == |ns| == |p| && Permutation(p, |ms|) && DistinctNames(ms)
    requires forall i :: 0 <= i < |p| ==> p[i] < |ns|
    requires forall i :: 0 <= i < |ms| ==>
               ms[i].name == ns[p[i]].name && Print(ms[i].value, style, sorted) == Print(ns[p[i]].value, style, sorted)
    ensures Print(Dict(ms), style, sorted) == Print(Dict(ns), style, sorted)
  {
    hide Permutation, Joined, Sort, Items, EntryText;
    var es, fs := Entries(ms, style, sorted), Entries(ns, style, sorted);
    RearrangementMultiset(es, fs, p);
    EntriesDetermined(ms, style, sorted);
    SortForgetsOrder(es, fs);
  }

  /** `json.dumps(..., sort_keys=True)` tells exactly the values that differ beyond member order. */
  lemma DumpsIsFaithful(a: Json, b: Json, style: Style)
    requires Valid(a) && Valid(b) && style.Ok()
    ensures Dumps(a, style) == Dumps(b, style) <==> Same(a, b, true)
  {
    if Dumps(a, style) == Dumps(b, style) {
      EqualTextsSame(a, b, style, false);
    }
    if Same(a, b, true) {
      SameEqualTexts(a, b, style, false);
    }
  }

  // ----- The canonical form -----

  /** Elements keyed by their own text, the sort key of `canonical`. */
  function KeyedBy(items: seq<Json>): seq<Keyed<Json>> {
    seq(|items|, i requires 0 <= i < |items| => Keyed(Dumps(items[i], SPACED), items[i]))
  }

  function Canonical(v: Json): Json
    decreases v, 1
  {
    match v
    case Dict(members) => Dict(CanonicalMembers(members))
    case List(items) => List(Items(Sort(KeyedBy(CanonicalAll(items)))))
    case _ => v
  }

  function CanonicalAll(items: seq<Json>): (r: seq<Json>)
    ensures |r| == |items|
    ensures forall i :: 0 <= i < |items| ==> r[i] == Canonical(items[i])
    decreases items, 0
  {
    if items == [] then [] else [Canonical(items[0])] + CanonicalAll(items[1..])
  }

  function CanonicalMembers(members: seq<Member>): (r: seq<Member>)
    ensures |r| == |members|
    ensures forall i :: 0 <= i < |members| ==> r[i] == Member(members[i].name, Canonical(members[i].value))
    decreases members, 0
  {
    if members == [] then []
    else [Member(members[0].name, Canonical(members[0].value))] + CanonicalMembers(members[1..])
  }

  /** The elements of a canonical list are canonical forms of the elements. */
  lemma CanonicalItem(items: seq<Json>, c: Json) returns (i: nat)
    requires c in Items(Sort(KeyedBy(CanonicalAll(items))))
    ensures i < |items| && c == Canonical(items[i])
  {
    hide Sort, Canonical;
    var xs := KeyedBy(CanonicalAll(items));
    var j :| 0 <= j < |Sort(xs)| && Items(Sort(xs))[j] == c;
    SortMembers(xs);
    assert Sort(xs)[j] in xs;
    i :| 0 <= i < |xs| && xs[i] == Sort(xs)[j];
  }

  lemma {:induction false} CanonicalValid(v: Json)
    requires Valid(v)
    ensures Valid(Canonical(v))
    decreases v
  {
    hide Sort, Items;
    match v
    case List(items) =>
      forall c | c in Items(Sort(KeyedBy(CanonicalAll(items)))) ensures Valid(c) {
        var i := CanonicalItem(items, c);
        CanonicalValid(items[i]);
      }
    case Dict(members) =>
      var cs := CanonicalMembers(members);
      forall m | m in cs ensures CodeUnits(m.name) && Valid(m.value) {
        var i :| 0 <= i < |cs| && cs[i] == m;
        assert members[i] in members;
        CanonicalValid(members[i].value);
      }
      assert DistinctNames(cs);
    case _ =>
  }

  // ----- Its text -----

  function Keys<T>(xs: seq<Keyed<T>>): seq<Text> {
    seq(|xs|, i requires 0 <= i < |xs| => xs[i].key)
  }

  lemma KeysCons<T>(x: Keyed<T>, xs: seq<Keyed<T>>)
    ensures Keys([x] + xs) == [x.key] + Keys(xs)
    ensures xs != [] ==> Keys(xs) == [xs[0].key] + Keys(xs[1..])
  {
  }

  /** Sorting looks at keys only. */
  lemma {:induction false} InsertKeys<S, T>(x: Keyed<S>, xs: seq<Keyed<S>>, y: Keyed<T>, ys: seq<Keyed<T>>)
    requires x.key == y.key && Keys(xs) == Keys(ys)
    ensures Keys(Insert(x, xs)) == Keys(Insert(y, ys))
  {
    assert |xs| == |Keys(xs)| && |ys| == |Keys(ys)|;
    KeysCons(x, xs);
    KeysCons(y, ys);
    if xs != [] {
      assert xs[0].key == Keys(xs)[0] == ys[0].key;
      assert Keys(xs[1..]) == Keys(xs)[1..] && Keys(ys[1..]) == Keys(ys)[1..];
      if !Leq(x.key, xs[0].key) {
        InsertKeys(x, xs[1..], y, ys[1..]);
        KeysCons(xs[0], Insert(x, xs[1..]));
        KeysCons(ys[0], Insert(y, ys[1..]));
      }
    }
  }

  lemma {:induction false} SortKeys<S, T>(xs: seq<Keyed<S>>, ys: seq<Keyed<T>>)
    requires Keys(xs) == Keys(ys)
    ensures Keys(Sort(xs)) == Keys(Sort(ys))
  {
    assert |xs| == |Keys(xs)| && |ys| == |Keys(ys)|;
    if xs != [] {
      assert xs[0].key == Keys(xs)[0] == ys[0].key;
      assert Keys(xs[1..]) == Keys(xs)[1..] && Keys(ys[1..]) == Keys(ys)[1..];
      SortKeys(xs[1..], ys[1..]);
      InsertKeys(xs[0], Sort(xs[1..]), ys[0], Sort(ys[1..]));
    }
  }

  lemma KeyedByKeys(items: seq<Json>)
    ensures Keys(Sort(KeyedBy(items))) == PrintAll(Items(Sort(KeyedBy(items))), SPACED, false)
  {
    hide Sort, Print;
    var xs := KeyedBy(items);
    SortMembers(xs);
    forall i | 0 <= i < |Sort(xs)| ensures Sort(xs)[i].key == Print(Sort(xs)[i].item, SPACED, false) {
      assert Sort(xs)[i] in Sort(xs);
    }
  }

  lemma SelfKeyedKeys(texts: seq<Text>)
    ensures Keys(Sort(SelfKeyed(texts))) == Items(Sort(SelfKeyed(texts)))
  {
    hide Sort;
    SelfKeyedSorted(texts);
    var xs := Sort(SelfKeyed(texts));
    forall i | 0 <= i < |xs| ensures xs[i].key == xs[i].item {
      assert xs[i] in xs;
    }
  }

  /** The texts in a canonical list are the texts of its elements, put in order. */
  lemma CanonicalTexts(items: seq<Json>, texts: seq<Text>)
    requires |texts| == |items|
    requires forall i :: 0 <= i < |items| ==> texts[i] == Dumps(items[i], SPACED)
    ensures PrintAll(Items(Sort(KeyedBy(items))), SPACED, false) == Arranged(texts, true)
  {
    hide Sort, Print;
    KeyedByKeys(items);
    SelfKeyedKeys(texts);
    assert Keys(KeyedBy(items)) == Keys(SelfKeyed(texts));
    SortKeys(KeyedBy(items), SelfKeyed(texts));
  }

  /** Printing the canonical form is printing with every list in order. */
  lemma {:induction false} CanonicalText(v: Json)
    ensures Dumps(Canonical(v), SPACED) == Print(v, SPACED, true)
    decreases v
  {
    hide Sort, Items, Joined, Quoted, Arranged, EntryText;
    match v
    case List(items) =>
      var texts := PrintAll(items, SPACED, true);
      forall i | 0 <= i < |items| ensures texts[i] == Dumps(CanonicalAll(items)[i], SPACED) {
        CanonicalText(items[i]);
      }
      CanonicalTexts(CanonicalAll(items), texts);
      ArrangedAgain(PrintAll(Items(Sort(KeyedBy(CanonicalAll(items)))), SPACED, false));
    case Dict(members) =>
      forall i | 0 <= i < |members|
        ensures Entries(CanonicalMembers(members), SPACED, false)[i] == Entries(members, SPACED, true)[i]
      {
        CanonicalText(members[i].value);
      }
      assert Entries(CanonicalMembers(members), SPACED, false) == Entries(members, SPACED, true);
    case _ =>
  }

  lemma ArrangedAgain(texts: seq<Text>)
    ensures Arranged(texts, false) == texts
  {
  }

  /**
   * The canonical form is a complete invariant: the texts of two canonical forms, in
   * either style, agree exactly when the values differ at most in the order of lists
   * (and of dict members) at every depth.
   */
  lemma CanonicalIsComplete(a: Json, b: Json, style: Style)
    requires Valid(a) && Valid(b) && style.Ok()
    ensures Dumps(Canonical(a), style) == Dumps(Canonical(b), style) <==> Same(a, b, false)
  {
    hide Print, Same, Canonical;
    CanonicalValid(a);
    CanonicalValid(b);
    DumpsIsFaithful(Canonical(a), Canonical(b), style);
    DumpsIsFaithful(Canonical(a), Canonical(b), SPACED);
    CanonicalText(a);
    CanonicalText(b);
    if Same(a, b, false) {
      SameEqualTexts(a, b, SPACED, true);
    }
    if Print(a, SPACED, true) == Print(b, SPACED, true) {
      EqualTextsSame(a, b, SPACED, true);
    }
  }

  lemma KeyedByItems(xs: seq<Keyed<Json>>)
    requires forall x :: x in xs ==> x.key == Dumps(x.item, SPACED)
    ensures KeyedBy(Items(xs)) == xs
  {
    hide Print;
  }

  lemma KeyedBySorted(items: seq<Json>)
    ensures Sort(KeyedBy(Items(Sort(KeyedBy(items))))) == Sort(KeyedBy(items))
  {
    hide Sort, Print, Sorted;
    var xs := Sort(KeyedBy(items));
    SortMembers(KeyedBy(items));
    KeyedByItems(xs);
    SortSorts(KeyedBy(items));
    SortKeepsSorted(xs);
  }

  lemma {:induction false} CanonicalIdempotent(v: Json)
    ensures Canonical(Canonical(v)) == Canonical(v)
    decreases v
  {
    hide Sort, Items, KeyedBy;
    match v
    case List(items) =>
      var cs := Items(Sort(KeyedBy(CanonicalAll(items))));
      forall i | 0 <= i < |cs| ensures CanonicalAll(cs)[i] == cs[i] {
        assert cs[i] in cs;
        var j := CanonicalItem(items, cs[i]);
        CanonicalIdempotent(items[j]);
      }
      assert CanonicalAll(cs) == cs;
      KeyedBySorted(CanonicalAll(items));
    case Dict(members) =>
      var cs := CanonicalMembers(members);
      forall i | 0 <= i < |cs| ensures CanonicalMembers(cs)[i] == cs[i] {
        CanonicalIdempotent(members[i].value);
      }
      assert CanonicalMembers(cs) == cs;
    case _ =>
  }

  // ----- The equivalence test -----

  /** The names of `scannedAt` and `database`, which necessarily differ between scans. */
  const SCANNED_AT: Text := [115, 99, 97, 110, 110, 101, 100, 65, 116]
  const DATABASE: Text := [100, 97, 116, 97, 98, 97, 115, 101]

  function Projection(members: seq<Member>): (r: seq<Member>)
    ensures forall m :: m in r <==> m in members && m.name != SCANNED_AT && m.name != DATABASE
  {
    if members == [] then []
    else if members[0].name == SCANNED_AT || members[0].name == DATABASE then Projection(members[1..])
    else [members[0]] + Projection(members[1..])
  }

  /** The two fields that are dropped. */
  lemma DroppedExactly()
    ensures |SCANNED_AT| == 9 && forall i :: 0 <= i < 9 ==> SCANNED_AT[i] == "scannedAt"[i] as int
    ensures |DATABASE| == 8 && forall i :: 0 <= i < 8 ==> DATABASE[i] == "database"[i] as int
  {
  }

  lemma {:induction false} ProjectionValid(members: seq<Member>)
    requires Valid(Dict(members))
    ensures Valid(Dict(Projection(members)))
  {
    if members != [] {
      var tail := members[1..];
      forall m | m in tail ensures m in members && m.name != members[0].name {
        var i :| 0 <= i < |tail| && tail[i] == m;
        assert m == members[i + 1];
      }
      assert DistinctNames(tail);
      ProjectionValid(tail);
      var p := Projection(tail);
      forall i, j | 0 <= i < j < |[members[0]] + p|
        ensures ([members[0]] + p)[i].name != ([members[0]] + p)[j].name
      {
        if i == 0 {
          assert p[j - 1] in p;
        } else {
          assert p[i - 1].name != p[j - 1].name;
        }
      }
    }
  }

  /** NaN, Infinity and -Infinity: the literals `allow_nan=False` refuses. */
  predicate Nonfinite(literal: Text) {
    literal == [78, 97, 78] || literal == [73, 110, 102, 105, 110, 105, 116, 121]
    || literal == [45, 73, 110, 102, 105, 110, 105, 116, 121]
  }

  predicate Spells(literal: Text, word: string) {
    |literal| == |word| && forall i :: 0 <= i < |word| ==> literal[i] == word[i] as int
  }

  /** The numbers that are refused. */
  lemma NonfiniteExactly(literal: Text)
    ensures Nonfinite(literal) <==>
              Spells(literal, "NaN") || Spells(literal, "Infinity") || Spells(literal, "-Infinity")
  {
  }

  predicate Finite(v: Json)
    decreases v
  {
    match v
    case Number(literal) => !Nonfinite(literal)
    case List(items) => forall x :: x in items ==> Finite(x)
    case Dict(members) => forall m :: m in members ==> Finite(m.value)
    case _ => true
  }

  /** `x` is the value or stands in it, at any depth. */
  ghost predicate Inside(x: Json, v: Json)
    decreases v
  {
    x == v || match v
              case List(items) => exists y :: y in items && Inside(x, y)
              case Dict(members) => exists m :: m in members && Inside(x, m.value)
              case _ => false
  }

  ghost predicate Refused(x: Json) {
    x.Number? && (Spells(x.literal, "NaN") || Spells(x.literal, "Infinity") || Spells(x.literal, "-Infinity"))
  }

  /** A value is refused exactly for a nonfinite number somewhere inside. */
  lemma {:induction false} FiniteExactly(v: Json)
    ensures Finite(v) <==> forall x :: Inside(x, v) ==> !Refused(x)
  {
    hide Nonfinite, Spells, Refused;
    RefusedMeans(v);
    match v
    case List(items) =>
      forall y | y in items ensures Finite(y) <==> forall x :: Inside(x, y) ==> !Refused(x) {
        FiniteExactly(y);
      }
    case Dict(members) =>
      forall m | m in members ensures Finite(m.value) <==> forall x :: Inside(x, m.value) ==> !Refused(x) {
        FiniteExactly(m.value);
      }
    case _ =>
  }

  lemma RefusedMeans(v: Json)
    ensures Refused(v) <==> v.Number? && Nonfinite(v.literal)
  {
    if v.Number? {
      NonfiniteExactly(v.literal);
    }
  }

  /** Every element of a list has its canonical form in the canonical list. */
  lemma ItemKept(items: seq<Json>, i: nat)
    requires i < |items|
    ensures Canonical(items[i]) in Items(Sort(KeyedBy(CanonicalAll(items))))
  {
    var cs := CanonicalAll(items);
    KeyedItem(cs, i);
    hide *;
    var xs := KeyedBy(cs);
    SortMembers(xs);
    ItemOfMember(Sort(xs), xs[i]);
  }

  lemma KeyedItem(items: seq<Json>, i: nat)
    requires i < |items|
    ensures |KeyedBy(items)| == |items| && KeyedBy(items)[i] in KeyedBy(items) && KeyedBy(items)[i].item == items[i]
  {
  }

  lemma ItemOfMember(xs: seq<Keyed<Json>>, x: Keyed<Json>)
    requires x in xs
    ensures x.item in Items(xs)
  {
    var j :| 0 <= j < |xs| && xs[j] == x;
    assert Items(xs)[j] == x.item;
  }

  lemma FiniteItems(items: seq<Json>)
    requires forall i :: 0 <= i < |items| ==> (Finite(Canonical(items[i])) <==> Finite(items[i]))
    ensures Finite(Canonical(List(items))) <==> Finite(List(items))
  {
    hide Sort, Items;
    var cs := Items(Sort(KeyedBy(CanonicalAll(items))));
    if Finite(List(items)) {
      forall c | c in cs ensures Finite(c) {
        var i := CanonicalItem(items, c);
        assert items[i] in items;
      }
    }
    if Finite(List(cs)) {
      forall x | x in items ensures Finite(x) {
        var i :| 0 <= i < |items| && items[i] == x;
        ItemKept(items, i);
      }
    }
  }

  lemma FiniteMembers(members: seq<Member>)
    requires forall i :: 0 <= i < |members| ==>
               (Finite(Canonical(members[i].value)) <==> Finite(members[i].value))
    ensures Finite(Canonical(Dict(members))) <==> Finite(Dict(members))
  {
    var cs := CanonicalMembers(members);
    if Finite(Dict(members)) {
      forall c | c in cs ensures Finite(c.value) {
        var i :| 0 <= i < |cs| && cs[i] == c;
        assert members[i] in members;
      }
    }
    if Finite(Dict(cs)) {
      forall m | m in members ensures Finite(m.value) {
        var i :| 0 <= i < |members| && members[i] == m;
        assert cs[i] in cs;
      }
    }
  }

  lemma {:induction false} FiniteCanonical(v: Json)
    ensures Finite(Canonical(v)) <==> Finite(v)
    decreases v
  {
    match v
    case List(items) =>
      forall i | 0 <= i < |items| ensures Finite(Canonical(items[i])) <==> Finite(items[i]) {
        FiniteCanonical(items[i]);
      }
      FiniteItems(items);
    case Dict(members) =>
      forall i | 0 <= i < |members|
        ensures Finite(Canonical(members[i].value)) <==> Finite(members[i].value)
      {
        FiniteCanonical(members[i].value);
      }
      FiniteMembers(members);
    case _ =>
  }

  datatype EquivalenceError = NonfiniteNumber

  /** The digest of everything a policy result says, but when and against which database. */
  function PolicyEquivalence<H>(result: seq<Member>, hash: Text -> H): (r: Result<H, EquivalenceError>)
    ensures r.Ok? <==> Finite(Dict(Projection(result)))
  {
    FiniteCanonical(Dict(Projection(result)));
    var canonical := Canonical(Dict(Projection(result)));
    if Finite(canonical) then Ok(hash(Dumps(canonical, COMPACT))) else Err(NonfiniteNumber)
  }

  /** The hash does not confuse the texts of the two results. */
  ghost predicate Unconfused<H>(a: seq<Member>, b: seq<Member>, hash: Text -> H) {
    var t, u := Dumps(Canonical(Dict(Projection(a))), COMPACT), Dumps(Canonical(Dict(Projection(b))), COMPACT);
    hash(t) == hash(u) ==> t == u
  }

  /** Equal digests mean the same results up to list order, and conversely. */
  lemma PolicyEquivalenceIsExact<H>(a: seq<Member>, b: seq<Member>, hash: Text -> H)
    requires Valid(Dict(a)) && Valid(Dict(b)) && Unconfused(a, b, hash)
    requires PolicyEquivalence(a, hash).Ok? && PolicyEquivalence(b, hash).Ok?
    ensures PolicyEquivalence(a, hash) == PolicyEquivalence(b, hash)
       <==> Same(Dict(Projection(a)), Dict(Projection(b)), false)
  {
    hide Print, Same, Canonical;
    ProjectionValid(a);
    ProjectionValid(b);
    CanonicalIsComplete(Dict(Projection(a)), Dict(Projection(b)), COMPACT);
  }
}
