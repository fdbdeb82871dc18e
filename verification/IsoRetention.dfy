/** ISO retention of scripts/bluebuild/reuse-qualification.py. */
module IsoRetention {
  import opened Wrappers
  import opened GithubMetadata

  datatype Artifact = Artifact(id: int, profile: string, run: int, attempt: int, created: int)

  datatype PlanError = InvalidProfiles | Unreadable | Unauthenticated | AmbiguousIds

  // ----- The selection rule -----

  /** How many of the candidates are strictly newer than `time`. */
  function NewerCount(values: seq<Artifact>, time: int): nat {
    if values == [] then 0
    else (if values[0].created > time then 1 else 0) + NewerCount(values[1..], time)
  }

  predicate Deletable(values: seq<Artifact>, a: Artifact) {
    NewerCount(values, a.created) >= 2
  }

  /** The deletable ones of the first `n` candidates, and the others. */
  function Deletions(values: seq<Artifact>, n: nat): seq<Artifact>
    requires n <= |values|
  {
    if n == 0 then []
    else Deletions(values, n - 1) + if Deletable(values, values[n - 1]) then [values[n - 1]] else []
  }

  function Survivors(values: seq<Artifact>, n: nat): seq<Artifact>
    requires n <= |values|
  {
    if n == 0 then []
    else Survivors(values, n - 1) + if Deletable(values, values[n - 1]) then [] else [values[n - 1]]
  }

  /** The planning loop for one profile. */
  method PlanProfile(values: seq<Artifact>) returns (deletions: seq<Artifact>)
    ensures deletions == Deletions(values, |values|)
  {
    deletions := [];
    for n := 0 to |values|
      invariant deletions == Deletions(values, n)
    {
      var newer := 0;
      assert values[0..] == values;
      for k := 0 to |values|
        invariant newer + NewerCount(values[k..], values[n].created) == NewerCount(values, values[n].created)
      {
        assert values[k..][1..] == values[k + 1..];
        if values[k].created > values[n].created {
          newer := newer + 1;
        }
      }
      if newer >= 2 {
        deletions := deletions + [values[n]];
      }
    }
  }

  // ----- Collecting the candidates -----

  /** An artifact's name: not of an ISO, of an ISO but ill-formed, or naming its profile, run and attempt. */
  datatype Name = Other | Malformed | Iso(profile: string, run: int, attempt: int)

  /** `bound` is the verdict of the workflow binding, expiry type and timestamp checks. */
  datatype Item = Item(id: int, name: Name, created: int, expired: bool, bound: bool)

  /** A workflow run; `valid` says that it is a successful one of the scoped query. */
  datatype RunItem = RunItem(id: int, attempt: int, valid: bool)

  datatype Listing = Listing(run: RunItem, items: seq<Item>)

  /** An ISO of a selected profile from its run's last attempt. */
  predicate Selected(u: Item, run: RunItem, profiles: seq<string>) {
    u.name.Iso? && u.name.profile in profiles && u.name.attempt == run.attempt
  }

  predicate ItemOk(u: Item, run: RunItem, profiles: seq<string>) {
    match u.name
    case Other => true
    case Malformed => false
    case Iso(_, id, attempt) => id == run.id && attempt <= run.attempt && (Selected(u, run, profiles) ==> u.bound)
  }

  /** The first `n` items of a run are in order, and no name of a selected one repeats. */
  ghost predicate ItemsOk(l: Listing, n: nat, profiles: seq<string>)
    requires n <= |l.items|
  {
    && (forall i :: 0 <= i < n ==> ItemOk(l.items[i], l.run, profiles))
    && forall i, j ::
         0 <= i < j < n && Selected(l.items[i], l.run, profiles) && Selected(l.items[j], l.run, profiles) ==>
         l.items[i].name != l.items[j].name
  }

  predicate IsCandidate(u: Item, run: RunItem, profile: string) {
    u.name.Iso? && u.name.profile == profile && u.name.attempt == run.attempt && !u.expired
  }

  function ArtifactOf(u: Item): Artifact
    requires u.name.Iso?
  {
    Artifact(u.id, u.name.profile, u.name.run, u.name.attempt, u.created)
  }

  function RunCandidates(l: Listing, n: nat, profile: string): seq<Artifact>
    requires n <= |l.items|
  {
    if n == 0 then []
    else
      RunCandidates(l, n - 1, profile)
      + if IsCandidate(l.items[n - 1], l.run, profile) then [ArtifactOf(l.items[n - 1])] else []
  }

  /** The candidates of a profile in the first `n` runs. */
  function Candidates(listings: seq<Listing>, n: nat, profile: string): seq<Artifact>
    requires n <= |listings|
  {
    if n == 0 then []
    else Candidates(listings, n - 1, profile) + RunCandidates(listings[n - 1], |listings[n - 1].items|, profile)
  }

  ghost predicate Accepted(listings: seq<Listing>, n: nat, profiles: seq<string>)
    requires n <= |listings|
  {
    forall i :: 0 <= i < n ==> listings[i].run.valid && ItemsOk(listings[i], |listings[i].items|, profiles)
  }

  /** The candidates so far of every selected profile. */
  type Found = map<string, seq<Artifact>>

  ghost predicate Holds(found: Found, listings: seq<Listing>, n: nat, m: nat, profiles: seq<string>)
    requires n < |listings| && m <= |listings[n].items|
  {
    forall p :: p in profiles ==>
      p in found && found[p] == Candidates(listings, n, p) + RunCandidates(listings[n], m, p)
  }

  /** The inner loop, over the artifacts of one run. */
  method CollectRun(ghost listings: seq<Listing>, ghost n: nat, l: Listing, profiles: seq<string>, found: Found)
    returns (ok: bool, found': Found)
    requires n < |listings| && listings[n] == l && Holds(found, listings, n, 0, profiles)
    ensures ok <==> ItemsOk(l, |l.items|, profiles)
    ensures ok ==> Holds(found', listings, n, |l.items|, profiles)
  {
    found' := found;
    var seen: set<Name> := {};
    for m := 0 to |l.items|
      invariant ItemsOk(l, m, profiles) && Holds(found', listings, n, m, profiles)
      invariant forall name ::
                  name in seen <==>
                  exists i :: 0 <= i < m && Selected(l.items[i], l.run, profiles) && l.items[i].name == name
    {
      var u := l.items[m];
      NextItem(found', listings, n, m, profiles);
      if !ItemOk(u, l.run, profiles) || (Selected(u, l.run, profiles) && u.name in seen) {
        return false, found;
      }
      if Selected(u, l.run, profiles) {
        seen := seen + {u.name};
        if !u.expired {
          found' := found'[u.name.profile := found'[u.name.profile] + [ArtifactOf(u)]];
        }
      }
    }
    ok := true;
  }

  lemma NextItem(found: Found, listings: seq<Listing>, n: nat, m: nat, profiles: seq<string>)
    requires n < |listings| && m < |listings[n].items| && Holds(found, listings, n, m, profiles)
    ensures var u, run := listings[n].items[m], listings[n].run;
            if Selected(u, run, profiles) && !u.expired then
              Holds(found[u.name.profile := found[u.name.profile] + [ArtifactOf(u)]], listings, n, m + 1, profiles)
            else Holds(found, listings, n, m + 1, profiles)
  {
    hide Candidates;
    forall p | p in profiles {
      Regroup(Candidates(listings, n, p), RunCandidates(listings[n], m, p));
    }
  }

  lemma Regroup(a: seq<Artifact>, b: seq<Artifact>)
    ensures b + [] == b && forall x :: a + (b + [x]) == a + b + [x]
  {
    assert forall x :: a + (b + [x]) == a + b + [x];
  }

  function RunId(run: RunItem): int {
    run.id
  }

  function ItemId(u: Item): int {
    u.id
  }

  ghost predicate AllRead(runs: seq<RunItem>, n: nat, readItems: int -> nat -> Option<Page<Item>>)
    requires n <= |runs|
  {
    forall i :: 0 <= i < n ==> Whole(readItems(runs[i].id), ItemId).Some?
  }

  ghost function ListingOf(run: RunItem, readItems: int -> nat -> Option<Page<Item>>): Listing
    requires Whole(readItems(run.id), ItemId).Some?
  {
    Listing(run, Whole(readItems(run.id), ItemId).value)
  }

  /** The listings of the first `n` runs, each read to its end. */
  ghost function ListingsOf(runs: seq<RunItem>, n: nat,
                            readItems: int -> nat -> Option<Page<Item>>): (listings: seq<Listing>)
    requires n <= |runs| && AllRead(runs, n, readItems)
    ensures |listings| == n
  {
    seq(n, i requires 0 <= i < n => ListingOf(runs[i], readItems))
  }

  /** Everything the plan reads, if all of it can be read. */
  ghost function Gathered(readRuns: nat -> Option<Page<RunItem>>,
                          readItems: int -> nat -> Option<Page<Item>>): Option<seq<Listing>> {
    var runs := Whole(readRuns, RunId);
    if runs.None? || !AllRead(runs.value, |runs.value|, readItems) then None
    else Some(ListingsOf(runs.value, |runs.value|, readItems))
  }

  lemma OneMoreListing(runs: seq<RunItem>, n: nat, readItems: int -> nat -> Option<Page<Item>>)
    requires n < |runs| && AllRead(runs, n, readItems) && Whole(readItems(runs[n].id), ItemId).Some?
    ensures AllRead(runs, n + 1, readItems)
    ensures ListingsOf(runs, n + 1, readItems) == ListingsOf(runs, n, readItems) + [ListingOf(runs[n], readItems)]
  {
    hide ListingOf;
  }

  /** A run that fails a check, or whose artifacts cannot be read, refuses the whole collection. */
  lemma RunRefuses(runs: seq<RunItem>, n: nat, readItems: int -> nat -> Option<Page<Item>>, profiles: seq<string>)
    requires n < |runs|
    requires var items := Whole(readItems(runs[n].id), ItemId);
             items.Some? && runs[n].valid ==> !ItemsOk(Listing(runs[n], items.value), |items.value|, profiles)
    ensures AllRead(runs, |runs|, readItems) ==> !Accepted(ListingsOf(runs, |runs|, readItems), |runs|, profiles)
  {
    hide ItemsOk;
    if AllRead(runs, |runs|, readItems) {
      assert ListingsOf(runs, |runs|, readItems)[n] == ListingOf(runs[n], readItems);
    }
  }

  lemma {:induction false} CandidatesPrefix(listings: seq<Listing>, more: seq<Listing>, n: nat, profile: string)
    requires n <= |listings|
    ensures Candidates(listings + more, n, profile) == Candidates(listings, n, profile)
  {
    hide RunCandidates;
    if n > 0 {
      CandidatesPrefix(listings, more, n - 1, profile);
    }
  }

  ghost predicate FoundIn(found: Found, listings: seq<Listing>, profiles: seq<string>) {
    forall p :: p in profiles ==> p in found && found[p] == Candidates(listings, |listings|, p)
  }

  lemma StartRun(found: Found, listings: seq<Listing>, l: Listing, profiles: seq<string>)
    requires FoundIn(found, listings, profiles)
    ensures Holds(found, listings + [l], |listings|, 0, profiles)
  {
    hide Candidates;
    forall p | p in profiles ensures found[p] == Candidates(listings + [l], |listings|, p) + RunCandidates(l, 0, p) {
      CandidatesPrefix(listings, [l], |listings|, p);
      Regroup([], found[p]);
    }
  }

  lemma EndRun(found: Found, listings: seq<Listing>, l: Listing, profiles: seq<string>)
    requires Holds(found, listings + [l], |listings|, |l.items|, profiles)
    ensures FoundIn(found, listings + [l], profiles)
  {
  }

  lemma OneMoreAccepted(listings: seq<Listing>, l: Listing, profiles: seq<string>)
    requires Accepted(listings, |listings|, profiles) && l.run.valid && ItemsOk(l, |l.items|, profiles)
    ensures Accepted(listings + [l], |listings| + 1, profiles)
  {
    hide ItemsOk;
  }

  /** The first `n` runs are read and in order, and their candidates found. */
  ghost predicate Collected(runs: seq<RunItem>, n: nat, readItems: int -> nat -> Option<Page<Item>>,
                            profiles: seq<string>, found: Found)
    requires n <= |runs|
  {
    && AllRead(runs, n, readItems)
    && Accepted(ListingsOf(runs, n, readItems), n, profiles) && FoundIn(found, ListingsOf(runs, n, readItems), profiles)
  }

  ghost predicate Refused(runs: seq<RunItem>, readItems: int -> nat -> Option<Page<Item>>, profiles: seq<string>) {
    AllRead(runs, |runs|, readItems) ==> !Accepted(ListingsOf(runs, |runs|, readItems), |runs|, profiles)
  }

  /** The outer loop's body: one run and its artifacts. */
  method CollectOne(runs: seq<RunItem>, n: nat, readItems: int -> nat -> Option<Page<Item>>, profiles: seq<string>,
                    found: Found)
    returns (r: Result<Found, PlanError>)
    requires n < |runs| && Collected(runs, n, readItems, profiles, found)
    ensures r.Ok? ==> Collected(runs, n + 1, readItems, profiles, r.value)
    ensures r.Err? ==> Refused(runs, readItems, profiles) && r != Err(AmbiguousIds)
  {
    hide ItemsOk, Accepted, FoundIn, Holds, ListingsOf;
    var run := runs[n];
    if !run.valid {
      RunRefuses(runs, n, readItems, profiles);
      return Err(Unauthenticated);
    }
    var items := Pages(readItems(run.id), ItemId);
    if items.Err? {
      RunRefuses(runs, n, readItems, profiles);
      return Err(Unreadable);
    }
    var l := Listing(run, items.value);
    ghost var listings := ListingsOf(runs, n, readItems);
    StartRun(found, listings, l, profiles);
    var ok, found' := CollectRun(listings + [l], n, l, profiles, found);
    if !ok {
      RunRefuses(runs, n, readItems, profiles);
      return Err(Unauthenticated);
    }
    OneMoreListing(runs, n, readItems);
    OneMoreAccepted(listings, l, profiles);
    EndRun(found', listings, l, profiles);
    r := Ok(found');
  }

  /** The collection: everything must be readable and in order, and all candidates are found. */
  method Collect(profiles: seq<string>, readRuns: nat -> Option<Page<RunItem>>,
                 readItems: int -> nat -> Option<Page<Item>>)
    returns (r: Result<Found, PlanError>)
    ensures var all := Gathered(readRuns, readItems); r.Ok? <==> all.Some? && Accepted(all.value, |all.value|, profiles)
    ensures r.Ok? ==> FoundIn(r.value, Gathered(readRuns, readItems).value, profiles)
    ensures r != Err(AmbiguousIds)
  {
    hide Collected, Refused;
    var runs := Pages(readRuns, RunId);
    if runs.Err? {
      GatheredMeans(readRuns, readItems, profiles);
      return Err(Unreadable);
    }
    var found: Found := map p | p in profiles :: [];
    NothingFound(runs.value, readItems, profiles, found);
    for n := 0 to |runs.value|
      invariant Collected(runs.value, n, readItems, profiles, found)
    {
      var next := CollectOne(runs.value, n, readItems, profiles, found);
      if next.Err? {
        GatheredMeans(readRuns, readItems, profiles);
        return Err(next.error);
      }
      found := next.value;
    }
    GatheredMeans(readRuns, readItems, profiles);
    r := Ok(found);
  }

  lemma GatheredMeans(readRuns: nat -> Option<Page<RunItem>>, readItems: int -> nat -> Option<Page<Item>>,
                      profiles: seq<string>)
    ensures var runs, all := Whole(readRuns, RunId), Gathered(readRuns, readItems);
            if runs.None? then all.None?
            else
              && (Refused(runs.value, readItems, profiles) ==>
                  !(all.Some? && Accepted(all.value, |all.value|, profiles)))
              && forall found :: Collected(runs.value, |runs.value|, readItems, profiles, found) ==>
                   all.Some? && Accepted(all.value, |all.value|, profiles) && FoundIn(found, all.value, profiles)
  {
  }

  lemma NothingFound(runs: seq<RunItem>, readItems: int -> nat -> Option<Page<Item>>, profiles: seq<string>,
                     found: Found)
    requires found == map p | p in profiles :: []
    ensures Collected(runs, 0, readItems, profiles, found)
  {
  }

  // ----- The plan -----

  ghost predicate DistinctIds(values: seq<Artifact>) {
    forall i, j :: 0 <= i < j < |values| ==> values[i].id != values[j].id
  }

  function Ids(values: seq<Artifact>): set<int> {
    set a | a in values :: a.id
  }

  lemma {:induction false} IdsCount(values: seq<Artifact>)
    ensures |Ids(values)| <= |values|
    ensures |Ids(values)| == |values| <==> DistinctIds(values)
  {
    if values != [] {
      var rest, x := values[..|values| - 1], values[|values| - 1];
      IdsCount(rest);
      assert values == rest + [x];
      assert Ids(values) == Ids(rest) + {x.id};
      assert x.id in Ids(rest) <==> exists i :: 0 <= i < |rest| && rest[i].id == x.id;
    }
  }

  predicate KnownProfiles(profiles: seq<string>) {
    && (forall p :: p in profiles ==> p == "finite" || p == "finite-dev")
    && forall i, j :: 0 <= i < j < |profiles| ==> profiles[i] != profiles[j]
  }

  /** The deletions of the first `n` profiles. */
  function AllDeletions(listings: seq<Listing>, profiles: seq<string>, n: nat): seq<Artifact>
    requires n <= |profiles|
  {
    if n == 0 then []
    else
      var values := Candidates(listings, |listings|, profiles[n - 1]);
      AllDeletions(listings, profiles, n - 1) + Deletions(values, |values|)
  }

  /** The plan for the selected profiles, or the refusal of all of it. */
  method PlanIsoRetention(profiles: seq<string>, readRuns: nat -> Option<Page<RunItem>>,
                          readItems: int -> nat -> Option<Page<Item>>)
    returns (r: Result<seq<Artifact>, PlanError>)
    ensures profiles == [] ==> r == Ok([])
    ensures var all := Gathered(readRuns, readItems);
            profiles != [] ==>
              (r.Ok? <==>
                && (forall p :: p in profiles ==> p == "finite" || p == "finite-dev")
                && (forall i, j :: 0 <= i < j < |profiles| ==> profiles[i] != profiles[j])
                && all.Some? && Accepted(all.value, |all.value|, profiles)
                && DistinctIds(AllDeletions(all.value, profiles, |profiles|)))
    ensures r.Ok? && profiles != [] ==>
              r.value == AllDeletions(Gathered(readRuns, readItems).value, profiles, |profiles|)
    ensures r == Err(AmbiguousIds) ==>
              Gathered(readRuns, readItems).Some? && !OneArtifact(Gathered(readRuns, readItems).value)
  {
    hide Deletions, Candidates, Accepted, Gathered, OneArtifact;
    if !KnownProfiles(profiles) {
      return Err(InvalidProfiles);
    }
    if profiles == [] {
      return Ok([]);
    }
    var found := Collect(profiles, readRuns, readItems);
    if found.Err? {
      return Err(found.error);
    }
    ghost var listings := Gathered(readRuns, readItems).value;
    var deletions: seq<Artifact> := [];
    for n := 0 to |profiles|
      invariant deletions == AllDeletions(listings, profiles, n)
    {
      assert profiles[n] in profiles;
      var ofProfile := PlanProfile(found.value[profiles[n]]);
      deletions := deletions + ofProfile;
    }
    IdsCount(deletions);
    if |Ids(deletions)| != |deletions| {
      GatheredIsRead(readRuns, readItems);
      NeverAmbiguous(listings, profiles, |profiles|);
      return Err(AmbiguousIds);
    }
    r := Ok(deletions);
  }

  // ----- Why no artifact is a candidate twice -----

  /** What the paged reader ensures: no run is listed twice, nor an artifact within a run. */
  ghost predicate FromReader(listings: seq<Listing>) {
    && (forall i, j :: 0 <= i < j < |listings| ==> listings[i].run.id != listings[j].run.id)
    && forall i :: 0 <= i < |listings| ==> Identified(ItemId, listings[i].items)
  }

  lemma GatheredIsRead(readRuns: nat -> Option<Page<RunItem>>, readItems: int -> nat -> Option<Page<Item>>)
    requires Gathered(readRuns, readItems).Some?
    ensures FromReader(Gathered(readRuns, readItems).value)
  {
    var runs := Whole(readRuns, RunId).value;
    forall i, j | 0 <= i < j < |runs| ensures runs[i].id != runs[j].id {
      assert RunId(runs[i]) != RunId(runs[j]);
    }
  }

  /** An identity denotes one artifact, whichever run's listing shows it. */
  ghost predicate OneArtifact(listings: seq<Listing>) {
    forall i, j, u, v ::
      0 <= i < |listings| && 0 <= j < |listings| && u in listings[i].items && v in listings[j].items ==>
      (u.name.Iso? && v.name.Iso? && u.id == v.id ==> u.name == v.name)
  }

  /** The candidate comes from an item of run `i`. */
  ghost predicate Source(listings: seq<Listing>, i: nat, profile: string, u: Item, a: Artifact)
    requires i < |listings|
  {
    u in listings[i].items && IsCandidate(u, listings[i].run, profile) && a == ArtifactOf(u)
  }

  lemma {:induction false} RunSource(listings: seq<Listing>, i: nat, n: nat, profile: string, a: Artifact)
    returns (u: Item)
    requires i < |listings| && n <= |listings[i].items| && a in RunCandidates(listings[i], n, profile)
    ensures Source(listings, i, profile, u, a)
  {
    var l := listings[i];
    if a in RunCandidates(l, n - 1, profile) {
      u := RunSource(listings, i, n - 1, profile, a);
    } else {
      u := l.items[n - 1];
    }
  }

  lemma {:induction false} CandidateSource(listings: seq<Listing>, n: nat, profile: string, a: Artifact)
    returns (i: nat, u: Item)
    requires n <= |listings| && a in Candidates(listings, n, profile)
    ensures i < n && Source(listings, i, profile, u, a)
  {
    hide Source, RunCandidates;
    if a in Candidates(listings, n - 1, profile) {
      i, u := CandidateSource(listings, n - 1, profile, a);
    } else {
      i := n - 1;
      u := RunSource(listings, i, |listings[i].items|, profile, a);
    }
  }

  ghost predicate NoSharedId(a: seq<Artifact>, b: seq<Artifact>) {
    forall x, y :: x in a && y in b ==> x.id != y.id
  }

  lemma DistinctJoin(a: seq<Artifact>, b: seq<Artifact>)
    requires DistinctIds(a) && DistinctIds(b) && NoSharedId(a, b)
    ensures DistinctIds(a + b)
  {
    var all := a + b;
    forall i, j | 0 <= i < j < |all| ensures all[i].id != all[j].id {
      if i < |a| <= j {
        assert all[i] in a && all[j] in b;
      }
    }
  }

  lemma {:induction false} RunDistinct(listings: seq<Listing>, i: nat, n: nat, profile: string)
    requires FromReader(listings) && i < |listings| && n <= |listings[i].items|
    ensures DistinctIds(RunCandidates(listings[i], n, profile))
    ensures forall a :: a in RunCandidates(listings[i], n, profile) ==>
              exists m :: 0 <= m < n && listings[i].items[m].id == a.id
  {
    if n > 0 {
      RunDistinct(listings, i, n - 1, profile);
      var before, x := RunCandidates(listings[i], n - 1, profile), listings[i].items[n - 1];
      forall a | a in before ensures a.id != x.id {
        var m :| 0 <= m < n - 1 && listings[i].items[m].id == a.id;
        assert ItemId(listings[i].items[m]) != ItemId(x);
      }
      if IsCandidate(x, listings[i].run, profile) {
        DistinctJoin(before, [ArtifactOf(x)]);
      }
    }
  }

  /** Items of different runs have different names, and so are different artifacts. */
  lemma RunsShareNothing(listings: seq<Listing>, profiles: seq<string>, i: nat, j: nat, p: string, q: string, u: Item,
                         v: Item, a: Artifact, b: Artifact)
    requires FromReader(listings) && OneArtifact(listings) && Accepted(listings, |listings|, profiles)
    requires i < |listings| && j < |listings| && (i != j || p != q)
    requires Source(listings, i, p, u, a) && Source(listings, j, q, v, b)
    ensures a.id != b.id
  {
    assert ItemOk(u, listings[i].run, profiles) && ItemOk(v, listings[j].run, profiles);
  }

  /** No artifact is a candidate twice. */
  lemma {:induction false} CandidatesDistinct(listings: seq<Listing>, profiles: seq<string>, n: nat, profile: string)
    requires FromReader(listings) && OneArtifact(listings) && Accepted(listings, |listings|, profiles)
    requires n <= |listings|
    ensures DistinctIds(Candidates(listings, n, profile))
  {
    hide FromReader, OneArtifact, Accepted, DistinctIds, RunCandidates, Source;
    if n == 0 {
      DistinctNone();
    } else {
      CandidatesDistinct(listings, profiles, n - 1, profile);
      var before := Candidates(listings, n - 1, profile);
      var last := RunCandidates(listings[n - 1], |listings[n - 1].items|, profile);
      RunDistinct(listings, n - 1, |listings[n - 1].items|, profile);
      forall x, y | x in before && y in last ensures x.id != y.id {
        var i, u := CandidateSource(listings, n - 1, profile, x);
        var v := RunSource(listings, n - 1, |listings[n - 1].items|, profile, y);
        RunsShareNothing(listings, profiles, i, n - 1, profile, profile, u, v, x, y);
      }
      DistinctJoin(before, last);
    }
  }

  lemma DistinctNone()
    ensures DistinctIds([])
  {
  }

  lemma {:induction false} DeletionsDistinct(values: seq<Artifact>, n: nat)
    requires n <= |values| && DistinctIds(values)
    ensures DistinctIds(Deletions(values, n))
  {
    hide Deletable;
    if n > 0 {
      DeletionsDistinct(values, n - 1);
      PlanMembers(values, n - 1);
      var before, x := Deletions(values, n - 1), values[n - 1];
      forall a | a in before ensures a.id != x.id {
        var i :| 0 <= i < n - 1 && values[i] == a;
      }
      if Deletable(values, x) {
        DistinctJoin(before, [x]);
      }
    }
  }

  lemma {:induction false} DeletionSource(listings: seq<Listing>, profiles: seq<string>, n: nat, a: Artifact)
    returns (k: nat)
    requires n <= |profiles| && a in AllDeletions(listings, profiles, n)
    ensures k < n && a in Candidates(listings, |listings|, profiles[k])
    ensures var values := Candidates(listings, |listings|, profiles[k]); a in Deletions(values, |values|)
  {
    hide Deletions, Candidates;
    var values := Candidates(listings, |listings|, profiles[n - 1]);
    if a in AllDeletions(listings, profiles, n - 1) {
      k := DeletionSource(listings, profiles, n - 1, a);
    } else {
      k := n - 1;
      PlanMembers(values, |values|);
      assert values[..|values|] == values;
    }
  }

  /** The plan never names an artifact twice: its last refusal cannot happen. */
  lemma {:induction false} NeverAmbiguous(listings: seq<Listing>, profiles: seq<string>, n: nat)
    requires FromReader(listings) && Accepted(listings, |listings|, profiles)
    requires KnownProfiles(profiles) && n <= |profiles|
    ensures OneArtifact(listings) ==> DistinctIds(AllDeletions(listings, profiles, n))
  {
    hide FromReader, OneArtifact, Accepted, DistinctIds, Candidates, Deletions, Source;
    if n == 0 {
      DistinctNone();
    } else if OneArtifact(listings) {
      NeverAmbiguous(listings, profiles, n - 1);
      var values := Candidates(listings, |listings|, profiles[n - 1]);
      CandidatesDistinct(listings, profiles, |listings|, profiles[n - 1]);
      DeletionsDistinct(values, |values|);
      var before, last := AllDeletions(listings, profiles, n - 1), Deletions(values, |values|);
      forall x, y | x in before && y in last ensures x.id != y.id {
        var k := DeletionSource(listings, profiles, n - 1, x);
        var i, u := CandidateSource(listings, |listings|, profiles[k], x);
        PlanMembers(values, |values|);
        assert values[..|values|] == values;
        var j, v := CandidateSource(listings, |listings|, profiles[n - 1], y);
        RunsShareNothing(listings, profiles, i, j, profiles[k], profiles[n - 1], u, v, x, y);
      }
      DistinctJoin(before, last);
    }
  }

  // ----- What one plan leaves -----

  lemma {:induction false} PlanMembers(values: seq<Artifact>, n: nat)
    requires n <= |values|
    ensures forall a :: a in Deletions(values, n) <==> a in values[..n] && Deletable(values, a)
    ensures forall a :: a in Survivors(values, n) <==> a in values[..n] && !Deletable(values, a)
  {
    hide Deletable;
    if n > 0 {
      PlanMembers(values, n - 1);
      assert values[..n] == values[..n - 1] + [values[n - 1]];
    }
  }

  ghost predicate Partitioned(values: seq<Artifact>, n: nat)
    requires n <= |values|
  {
    multiset(Deletions(values, n)) + multiset(Survivors(values, n)) == multiset(values[..n])
  }

  /** Every candidate is either deleted or kept. */
  lemma {:induction false} PlanPartitions(values: seq<Artifact>, n: nat)
    requires n <= |values|
    ensures multiset(Deletions(values, n)) + multiset(Survivors(values, n)) == multiset(values[..n])
  {
    hide Deletable, Deletions, Survivors;
    if n == 0 {
      NothingPlanned(values);
    } else {
      PlanPartitions(values, n - 1);
      if Deletable(values, values[n - 1]) {
        DeletedPartition(values, n);
      } else {
        KeptPartition(values, n);
      }
    }
  }

  lemma NothingPlanned(values: seq<Artifact>)
    ensures Partitioned(values, 0)
  {
  }

  lemma DeletedPartition(values: seq<Artifact>, n: nat)
    requires 0 < n <= |values| && Deletable(values, values[n - 1]) && Partitioned(values, n - 1)
    ensures Partitioned(values, n)
  {
    hide Deletable;
    var a, b, x := Deletions(values, n - 1), Survivors(values, n - 1), values[n - 1];
    OneMore(values, n, a, b, x);
    assert b + [] == b;
  }

  lemma KeptPartition(values: seq<Artifact>, n: nat)
    requires 0 < n <= |values| && !Deletable(values, values[n - 1]) && Partitioned(values, n - 1)
    ensures Partitioned(values, n)
  {
    hide Deletable;
    var a, b, x := Deletions(values, n - 1), Survivors(values, n - 1), values[n - 1];
    OneMore(values, n, a, b, x);
    assert a + [] == a;
  }

  lemma {:induction false} PlanCounts(values: seq<Artifact>, n: nat)
    requires n <= |values|
    ensures |Deletions(values, n)| + |Survivors(values, n)| == n
  {
    if n > 0 {
      PlanCounts(values, n - 1);
    }
  }

  lemma OneMore(values: seq<Artifact>, n: nat, a: seq<Artifact>, b: seq<Artifact>, x: Artifact)
    requires 0 < n <= |values| && x == values[n - 1]
    requires multiset(a) + multiset(b) == multiset(values[..n - 1])
    ensures multiset(a + [x]) + multiset(b) == multiset(values[..n])
    ensures multiset(a) + multiset(b + [x]) == multiset(values[..n])
  {
    assert values[..n] == values[..n - 1] + [x];
  }

  lemma {:induction false} CountAtMost(values: seq<Artifact>, time: int, k: int)
    requires forall i :: 0 <= i < |values| && i != k ==> values[i].created <= time
    ensures NewerCount(values, time) <= 1
    ensures !(0 <= k < |values|) ==> NewerCount(values, time) == 0
  {
    if values != [] {
      var tail := values[1..];
      assert forall i :: 0 <= i < |tail| ==> tail[i] == values[i + 1];
      CountAtMost(tail, time, k - 1);
    }
  }

  /** The newest candidate other than `skip`. */
  lemma {:induction false} Newest(values: seq<Artifact>, n: nat, skip: int) returns (k: nat)
    requires n <= |values| && (n >= 2 || (n == 1 && skip != 0))
    ensures k < n && k != skip
    ensures forall i :: 0 <= i < n && i != skip ==> values[i].created <= values[k].created
    decreases n
  {
    var last := n - 1;
    if last == 0 || (last == 1 && skip == 0) {
      k := last;
    } else if last == skip {
      k := Newest(values, last, skip);
    } else {
      k := Newest(values, last, skip);
      if values[last].created > values[k].created {
        k := last;
      }
    }
  }

  /** The two newest candidates survive, and are newer than anything deleted. */
  lemma TwoNewest(values: seq<Artifact>) returns (i: nat, j: nat)
    requires |values| >= 2
    ensures i < |values| && j < |values| && i != j
    ensures forall k :: 0 <= k < |values| ==> values[k].created <= values[i].created
    ensures !Deletable(values, values[i]) && !Deletable(values, values[j])
    ensures forall d :: Deletable(values, d) ==> values[i].created > d.created && values[j].created > d.created
  {
    i := Newest(values, |values|, -1);
    j := Newest(values, |values|, i);
    CountAtMost(values, values[i].created, i);
    CountAtMost(values, values[j].created, i);
    forall d | Deletable(values, d) ensures values[i].created > d.created && values[j].created > d.created {
      if values[j].created <= d.created {
        CountAtMost(values, d.created, i);
      }
    }
  }

  lemma {:induction false} CountLength(values: seq<Artifact>, time: int)
    ensures NewerCount(values, time) <= |values|
  {
    if values != [] {
      CountLength(values[1..], time);
    }
  }

  ghost predicate NewerSurvivors(values: seq<Artifact>, d: Artifact, x: Artifact, y: Artifact) {
    && x in Survivors(values, |values|) && y in Survivors(values, |values|) && x.id != y.id
    && x.created > d.created && y.created > d.created
  }

  /** Every deleted ISO leaves two distinct strictly newer ones, both kept. */
  lemma DeletedHasTwoNewer(values: seq<Artifact>, d: Artifact) returns (x: Artifact, y: Artifact)
    requires DistinctIds(values) && d in Deletions(values, |values|)
    ensures NewerSurvivors(values, d, x, y)
  {
    hide Deletable;
    PlanMembers(values, |values|);
    assert values[..|values|] == values;
    DeletableLength(values, d);
    var i, j := TwoNewest(values);
    x, y := values[i], values[j];
    assert values[i].id != values[j].id;
  }

  lemma DeletableLength(values: seq<Artifact>, d: Artifact)
    requires Deletable(values, d)
    ensures |values| >= 2
  {
    CountLength(values, d.created);
  }

  /** At least two ISOs survive, or all of them when there are fewer. */
  lemma TwoSurvive(values: seq<Artifact>)
    requires DistinctIds(values)
    ensures |Survivors(values, |values|)| >= if |values| < 2 then |values| else 2
  {
    hide Deletable;
    PlanCounts(values, |values|);
    if Deletions(values, |values|) != [] {
      var d := Deletions(values, |values|)[0];
      assert d in Deletions(values, |values|);
      var x, y := DeletedHasTwoNewer(values, d);
      TwoMembers(Survivors(values, |values|), x, y);
    }
  }

  lemma TwoMembers(s: seq<Artifact>, x: Artifact, y: Artifact)
    requires x in s && y in s && x != y
    ensures |s| >= 2
  {
  }

  lemma {:induction false} CountMonotone(values: seq<Artifact>, s: int, t: int)
    requires s <= t
    ensures NewerCount(values, s) >= NewerCount(values, t)
  {
    if values != [] {
      CountMonotone(values[1..], s, t);
    }
  }

  /** Deletion is downward closed in creation time, ties included. */
  lemma DeletionIsDownwardClosed(values: seq<Artifact>, d: Artifact, older: Artifact)
    requires d in Deletions(values, |values|) && older in values && older.created <= d.created
    ensures older in Deletions(values, |values|)
  {
    PlanMembers(values, |values|);
    assert values[..|values|] == values;
    CountMonotone(values, older.created, d.created);
  }

  lemma {:induction false} CountOfSurvivors(values: seq<Artifact>, n: nat, time: int)
    requires n <= |values|
    ensures NewerCount(Survivors(values, n), time) <= NewerCount(values[..n], time)
  {
    hide Deletable;
    if n > 0 {
      CountOfSurvivors(values, n - 1, time);
      assert values[..n] == values[..n - 1] + [values[n - 1]];
      CountAppend(values[..n - 1], [values[n - 1]], time);
      CountAppend(Survivors(values, n - 1), [values[n - 1]], time);
      assert Survivors(values, n - 1) + [] == Survivors(values, n - 1);
    }
  }

  lemma {:induction false} CountAppend(a: seq<Artifact>, b: seq<Artifact>, time: int)
    ensures NewerCount(a + b, time) == NewerCount(a, time) + NewerCount(b, time)
  {
    if a == [] {
      assert a + b == b;
    } else {
      assert (a + b)[1..] == a[1..] + b;
      CountAppend(a[1..], b, time);
    }
  }

  /** Planning again after applying a plan deletes nothing. */
  lemma ReplanDeletesNothing(values: seq<Artifact>)
    ensures var kept := Survivors(values, |values|); Deletions(kept, |kept|) == []
  {
    var kept := Survivors(values, |values|);
    PlanMembers(values, |values|);
    PlanMembers(kept, |kept|);
    assert values[..|values|] == values && kept[..|kept|] == kept;
    if Deletions(kept, |kept|) != [] {
      var d := Deletions(kept, |kept|)[0];
      assert d in Deletions(kept, |kept|);
      CountOfSurvivors(values, |values|, d.created);
    }
  }

  // ----- The plan, item by item -----

  /** An unexpired ISO of the profile from its run's last attempt. */
  ghost predicate Kept(l: Listing, u: Item, profile: string) {
    && u in l.items && u.name.Iso? && u.name.profile == profile && u.name.attempt == l.run.attempt && !u.expired
  }

  /** Another such item, of any run, was created strictly later. */
  ghost predicate Outdates(listings: seq<Listing>, j: nat, v: Item, u: Item, profile: string) {
    j < |listings| && Kept(listings[j], v, profile) && v.created > u.created
  }

  ghost predicate Outdated(listings: seq<Listing>, u: Item, profile: string) {
    exists j: nat, v, k: nat, w ::
      Outdates(listings, j, v, u, profile) && Outdates(listings, k, w, u, profile) && v.id != w.id
  }

  lemma {:induction false} KeptIsCandidate(l: Listing, n: nat, u: Item, profile: string)
    requires n <= |l.items| && Kept(l, u, profile) && u in l.items[..n]
    ensures exists a :: a in RunCandidates(l, n, profile) && Shows(u, a)
  {
    if u in l.items[..n - 1] {
      KeptIsCandidate(l, n - 1, u, profile);
    } else {
      assert l.items[n - 1] == u;
      assert ArtifactOf(u) in RunCandidates(l, n, profile) && Shows(u, ArtifactOf(u));
    }
  }

  lemma {:induction false} KeptAreCandidates(listings: seq<Listing>, n: nat, i: nat, u: Item, profile: string)
    requires i < n <= |listings| && Kept(listings[i], u, profile)
    ensures exists a :: a in Candidates(listings, n, profile) && Shows(u, a)
  {
    hide RunCandidates, Kept;
    if i == n - 1 {
      var l := listings[i];
      assert l.items[..|l.items|] == l.items;
      KeptInListing(l, u, profile);
      KeptIsCandidate(l, |l.items|, u, profile);
    } else {
      KeptAreCandidates(listings, n - 1, i, u, profile);
    }
  }

  lemma KeptInListing(l: Listing, u: Item, profile: string)
    requires Kept(l, u, profile)
    ensures u in l.items
  {
  }

  /** A candidate is shown by an item that is kept. */
  lemma CandidateIsKept(listings: seq<Listing>, profile: string, a: Artifact) returns (i: nat, u: Item)
    requires a in Candidates(listings, |listings|, profile)
    ensures i < |listings| && Kept(listings[i], u, profile) && Shows(u, a)
  {
    i, u := CandidateSource(listings, |listings|, profile, a);
  }

  lemma {:induction false} CountAtLeast(values: seq<Artifact>, time: int, x: Artifact, y: Artifact)
    requires x in values && y in values && x != y && x.created > time && y.created > time
    ensures NewerCount(values, time) >= 2
  {
    var head, tail := values[0], values[1..];
    assert values == [head] + tail;
    if head == x {
      CountSome(tail, time, y);
    } else if head == y {
      CountSome(tail, time, x);
    } else {
      CountAtLeast(tail, time, x, y);
    }
  }

  lemma {:induction false} CountSome(values: seq<Artifact>, time: int, x: Artifact)
    requires x in values && x.created > time
    ensures NewerCount(values, time) >= 1
  {
    if values[0] != x {
      CountSome(values[1..], time, x);
    }
  }

  /** An ISO item that shows an identity is the only one that does. */
  lemma OneItem(listings: seq<Listing>, profiles: seq<string>, i: nat, u: Item, j: nat, v: Item)
    requires FromReader(listings) && OneArtifact(listings) && Accepted(listings, |listings|, profiles)
    requires i < |listings| && j < |listings| && u in listings[i].items && v in listings[j].items
    requires u.name.Iso? && v.name.Iso? && u.id == v.id
    ensures i == j && u == v
  {
    assert ItemOk(u, listings[i].run, profiles) && ItemOk(v, listings[j].run, profiles);
    var m :| 0 <= m < |listings[i].items| && listings[i].items[m] == u;
    var n :| 0 <= n < |listings[j].items| && listings[j].items[n] == v;
    assert ItemId(u) == ItemId(v);
  }

  lemma OutdatedIsDeletable(listings: seq<Listing>, u: Item, profile: string, a: Artifact)
    requires Outdated(listings, u, profile) && Shows(u, a)
    ensures Deletable(Candidates(listings, |listings|, profile), a)
  {
    hide Kept;
    var j: nat, v, k: nat, w :|
      Outdates(listings, j, v, u, profile) && Outdates(listings, k, w, u, profile) && v.id != w.id;
    KeptAreCandidates(listings, |listings|, j, v, profile);
    KeptAreCandidates(listings, |listings|, k, w, profile);
    var values := Candidates(listings, |listings|, profile);
    var x :| x in values && Shows(v, x);
    var y :| y in values && Shows(w, y);
    CountAtLeast(values, a.created, x, y);
  }

  lemma {:induction false} DeletionsOf(listings: seq<Listing>, profiles: seq<string>, n: nat, k: nat)
    requires k < n <= |profiles|
    ensures var values := Candidates(listings, |listings|, profiles[k]);
            forall a :: a in Deletions(values, |values|) ==> a in AllDeletions(listings, profiles, n)
  {
    hide Deletions, Candidates;
    if k < n - 1 {
      DeletionsOf(listings, profiles, n - 1, k);
    }
  }

  lemma DeletedIsOutdated(listings: seq<Listing>, profiles: seq<string>, profile: string, u: Item, a: Artifact)
    requires FromReader(listings) && OneArtifact(listings) && Accepted(listings, |listings|, profiles) && Shows(u, a)
    requires var values := Candidates(listings, |listings|, profile); a in Deletions(values, |values|)
    ensures Outdated(listings, u, profile)
  {
    hide FromReader, OneArtifact, Accepted, Kept, Candidates, Deletions, DistinctIds;
    var values := Candidates(listings, |listings|, profile);
    CandidatesDistinct(listings, profiles, |listings|, profile);
    var x, y := DeletedHasTwoNewer(values, a);
    PlanMembers(values, |values|);
    assert values[..|values|] == values;
    var j, v := CandidateIsKept(listings, profile, x);
    var k, w := CandidateIsKept(listings, profile, y);
    assert Outdates(listings, j, v, u, profile) && Outdates(listings, k, w, u, profile);
  }

  /** The item is named in the plan. */
  ghost predicate Planning(listings: seq<Listing>, profiles: seq<string>, u: Item) {
    exists a :: a in AllDeletions(listings, profiles, |profiles|) && a.id == u.id
  }

  /**
   * An ISO is in the plan exactly if its profile is selected, it is unexpired and from its run's
   * last attempt, and two other such items of its profile were created strictly later.
   */
  lemma PlanExactly(listings: seq<Listing>, profiles: seq<string>, i: nat, u: Item)
    requires FromReader(listings) && OneArtifact(listings) && Accepted(listings, |listings|, profiles)
    requires i < |listings| && u in listings[i].items && u.name.Iso?
    ensures Planning(listings, profiles, u)
       <==> u.name.profile in profiles && Kept(listings[i], u, u.name.profile) && Outdated(listings, u, u.name.profile)
  {
    hide FromReader, OneArtifact, Accepted, Kept, Outdated, Deletable, Deletions, Candidates;
    if Planning(listings, profiles, u) {
      var a :| a in AllDeletions(listings, profiles, |profiles|) && a.id == u.id;
      var k := DeletionSource(listings, profiles, |profiles|, a);
      var j, v := CandidateIsKept(listings, profiles[k], a);
      KeptInListing(listings[j], v, profiles[k]);
      OneItem(listings, profiles, i, u, j, v);
      KeptProfile(listings[j], v, profiles[k]);
      DeletedIsOutdated(listings, profiles, profiles[k], u, a);
    }
    if u.name.profile in profiles && Kept(listings[i], u, u.name.profile) && Outdated(listings, u, u.name.profile) {
      var profile := u.name.profile;
      var k :| 0 <= k < |profiles| && profiles[k] == profile;
      var values := Candidates(listings, |listings|, profile);
      KeptAreCandidates(listings, |listings|, i, u, profile);
      var a :| a in values && Shows(u, a);
      OutdatedIsDeletable(listings, u, profile, a);
      PlanMembers(values, |values|);
      assert values[..|values|] == values;
      DeletionsOf(listings, profiles, |profiles|, k);
    }
  }

  lemma KeptProfile(l: Listing, u: Item, profile: string)
    requires Kept(l, u, profile)
    ensures u.name.Iso? && u.name.profile == profile
  {
  }

  /** Every deletion of the plan is an item of the listings. */
  lemma PlanNamesItems(listings: seq<Listing>, profiles: seq<string>, a: Artifact) returns (i: nat, u: Item)
    requires a in AllDeletions(listings, profiles, |profiles|)
    ensures i < |listings| && u in listings[i].items && Shows(u, a)
  {
    hide Deletions, Candidates, Kept;
    var k := DeletionSource(listings, profiles, |profiles|, a);
    i, u := CandidateIsKept(listings, profiles[k], a);
    KeptInListing(listings[i], u, profiles[k]);
  }

  /** Which listings are accepted, by the fields of runs and items. */
  lemma AcceptedExactly(listings: seq<Listing>, profiles: seq<string>)
    ensures Accepted(listings, |listings|, profiles) <==>
              forall l :: l in listings ==>
                && l.run.valid
                && (forall u :: u in l.items ==>
                      && u.name != Malformed
                      && (u.name.Iso? ==> u.name.run == l.run.id && u.name.attempt <= l.run.attempt)
                      && (u.name.Iso? && u.name.profile in profiles && u.name.attempt == l.run.attempt ==> u.bound))
                && forall i, j ::
                     0 <= i < j < |l.items| && l.items[i].name.Iso? && l.items[i].name == l.items[j].name ==>
                     !(l.items[i].name.profile in profiles && l.items[i].name.attempt == l.run.attempt)
  {
    forall i | 0 <= i < |listings| ensures listings[i] in listings {
    }
    forall l | l in listings
      ensures ItemsOk(l, |l.items|, profiles) <==>
              && (forall u :: u in l.items ==>
                    && u.name != Malformed
                    && (u.name.Iso? ==> u.name.run == l.run.id && u.name.attempt <= l.run.attempt)
                    && (u.name.Iso? && u.name.profile in profiles && u.name.attempt == l.run.attempt ==> u.bound))
              && forall i, j :: 0 <= i < j < |l.items| && l.items[i].name.Iso? && l.items[i].name == l.items[j].name ==>
                   !(l.items[i].name.profile in profiles && l.items[i].name.attempt == l.run.attempt)
    {
      forall i | 0 <= i < |l.items| ensures l.items[i] in l.items {
      }
    }
    hide ItemsOk;
  }

  // ----- Runs of uploads and prunes -----

  /**
   * A prune deletes some of what a plan names, in the order and as far as it gets. The plan
   * may be old: other uploads and prunes can have come between reading and deleting.
   */
  datatype Event =
    | Upload(artifact: Artifact)
    | Prune(listings: seq<Listing>, profiles: seq<string>, deleted: set<Artifact>)

  datatype Store = Store(uploaded: set<Artifact>, existing: set<Artifact>)

  /** The item shows the artifact: identity, profile, run, attempt and time of creation. */
  ghost predicate Shows(u: Item, a: Artifact) {
    && u.name.Iso? && u.id == a.id && u.name.profile == a.profile && u.name.run == a.run
    && u.name.attempt == a.attempt && u.created == a.created
  }

  /** The listings show artifacts as they were uploaded, perhaps not all of them. */
  ghost predicate Truthful(listings: seq<Listing>, uploaded: set<Artifact>) {
    forall i, u :: 0 <= i < |listings| && u in listings[i].items && u.name.Iso? ==>
      exists a :: a in uploaded && Shows(u, a)
  }

  ghost predicate Planned(listings: seq<Listing>, profiles: seq<string>, deleted: set<Artifact>) {
    && FromReader(listings) && Accepted(listings, |listings|, profiles)
    && forall d :: d in deleted ==> d in AllDeletions(listings, profiles, |profiles|)
  }

  ghost predicate Enabled(s: Store, e: Event) {
    match e
    case Upload(a) => forall b :: b in s.uploaded ==> b.id != a.id
    case Prune(listings, profiles, deleted) => Planned(listings, profiles, deleted) && Truthful(listings, s.uploaded)
  }

  function Apply(s: Store, e: Event): Store {
    match e
    case Upload(a) => Store(s.uploaded + {a}, s.existing + {a})
    case Prune(_, _, deleted) => Store(s.uploaded, s.existing - deleted)
  }

  function Final(events: seq<Event>): Store {
    if events == [] then Store({}, {}) else Apply(Final(events[..|events| - 1]), events[|events| - 1])
  }

  ghost predicate Run(events: seq<Event>) {
    events == [] || (Run(events[..|events| - 1]) && Enabled(Final(events[..|events| - 1]), events[|events| - 1]))
  }

  predicate Newer(x: Artifact, d: Artifact) {
    x.profile == d.profile && x.created > d.created
  }

  /** Two artifacts of the profile are strictly newer. */
  ghost predicate TwoNewer(artifacts: set<Artifact>, d: Artifact) {
    exists x, y :: x in artifacts && y in artifacts && x.id != y.id && Newer(x, d) && Newer(y, d)
  }

  ghost predicate UniqueIds(artifacts: set<Artifact>) {
    forall a, b :: a in artifacts && b in artifacts && a.id == b.id ==> a == b
  }

  /** Only what two uploads have superseded was deleted. */
  ghost predicate Superseded(s: Store) {
    && s.existing <= s.uploaded && UniqueIds(s.uploaded)
    && forall d :: d in s.uploaded && d !in s.existing ==> TwoNewer(s.uploaded, d)
  }

  lemma TruthfulIsOneArtifact(listings: seq<Listing>, uploaded: set<Artifact>)
    requires Truthful(listings, uploaded) && UniqueIds(uploaded)
    ensures OneArtifact(listings)
  {
    forall i, j, u, v | 0 <= i < |listings| && 0 <= j < |listings| && u in listings[i].items && v in listings[j].items
      ensures u.name.Iso? && v.name.Iso? && u.id == v.id ==> u.name == v.name
    {
      if u.name.Iso? && v.name.Iso? && u.id == v.id {
        var a :| a in uploaded && Shows(u, a);
        var b :| b in uploaded && Shows(v, b);
      }
    }
  }

  lemma CandidateIsUploaded(listings: seq<Listing>, uploaded: set<Artifact>, profile: string, a: Artifact)
    requires Truthful(listings, uploaded) && a in Candidates(listings, |listings|, profile)
    ensures a in uploaded && a.profile == profile
  {
    var i, u := CandidateSource(listings, |listings|, profile, a);
    var b :| b in uploaded && Shows(u, b);
  }

  /** Whatever a plan names has been superseded by two uploads that it saw. */
  lemma PlannedIsSuperseded(listings: seq<Listing>, profiles: seq<string>, uploaded: set<Artifact>, d: Artifact)
    requires FromReader(listings) && Accepted(listings, |listings|, profiles)
    requires Truthful(listings, uploaded) && UniqueIds(uploaded)
    requires d in AllDeletions(listings, profiles, |profiles|)
    ensures TwoNewer(uploaded, d)
  {
    hide FromReader, Accepted, OneArtifact, Truthful, Candidates, Deletions, DistinctIds, UniqueIds;
    var k := DeletionSource(listings, profiles, |profiles|, d);
    var values := Candidates(listings, |listings|, profiles[k]);
    TruthfulIsOneArtifact(listings, uploaded);
    CandidatesDistinct(listings, profiles, |listings|, profiles[k]);
    var x, y := DeletedHasTwoNewer(values, d);
    PlanMembers(values, |values|);
    assert values[..|values|] == values;
    CandidateIsUploaded(listings, uploaded, profiles[k], d);
    CandidateIsUploaded(listings, uploaded, profiles[k], x);
    CandidateIsUploaded(listings, uploaded, profiles[k], y);
  }

  lemma StepKeepsSuperseded(s: Store, e: Event)
    requires Superseded(s) && Enabled(s, e)
    ensures Superseded(Apply(s, e))
  {
    hide FromReader, Accepted, Truthful, AllDeletions;
    match e
    case Upload(a) =>
      forall d | d in s.uploaded && d !in s.existing ensures TwoNewer(s.uploaded + {a}, d) {
        var x, y :| x in s.uploaded && y in s.uploaded && x.id != y.id && Newer(x, d) && Newer(y, d);
      }
    case Prune(listings, profiles, deleted) =>
      forall d | d in deleted ensures TwoNewer(s.uploaded, d) {
        PlannedIsSuperseded(listings, profiles, s.uploaded, d);
      }
  }

  lemma {:induction false} RunsKeepSuperseded(events: seq<Event>)
    requires Run(events)
    ensures Superseded(Final(events))
  {
    hide Superseded, Enabled, Apply;
    if events == [] {
      NothingUploaded();
    } else {
      RunsKeepSuperseded(events[..|events| - 1]);
      StepKeepsSuperseded(Final(events[..|events| - 1]), events[|events| - 1]);
    }
  }

  lemma NothingUploaded()
    ensures Superseded(Store({}, {}))
  {
  }

  /** The newest of a nonempty set of artifacts. */
  lemma {:induction false} NewestOf(artifacts: set<Artifact>) returns (x: Artifact)
    requires artifacts != {}
    ensures x in artifacts && forall a :: a in artifacts ==> a.created <= x.created
  {
    x :| x in artifacts;
    var others := artifacts - {x};
    if others != {} {
      var y := NewestOf(others);
      if y.created > x.created {
        x := y;
      }
    }
  }

  function OfProfile(artifacts: set<Artifact>, profile: string): set<Artifact> {
    set a | a in artifacts && a.profile == profile
  }

  /** Over any run, whatever was deleted has two strictly newer artifacts of its profile now. */
  lemma RunsAreSafe(events: seq<Event>, d: Artifact)
    requires Run(events)
    requires d in Final(events).uploaded && d !in Final(events).existing
    ensures TwoNewer(Final(events).existing, d)
  {
    RunsKeepSuperseded(events);
    var s := Final(events);
    var a, b :| a in s.uploaded && b in s.uploaded && a.id != b.id && Newer(a, d) && Newer(b, d);
    var x, y := TwoNewestOf(OfProfile(s.uploaded, d.profile), a, b);
    NewestExist(s, OfProfile(s.uploaded, d.profile), x, y);
    assert Newer(x, d) && Newer(y, d);
  }

  /** The two newest of a set are at least as new as one of any two of its members. */
  lemma TwoNewestOf(all: set<Artifact>, a: Artifact, b: Artifact) returns (x: Artifact, y: Artifact)
    requires a in all && b in all && a != b
    ensures x in all && y in all - {x}
    ensures forall c :: c in all ==> c.created <= x.created
    ensures forall c :: c in all - {x} ==> c.created <= y.created
    ensures y.created >= a.created || y.created >= b.created
  {
    x := NewestOf(all);
    assert a in all - {x} || b in all - {x};
    y := NewestOf(all - {x});
  }

  /** The two newest uploads of a profile are never deleted. */
  lemma NewestExist(s: Store, all: set<Artifact>, x: Artifact, y: Artifact)
    requires Superseded(s) && x in all && all == OfProfile(s.uploaded, x.profile) && y in all - {x}
    requires forall a :: a in all ==> a.created <= x.created
    requires forall a :: a in all - {x} ==> a.created <= y.created
    ensures x in s.existing && y in s.existing && x.id != y.id
  {
    forall p, q | p in s.uploaded && q in s.uploaded && Newer(p, y) && Newer(q, y) ensures p.id == q.id {
      assert p in all && q in all;
    }
    forall p | p in s.uploaded ensures !Newer(p, x) {
      assert p.profile == x.profile ==> p in all;
    }
  }

  /** At least two ISOs of a profile remain, or all that were ever uploaded. */
  lemma TwoAlwaysRemain(events: seq<Event>, profile: string)
    requires Run(events)
    ensures var s := Final(events);
            var uploaded, existing := OfProfile(s.uploaded, profile), OfProfile(s.existing, profile);
            existing == uploaded || |existing| >= 2
  {
    var s := Final(events);
    var uploaded, existing := OfProfile(s.uploaded, profile), OfProfile(s.existing, profile);
    RunsKeepSuperseded(events);
    if existing != uploaded {
      var d :| d in uploaded && d !in existing;
      RunsAreSafe(events, d);
      var x, y :| x in s.existing && y in s.existing && x.id != y.id && Newer(x, d) && Newer(y, d);
      assert {x, y} <= existing && |{x, y}| == 2;
      SubsetSize({x, y}, existing);
    }
  }

  lemma {:induction false} SubsetSize(a: set<Artifact>, b: set<Artifact>)
    requires a <= b
    ensures |a| <= |b|
  {
    if a != {} {
      var x :| x in a;
      SubsetSize(a - {x}, b - {x});
    }
  }
}
