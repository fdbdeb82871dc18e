/** What the verdict engine promises, over every policy and scan. */
module VerdictProperties {
  import opened Wrappers
  import opened StringSets
  import opened PolicyRules
  import opened SecurityPolicy
  import Sorting
  import Text

  // ----- One disposition at most -----

  lemma AliasesContainId(m: Match)
    requires Nonempty(m.vulnerability.id)
    ensures m.vulnerability.id in Aliases(m)
  {
    hide SortedSet;
    SortedSetMembers([m.vulnerability.id] + RelatedIds(m.related));
  }

  lemma QualifiersShareScope(d: ReviewedDisposition, e: ReviewedDisposition, m: Match, ctx: Context)
    requires Nonempty(m.vulnerability.id) && d.platform == e.platform
    requires Qualifies(d, m, ctx) && Qualifies(e, m, ctx)
    ensures SameScope(d, e)
  {
    hide Aliases, Component, ComponentLocations;
    AliasesContainId(m);
    assert m.vulnerability.id in d.advisories && m.vulnerability.id in e.advisories;
  }

  lemma {:induction false} ProofMembers(ds: seq<ReviewedDisposition>, m: Match, ctx: Context)
    ensures forall d :: d in Proof(ds, m, ctx) <==> d in ds && Qualifies(d, m, ctx)
  {
    hide Qualifies;
    if ds != [] {
      ProofMembers(ds[1..], m, ctx);
    }
  }

  lemma {:induction false} ProofIsSingle(ds: seq<ReviewedDisposition>, m: Match, ctx: Context)
    requires forall i, j :: 0 <= i < j < |ds| ==> !(Qualifies(ds[i], m, ctx) && Qualifies(ds[j], m, ctx))
    ensures |Proof(ds, m, ctx)| <= 1
  {
    hide Qualifies;
    if ds != [] {
      var tail := ds[1..];
      assert forall i :: 0 <= i < |tail| ==> tail[i] == ds[i + 1];
      ProofIsSingle(tail, m, ctx);
      ProofMembers(tail, m, ctx);
      forall d | d in tail ensures Qualifies(ds[0], m, ctx) ==> !Qualifies(d, m, ctx) {
        var k :| 0 <= k < |tail| && tail[k] == d;
      }
      if Qualifies(ds[0], m, ctx) && Proof(tail, m, ctx) != [] {
        assert Proof(tail, m, ctx)[0] in Proof(tail, m, ctx);
      }
    }
  }

  /** Accepted rules leave at most one disposition for any match, image and moment. */
  lemma AtMostOneDisposition(rules: Rules, m: Match, ctx: Context)
    requires Accepted(rules, ctx.now) && Nonempty(m.vulnerability.id)
    ensures |Proof(rules.dispositions, m, ctx)| <= 1
  {
    hide Qualifies, SameScope;
    var ds := rules.dispositions;
    forall i, j | 0 <= i < j < |ds| ensures !(Qualifies(ds[i], m, ctx) && Qualifies(ds[j], m, ctx)) {
      if Qualifies(ds[i], m, ctx) && Qualifies(ds[j], m, ctx) {
        QualifiersShareScope(ds[i], ds[j], m, ctx);
      }
    }
    ProofIsSingle(ds, m, ctx);
  }

  /** A disposition that speaks about a finding with a serious alias is not a routine one. */
  lemma SeriousIsNeverRoutine(p: Policy, m: Match, ctx: Context, d: ReviewedDisposition)
    requires Accepted(p.rules, ctx.now) && SeriousMatch(p, m)
    requires d in p.rules.dispositions && Qualifies(d, m, ctx)
    ensures !d.disposition.Routine?
  {
    hide Aliases, Component, ComponentLocations, SeriousWithin;
    var a :| a in Aliases(m) && IsSerious(p.rules.serious, a);
    assert a in d.advisories;
    var i :| 0 <= i < |p.rules.dispositions| && p.rules.dispositions[i] == d;
    assert !WaivesSerious(p.rules.serious, p.rules.dispositions[i]);
  }

  lemma NoMatchIsAmbiguous(p: Policy, ctx: Context, m: Match)
    requires PolicyAccepted(p, ctx.now)
    ensures Classify(p, ctx, m) != Err(Ambiguous)
  {
    hide Accepted, Proof, Qualifies, RiskOutcome, LegacyOutcome, ComponentLocations, Aliases, ConfirmingIds, Nonempty;
    if MatchOk(m) && Reviewing(p.mode) {
      AtMostOneDisposition(p.rules, m, ctx);
    }
  }

  lemma {:induction false} FindingsNotAmbiguous(p: Policy, ctx: Context, ms: seq<Match>, n: nat)
    requires PolicyAccepted(p, ctx.now) && n <= |ms|
    ensures Findings(p, ctx, ms, n) != Err(Ambiguous)
  {
    hide Classify, PolicyAccepted;
    if n > 0 {
      FindingsNotAmbiguous(p, ctx, ms, n - 1);
      NoMatchIsAmbiguous(p, ctx, ms[n - 1]);
    }
  }

  // ----- The self-check -----

  lemma {:induction false} RelatedIdsNonempty(related: seq<Related>)
    ensures forall x :: x in RelatedIds(related) ==> Nonempty(x)
  {
    hide Nonempty;
    if related != [] {
      RelatedIdsNonempty(related[1..]);
    }
  }

  lemma AliasesAreSelectors(m: Match)
    requires Nonempty(m.vulnerability.id)
    ensures Selectors(Aliases(m))
  {
    hide Nonempty, SortedSet;
    RelatedIdsNonempty(m.related);
    SortedSetMembers([m.vulnerability.id] + RelatedIds(m.related));
    AliasesContainId(m);
    SelectorsOf(Aliases(m));
  }

  lemma SelectorsOf(xs: seq<string>)
    requires StringSets.Distinct(xs)
    ensures NoRepeats(xs)
  {
    assert PolicyRules.Distinct(xs);
  }

  lemma LocationsAreSelectors(a: Artifact, prefix: string)
    requires ComponentLocations(a, prefix).0 != []
    ensures Selectors(ComponentLocations(a, prefix).0)
    ensures forall v :: v in ComponentLocations(a, prefix).0 ==> CanonicalLocation(v)
  {
    hide SortedSet, CanonicalLocation;
    var paths := RecordPaths(a.locations, prefix);
    SortedSetMembers(paths);
    SelectorsOf(SortedSet(paths));
    forall v | v in SortedSet(paths) ensures CanonicalLocation(v) && Nonempty(v) {
      assert v in paths;
      CanonicalIsNonempty(v);
    }
  }

  lemma CanonicalIsNonempty(v: string)
    ensures CanonicalLocation(v) ==> Nonempty(v)
  {
  }

  lemma {:induction false} ConfirmedHoldsFrom(risks: seq<Risk>, ctx: Context)
    ensures forall r :: r in ConfirmedHolds(risks, ctx) ==> r in risks
  {
    if risks != [] {
      ConfirmedHoldsFrom(risks[1..], ctx);
    }
  }

  ghost predicate DistinctIds(risks: seq<Risk>) {
    forall i, j :: 0 <= i < j < |risks| ==> risks[i].id != risks[j].id
  }

  lemma DistinctIdsTail(risks: seq<Risk>)
    requires risks != [] && DistinctIds(risks)
    ensures DistinctIds(risks[1..]) && forall r :: r in risks[1..] ==> r.id != risks[0].id
  {
    var tail := risks[1..];
    assert forall i :: 0 <= i < |tail| ==> tail[i] == risks[i + 1];
    forall r | r in tail ensures r.id != risks[0].id {
      var i :| 0 <= i < |tail| && tail[i] == r;
    }
  }

  lemma DistinctIdsCons(r: Risk, risks: seq<Risk>)
    requires DistinctIds(risks) && forall q :: q in risks ==> q.id != r.id
    ensures DistinctIds([r] + risks)
  {
  }

  lemma {:induction false} ConfirmedHoldsDistinct(risks: seq<Risk>, ctx: Context)
    requires DistinctIds(risks)
    ensures DistinctIds(ConfirmedHolds(risks, ctx))
  {
    hide DistinctIds;
    if risks != [] {
      DistinctIdsTail(risks);
      ConfirmedHoldsDistinct(risks[1..], ctx);
      ConfirmedHoldsFrom(risks[1..], ctx);
      var tail := ConfirmedHolds(risks[1..], ctx);
      DistinctIdsCons(risks[0], tail);
      assert [] + tail == tail;
    } else {
      NoIds();
    }
  }

  lemma NoIds()
    ensures DistinctIds([])
  {
  }

  /** The confirming identities come from holds, and do not repeat. */
  lemma {:induction false} ConfirmingIdsShape(holds: seq<Risk>, c: string, aliases: seq<string>, locations: seq<string>)
    requires DistinctIds(holds)
    ensures PolicyRules.Distinct(ConfirmingIds(holds, c, aliases, locations))
    ensures forall id :: id in ConfirmingIds(holds, c, aliases, locations) ==> exists r :: r in holds && r.id == id
  {
    hide Confirms, DistinctIds;
    if holds != [] {
      DistinctIdsTail(holds);
      ConfirmingIdsShape(holds[1..], c, aliases, locations);
      var tail := ConfirmingIds(holds[1..], c, aliases, locations);
      if Confirms(holds[0], c, aliases, locations) {
        assert holds[0].id !in tail;
      } else {
        assert [] + tail == tail;
      }
    }
  }

  lemma {:induction false} ConfirmingIdsMeet(holds: seq<Risk>, c: string, aliases: seq<string>, locations: seq<string>)
    requires ConfirmingIds(holds, c, aliases, locations) != []
    ensures locations != [] && aliases != []
  {
    if holds != [] && !Confirms(holds[0], c, aliases, locations) {
      ConfirmingIdsMeet(holds[1..], c, aliases, locations);
    }
  }

  lemma ConfirmedListIsSelectors(ids: seq<string>)
    requires ids != [] && PolicyRules.Distinct(ids) && forall id :: id in ids ==> Nonempty(id)
    ensures Selectors(SortedList(ids))
  {
    hide Nonempty, SortedList;
    SortedListMembers(ids);
    assert StringSets.Distinct(ids);
    SortedDistinct(ids);
    SelectorsOf(SortedList(ids));
  }

  /** Every finding blocked in desktop mode is bound to the holds that block it; no legacy one is. */
  lemma BlockedFindingIsBound(p: Policy, ctx: Context, m: Match)
    requires PolicyAccepted(p, ctx.now) && p.confirmed.Some?
    requires Classify(p, ctx, m).Ok? && Classify(p, ctx, m).value.outcome.Blocked?
    ensures FindingBound(Classify(p, ctx, m).value, ConfirmedHolds(p.confirmed.value, ctx))
       <==> p.mode.DesktopCriticalOnly?
  {
    if p.mode.DesktopCriticalOnly? {
      DesktopFindingIsBound(p, ctx, m);
    } else {
      hide Accepted, BlockersAccepted, Proof, ComponentLocations, Aliases, ConfirmingIds, ConfirmedHolds,
           Nonempty, SortedList, Selectors, CanonicalLocation;
    }
  }

  lemma DesktopFindingIsBound(p: Policy, ctx: Context, m: Match)
    requires PolicyAccepted(p, ctx.now) && p.confirmed.Some? && p.mode.DesktopCriticalOnly?
    requires Classify(p, ctx, m).Ok? && Classify(p, ctx, m).value.outcome.Blocked?
    ensures FindingBound(Classify(p, ctx, m).value, ConfirmedHolds(p.confirmed.value, ctx))
  {
    hide Accepted, BlockersAccepted, Proof, ComponentLocations, Aliases, ConfirmingIds, ConfirmedHolds,
         Nonempty, SortedList, Selectors, IsCritical, CanonicalLocation;
    var holds := ConfirmedHolds(p.confirmed.value, ctx);
    var f := Classify(p, ctx, m).value;
    var ids := ConfirmingIds(holds, f.component, f.aliases, f.locations);
    AliasesAreSelectors(m);
    ConfirmedHoldsDistinct(p.confirmed.value, ctx);
    ConfirmedHoldsFrom(p.confirmed.value, ctx);
    ConfirmingIdsShape(holds, f.component, f.aliases, f.locations);
    ConfirmingIdsMeet(holds, f.component, f.aliases, f.locations);
    LocationsAreSelectors(m.artifact, ctx.prefix);
    ConfirmedListIsSelectors(ids);
    SortedListMembers(ids);
  }

  lemma {:induction false} OutcomeMembers(fs: seq<Finding>, outcome: Outcome)
    ensures forall f :: f in WithOutcome(fs, outcome) <==> f in fs && f.outcome == outcome
  {
    if fs != [] {
      OutcomeMembers(fs[..|fs| - 1], outcome);
      assert fs == fs[..|fs| - 1] + [fs[|fs| - 1]];
    }
  }

  lemma {:induction false} FindingOf(p: Policy, ctx: Context, ms: seq<Match>, n: nat, i: nat)
    requires n <= |ms| && Findings(p, ctx, ms, n).Ok? && i < n
    ensures Classify(p, ctx, ms[i]) == Ok(Findings(p, ctx, ms, n).value[i])
  {
    hide Classify;
    if i < n - 1 {
      FindingOf(p, ctx, ms, n - 1, i);
    }
  }

  /** The self-check passes exactly in desktop mode, or when nothing is blocked. */
  lemma BlockedFindingsAreBound(p: Policy, ctx: Context, ms: seq<Match>)
    requires PolicyAccepted(p, ctx.now) && p.confirmed.Some? && Findings(p, ctx, ms, |ms|).Ok?
    ensures FindingsBound(WithOutcome(Findings(p, ctx, ms, |ms|).value, Blocked),
                          ConfirmedHolds(p.confirmed.value, ctx))
       <==> p.mode.DesktopCriticalOnly? || WithOutcome(Findings(p, ctx, ms, |ms|).value, Blocked) == []
  {
    EachIsBound(p, ctx, ms);
    hide *;
    AllBound(WithOutcome(Findings(p, ctx, ms, |ms|).value, Blocked), ConfirmedHolds(p.confirmed.value, ctx),
             p.mode.DesktopCriticalOnly?);
  }

  lemma AllBound(fs: seq<Finding>, holds: seq<Risk>, bound: bool)
    requires forall f :: f in fs ==> (FindingBound(f, holds) <==> bound)
    ensures FindingsBound(fs, holds) <==> bound || fs == []
  {
    hide FindingBound;
    if fs != [] {
      assert fs[0] in fs;
    }
  }

  lemma EachIsBound(p: Policy, ctx: Context, ms: seq<Match>)
    requires PolicyAccepted(p, ctx.now) && p.confirmed.Some? && Findings(p, ctx, ms, |ms|).Ok?
    ensures forall f :: f in WithOutcome(Findings(p, ctx, ms, |ms|).value, Blocked) ==>
              (FindingBound(f, ConfirmedHolds(p.confirmed.value, ctx)) <==> p.mode.DesktopCriticalOnly?)
  {
    hide Classify, Findings, FindingBound, PolicyAccepted, ConfirmedHolds, WithOutcome;
    var fs := Findings(p, ctx, ms, |ms|).value;
    OutcomeMembers(fs, Blocked);
    forall f | f in WithOutcome(fs, Blocked)
      ensures FindingBound(f, ConfirmedHolds(p.confirmed.value, ctx)) <==> p.mode.DesktopCriticalOnly?
    {
      var i :| 0 <= i < |fs| && fs[i] == f;
      FindingOf(p, ctx, ms, |ms|, i);
      BlockedFindingIsBound(p, ctx, ms[i]);
    }
  }

  /** The reviewed basis is named in the mode that neither restricts nor uses it. */
  predicate BasisIsIdle(p: Policy) {
    p.mode.FixableSeverity? && p.confirmed.Some?
  }

  /** Everything `evaluate` does up to its self-check succeeds. */
  ghost predicate Reaches(p: Policy, scan: Scan, ctx: Context) {
    Prepare(p, ctx).None? && forall m :: m in AllMatches(scan) ==> Classify(p, ctx, m).Ok?
  }

  ghost predicate SomeBlocked(p: Policy, scan: Scan, ctx: Context) {
    exists m :: m in AllMatches(scan) && BlockedMatch(p, ctx, m)
  }

  /** The ambiguity error cannot happen, nor the self-check fail, unless the basis is idle. */
  lemma EngineErrorsUnreachable(p: Policy, scan: Scan, ctx: Context)
    ensures Evaluate(p, scan, ctx) != Err(Ambiguous)
    ensures !BasisIsIdle(p) ==> Evaluate(p, scan, ctx) != Err(SelfCheckFailed)
  {
    hide PolicyAccepted, Findings, FindingsBound, Held, Classify, Reaches, SomeBlocked, RisksAccepted, MissesBaseline;
    var ms := AllMatches(scan);
    if Prepare(p, ctx).None? {
      FindingsNotAmbiguous(p, ctx, ms, |ms|);
      SelfCheckFailsExactly(p, scan, ctx);
    }
  }

  /**
   * For a given scan the self-check fails exactly when the basis is idle and some match is
   * blocked, if nothing else fails before it.
   */
  lemma SelfCheckFailsExactly(p: Policy, scan: Scan, ctx: Context)
    ensures Evaluate(p, scan, ctx) == Err(SelfCheckFailed)
       <==> Reaches(p, scan, ctx) && BasisIsIdle(p) && SomeBlocked(p, scan, ctx)
  {
    hide PolicyAccepted, Findings, FindingsBound, Held, Classify, RisksAccepted, MissesBaseline, SomeBlocked;
    var ms := AllMatches(scan);
    if Prepare(p, ctx).None? {
      FindingsErrors(p, ctx, ms, |ms|);
      AllClassify(p, ctx, ms);
      if p.confirmed.Some? && Findings(p, ctx, ms, |ms|).Ok? {
        BlockedFindingsAreBound(p, ctx, ms);
        BasisModes(p, ctx.now);
        BlockedMeans(p, scan, ctx);
      }
    }
  }

  lemma AllClassify(p: Policy, ctx: Context, ms: seq<Match>)
    ensures Findings(p, ctx, ms, |ms|).Ok? <==> forall m :: m in ms ==> Classify(p, ctx, m).Ok?
  {
    hide Classify, Findings;
    FindingsOk(p, ctx, ms, |ms|);
    assert forall i :: 0 <= i < |ms| ==> ms[i] in ms;
  }

  lemma BasisModes(p: Policy, now: Time)
    requires PolicyAccepted(p, now) && p.confirmed.Some?
    ensures p.mode.DesktopCriticalOnly? || BasisIsIdle(p)
  {
  }

  // ----- Which policies can fail the self-check -----

  predicate CanBlock(p: Policy) {
    p.blockKnownExploited || p.blockedSeverities != {}
  }

  /** A component that no exception names. */
  function Fresh(exceptions: seq<Exemption>): (c: string)
    ensures c != [] && forall i :: 0 <= i < |c| ==> c[i] == 'a'
    ensures forall e :: e in exceptions ==> |e.component| < |c|
  {
    if exceptions == [] then "a"
    else
      var c := Fresh(exceptions[1..]);
      if |exceptions[0].component| < |c| then c else seq(|exceptions[0].component| + 1, _ => 'a')
  }

  lemma LettersAreNonempty(s: string)
    requires s != [] && forall i :: 0 <= i < |s| ==> s[i] == 'a'
    ensures Nonempty(s)
  {
    Text.StripWord(s);
  }

  /** A match that a policy which can block blocks in fixable-severity mode. */
  ghost function BlockedExample(p: Policy): Match
    requires CanBlock(p)
  {
    var severity := if p.blockedSeverities == {} then Low else var s :| s in p.blockedSeverities; s;
    Match(Vulnerability("a", severity, true), [], Artifact(Fresh(p.exceptions), "a", []), Fixed, ["a"], true)
  }

  lemma ExampleIsBlocked(p: Policy, ctx: Context)
    requires CanBlock(p) && p.mode.FixableSeverity?
    ensures BlockedMatch(p, ctx, BlockedExample(p))
  {
    hide Nonempty, ComponentLocations, Aliases, Fresh;
    LettersAreNonempty("a");
    LettersAreNonempty(Fresh(p.exceptions));
    var m := BlockedExample(p);
    forall i | 0 <= i < |p.exceptions| ensures !Excepts(p.exceptions[i], m, ctx) {
      assert p.exceptions[i] in p.exceptions;
    }
  }

  /**
   * A policy that passes all checks before the loop fails its own self-check on some scan
   * exactly when its basis is idle and it can block anything at all.
   */
  lemma SelfCheckCanFailExactly(p: Policy, ctx: Context)
    requires Prepare(p, ctx).None?
    ensures (exists scan :: Evaluate(p, scan, ctx) == Err(SelfCheckFailed)) <==> BasisIsIdle(p) && CanBlock(p)
  {
    hide Evaluate, Prepare, Classify, BlockedMatch;
    if BasisIsIdle(p) && CanBlock(p) {
      ExampleIsBlocked(p, ctx);
      var scan := Scan([BlockedExample(p)], []);
      OnlyMatch(p, scan, ctx, BlockedExample(p));
      SelfCheckFailsExactly(p, scan, ctx);
    }
    forall scan ensures Evaluate(p, scan, ctx) == Err(SelfCheckFailed) ==> BasisIsIdle(p) && CanBlock(p) {
      SelfCheckFailsExactly(p, scan, ctx);
      if BasisIsIdle(p) && SomeBlocked(p, scan, ctx) {
        var m :| m in AllMatches(scan) && BlockedMatch(p, ctx, m);
        BlockingNeedsSwitch(p, ctx, m);
      }
    }
  }

  lemma OnlyMatch(p: Policy, scan: Scan, ctx: Context, m: Match)
    requires Prepare(p, ctx).None? && scan == Scan([m], []) && BlockedMatch(p, ctx, m)
    ensures Reaches(p, scan, ctx) && SomeBlocked(p, scan, ctx)
  {
    hide Prepare, Classify;
    assert AllMatches(scan) == [m];
    assert m in AllMatches(scan);
  }

  lemma BlockingNeedsSwitch(p: Policy, ctx: Context, m: Match)
    requires p.mode.FixableSeverity? && BlockedMatch(p, ctx, m)
    ensures CanBlock(p)
  {
    hide Nonempty, ComponentLocations, Aliases, Known, Excepts;
  }

  /** An accepted policy, with no risk of this image, whose evaluation of a known exploit fails its own check. */
  lemma IdleBasisFailsSelfCheck(p: Policy, ctx: Context)
    requires p == Policy(FixableSeverity, Rules([], [], 30), [], Some([]), [], true, {}, true) && ctx.healthy
    ensures PolicyAccepted(p, ctx.now)
    ensures Evaluate(p, Scan([BlockedExample(p)], []), ctx) == Err(SelfCheckFailed)
  {
    hide Evaluate, Classify, BlockedMatch, Fresh;
    ExampleIsBlocked(p, ctx);
    OnlyMatch(p, Scan([BlockedExample(p)], []), ctx, BlockedExample(p));
    SelfCheckFailsExactly(p, Scan([BlockedExample(p)], []), ctx);
  }

  lemma {:induction false} FindingsErrors(p: Policy, ctx: Context, ms: seq<Match>, n: nat)
    requires n <= |ms|
    ensures Findings(p, ctx, ms, n) != Err(SelfCheckFailed)
  {
    hide Nonempty, Proof, RiskOutcome, LegacyOutcome, ComponentLocations, Aliases;
    if n > 0 {
      FindingsErrors(p, ctx, ms, n - 1);
    }
  }

  // ----- Conservation -----

  lemma {:induction false} OutcomesPartition(fs: seq<Finding>)
    ensures multiset(fs) == multiset(WithOutcome(fs, Blocked)) + multiset(WithOutcome(fs, Excepted))
                            + multiset(WithOutcome(fs, Advisory))
  {
    hide WithOutcome;
    OutcomesOfNone();
    if fs != [] {
      var init, last := fs[..|fs| - 1], fs[|fs| - 1];
      OutcomesPartition(init);
      OutcomeStep(init, last, Blocked);
      OutcomeStep(init, last, Excepted);
      OutcomeStep(init, last, Advisory);
      assert fs == init + [last];
    }
  }

  lemma OutcomesOfNone()
    ensures forall outcome :: WithOutcome([], outcome) == []
  {
  }

  lemma OutcomeStep(init: seq<Finding>, last: Finding, outcome: Outcome)
    ensures multiset(WithOutcome(init + [last], outcome))
         == multiset(WithOutcome(init, outcome)) + if last.outcome == outcome then multiset{last} else multiset{}
  {
    assert (init + [last])[..|init|] == init;
  }

  /** One observation for each match, suppressed or not; the three lists share them out. */
  lemma ObservationsPartition(p: Policy, scan: Scan, ctx: Context)
    requires Evaluate(p, scan, ctx).Ok?
    ensures var v := Evaluate(p, scan, ctx).value;
            && |v.observations| == |scan.matches| + |scan.ignoredMatches|
            && (!p.mode.MaintainerDecision? ==>
                  multiset(v.observations) == multiset(v.blocked) + multiset(v.excepted) + multiset(v.advisories))
  {
    hide Prepare, FindingsBound, Held;
    OutcomesPartition(Evaluate(p, scan, ctx).value.observations);
  }

  // ----- The status, without lists -----

  predicate BlockedMatch(p: Policy, ctx: Context, m: Match) {
    var f := Classify(p, ctx, m);
    f.Ok? && f.value.outcome.Blocked?
  }

  lemma {:induction false} FindingsOk(p: Policy, ctx: Context, ms: seq<Match>, n: nat)
    requires n <= |ms|
    ensures Findings(p, ctx, ms, n).Ok? <==> forall i :: 0 <= i < n ==> Classify(p, ctx, ms[i]).Ok?
  {
    hide Classify;
    if n > 0 {
      FindingsOk(p, ctx, ms, n - 1);
    }
  }

  /** The list of blocked findings is empty exactly when no match is blocked. */
  lemma BlockedMeans(p: Policy, scan: Scan, ctx: Context)
    requires var ms := AllMatches(scan); Findings(p, ctx, ms, |ms|).Ok?
    ensures var ms := AllMatches(scan);
            WithOutcome(Findings(p, ctx, ms, |ms|).value, Blocked) != [] <==> SomeBlocked(p, scan, ctx)
  {
    hide Classify, Findings;
    var ms := AllMatches(scan);
    var fs := Findings(p, ctx, ms, |ms|).value;
    OutcomeMembers(fs, Blocked);
    if WithOutcome(fs, Blocked) != [] {
      var f := WithOutcome(fs, Blocked)[0];
      assert f in WithOutcome(fs, Blocked);
      var i :| 0 <= i < |fs| && fs[i] == f;
      FindingOf(p, ctx, ms, |ms|, i);
      assert ms[i] in ms && BlockedMatch(p, ctx, ms[i]);
    }
    forall m | m in ms && BlockedMatch(p, ctx, m) ensures WithOutcome(fs, Blocked) != [] {
      var i :| 0 <= i < |ms| && ms[i] == m;
      FindingOf(p, ctx, ms, |ms|, i);
      assert fs[i] in WithOutcome(fs, Blocked);
    }
  }

  /** Blocked exactly when something holds the release or some match is blocked. */
  lemma StatusMeans(p: Policy, scan: Scan, ctx: Context)
    requires Evaluate(p, scan, ctx).Ok? && !p.mode.MaintainerDecision?
    ensures Evaluate(p, scan, ctx).value.status ==
              if Held(p, ctx) || SomeBlocked(p, scan, ctx) then BlockedRelease else Pass
  {
    hide Prepare, FindingsBound, Held, Classify, Findings, SomeBlocked;
    BlockedMeans(p, scan, ctx);
  }

  /** Evaluation succeeds exactly when nothing fails before the self-check, nor the self-check. */
  lemma EvaluateOk(p: Policy, scan: Scan, ctx: Context)
    ensures Evaluate(p, scan, ctx).Ok? <==> Reaches(p, scan, ctx) && !(BasisIsIdle(p) && SomeBlocked(p, scan, ctx))
  {
    hide Prepare, FindingsBound, Held, Classify, Findings, SomeBlocked;
    SelfCheckFailsExactly(p, scan, ctx);
    AllClassify(p, ctx, AllMatches(scan));
  }

  /** The verdict depends on the multiset of all matches, however it is split and ordered. */
  lemma StatusForgetsOrder(p: Policy, s: Scan, t: Scan, ctx: Context)
    requires multiset(AllMatches(s)) == multiset(AllMatches(t))
    ensures Evaluate(p, s, ctx).Ok? <==> Evaluate(p, t, ctx).Ok?
    ensures Evaluate(p, s, ctx).Ok? ==> Evaluate(p, s, ctx).value.status == Evaluate(p, t, ctx).value.status
  {
    hide Evaluate, Classify, Held, BlockedMatch, AllMatches;
    Sorting.SameMembers(AllMatches(s), AllMatches(t));
    EvaluateOk(p, s, ctx);
    EvaluateOk(p, t, ctx);
    if Evaluate(p, s, ctx).Ok? {
      if p.mode.MaintainerDecision? {
        MaintainerIsComplete(p, s, ctx);
        MaintainerIsComplete(p, t, ctx);
      } else {
        StatusMeans(p, s, ctx);
        StatusMeans(p, t, ctx);
      }
    }
  }

  lemma MaintainerIsComplete(p: Policy, s: Scan, ctx: Context)
    requires Evaluate(p, s, ctx).Ok? && p.mode.MaintainerDecision?
    ensures Evaluate(p, s, ctx).value.status == Complete
  {
    hide Prepare, FindingsBound, Held, Findings;
  }

  /** Letting the scanner ignore matches does not change the status. */
  lemma IgnoringChangesNothing(p: Policy, kept: seq<Match>, moved: seq<Match>, ignored: seq<Match>, ctx: Context)
    ensures var s, t := Scan(kept + moved, ignored), Scan(kept, moved + ignored);
            && (Evaluate(p, s, ctx).Ok? <==> Evaluate(p, t, ctx).Ok?)
            && (Evaluate(p, s, ctx).Ok? ==> Evaluate(p, s, ctx).value.status == Evaluate(p, t, ctx).value.status)
  {
    hide Evaluate;
    StatusForgetsOrder(p, Scan(kept + moved, ignored), Scan(kept, moved + ignored), ctx);
  }

  /** Under a reviewed blocking basis only the reviewed holds decide, never the scan. */
  lemma ReviewedBasisIgnoresScan(p: Policy, scan: Scan, ctx: Context)
    requires Evaluate(p, scan, ctx).Ok? && p.confirmed.Some?
    ensures Evaluate(p, scan, ctx).value.status
         == if ConfirmedHolds(p.confirmed.value, ctx) != [] then BlockedRelease else Pass
  {
    hide Evaluate, Classify, BlockedMatch, ConfirmedHolds, PolicyAccepted, MissesBaseline;
    EvaluateOk(p, scan, ctx);
    BasisModes(p, ctx.now);
    StatusMeans(p, scan, ctx);
    if BasisIsIdle(p) {
      NoHoldWithoutBaseline(p, ctx);
    } else {
      forall m | m in AllMatches(scan) && BlockedMatch(p, ctx, m) ensures ConfirmedHolds(p.confirmed.value, ctx) != [] {
        BlockedNeedsHold(p, ctx, m);
      }
    }
  }

  lemma {:induction false} NoHoldOfImage(risks: seq<Risk>, ctx: Context)
    requires forall i :: 0 <= i < |risks| ==> risks[i].digest != ctx.digest
    ensures ConfirmedHolds(risks, ctx) == []
  {
    if risks != [] {
      assert forall i :: 0 <= i < |risks[1..]| ==> risks[1..][i] == risks[i + 1];
      NoHoldOfImage(risks[1..], ctx);
    }
  }

  lemma NoHoldWithoutBaseline(p: Policy, ctx: Context)
    requires BasisIsIdle(p) && !MissesBaseline(p, ctx)
    ensures ConfirmedHolds(p.confirmed.value, ctx) == []
  {
    NoHoldOfImage(p.confirmed.value, ctx);
  }

  lemma BlockedNeedsHold(p: Policy, ctx: Context, m: Match)
    requires p.mode.DesktopCriticalOnly? && p.confirmed.Some? && BlockedMatch(p, ctx, m)
    ensures ConfirmedHolds(p.confirmed.value, ctx) != []
  {
    hide Proof, ComponentLocations, Aliases, Confirms, Nonempty, SortedList, IsCritical;
  }

  // ----- Monotonicity -----

  /** `r` carries at least the evidence of `q`. */
  predicate RelatedWorse(q: Related, r: Related) {
    q.id == r.id && q.severity == r.severity && (q.knownExploited ==> r.knownExploited)
  }

  /** The same finding with at least the aliases and exploitation flags. */
  ghost predicate MatchWorse(m: Match, n: Match) {
    && m.vulnerability.id == n.vulnerability.id && m.vulnerability.severity == n.vulnerability.severity
    && (m.vulnerability.knownExploited ==> n.vulnerability.knownExploited)
    && m.artifact == n.artifact && m.fixState == n.fixState && m.fixVersions == n.fixVersions
    && forall q :: q in m.related ==> exists r :: r in n.related && RelatedWorse(q, r)
  }

  ghost predicate ScanWorse(s: Scan, t: Scan) {
    forall m :: m in AllMatches(s) ==> exists n :: n in AllMatches(t) && MatchWorse(m, n)
  }

  /** The same mode and switches, with no rule or hold dropped and no clearance added. */
  ghost predicate PolicyStricter(p: Policy, q: Policy) {
    && p.mode == q.mode && p.blockedSeverities == q.blockedSeverities
    && (p.blockKnownExploited ==> q.blockKnownExploited)
    && (forall a :: IsSerious(p.rules.serious, a) ==> IsSerious(q.rules.serious, a))
    && (forall d :: d in q.rules.dispositions ==> d in p.rules.dispositions)
    && (forall b :: b in p.blockers ==> b in q.blockers)
    && (p.confirmed.Some? <==> q.confirmed.Some?)
    && (p.confirmed.Some? ==> forall r :: r in p.confirmed.value ==> r in q.confirmed.value)
    && (forall e :: e in q.exceptions ==> e in p.exceptions)
  }

  lemma {:induction false} RelatedIdsMembers(related: seq<Related>)
    ensures forall x :: x in RelatedIds(related) <==>
              Nonempty(x) && exists r :: r in related && r.id == Some(x)
  {
    hide Nonempty;
    if related != [] {
      RelatedIdsMembers(related[1..]);
      assert forall r :: r in related <==> r == related[0] || r in related[1..];
    }
  }

  lemma AliasMembers(m: Match)
    ensures forall x :: x in Aliases(m) <==>
              Nonempty(x) && (x == m.vulnerability.id || exists r :: r in m.related && r.id == Some(x))
  {
    hide Nonempty, SortedSet;
    RelatedIdsMembers(m.related);
    SortedSetMembers((if Nonempty(m.vulnerability.id) then [m.vulnerability.id] else []) + RelatedIds(m.related));
  }

  lemma AliasesGrow(m: Match, n: Match)
    requires MatchWorse(m, n)
    ensures Subset(Aliases(m), Aliases(n))
  {
    hide Aliases, Nonempty;
    AliasMembers(m);
    AliasMembers(n);
  }

  lemma FlagsGrow(m: Match, n: Match)
    requires MatchWorse(m, n)
    ensures Known(m) ==> Known(n)
    ensures IsCritical(m) ==> IsCritical(n)
  {
    forall i | 0 <= i < |m.related|
      ensures exists j :: 0 <= j < |n.related| && RelatedWorse(m.related[i], n.related[j])
    {
      assert m.related[i] in m.related;
      var r :| r in n.related && RelatedWorse(m.related[i], r);
      var j :| 0 <= j < |n.related| && n.related[j] == r;
    }
  }

  /** What qualifies for the worse match qualified for the other. */
  lemma QualifiersShrink(m: Match, n: Match, ctx: Context, d: ReviewedDisposition)
    requires MatchWorse(m, n) && Qualifies(d, n, ctx)
    ensures Qualifies(d, m, ctx)
  {
    hide Aliases, ComponentLocations;
    AliasesGrow(m, n);
  }

  /** The disposition found for the worse match under the stricter policy was found before. */
  lemma ProofShrinks(p: Policy, q: Policy, ctx: Context, m: Match, n: Match)
    requires PolicyAccepted(p, ctx.now) && Reviewing(p.mode)
    requires PolicyStricter(p, q) && MatchWorse(m, n) && Nonempty(m.vulnerability.id)
    requires Proof(q.rules.dispositions, n, ctx) != []
    ensures Proof(p.rules.dispositions, m, ctx) == [Proof(q.rules.dispositions, n, ctx)[0]]
  {
    hide Accepted, Qualifies, Proof, MatchWorse;
    var d := Proof(q.rules.dispositions, n, ctx)[0];
    assert d in Proof(q.rules.dispositions, n, ctx);
    ProofMembers(q.rules.dispositions, n, ctx);
    QualifiersShrink(m, n, ctx, d);
    ProofMembers(p.rules.dispositions, m, ctx);
    AtMostOneDisposition(p.rules, m, ctx);
  }

  lemma SeriousGrows(p: Policy, q: Policy, m: Match, n: Match)
    requires PolicyStricter(p, q) && MatchWorse(m, n) && SeriousMatch(p, m)
    ensures SeriousMatch(q, n)
  {
    hide Aliases;
    AliasesGrow(m, n);
  }

  /** A blocking risk verdict stays blocking. */
  lemma RiskStaysBlocked(p: Policy, q: Policy, ctx: Context, m: Match, n: Match)
    requires PolicyAccepted(p, ctx.now) && Reviewing(p.mode)
    requires PolicyStricter(p, q) && MatchWorse(m, n) && Nonempty(m.vulnerability.id)
    requires RiskOutcome(p, ctx, m, Proof(p.rules.dispositions, m, ctx)).0.Blocked?
    ensures RiskOutcome(q, ctx, n, Proof(q.rules.dispositions, n, ctx)).0.Blocked?
  {
    hide Accepted, Qualifies, Proof, MatchWorse, SeriousMatch, Known, IsCritical;
    FlagsGrow(m, n);
    if SeriousMatch(p, m) {
      SeriousGrows(p, q, m, n);
    }
    if Proof(q.rules.dispositions, n, ctx) != [] {
      ProofShrinks(p, q, ctx, m, n);
    }
  }

  lemma LegacyStaysBlocked(p: Policy, q: Policy, ctx: Context, m: Match, n: Match)
    requires PolicyStricter(p, q) && MatchWorse(m, n) && LegacyOutcome(p, ctx, m).0.Blocked?
    ensures LegacyOutcome(q, ctx, n).0.Blocked?
  {
    hide Known, IsSerious;
    FlagsGrow(m, n);
    forall i | 0 <= i < |q.exceptions| && Excepts(q.exceptions[i], n, ctx)
      ensures exists j :: 0 <= j < |p.exceptions| && Excepts(p.exceptions[j], m, ctx)
    {
      assert q.exceptions[i] in q.exceptions;
      var j :| 0 <= j < |p.exceptions| && p.exceptions[j] == q.exceptions[i];
    }
  }

  /** A confirmed hold stays one. */
  lemma {:induction false} ConfirmedHoldsMembers(risks: seq<Risk>, ctx: Context)
    ensures forall r ::
              r in ConfirmedHolds(risks, ctx) <==> r in risks && r.digest == ctx.digest && r.profile == ctx.profile
  {
    if risks != [] {
      ConfirmedHoldsMembers(risks[1..], ctx);
    }
  }

  lemma HeldStaysHeld(p: Policy, q: Policy, ctx: Context)
    requires PolicyStricter(p, q) && Held(p, ctx)
    ensures Held(q, ctx)
  {
    hide IsSerious, ConfirmedHolds;
    if p.confirmed.Some? {
      ConfirmedHoldsMembers(p.confirmed.value, ctx);
      ConfirmedHoldsMembers(q.confirmed.value, ctx);
      var r := ConfirmedHolds(p.confirmed.value, ctx)[0];
      assert r in ConfirmedHolds(p.confirmed.value, ctx);
      assert r in ConfirmedHolds(q.confirmed.value, ctx);
    } else {
      var i :| 0 <= i < |p.blockers| && BlockerHolds(p.blockers[i], p, ctx);
      assert p.blockers[i] in p.blockers;
      var j :| 0 <= j < |q.blockers| && q.blockers[j] == p.blockers[i];
      assert BlockerHolds(q.blockers[j], q, ctx);
    }
  }

  /** Outside a reviewed basis a blocked match stays blocked. */
  lemma MatchStaysBlocked(p: Policy, q: Policy, ctx: Context, m: Match, n: Match)
    requires PolicyAccepted(p, ctx.now) && p.confirmed.None? && PolicyStricter(p, q) && MatchWorse(m, n)
    requires BlockedMatch(p, ctx, m) && Classify(q, ctx, n).Ok?
    ensures BlockedMatch(q, ctx, n)
  {
    hide Accepted, BlockersAccepted, Proof, ComponentLocations, Aliases, Nonempty, IsSerious,
         RiskOutcome, LegacyOutcome, Known;
    if p.mode.FixableSeverity? {
      LegacyStaysBlocked(p, q, ctx, m, n);
    } else {
      RiskStaysBlocked(p, q, ctx, m, n);
    }
  }

  /**
   * More matches, aliases, serious rules, holds or exploitation flags, or fewer
   * dispositions or exceptions, never turn a blocked release into a pass.
   */
  lemma VerdictIsMonotone(p: Policy, q: Policy, s: Scan, t: Scan, ctx: Context)
    requires PolicyStricter(p, q) && ScanWorse(s, t)
    requires Evaluate(p, s, ctx).Ok? && Evaluate(p, s, ctx).value.status == BlockedRelease
    ensures Evaluate(q, t, ctx).Ok? ==> Evaluate(q, t, ctx).value.status == BlockedRelease
  {
    hide Evaluate, Classify, Held, BlockedMatch, PolicyStricter, MatchWorse, PolicyAccepted;
    ModesAgree(p, q);
    if p.mode.MaintainerDecision? {
      MaintainerIsComplete(p, s, ctx);
    } else if Evaluate(q, t, ctx).Ok? {
      EvaluateOk(p, s, ctx);
      EvaluateOk(q, t, ctx);
      StatusMeans(p, s, ctx);
      StatusMeans(q, t, ctx);
      if Held(p, ctx) {
        HeldStaysHeld(p, q, ctx);
      } else {
        var m :| m in AllMatches(s) && BlockedMatch(p, ctx, m);
        var n :| n in AllMatches(t) && MatchWorse(m, n);
        if p.confirmed.Some? {
          BasisModes(p, ctx.now);
          BlockedNeedsHold(p, ctx, m);
          HoldsAreHeld(p, ctx);
          HeldStaysHeld(p, q, ctx);
        } else {
          MatchStaysBlocked(p, q, ctx, m, n);
        }
      }
    }
  }

  lemma ModesAgree(p: Policy, q: Policy)
    requires PolicyStricter(p, q)
    ensures p.mode == q.mode
  {
  }

  lemma HoldsAreHeld(p: Policy, ctx: Context)
    requires p.mode.DesktopCriticalOnly? && p.confirmed.Some? && ConfirmedHolds(p.confirmed.value, ctx) != []
    ensures Held(p, ctx)
  {
  }
}
