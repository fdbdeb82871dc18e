/**
 * What a verdict of scripts/bluebuild/security-policy.py says of the policy, the image and the
 * matches, in terms of their fields alone.
 */
module VerdictMeaning {
  import opened Wrappers
  import opened StringSets
  import opened PolicyRules
  import opened SecurityPolicy
  import opened VerdictProperties

  // ----- What a match says -----

  /** The finding, or anything related to it, is known to be exploited. */
  ghost predicate Exploited(m: Match) {
    m.vulnerability.knownExploited || exists r :: r in m.related && r.knownExploited
  }

  /** The finding, or anything related to it, is rated critical. */
  ghost predicate RatedCritical(m: Match) {
    m.vulnerability.severity == Critical || exists r :: r in m.related && r.severity == Some(Critical)
  }

  /** The advisory is the finding's own, or that of something related to it. */
  ghost predicate Names(m: Match, advisory: string) {
    Nonempty(advisory) && (advisory == m.vulnerability.id || exists r :: r in m.related && r.id == Some(advisory))
  }

  /** The exact component: its package URL, or else its artifact id. */
  ghost function ComponentOf(m: Match): string {
    if m.artifact.purl != "" then m.artifact.purl else m.artifact.id
  }

  /** The path below the scanned directory. */
  ghost function Below(path: string, directory: string): string {
    if directory != "" && directory + "/" <= path then path[|directory|..] else path
  }

  /** A canonical path of some location record, as shipped. */
  ghost predicate ShippedAt(m: Match, ctx: Context, v: string) {
    exists record, path :: record in m.artifact.locations && Gives(record, ctx, path, v)
  }

  ghost predicate Gives(record: seq<string>, ctx: Context, path: string, v: string) {
    path in record && CanonicalLocation(path) && v == Below(path, ctx.prefix) && CanonicalLocation(v)
  }

  /** There are location records, and each gives canonical paths only, and some. */
  ghost predicate FullyLocated(m: Match, ctx: Context) {
    && m.artifact.locations != []
    && forall record :: record in m.artifact.locations ==>
         record != [] && forall path :: path in record ==>
           CanonicalLocation(path) && CanonicalLocation(Below(path, ctx.prefix))
  }

  // ----- What a policy says of a match -----

  /** The disposition is for this image and component, unexpired, and covers all names and places. */
  ghost predicate Speaks(d: ReviewedDisposition, m: Match, ctx: Context) {
    && d.digest == ctx.digest && d.component == ComponentOf(m) && d.expiresAt > ctx.now
    && (forall a :: Names(m, a) ==> a in d.advisories)
    && FullyLocated(m, ctx) && forall v :: ShippedAt(m, ctx, v) ==> v in d.locations
  }

  ghost predicate Reviewed(p: Policy, ctx: Context, m: Match) {
    exists d :: d in p.rules.dispositions && Speaks(d, m, ctx)
  }

  /** A review found the finding nonapplicable or its fix backported. */
  ghost predicate Cleared(p: Policy, ctx: Context, m: Match) {
    exists d :: d in p.rules.dispositions && Speaks(d, m, ctx)
             && (d.disposition == Nonapplicable || d.disposition == Backported)
  }

  ghost predicate NamedSerious(p: Policy, m: Match) {
    exists rule, a :: rule in p.rules.serious && a in rule.advisories && Names(m, a)
  }

  /** A reviewed risk of this image and profile is this component's, under some name and place. */
  ghost predicate Confirmed(p: Policy, ctx: Context, m: Match) {
    && p.confirmed.Some? && FullyLocated(m, ctx)
    && exists r :: r in p.confirmed.value && RiskOf(r, ctx, m)
  }

  ghost predicate RiskOf(r: Risk, ctx: Context, m: Match) {
    && r.digest == ctx.digest && r.profile == ctx.profile && r.component == ComponentOf(m)
    && (exists a :: a in r.advisories && Names(m, a)) && exists v :: v in r.locations && ShippedAt(m, ctx, v)
  }

  /** An unexpired exception for exactly this image, component and advisory. */
  ghost predicate Exempt(p: Policy, ctx: Context, m: Match) {
    exists e :: e in p.exceptions && e.digest == ctx.digest && e.expiresAt > ctx.now
             && e.component == ComponentOf(m) && e.advisory == m.vulnerability.id
  }

  /** The scanner knows a fix, and the policy blocks fixable findings of this severity. */
  ghost predicate FixableBlocked(p: Policy, m: Match) {
    m.fixState == Fixed && m.fixVersions != [] && m.vulnerability.severity in p.blockedSeverities
  }

  /** Which matches block, mode by mode. */
  ghost predicate Blocks(p: Policy, ctx: Context, m: Match) {
    match p.mode
    case FixableSeverity =>
      (p.blockKnownExploited && Exploited(m)) || (FixableBlocked(p, m) && !Exempt(p, ctx, m))
    case UpstreamMaintainedRisk =>
      || (p.blockKnownExploited && Exploited(m))
      || (NamedSerious(p, m) && !Cleared(p, ctx, m))
      || (RatedCritical(m) && !Reviewed(p, ctx, m))
    case DesktopCriticalOnly =>
      if p.confirmed.Some? then Confirmed(p, ctx, m) else RatedCritical(m) && !Cleared(p, ctx, m)
    case MaintainerDecision => false
  }

  /** Which matches only an exception lets through. */
  ghost predicate OnlyExempt(p: Policy, ctx: Context, m: Match) {
    && p.mode == FixableSeverity && FixableBlocked(p, m) && Exempt(p, ctx, m)
    && !(p.blockKnownExploited && Exploited(m))
  }

  /** The first reason that applies to a match that blocks. */
  ghost function WhyBlocked(p: Policy, m: Match): Reason {
    if p.mode == DesktopCriticalOnly then
      if p.confirmed.Some? then ConfirmedExploitability else CriticalPendingReview
    else if p.blockKnownExploited && Exploited(m) then KnownExploited
    else if p.mode == FixableSeverity then FixableSeverityReason
    else if NamedSerious(p, m) then ReviewedSeriousRisk
    else UntriagedCritical
  }

  // ----- The definitions of the engine, one by one -----

  lemma FlagsMean(m: Match)
    ensures Known(m) <==> Exploited(m)
    ensures IsCritical(m) <==> RatedCritical(m)
  {
    forall i | 0 <= i < |m.related| ensures m.related[i] in m.related {
    }
  }

  lemma NamesMean(m: Match)
    ensures forall a :: a in Aliases(m) <==> Names(m, a)
  {
    hide Nonempty, Aliases;
    AliasMembers(m);
  }

  lemma StrippedBelow(path: string, ctx: Context, v: string)
    ensures Normalized(path, ctx.prefix) == Some(v)
       <==> CanonicalLocation(path) && v == Below(path, ctx.prefix) && CanonicalLocation(v)
  {
    hide CanonicalLocation;
  }

  lemma {:induction false} PathsMean(values: seq<string>, ctx: Context, v: string)
    ensures v in Paths(values, ctx.prefix) <==> exists path :: Gives(values, ctx, path, v)
  {
    hide Normalized, CanonicalLocation;
    if values != [] {
      PathsMean(values[1..], ctx, v);
      StrippedBelow(values[0], ctx, v);
      assert forall path :: path in values <==> path == values[0] || path in values[1..];
      forall path | Gives(values[1..], ctx, path, v) ensures Gives(values, ctx, path, v) {
      }
      assert Gives(values, ctx, values[0], v) <==> Normalized(values[0], ctx.prefix) == Some(v);
      forall path | Gives(values, ctx, path, v) ensures path == values[0] || Gives(values[1..], ctx, path, v) {
      }
    }
  }

  lemma {:induction false} RecordPathsMean(records: seq<seq<string>>, ctx: Context, v: string)
    ensures v in RecordPaths(records, ctx.prefix)
       <==> exists record, path :: record in records && Gives(record, ctx, path, v)
  {
    hide Paths, Gives;
    if records != [] {
      RecordPathsMean(records[1..], ctx, v);
      PathsMean(records[0], ctx, v);
      assert forall record :: record in records <==> record == records[0] || record in records[1..];
    }
  }

  lemma LocationsMean(m: Match, ctx: Context)
    ensures forall v :: v in ComponentLocations(m.artifact, ctx.prefix).0 <==> ShippedAt(m, ctx, v)
    ensures ComponentLocations(m.artifact, ctx.prefix).1 <==> FullyLocated(m, ctx)
  {
    hide SortedSet, RecordPaths, Normalized, Gives, CanonicalLocation;
    var records := m.artifact.locations;
    SortedSetMembers(RecordPaths(records, ctx.prefix));
    forall v ensures v in RecordPaths(records, ctx.prefix) <==> ShippedAt(m, ctx, v) {
      RecordPathsMean(records, ctx, v);
    }
    forall path ensures Normalized(path, ctx.prefix).Some?
      <==> CanonicalLocation(path) && CanonicalLocation(Below(path, ctx.prefix))
    {
      StrippedBelow(path, ctx, Below(path, ctx.prefix));
      if Normalized(path, ctx.prefix).Some? {
        StrippedBelow(path, ctx, Normalized(path, ctx.prefix).value);
      }
    }
    forall i | 0 <= i < |records| ensures records[i] in records {
    }
  }

  lemma DispositionMeans(d: ReviewedDisposition, m: Match, ctx: Context)
    ensures Qualifies(d, m, ctx) <==> Speaks(d, m, ctx)
  {
    hide Aliases, ComponentLocations, Names, ShippedAt, FullyLocated;
    NamesMean(m);
    LocationsMean(m, ctx);
  }

  lemma ProofMeans(p: Policy, ctx: Context, m: Match)
    requires PolicyAccepted(p, ctx.now) && Reviewing(p.mode) && Nonempty(m.vulnerability.id)
    ensures var proof := Proof(p.rules.dispositions, m, ctx);
            && (proof != [] <==> Reviewed(p, ctx, m))
            && (proof != [] && !proof[0].disposition.Routine? <==> Cleared(p, ctx, m))
  {
    hide Accepted, BlockersAccepted, RisksAccepted, Qualifies, Speaks, Nonempty;
    var ds := p.rules.dispositions;
    var proof := Proof(ds, m, ctx);
    ProofMembers(ds, m, ctx);
    AtMostOneDisposition(p.rules, m, ctx);
    forall d ensures Qualifies(d, m, ctx) <==> Speaks(d, m, ctx) {
      DispositionMeans(d, m, ctx);
    }
    if proof != [] {
      assert proof[0] in proof && forall d :: d in proof ==> d == proof[0];
    }
  }

  lemma SeriousMeans(p: Policy, m: Match)
    ensures SeriousMatch(p, m) <==> NamedSerious(p, m)
  {
    hide Aliases, Names;
    NamesMean(m);
    var rules := p.rules.serious;
    forall i | 0 <= i < |rules| ensures rules[i] in rules {
    }
    if NamedSerious(p, m) {
      var rule, a :| rule in rules && a in rule.advisories && Names(m, a);
      assert a in Aliases(m) && IsSerious(rules, a);
    }
  }

  lemma ExemptMeans(p: Policy, ctx: Context, m: Match)
    ensures (exists i :: 0 <= i < |p.exceptions| && Excepts(p.exceptions[i], m, ctx)) <==> Exempt(p, ctx, m)
  {
    forall i | 0 <= i < |p.exceptions| ensures p.exceptions[i] in p.exceptions {
    }
  }

  lemma {:induction false} HoldersMembers(holds: seq<Risk>, c: string, aliases: seq<string>, locations: seq<string>)
    ensures ConfirmingIds(holds, c, aliases, locations) != []
       <==> exists r :: r in holds && Confirms(r, c, aliases, locations)
  {
    hide Confirms;
    if holds != [] {
      HoldersMembers(holds[1..], c, aliases, locations);
      assert forall r :: r in holds <==> r == holds[0] || r in holds[1..];
    }
  }

  lemma ConfirmedMeans(p: Policy, ctx: Context, m: Match)
    requires p.confirmed.Some?
    ensures var (locations, complete) := ComponentLocations(m.artifact, ctx.prefix);
            var holds := ConfirmedHolds(p.confirmed.value, ctx);
            complete && ConfirmingIds(holds, Component(m.artifact), Aliases(m), locations) != []
            <==> Confirmed(p, ctx, m)
  {
    hide Aliases, ComponentLocations, ConfirmedHolds, Names, ShippedAt, FullyLocated;
    var (locations, complete) := ComponentLocations(m.artifact, ctx.prefix);
    var holds := ConfirmedHolds(p.confirmed.value, ctx);
    NamesMean(m);
    LocationsMean(m, ctx);
    ConfirmedHoldsMembers(p.confirmed.value, ctx);
    HoldersMembers(holds, Component(m.artifact), Aliases(m), locations);
    forall r | r in p.confirmed.value
      ensures RiskOf(r, ctx, m) <==> r in holds && Confirms(r, Component(m.artifact), Aliases(m), locations)
    {
    }
  }

  // ----- One match -----

  /** A match the engine can read. */
  ghost predicate Readable(m: Match) {
    && m.wellTyped && Nonempty(m.vulnerability.id) && Nonempty(ComponentOf(m))
    && (m.fixState == Unspecified ==> m.fixVersions == [])
  }

  lemma ClassifiesExactly(p: Policy, ctx: Context, m: Match)
    requires PolicyAccepted(p, ctx.now)
    ensures Classify(p, ctx, m).Ok? <==> Readable(m)
  {
    NoMatchIsAmbiguous(p, ctx, m);
    hide PolicyAccepted, Nonempty, Proof, RiskOutcome, LegacyOutcome, ComponentLocations, Aliases, ConfirmingIds,
         ConfirmedHolds, Known;
  }

  /** What an observation says of its match. */
  ghost predicate Reports(f: Finding, p: Policy, ctx: Context, m: Match) {
    && f.component == ComponentOf(m) && f.advisory == m.vulnerability.id && f.severity == m.vulnerability.severity
    && (f.knownExploited <==> Exploited(m)) && (f.complete <==> FullyLocated(m, ctx))
    && (forall a :: a in f.aliases <==> Names(m, a)) && (forall v :: v in f.locations <==> ShippedAt(m, ctx, v))
  }

  lemma ObservationReports(p: Policy, ctx: Context, m: Match)
    requires Classify(p, ctx, m).Ok?
    ensures Reports(Classify(p, ctx, m).value, p, ctx, m)
  {
    FlagsMean(m);
    NamesMean(m);
    LocationsMean(m, ctx);
    hide Nonempty, Proof, RiskOutcome, LegacyOutcome, ComponentLocations, Aliases, ConfirmingIds, ConfirmedHolds,
         Known, Exploited, FullyLocated, Names, ShippedAt;
  }

  lemma LegacyBlocks(p: Policy, ctx: Context, m: Match)
    requires p.mode.FixableSeverity? && Classify(p, ctx, m).Ok?
    ensures var f := Classify(p, ctx, m).value;
            && (f.outcome == Blocked <==> Blocks(p, ctx, m))
            && (f.outcome == Excepted <==> OnlyExempt(p, ctx, m))
            && (f.outcome == Blocked ==> f.reason == WhyBlocked(p, m))
  {
    FlagsMean(m);
    ExemptMeans(p, ctx, m);
    hide Nonempty, ComponentLocations, Aliases, Known, Exploited, Exempt, Excepts;
  }

  /** The judgement of a risk mode, before reviewed risks are confirmed. */
  lemma RiskMeans(p: Policy, ctx: Context, m: Match)
    requires PolicyAccepted(p, ctx.now) && Reviewing(p.mode) && Nonempty(m.vulnerability.id)
    ensures var (outcome, reason) := RiskOutcome(p, ctx, m, Proof(p.rules.dispositions, m, ctx));
            && (p.confirmed.None? ==> (outcome == Blocked <==> Blocks(p, ctx, m)))
            && (p.confirmed.None? && outcome == Blocked ==> reason == WhyBlocked(p, m))
            && outcome != Excepted && (p.confirmed.Some? ==> outcome == Advisory)
  {
    FlagsMean(m);
    SeriousMeans(p, m);
    ProofMeans(p, ctx, m);
    hide Accepted, BlockersAccepted, RisksAccepted, Nonempty, Proof, Known, IsCritical, SeriousMatch, Exploited,
         RatedCritical, NamedSerious, Cleared, Reviewed, Confirmed;
  }

  lemma ReviewedBlocks(p: Policy, ctx: Context, m: Match)
    requires PolicyAccepted(p, ctx.now) && Reviewing(p.mode) && Classify(p, ctx, m).Ok?
    ensures var f := Classify(p, ctx, m).value;
            && (f.outcome == Blocked <==> Blocks(p, ctx, m)) && f.outcome != Excepted
            && (f.outcome == Blocked ==> f.reason == WhyBlocked(p, m))
  {
    ClassifiesExactly(p, ctx, m);
    RiskMeans(p, ctx, m);
    if p.confirmed.Some? {
      ConfirmedMeans(p, ctx, m);
      BasisModes(p, ctx.now);
    }
    hide PolicyAccepted, Nonempty, Proof, ComponentLocations, Aliases, ConfirmingIds, ConfirmedHolds, Known,
         RiskOutcome, Exploited, RatedCritical, NamedSerious, Cleared, Reviewed, Confirmed;
  }

  /** Whether a match blocks, or is let through by an exception only, and why it blocks. */
  lemma OutcomeExactly(p: Policy, ctx: Context, m: Match)
    requires PolicyAccepted(p, ctx.now) && !p.mode.MaintainerDecision? && Classify(p, ctx, m).Ok?
    ensures var f := Classify(p, ctx, m).value;
            && (f.outcome == Blocked <==> Blocks(p, ctx, m))
            && (f.outcome == Excepted <==> OnlyExempt(p, ctx, m))
            && (f.outcome == Blocked ==> f.reason == WhyBlocked(p, m))
  {
    if p.mode.FixableSeverity? {
      LegacyBlocks(p, ctx, m);
    } else {
      ReviewedBlocks(p, ctx, m);
    }
  }

  // ----- The whole verdict -----

  /** A reviewed concern holds the release whatever the scan says. */
  ghost predicate Holds(p: Policy, ctx: Context) {
    match p.mode
    case UpstreamMaintainedRisk => exists b :: b in p.blockers && ctx.profile in b.profiles
    case DesktopCriticalOnly =>
      if p.confirmed.Some? then exists r :: r in p.confirmed.value && r.digest == ctx.digest && r.profile == ctx.profile
      else exists b :: b in p.blockers && ctx.profile in b.profiles && b.severity == Critical
    case _ => false
  }

  lemma HoldsMeans(p: Policy, ctx: Context)
    requires PolicyAccepted(p, ctx.now)
    ensures Held(p, ctx) <==> Holds(p, ctx)
  {
    hide Accepted, BlockersAccepted, RisksAccepted, ConfirmedHolds;
    forall i | 0 <= i < |p.blockers| ensures p.blockers[i] in p.blockers {
    }
    if p.confirmed.Some? {
      var holds := ConfirmedHolds(p.confirmed.value, ctx);
      ConfirmedHoldsMembers(p.confirmed.value, ctx);
      assert holds != [] ==> holds[0] in holds;
    }
  }

  ghost predicate Scanned(scan: Scan, m: Match) {
    m in scan.matches || m in scan.ignoredMatches
  }

  lemma ScannedMeans(scan: Scan)
    ensures forall m :: m in AllMatches(scan) <==> Scanned(scan, m)
  {
  }

  lemma PreparedIsAccepted(p: Policy, ctx: Context)
    requires Prepare(p, ctx).None?
    ensures PolicyAccepted(p, ctx.now)
  {
    hide PolicyAccepted, RisksAccepted, MissesBaseline, ExceptionsAccepted;
  }

  lemma SomeBlockedMeans(p: Policy, scan: Scan, ctx: Context)
    requires PolicyAccepted(p, ctx.now) && !p.mode.MaintainerDecision?
    requires forall m :: m in AllMatches(scan) ==> Classify(p, ctx, m).Ok?
    ensures SomeBlocked(p, scan, ctx) <==> exists m :: Scanned(scan, m) && Blocks(p, ctx, m)
  {
    hide PolicyAccepted, Classify, Blocks, OnlyExempt, WhyBlocked, AllMatches;
    ScannedMeans(scan);
    forall m | m in AllMatches(scan) ensures BlockedMatch(p, ctx, m) <==> Blocks(p, ctx, m) {
      OutcomeExactly(p, ctx, m);
    }
  }

  /** The status, from the fields of the policy, the image and the matches. */
  lemma StatusExactly(p: Policy, scan: Scan, ctx: Context)
    requires Evaluate(p, scan, ctx).Ok?
    ensures Evaluate(p, scan, ctx).value.status ==
              if p.mode == MaintainerDecision then Complete
              else if Holds(p, ctx) || exists m :: Scanned(scan, m) && Blocks(p, ctx, m) then BlockedRelease
              else Pass
  {
    hide Evaluate, Prepare, Classify, Blocks, Holds, Held, Scanned, SomeBlocked, AllMatches, PolicyAccepted;
    EvaluateOk(p, scan, ctx);
    PreparedIsAccepted(p, ctx);
    if p.mode == MaintainerDecision {
      MaintainerIsComplete(p, scan, ctx);
    } else {
      StatusMeans(p, scan, ctx);
      HoldsMeans(p, ctx);
      SomeBlockedMeans(p, scan, ctx);
    }
  }

  /** Evaluation succeeds exactly for a prepared policy and readable matches, with the self-check's exception. */
  lemma EvaluatesExactly(p: Policy, scan: Scan, ctx: Context)
    ensures Evaluate(p, scan, ctx).Ok?
       <==> && Prepare(p, ctx).None? && (forall m :: Scanned(scan, m) ==> Readable(m))
            && !(p.mode == FixableSeverity && p.confirmed.Some? && exists m :: Scanned(scan, m) && Blocks(p, ctx, m))
  {
    hide Evaluate, Prepare, Classify, Blocks, Readable, Scanned, SomeBlocked, AllMatches, PolicyAccepted;
    EvaluateOk(p, scan, ctx);
    if Prepare(p, ctx).None? {
      PreparedIsAccepted(p, ctx);
      ScannedMeans(scan);
      forall m ensures Classify(p, ctx, m).Ok? <==> Readable(m) {
        ClassifiesExactly(p, ctx, m);
      }
      if (forall m :: m in AllMatches(scan) ==> Classify(p, ctx, m).Ok?) && p.mode == FixableSeverity {
        SomeBlockedMeans(p, scan, ctx);
      }
    }
  }

  /** One observation a match, in order, each saying what its match says; and where each is filed. */
  lemma ObservationsExactly(p: Policy, scan: Scan, ctx: Context)
    requires Evaluate(p, scan, ctx).Ok?
    ensures var v, ms := Evaluate(p, scan, ctx).value, scan.matches + scan.ignoredMatches;
            && |v.observations| == |ms|
            && (forall i :: 0 <= i < |ms| ==> Reports(v.observations[i], p, ctx, ms[i]))
            && (p.mode != MaintainerDecision ==> forall i :: 0 <= i < |ms| ==>
                  && (v.observations[i] in v.blocked <==> Blocks(p, ctx, ms[i]))
                  && (v.observations[i] in v.excepted <==> OnlyExempt(p, ctx, ms[i]))
                  && (v.observations[i] in v.advisories <==> !Blocks(p, ctx, ms[i]) && !OnlyExempt(p, ctx, ms[i]))
                  && (Blocks(p, ctx, ms[i]) ==> v.observations[i].reason == WhyBlocked(p, ms[i])))
  {
    hide Prepare, Classify, Findings, FindingsBound, Held, Blocks, OnlyExempt, WhyBlocked, Reports, PolicyAccepted,
         WithOutcome, ConfirmedHolds;
    var v, ms := Evaluate(p, scan, ctx).value, AllMatches(scan);
    PreparedIsAccepted(p, ctx);
    forall i | 0 <= i < |ms|
      ensures Reports(v.observations[i], p, ctx, ms[i])
      ensures p.mode != MaintainerDecision ==>
                && (v.observations[i].outcome == Blocked <==> Blocks(p, ctx, ms[i]))
                && (v.observations[i].outcome == Excepted <==> OnlyExempt(p, ctx, ms[i]))
                && (Blocks(p, ctx, ms[i]) ==> v.observations[i].reason == WhyBlocked(p, ms[i]))
    {
      FindingOf(p, ctx, ms, |ms|, i);
      ObservationReports(p, ctx, ms[i]);
      if p.mode != MaintainerDecision {
        OutcomeExactly(p, ctx, ms[i]);
      }
    }
    OutcomeMembers(v.observations, Blocked);
    OutcomeMembers(v.observations, Excepted);
    OutcomeMembers(v.observations, Advisory);
  }
}
