/** The verdict engine of scripts/bluebuild/security-policy.py. */
module SecurityPolicy {
  import opened Wrappers
  import opened StringSets
  import opened PolicyRules

  // ----- Policy -----

  datatype Mode = FixableSeverity | UpstreamMaintainedRisk | DesktopCriticalOnly | MaintainerDecision

  datatype Severity = Unknown | Negligible | Low | Medium | High | Critical

  datatype Blocker = Blocker(
    id: string, profiles: seq<string>, severity: Severity, advisories: seq<string>, reviewedAt: Time, wellFormed: bool)

  datatype Risk = Risk(
    id: string, digest: string, profile: string, component: string, advisories: seq<string>,
    locations: seq<string>, reviewedAt: Time, wellFormed: bool)

  datatype Exemption = Exemption(
    digest: string, component: string, advisory: string, approvedAt: Time, expiresAt: Time, wellFormed: bool)

  /**
   * `confirmed` are the risks of a policy that names the reviewed blocking basis, in whatever
   * mode; to name it without a list of risks is not well formed.
   */
  datatype Policy = Policy(
    mode: Mode, rules: Rules, blockers: seq<Blocker>, confirmed: Option<seq<Risk>>, exceptions: seq<Exemption>,
    blockKnownExploited: bool, blockedSeverities: set<Severity>, wellFormed: bool)

  predicate BlockerOk(b: Blocker, critical: bool, now: Time) {
    && b.wellFormed && b.profiles != [] && NoRepeats(b.profiles) && b.reviewedAt <= now
    && (critical ==> |b.advisories| <= 64 && NoRepeats(b.advisories) && (b.severity.Critical? ==> b.advisories != []))
  }

  ghost predicate BlockersAccepted(p: Policy, now: Time) {
    && |p.blockers| <= 128
    && (forall i, j :: 0 <= i < j < |p.blockers| ==> p.blockers[i].id != p.blockers[j].id)
    && forall i :: 0 <= i < |p.blockers| ==> BlockerOk(p.blockers[i], p.mode.DesktopCriticalOnly?, now)
  }

  predicate RiskOk(r: Risk, now: Time) {
    && r.wellFormed && Nonempty(r.id) && GroupOk(r.advisories) && r.reviewedAt <= now
    && r.locations != [] && |r.locations| <= 64 && NoRepeats(r.locations)
    && forall v :: v in r.locations ==> CanonicalLocation(v)
  }

  ghost predicate RisksAccepted(risks: seq<Risk>, now: Time) {
    && |risks| <= 128
    && (forall i, j :: 0 <= i < j < |risks| ==> risks[i].id != risks[j].id)
    && forall i :: 0 <= i < |risks| ==> RiskOk(risks[i], now)
  }

  predicate ExceptionsAccepted(p: Policy, now: Time) {
    forall i :: 0 <= i < |p.exceptions| ==>
      var e := p.exceptions[i];
      && e.wellFormed && e.approvedAt <= now
      && e.approvedAt < e.expiresAt <= e.approvedAt + p.rules.maxExceptionDays * DAY
  }

  predicate Reviewing(mode: Mode) {
    mode.UpstreamMaintainedRisk? || mode.DesktopCriticalOnly?
  }

  /** `validate_policy`. Only a reviewing mode restricts the blocking basis. */
  ghost predicate PolicyAccepted(p: Policy, now: Time) {
    && p.wellFormed
    && (p.mode.MaintainerDecision? || p.mode.UpstreamMaintainedRisk? ==> p.confirmed.None?)
    && (p.mode.UpstreamMaintainedRisk? ==> p.blockKnownExploited)
    && (p.mode.DesktopCriticalOnly? ==> !p.blockKnownExploited && p.blockedSeverities == {Critical})
    && (p.mode.DesktopCriticalOnly? && p.confirmed.Some? ==> RisksAccepted(p.confirmed.value, now))
    && (Reviewing(p.mode) ==>
          1 <= p.rules.maxExceptionDays <= 30 && Accepted(p.rules, now) && BlockersAccepted(p, now))
  }

  // ----- Scan -----

  datatype Vulnerability = Vulnerability(id: string, severity: Severity, knownExploited: bool)

  datatype Related = Related(id: Option<string>, severity: Option<Severity>, knownExploited: bool)

  /** Each location record lists the paths it has; `purl` is empty when it is missing. */
  datatype Artifact = Artifact(purl: string, id: string, locations: seq<seq<string>>)

  datatype FixState = Unspecified | Fixed | NotFixed | UnknownFix | WontFix

  /** `wellTyped` is the verdict of the shape checks and of the related-identifier syntax. */
  datatype Match = Match(
    vulnerability: Vulnerability, related: seq<Related>, artifact: Artifact,
    fixState: FixState, fixVersions: seq<string>, wellTyped: bool)

  datatype Scan = Scan(matches: seq<Match>, ignoredMatches: seq<Match>)

  /** Grype's own suppressions do not hide a match. */
  function AllMatches(scan: Scan): seq<Match> {
    scan.matches + scan.ignoredMatches
  }

  /**
   * The image and moment; `profile` comes from the approved baseline, `prefix` from a
   * directory scan, and `healthy` is the verdict of the inventory, source, freshness and
   * database coverage checks.
   */
  datatype Context = Context(digest: string, profile: string, now: Time, prefix: string, healthy: bool)

  datatype Outcome = Blocked | Excepted | Advisory

  datatype Reason =
    | KnownExploited | FixableSeverityReason | OutsideLegacyScope
    | CriticalUnresolved | CriticalPendingReview | BelowCriticalThreshold
    | ReviewedSeriousRisk | UntriagedCritical | ReviewedAs(disposition: Disposition)
    | MaintainedUpstreamAdvisory | ConfirmedExploitability | NotDecided

  datatype Finding = Finding(
    component: string, advisory: string, severity: Severity, knownExploited: bool,
    aliases: seq<string>, locations: seq<string>, complete: bool,
    outcome: Outcome, reason: Reason, confirmedReviews: seq<string>)

  datatype EvalError =
    | PolicyRejected | RisksRejected | NoBaseline | EvidenceUnhealthy | ExceptionsRejected
    | InvalidMatch | NoComponent | Ambiguous | SelfCheckFailed

  // ----- Matching -----

  function RelatedIds(related: seq<Related>): seq<string> {
    if related == [] then []
    else
      (if related[0].id.Some? && Nonempty(related[0].id.value) then [related[0].id.value] else [])
      + RelatedIds(related[1..])
  }

  /** The sorted set of identifiers of the finding and everything related to it. */
  function Aliases(m: Match): seq<string> {
    SortedSet((if Nonempty(m.vulnerability.id) then [m.vulnerability.id] else []) + RelatedIds(m.related))
  }

  predicate Known(m: Match) {
    m.vulnerability.knownExploited || exists i :: 0 <= i < |m.related| && m.related[i].knownExploited
  }

  predicate IsCritical(m: Match) {
    m.vulnerability.severity.Critical? || exists i :: 0 <= i < |m.related| && m.related[i].severity == Some(Critical)
  }

  function Component(a: Artifact): string {
    if a.purl != [] then a.purl else a.id
  }

  predicate StartsWith(s: string, prefix: string) {
    |prefix| <= |s| && s[..|prefix|] == prefix
  }

  /** A scanner path below the image root, or nothing when it cannot be trusted. */
  function Normalized(value: string, prefix: string): (r: Option<string>)
    ensures r.Some? ==> CanonicalLocation(r.value)
  {
    if !CanonicalLocation(value) then None
    else
      var v := if prefix != [] && StartsWith(value, prefix + "/") then value[|prefix|..] else value;
      if CanonicalLocation(v) then Some(v) else None
  }

  function Paths(values: seq<string>, prefix: string): (r: seq<string>)
    ensures forall i :: 0 <= i < |r| ==> CanonicalLocation(r[i])
  {
    if values == [] then []
    else
      var v := Normalized(values[0], prefix);
      (if v.Some? then [v.value] else []) + Paths(values[1..], prefix)
  }

  function RecordPaths(records: seq<seq<string>>, prefix: string): (r: seq<string>)
    ensures forall i :: 0 <= i < |r| ==> CanonicalLocation(r[i])
  {
    if records == [] then [] else Paths(records[0], prefix) + RecordPaths(records[1..], prefix)
  }

  predicate RecordsComplete(records: seq<seq<string>>, prefix: string) {
    forall i :: 0 <= i < |records| ==>
      records[i] != [] && forall v :: v in records[i] ==> Normalized(v, prefix).Some?
  }

  /** The canonical shipped paths, and whether they are all the evidence says there are. */
  function ComponentLocations(a: Artifact, prefix: string): (seq<string>, bool) {
    (SortedSet(RecordPaths(a.locations, prefix)), a.locations != [] && RecordsComplete(a.locations, prefix))
  }

  predicate Subset(xs: seq<string>, ys: seq<string>) {
    forall x :: x in xs ==> x in ys
  }

  predicate Meet(xs: seq<string>, ys: seq<string>) {
    exists x :: x in xs && x in ys
  }

  /** A reviewed disposition that speaks about this occurrence. */
  predicate Qualifies(d: ReviewedDisposition, m: Match, ctx: Context) {
    var (locations, complete) := ComponentLocations(m.artifact, ctx.prefix);
    && d.digest == ctx.digest && d.component == Component(m.artifact) && d.expiresAt > ctx.now
    && Subset(Aliases(m), d.advisories) && complete && Subset(locations, d.locations)
  }

  function Proof(ds: seq<ReviewedDisposition>, m: Match, ctx: Context): seq<ReviewedDisposition> {
    if ds == [] then []
    else (if Qualifies(ds[0], m, ctx) then [ds[0]] else []) + Proof(ds[1..], m, ctx)
  }

  /** A hold names this component, one of its aliases and one of its locations. */
  predicate Confirms(r: Risk, component: string, aliases: seq<string>, locations: seq<string>) {
    r.component == component && Meet(aliases, r.advisories) && Meet(locations, r.locations)
  }

  function ConfirmingIds(holds: seq<Risk>, component: string, aliases: seq<string>,
                         locations: seq<string>): seq<string> {
    if holds == [] then []
    else
      (if Confirms(holds[0], component, aliases, locations) then [holds[0].id] else [])
      + ConfirmingIds(holds[1..], component, aliases, locations)
  }

  // ----- Holds -----

  function ConfirmedHolds(risks: seq<Risk>, ctx: Context): seq<Risk> {
    if risks == [] then []
    else
      (if risks[0].digest == ctx.digest && risks[0].profile == ctx.profile then [risks[0]] else [])
      + ConfirmedHolds(risks[1..], ctx)
  }

  predicate BlockerHolds(b: Blocker, p: Policy, ctx: Context) {
    ctx.profile in b.profiles && (p.mode.DesktopCriticalOnly? ==> b.severity.Critical?)
  }

  /** Something independent of the scan holds the release. */
  predicate Held(p: Policy, ctx: Context) {
    if p.mode.FixableSeverity? || p.mode.MaintainerDecision? then false
    else if p.confirmed.Some? then ConfirmedHolds(p.confirmed.value, ctx) != []
    else exists i :: 0 <= i < |p.blockers| && BlockerHolds(p.blockers[i], p, ctx)
  }

  predicate Excepts(e: Exemption, m: Match, ctx: Context) {
    && e.digest == ctx.digest && e.expiresAt > ctx.now && e.component == Component(m.artifact)
    && e.advisory == m.vulnerability.id
  }

  // ----- One match -----

  predicate SeriousMatch(p: Policy, m: Match) {
    exists a :: a in Aliases(m) && IsSerious(p.rules.serious, a)
  }

  function RiskOutcome(p: Policy, ctx: Context, m: Match, proof: seq<ReviewedDisposition>): (Outcome, Reason)
  {
    var cleared := proof != [] && !proof[0].disposition.Routine?;
    if p.mode.DesktopCriticalOnly? then
      if IsCritical(m) && !cleared then
        if p.confirmed.Some? then (Advisory, CriticalUnresolved) else (Blocked, CriticalPendingReview)
      else (Advisory, if cleared then ReviewedAs(proof[0].disposition) else BelowCriticalThreshold)
    else if Known(m) && p.blockKnownExploited then (Blocked, KnownExploited)
    else if SeriousMatch(p, m) && !cleared then (Blocked, ReviewedSeriousRisk)
    else if IsCritical(m) && proof == [] then (Blocked, UntriagedCritical)
    else (Advisory, if proof != [] then ReviewedAs(proof[0].disposition) else MaintainedUpstreamAdvisory)
  }

  function LegacyOutcome(p: Policy, ctx: Context, m: Match): (Outcome, Reason) {
    var known := Known(m) && p.blockKnownExploited;
    var severe := m.fixState.Fixed? && m.fixVersions != [] && m.vulnerability.severity in p.blockedSeverities;
    var excepted := severe && !known && exists i :: 0 <= i < |p.exceptions| && Excepts(p.exceptions[i], m, ctx);
    (if known || (severe && !excepted) then Blocked else if excepted then Excepted else Advisory,
     if known then KnownExploited else if severe then FixableSeverityReason else OutsideLegacyScope)
  }

  predicate MatchOk(m: Match) {
    && m.wellTyped && Nonempty(m.vulnerability.id)
    && (m.fixState.Unspecified? ==> m.fixVersions == [])
  }

  /** The verdict on one match, as `evaluate`'s loop body reaches it. */
  function Classify(p: Policy, ctx: Context, m: Match): (r: Result<Finding, EvalError>)
  {
    if !MatchOk(m) then Err(InvalidMatch)
    else if !Nonempty(Component(m.artifact)) then Err(NoComponent)
    else
      var (locations, complete) := ComponentLocations(m.artifact, ctx.prefix);
      var base := Finding(Component(m.artifact), m.vulnerability.id, m.vulnerability.severity, Known(m),
                          Aliases(m), locations, complete, Advisory, NotDecided, []);
      if p.mode.MaintainerDecision? then Ok(base)
      else if p.mode.FixableSeverity? then
        var (outcome, reason) := LegacyOutcome(p, ctx, m);
        Ok(base.(outcome := outcome, reason := reason))
      else
        var proof := Proof(p.rules.dispositions, m, ctx);
        if |proof| > 1 then Err(Ambiguous)
        else
          var (outcome, reason) := RiskOutcome(p, ctx, m, proof);
          var confirmed := if p.confirmed.Some? && complete
            then ConfirmingIds(ConfirmedHolds(p.confirmed.value, ctx), base.component, base.aliases, locations) else [];
          if confirmed != [] then
            Ok(base.(outcome := Blocked, reason := ConfirmedExploitability, confirmedReviews := SortedList(confirmed)))
          else Ok(base.(outcome := outcome, reason := reason))
  }

  // ----- The whole evaluation -----

  /** The findings of the first `n` matches. */
  function Findings(p: Policy, ctx: Context, ms: seq<Match>, n: nat): (r: Result<seq<Finding>, EvalError>)
    requires n <= |ms|
    ensures r.Ok? ==> |r.value| == n
  {
    if n == 0 then Ok([])
    else
      var before := Findings(p, ctx, ms, n - 1);
      if before.Err? then before
      else
        var f := Classify(p, ctx, ms[n - 1]);
        if f.Err? then Err(f.error) else Ok(before.value + [f.value])
  }

  function WithOutcome(fs: seq<Finding>, outcome: Outcome): seq<Finding> {
    if fs == [] then []
    else WithOutcome(fs[..|fs| - 1], outcome) + if fs[|fs| - 1].outcome == outcome then [fs[|fs| - 1]] else []
  }

  datatype Status = Pass | BlockedRelease | Complete

  datatype Verdict = Verdict(
    status: Status, blocked: seq<Finding>, excepted: seq<Finding>, advisories: seq<Finding>, observations: seq<Finding>)

  /** A list of selectors: not empty, no blank entry, no repeated entry. */
  predicate Selectors(xs: seq<string>) {
    xs != [] && NoRepeats(xs) && forall x :: x in xs ==> Nonempty(x)
  }

  /** `validate_confirmed_findings`, for one finding. */
  predicate FindingBound(f: Finding, holds: seq<Risk>) {
    && f.outcome.Blocked? && f.reason.ConfirmedExploitability? && Nonempty(f.component) && f.complete
    && Selectors(f.confirmedReviews) && Selectors(f.aliases) && Selectors(f.locations)
    && (forall v :: v in f.locations ==> CanonicalLocation(v))
    && var expected := SortedList(ConfirmingIds(holds, f.component, f.aliases, f.locations));
       expected != [] && f.confirmedReviews == expected
  }

  predicate FindingsBound(fs: seq<Finding>, holds: seq<Risk>) {
    forall i :: 0 <= i < |fs| ==> FindingBound(fs[i], holds)
  }

  function VerdictOf(p: Policy, ctx: Context, fs: seq<Finding>): Verdict {
    if p.mode.MaintainerDecision? then Verdict(Complete, [], [], [], fs)
    else
      var blocked := WithOutcome(fs, Blocked);
      Verdict(if blocked != [] || Held(p, ctx) then BlockedRelease else Pass,
              blocked, WithOutcome(fs, Excepted), WithOutcome(fs, Advisory), fs)
  }

  /** A risk of this image in a mode without baseline: reading the baseline's profile crashes. */
  predicate MissesBaseline(p: Policy, ctx: Context) {
    p.mode.FixableSeverity? && p.confirmed.Some?
    && exists i :: 0 <= i < |p.confirmed.value| && p.confirmed.value[i].digest == ctx.digest
  }

  /** What `evaluate` checks before it looks at the matches. */
  ghost function Prepare(p: Policy, ctx: Context): Option<EvalError> {
    if !PolicyAccepted(p, ctx.now) then Some(PolicyRejected)
    else if p.confirmed.Some? && !RisksAccepted(p.confirmed.value, ctx.now) then Some(RisksRejected)
    else if MissesBaseline(p, ctx) then Some(NoBaseline)
    else if !ctx.healthy then Some(EvidenceUnhealthy)
    else if !p.mode.MaintainerDecision? && !ExceptionsAccepted(p, ctx.now) then Some(ExceptionsRejected)
    else None
  }

  ghost function Evaluate(p: Policy, scan: Scan, ctx: Context): Result<Verdict, EvalError> {
    var ms := AllMatches(scan);
    var fs := Findings(p, ctx, ms, |ms|);
    if Prepare(p, ctx).Some? then Err(Prepare(p, ctx).value)
    else if fs.Err? then Err(fs.error)
    else
      var v := VerdictOf(p, ctx, fs.value);
      if p.confirmed.Some? && !FindingsBound(v.blocked, ConfirmedHolds(p.confirmed.value, ctx)) then
        Err(SelfCheckFailed)
      else Ok(v)
  }

  // ----- The loops -----

  method CheckBlockers(p: Policy, now: Time) returns (ok: bool)
    ensures ok <==> BlockersAccepted(p, now)
  {
    hide BlockerOk;
    if |p.blockers| > 128 {
      return false;
    }
    var ids: set<string> := {};
    for n := 0 to |p.blockers|
      invariant ids == set i | 0 <= i < n :: p.blockers[i].id
      invariant forall i, j :: 0 <= i < j < n ==> p.blockers[i].id != p.blockers[j].id
      invariant forall i :: 0 <= i < n ==> BlockerOk(p.blockers[i], p.mode.DesktopCriticalOnly?, now)
    {
      if p.blockers[n].id in ids || !BlockerOk(p.blockers[n], p.mode.DesktopCriticalOnly?, now) {
        return false;
      }
      ids := ids + {p.blockers[n].id};
    }
    ok := true;
  }

  method CheckRisks(risks: seq<Risk>, now: Time) returns (ok: bool)
    ensures ok <==> RisksAccepted(risks, now)
  {
    hide RiskOk;
    if |risks| > 128 {
      return false;
    }
    var ids: set<string> := {};
    for n := 0 to |risks|
      invariant ids == set i | 0 <= i < n :: risks[i].id
      invariant forall i, j :: 0 <= i < j < n ==> risks[i].id != risks[j].id
      invariant forall i :: 0 <= i < n ==> RiskOk(risks[i], now)
    {
      if risks[n].id in ids || !RiskOk(risks[n], now) {
        return false;
      }
      ids := ids + {risks[n].id};
    }
    ok := true;
  }

  method ValidatePolicy(p: Policy, now: Time) returns (ok: bool)
    ensures ok <==> PolicyAccepted(p, now)
  {
    hide Accepted, BlockersAccepted, RisksAccepted, ExceptionsAccepted;
    if !p.wellFormed || (p.mode.MaintainerDecision? && p.confirmed.Some?) {
      return false;
    }
    ok := true;
    if Reviewing(p.mode) {
      if p.confirmed.Some? && !p.mode.DesktopCriticalOnly? {
        return false;
      }
      if p.mode.UpstreamMaintainedRisk? && !p.blockKnownExploited {
        return false;
      }
      if p.mode.DesktopCriticalOnly? && (p.blockKnownExploited || p.blockedSeverities != {Critical}) {
        return false;
      }
      if !(1 <= p.rules.maxExceptionDays <= 30) {
        return false;
      }
      var serious := ReviewedRules(p.rules, now);
      var blockers := CheckBlockers(p, now);
      if serious.Err? || !blockers {
        return false;
      }
      if p.confirmed.Some? {
        ok := CheckRisks(p.confirmed.value, now);
      }
    }
  }

  /** The checks of `evaluate` before its loop, in their order. */
  method PrepareScan(p: Policy, ctx: Context) returns (error: Option<EvalError>)
    ensures error == Prepare(p, ctx)
  {
    hide PolicyAccepted, RisksAccepted, ExceptionsAccepted;
    var accepted := ValidatePolicy(p, ctx.now);
    if !accepted {
      return Some(PolicyRejected);
    }
    if p.confirmed.Some? {
      var risks := CheckRisks(p.confirmed.value, ctx.now);
      if !risks {
        return Some(RisksRejected);
      }
      if MissesBaseline(p, ctx) {
        return Some(NoBaseline);
      }
    }
    if !ctx.healthy {
      return Some(EvidenceUnhealthy);
    }
    if !p.mode.MaintainerDecision? && !ExceptionsAccepted(p, ctx.now) {
      return Some(ExceptionsRejected);
    }
    error := None;
  }

  lemma PathsFrom(values: seq<string>, prefix: string, n: nat)
    requires n < |values|
    ensures var v := Normalized(values[n], prefix);
            Paths(values[n..], prefix) == (if v.Some? then [v.value] else []) + Paths(values[n + 1..], prefix)
  {
    hide Normalized;
    assert values[n..][1..] == values[n + 1..];
  }

  lemma RecordPathsFrom(records: seq<seq<string>>, prefix: string, n: nat)
    requires n < |records|
    ensures RecordPaths(records[n..], prefix) == Paths(records[n], prefix) + RecordPaths(records[n + 1..], prefix)
  {
    hide Paths;
    assert records[n..][1..] == records[n + 1..];
  }

  /** The loop over the paths of one location record. */
  method CollectRecord(values: seq<string>, prefix: string) returns (paths: seq<string>, complete: bool)
    ensures paths == Paths(values, prefix)
    ensures complete <==> values != [] && forall v :: v in values ==> Normalized(v, prefix).Some?
  {
    hide Normalized, Paths;
    paths, complete := [], values != [];
    assert values[0..] == values;
    for n := 0 to |values|
      invariant paths + Paths(values[n..], prefix) == Paths(values, prefix)
      invariant complete <==> values != [] && forall i :: 0 <= i < n ==> Normalized(values[i], prefix).Some?
    {
      PathsFrom(values, prefix, n);
      var v := Normalized(values[n], prefix);
      if v.None? {
        complete := false;
      } else {
        paths := paths + [v.value];
      }
    }
    NoPaths(values, prefix);
    assert (forall v :: v in values ==> Normalized(v, prefix).Some?)
      <==> (forall i :: 0 <= i < |values| ==> Normalized(values[i], prefix).Some?);
  }

  lemma NoPaths(values: seq<string>, prefix: string)
    ensures Paths(values[|values|..], prefix) == []
  {
  }

  lemma NoRecordPaths(records: seq<seq<string>>, prefix: string)
    ensures RecordPaths(records[|records|..], prefix) == []
  {
  }

  /** `component_locations`. */
  method CollectLocations(a: Artifact, prefix: string) returns (locations: seq<string>, complete: bool)
    ensures (locations, complete) == ComponentLocations(a, prefix)
  {
    hide Normalized, Paths, RecordPaths, SortedSet;
    var records, paths := a.locations, [];
    complete := records != [];
    assert records[0..] == records;
    for n := 0 to |records|
      invariant paths + RecordPaths(records[n..], prefix) == RecordPaths(records, prefix)
      invariant complete <==> records != [] && forall i :: 0 <= i < n ==>
                  records[i] != [] && forall v :: v in records[i] ==> Normalized(v, prefix).Some?
    {
      RecordPathsFrom(records, prefix, n);
      var more, whole := CollectRecord(records[n], prefix);
      paths := paths + more;
      complete := complete && whole;
    }
    NoRecordPaths(records, prefix);
    assert paths + [] == paths;
    locations := SortedSet(paths);
  }

  lemma {:induction false} FirstErrorStays(p: Policy, ctx: Context, ms: seq<Match>, n: nat)
    requires n <= |ms| && Findings(p, ctx, ms, n).Err?
    ensures Findings(p, ctx, ms, |ms|) == Findings(p, ctx, ms, n)
    decreases |ms| - n
  {
    hide Classify;
    if n < |ms| {
      FirstErrorStays(p, ctx, ms, n + 1);
    }
  }

  /** A finding joins the list its outcome names. */
  lemma Filed(fs: seq<Finding>, f: Finding, outcome: Outcome)
    ensures WithOutcome(fs + [f], outcome)
         == if f.outcome == outcome then WithOutcome(fs, outcome) + [f] else WithOutcome(fs, outcome)
  {
    assert (fs + [f])[..|fs|] == fs;
  }

  /** `evaluate`: one pass over all matches, filing each finding where it belongs. */
  method EvaluateScan(p: Policy, scan: Scan, ctx: Context) returns (r: Result<Verdict, EvalError>)
    ensures r == Evaluate(p, scan, ctx)
  {
    hide Prepare, Classify, WithOutcome, Held, FindingsBound, ConfirmedHolds;
    var error := PrepareScan(p, ctx);
    if error.Some? {
      return Err(error.value);
    }
    var ms := AllMatches(scan);
    var blocked: seq<Finding>, excepted: seq<Finding> := [], [];
    var advisories: seq<Finding>, observations: seq<Finding> := [], [];
    NothingFiled();
    for n := 0 to |ms|
      invariant Findings(p, ctx, ms, n) == Ok(observations)
      invariant !p.mode.MaintainerDecision? ==>
                  && blocked == WithOutcome(observations, Blocked)
                  && excepted == WithOutcome(observations, Excepted)
                  && advisories == WithOutcome(observations, Advisory)
      invariant p.mode.MaintainerDecision? ==> blocked == excepted == advisories == []
    {
      var f := Classify(p, ctx, ms[n]);
      if f.Err? {
        FirstErrorStays(p, ctx, ms, n + 1);
        return Err(f.error);
      }
      Filed(observations, f.value, Blocked);
      Filed(observations, f.value, Excepted);
      Filed(observations, f.value, Advisory);
      if !p.mode.MaintainerDecision? {
        match f.value.outcome
        case Blocked => blocked := blocked + [f.value];
        case Excepted => excepted := excepted + [f.value];
        case Advisory => advisories := advisories + [f.value];
      }
      observations := observations + [f.value];
    }
    var status := if p.mode.MaintainerDecision? then Complete
                  else if blocked != [] || Held(p, ctx) then BlockedRelease else Pass;
    if p.confirmed.Some? && !FindingsBound(blocked, ConfirmedHolds(p.confirmed.value, ctx)) {
      return Err(SelfCheckFailed);
    }
    r := Ok(Verdict(status, blocked, excepted, advisories, observations));
  }

  lemma NothingFiled()
    ensures forall outcome :: WithOutcome([], outcome) == []
  {
  }
}
