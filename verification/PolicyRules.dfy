/** Reviewed rule validation of scripts/bluebuild/security-policy.py. */
module PolicyRules {
  import opened Wrappers
  import Text

  // ----- Data -----

  /** Instants in seconds; reviews and scans are compared, never converted. */
  type Time = int

  const DAY := 86400
  const PLATFORM := "linux/amd64"

  datatype Disposition = Nonapplicable | Backported | Routine

  /** `wellFormed` is the verdict of the field-set, identity, wording and source-link checks. */
  datatype SeriousRule = SeriousRule(
    id: string, advisories: seq<string>, riskClass: string, reviewedAt: Time, wellFormed: bool)

  datatype ReviewedDisposition = ReviewedDisposition(
    id: string, advisories: seq<string>, digest: string, component: string, platform: string,
    locations: seq<string>, disposition: Disposition, reviewedAt: Time, expiresAt: Time, wellFormed: bool)

  datatype Rules = Rules(serious: seq<SeriousRule>, dispositions: seq<ReviewedDisposition>, maxExceptionDays: int)

  datatype RuleError = BadRule | OverlappingGroups | ConflictingScope

  // ----- Strings -----

  /** `bool(value.strip()) and value == value.strip()`. */
  predicate Nonempty(s: string) {
    s != [] && Text.Strip(s) == s
  }

  /** A path segment `PurePosixPath` keeps as it is, other than `..`. */
  predicate Segment(s: string) {
    s != "" && s != "." && s != ".."
  }

  /** An absolute path that is its own `PurePosixPath` text; `//` is a root of its own. */
  predicate CanonicalLocation(s: string) {
    && Nonempty(s) && s[0] == '/' && s != "/"
    && var rest := if |s| > 1 && s[1] == '/' then s[2..] else s[1..];
       rest == "" || forall part :: part in Text.SplitOn(rest, '/') ==> Segment(part)
  }

  ghost predicate Distinct(xs: seq<string>) {
    forall i, j :: 0 <= i < j < |xs| ==> xs[i] != xs[j]
  }

  /** `len(set(xs)) == len(xs)`. */
  predicate NoRepeats(xs: seq<string>)
    ensures NoRepeats(xs) <==> Distinct(xs)
  {
    if xs == [] then true
    else
      assert xs == [xs[0]] + xs[1..];
      xs[0] !in xs[1..] && NoRepeats(xs[1..])
  }

  // ----- What an accepted rule list is -----

  predicate GroupOk(advisories: seq<string>) {
    advisories != [] && |advisories| <= 64 && NoRepeats(advisories)
  }

  predicate SeriousOk(rule: SeriousRule, now: Time) {
    rule.wellFormed && GroupOk(rule.advisories) && rule.reviewedAt <= now
  }

  predicate DispositionOk(d: ReviewedDisposition, maxDays: int, now: Time) {
    && d.wellFormed && GroupOk(d.advisories) && d.reviewedAt <= now
    && d.reviewedAt < d.expiresAt <= d.reviewedAt + maxDays * DAY
    && d.platform == PLATFORM
    && d.locations != [] && |d.locations| <= 1024 && NoRepeats(d.locations)
    && forall v :: v in d.locations ==> CanonicalLocation(v)
  }

  ghost predicate Share(a: seq<string>, b: seq<string>) {
    exists x :: x in a && x in b
  }

  /** Two dispositions speak about the same advisory of the same component. */
  ghost predicate SameScope(d: ReviewedDisposition, e: ReviewedDisposition) {
    d.digest == e.digest && d.component == e.component && d.platform == e.platform && Share(d.advisories, e.advisories)
  }

  /** One of the first `n` serious rules names the advisory. */
  predicate SeriousWithin(rules: seq<SeriousRule>, n: nat, advisory: string)
    requires n <= |rules|
  {
    exists i :: 0 <= i < n && advisory in rules[i].advisories
  }

  predicate IsSerious(rules: seq<SeriousRule>, advisory: string) {
    SeriousWithin(rules, |rules|, advisory)
  }

  ghost predicate SeriousAccepted(rules: seq<SeriousRule>, n: nat, now: Time)
    requires n <= |rules|
  {
    && (forall i :: 0 <= i < n ==> SeriousOk(rules[i], now))
    && (forall i, j :: 0 <= i < j < n ==> rules[i].id != rules[j].id)
    && (forall i, j :: 0 <= i < j < n ==> !Share(rules[i].advisories, rules[j].advisories))
  }

  ghost predicate DispositionsAccepted(rules: Rules, n: nat, now: Time)
    requires n <= |rules.dispositions|
  {
    var ds := rules.dispositions;
    && (forall i :: 0 <= i < n ==> DispositionOk(ds[i], rules.maxExceptionDays, now))
    && (forall i, j :: 0 <= i < j < n ==> ds[i].id != ds[j].id)
    && (forall i, j :: 0 <= i < |rules.serious| && 0 <= j < n ==> rules.serious[i].id != ds[j].id)
  }

  ghost predicate ScopesAccepted(rules: Rules, n: nat)
    requires n <= |rules.dispositions|
  {
    var ds := rules.dispositions;
    && (forall i, j :: 0 <= i < j < n ==> !SameScope(ds[i], ds[j]))
    && (forall i :: 0 <= i < n ==> !WaivesSerious(rules.serious, ds[i]))
  }

  /** A routine disposition for an advisory that a serious rule names. */
  ghost predicate WaivesSerious(serious: seq<SeriousRule>, d: ReviewedDisposition) {
    d.disposition.Routine? && exists a :: a in d.advisories && IsSerious(serious, a)
  }

  /** The rule lists the validator accepts, said without its loops. */
  ghost predicate Accepted(rules: Rules, now: Time) {
    && SeriousAccepted(rules.serious, |rules.serious|, now)
    && DispositionsAccepted(rules, |rules.dispositions|, now)
    && ScopesAccepted(rules, |rules.dispositions|)
  }

  // ----- The validator -----

  /** The map from advisories to rules, after `n` of the serious rules. */
  ghost predicate Indexed(rules: seq<SeriousRule>, n: nat, serious: map<string, SeriousRule>)
    requires n <= |rules|
  {
    && (forall a :: a in serious <==> SeriousWithin(rules, n, a))
    && forall a :: a in serious ==> serious[a] in rules && a in serious[a].advisories
  }

  lemma IndexMore(rules: seq<SeriousRule>, n: nat, serious: map<string, SeriousRule>)
    requires n < |rules| && Indexed(rules, n, serious)
    ensures Indexed(rules, n + 1, serious + map a | a in rules[n].advisories :: rules[n])
  {
    forall a ensures SeriousWithin(rules, n + 1, a) <==> SeriousWithin(rules, n, a) || a in rules[n].advisories {
    }
  }

  lemma OverlapIsShare(rules: seq<SeriousRule>, n: nat)
    requires n < |rules|
    ensures (forall i :: 0 <= i < n ==> !Share(rules[i].advisories, rules[n].advisories))
       <==> (forall a :: a in rules[n].advisories ==> !SeriousWithin(rules, n, a))
  {
  }

  function IdsTo(rules: seq<SeriousRule>, n: nat): set<string>
    requires n <= |rules|
  {
    set i | 0 <= i < n :: rules[i].id
  }

  function DispositionIdsTo(ds: seq<ReviewedDisposition>, n: nat): set<string>
    requires n <= |ds|
  {
    set i | 0 <= i < n :: ds[i].id
  }

  lemma SeriousNext(rules: seq<SeriousRule>, n: nat, serious: map<string, SeriousRule>, now: Time)
    requires n < |rules| && SeriousAccepted(rules, n, now) && Indexed(rules, n, serious)
    ensures SeriousAccepted(rules, n + 1, now)
       <==> SeriousOk(rules[n], now) && rules[n].id !in IdsTo(rules, n)
            && !exists a :: a in rules[n].advisories && a in serious
    ensures IdsTo(rules, n + 1) == IdsTo(rules, n) + {rules[n].id}
  {
    hide Share, SeriousOk;
    OverlapIsShare(rules, n);
  }

  lemma SeriousPrefix(rules: seq<SeriousRule>, n: nat, now: Time)
    requires n <= |rules| && SeriousAccepted(rules, |rules|, now)
    ensures SeriousAccepted(rules, n, now)
  {
    hide Share, SeriousOk;
  }

  method CheckSerious(rules: seq<SeriousRule>, now: Time)
    returns (r: Result<map<string, SeriousRule>, RuleError>, ids: set<string>)
    ensures r.Ok? <==> SeriousAccepted(rules, |rules|, now)
    ensures r.Ok? ==> Indexed(rules, |rules|, r.value) && ids == IdsTo(rules, |rules|)
  {
    NoSerious(rules, now);
    hide *;
    ids := {};
    var serious: map<string, SeriousRule> := map[];
    for n := 0 to |rules|
      invariant SeriousAccepted(rules, n, now)
      invariant Indexed(rules, n, serious) && ids == IdsTo(rules, n)
    {
      var rule := rules[n];
      SeriousNext(rules, n, serious, now);
      if SeriousAccepted(rules, |rules|, now) {
        SeriousPrefix(rules, n + 1, now);
      }
      if !SeriousOk(rule, now) || rule.id in ids {
        return Err(BadRule), ids;
      }
      if exists a :: a in rule.advisories && a in serious {
        return Err(OverlappingGroups), ids;
      }
      IndexMore(rules, n, serious);
      ids := ids + {rule.id};
      serious := serious + map a | a in rule.advisories :: rule;
    }
    r := Ok(serious);
  }

  lemma NoSerious(rules: seq<SeriousRule>, now: Time)
    ensures SeriousAccepted(rules, 0, now) && Indexed(rules, 0, map[]) && IdsTo(rules, 0) == {}
  {
  }

  method CheckDispositions(rules: Rules, seen: set<string>, now: Time) returns (ok: bool)
    requires seen == IdsTo(rules.serious, |rules.serious|)
    ensures ok <==> DispositionsAccepted(rules, |rules.dispositions|, now)
  {
    hide DispositionOk;
    var ds, ids := rules.dispositions, seen;
    for n := 0 to |ds|
      invariant DispositionsAccepted(rules, n, now)
      invariant ids == seen + DispositionIdsTo(ds, n)
    {
      if ds[n].id in ids || !DispositionOk(ds[n], rules.maxExceptionDays, now) {
        return false;
      }
      ids := ids + {ds[n].id};
    }
    ok := true;
  }

  /** The key under which a disposition claims one advisory. */
  function Scope(d: ReviewedDisposition, advisory: string): (string, string, string, string) {
    (d.digest, d.component, d.platform, advisory)
  }

  ghost function ScopesOf(d: ReviewedDisposition): set<(string, string, string, string)> {
    set a | a in d.advisories :: Scope(d, a)
  }

  ghost predicate ScopeWithin(ds: seq<ReviewedDisposition>, n: nat, scope: (string, string, string, string))
    requires n <= |ds|
  {
    exists i :: 0 <= i < n && scope in ScopesOf(ds[i])
  }

  lemma SameScopeIsShared(d: ReviewedDisposition, e: ReviewedDisposition)
    ensures SameScope(d, e) <==> exists a :: a in e.advisories && Scope(e, a) in ScopesOf(d)
  {
    if SameScope(d, e) {
      var a :| a in d.advisories && a in e.advisories;
      assert Scope(e, a) == Scope(d, a);
    }
  }

  /** The inner loop: claim every advisory of one disposition. */
  method ClaimScopes(d: ReviewedDisposition, serious: map<string, SeriousRule>,
                     scopes: set<(string, string, string, string)>)
    returns (ok: bool, scopes': set<(string, string, string, string)>)
    requires Distinct(d.advisories)
    ensures ok <==> forall a :: a in d.advisories ==>
                      Scope(d, a) !in scopes && !(a in serious && d.disposition.Routine?)
    ensures ok ==> scopes' == scopes + ScopesOf(d)
  {
    scopes' := scopes;
    ghost var claimed: set<string> := {};
    for k := 0 to |d.advisories|
      invariant claimed == set i | 0 <= i < k :: d.advisories[i]
      invariant scopes' == scopes + set a | a in claimed :: Scope(d, a)
      invariant forall i :: 0 <= i < k ==>
                  Scope(d, d.advisories[i]) !in scopes && !(d.advisories[i] in serious && d.disposition.Routine?)
    {
      var advisory := d.advisories[k];
      if Scope(d, advisory) in scopes' || (advisory in serious && d.disposition.Routine?) {
        return false, scopes';
      }
      scopes' := scopes' + {Scope(d, advisory)};
      claimed := claimed + {advisory};
    }
    assert claimed == set a | a in d.advisories;
    ok := true;
  }

  method CheckScopes(rules: Rules, serious: map<string, SeriousRule>, now: Time) returns (ok: bool)
    requires DispositionsAccepted(rules, |rules.dispositions|, now)
    requires Indexed(rules.serious, |rules.serious|, serious)
    ensures ok <==> ScopesAccepted(rules, |rules.dispositions|)
  {
    hide SameScope, WaivesSerious, ScopesOf, Scope;
    var ds, scopes := rules.dispositions, {};
    for n := 0 to |ds|
      invariant ScopesAccepted(rules, n)
      invariant forall s :: s in scopes <==> ScopeWithin(ds, n, s)
    {
      assert Distinct(ds[n].advisories);
      var claimed, scopes' := ClaimScopes(ds[n], serious, scopes);
      ClaimMeans(rules, n, serious, scopes);
      if !claimed {
        return false;
      }
      forall s ensures ScopeWithin(ds, n + 1, s) <==> ScopeWithin(ds, n, s) || s in ScopesOf(ds[n]) {
      }
      scopes := scopes';
    }
    ok := true;
  }

  lemma ClaimMeans(rules: Rules, n: nat, serious: map<string, SeriousRule>,
                   scopes: set<(string, string, string, string)>)
    requires n < |rules.dispositions|
    requires Indexed(rules.serious, |rules.serious|, serious)
    requires forall s :: s in scopes <==> ScopeWithin(rules.dispositions, n, s)
    ensures var d := rules.dispositions[n];
            ((forall a :: a in d.advisories ==> Scope(d, a) !in scopes && !(a in serious && d.disposition.Routine?))
             <==> (forall i :: 0 <= i < n ==> !SameScope(rules.dispositions[i], d)) && !WaivesSerious(rules.serious, d))
  {
    hide SameScope, ScopesOf, Scope, SeriousWithin;
    var ds, d := rules.dispositions, rules.dispositions[n];
    forall i | 0 <= i < n
      ensures SameScope(ds[i], d) <==> exists a :: a in d.advisories && Scope(d, a) in ScopesOf(ds[i])
    {
      SameScopeIsShared(ds[i], d);
    }
  }

  /** `reviewed_rules`: accepts exactly the accepted lists, and indexes the serious rules. */
  method ReviewedRules(rules: Rules, now: Time) returns (r: Result<map<string, SeriousRule>, RuleError>)
    ensures r.Ok? <==> Accepted(rules, now)
    ensures r.Ok? ==> Indexed(rules.serious, |rules.serious|, r.value)
  {
    hide SeriousAccepted, DispositionsAccepted, ScopesAccepted, Indexed;
    var serious, ids := CheckSerious(rules.serious, now);
    if serious.Err? {
      return serious;
    }
    var dispositions := CheckDispositions(rules, ids, now);
    if !dispositions {
      return Err(BadRule);
    }
    var scopes := CheckScopes(rules, serious.value, now);
    r := if scopes then serious else Err(ConflictingScope);
  }
}
