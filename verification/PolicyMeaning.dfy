/** What an accepted policy of scripts/bluebuild/security-policy.py is, in terms of its fields alone. */
module PolicyMeaning {
  import opened Wrappers
  import Text
  import opened StringSets
  import opened PolicyRules
  import opened SecurityPolicy

  ghost predicate NoneTwice(xs: seq<string>) {
    forall i, j :: 0 <= i < j < |xs| ==> xs[i] != xs[j]
  }

  /** The rule lists that `reviewed_rules` accepts. */
  lemma AcceptedRulesExactly(rules: Rules, now: Time)
    ensures var serious, reviewed := rules.serious, rules.dispositions;
            Accepted(rules, now) <==>
              && (forall r :: r in serious ==>
                    r.wellFormed && 1 <= |r.advisories| <= 64 && NoneTwice(r.advisories) && r.reviewedAt <= now)
              && (forall d :: d in reviewed ==>
                    && d.wellFormed && 1 <= |d.advisories| <= 64 && NoneTwice(d.advisories) && d.reviewedAt <= now
                    && d.reviewedAt < d.expiresAt <= d.reviewedAt + rules.maxExceptionDays * 86400
                    && d.platform == "linux/amd64" && 1 <= |d.locations| <= 1024 && NoneTwice(d.locations)
                    && forall v :: v in d.locations ==> CanonicalLocation(v))
              && (forall i, j :: 0 <= i < j < |serious| ==>
                    serious[i].id != serious[j].id
                    && forall a :: a in serious[i].advisories ==> a !in serious[j].advisories)
              && (forall i, j :: 0 <= i < j < |reviewed| ==>
                    reviewed[i].id != reviewed[j].id
                    && (reviewed[i].digest == reviewed[j].digest && reviewed[i].component == reviewed[j].component
                        && reviewed[i].platform == reviewed[j].platform ==>
                          forall a :: a in reviewed[i].advisories ==> a !in reviewed[j].advisories))
              && (forall r, d :: r in serious && d in reviewed ==>
                    r.id != d.id && (d.disposition == Routine ==> forall a :: a in r.advisories ==> a !in d.advisories))
  {
  }

  lemma AcceptedBlockersExactly(p: Policy, now: Time)
    ensures BlockersAccepted(p, now) <==>
              && |p.blockers| <= 128
              && (forall i, j :: 0 <= i < j < |p.blockers| ==> p.blockers[i].id != p.blockers[j].id)
              && forall b :: b in p.blockers ==>
                   && b.wellFormed && b.profiles != [] && NoneTwice(b.profiles) && b.reviewedAt <= now
                   && (p.mode == DesktopCriticalOnly ==>
                         && |b.advisories| <= 64 && NoneTwice(b.advisories)
                         && (b.severity == Critical ==> b.advisories != []))
  {
    forall i | 0 <= i < |p.blockers| ensures p.blockers[i] in p.blockers {
    }
  }

  lemma AcceptedRisksExactly(risks: seq<Risk>, now: Time)
    ensures RisksAccepted(risks, now) <==>
              && |risks| <= 128
              && (forall i, j :: 0 <= i < j < |risks| ==> risks[i].id != risks[j].id)
              && forall r :: r in risks ==>
                   && r.wellFormed && Nonempty(r.id) && r.reviewedAt <= now
                   && 1 <= |r.advisories| <= 64 && NoneTwice(r.advisories)
                   && 1 <= |r.locations| <= 64 && NoneTwice(r.locations)
                   && forall v :: v in r.locations ==> CanonicalLocation(v)
  {
    hide Nonempty, CanonicalLocation;
    forall i | 0 <= i < |risks| ensures risks[i] in risks {
    }
  }

  /** The policies that `validate_policy` accepts: what each mode demands, and nothing else. */
  lemma AcceptedPolicyExactly(p: Policy, now: Time)
    ensures PolicyAccepted(p, now) <==>
              && p.wellFormed
              && match p.mode
                 case FixableSeverity => true
                 case MaintainerDecision => p.confirmed.None?
                 case UpstreamMaintainedRisk =>
                   && p.confirmed.None? && p.blockKnownExploited
                   && 1 <= p.rules.maxExceptionDays <= 30 && Accepted(p.rules, now) && BlockersAccepted(p, now)
                 case DesktopCriticalOnly =>
                   && !p.blockKnownExploited && p.blockedSeverities == {Critical}
                   && 1 <= p.rules.maxExceptionDays <= 30 && Accepted(p.rules, now) && BlockersAccepted(p, now)
                   && (p.confirmed.Some? ==> RisksAccepted(p.confirmed.value, now))
  {
    hide Accepted, BlockersAccepted, RisksAccepted;
  }

  /** The checks before the loop over the matches succeed exactly so. */
  lemma PreparedExactly(p: Policy, ctx: Context)
    ensures Prepare(p, ctx).None? <==>
              && PolicyAccepted(p, ctx.now) && ctx.healthy
              && (p.confirmed.Some? ==>
                    && RisksAccepted(p.confirmed.value, ctx.now)
                    && (p.mode == FixableSeverity ==> forall r :: r in p.confirmed.value ==> r.digest != ctx.digest))
              && (p.mode != MaintainerDecision ==>
                    forall e :: e in p.exceptions ==>
                      && e.wellFormed && e.approvedAt <= ctx.now
                      && e.approvedAt < e.expiresAt <= e.approvedAt + p.rules.maxExceptionDays * 86400)
  {
    hide PolicyAccepted, RisksAccepted;
    forall i | 0 <= i < |p.exceptions| ensures p.exceptions[i] in p.exceptions {
    }
    if p.confirmed.Some? {
      forall i | 0 <= i < |p.confirmed.value| ensures p.confirmed.value[i] in p.confirmed.value {
      }
    }
  }

  // ----- The check of blocked findings against reviewed risks -----

  ghost predicate Listed(xs: seq<string>) {
    xs != [] && NoneTwice(xs) && forall x :: x in xs ==> Nonempty(x)
  }

  /** The risk is the finding's component's, and they share an advisory and a path. */
  ghost predicate Backs(r: Risk, f: Finding) {
    && r.component == f.component && (exists a :: a in f.aliases && a in r.advisories)
    && exists v :: v in f.locations && v in r.locations
  }

  lemma {:induction false} ConfirmingMembers(holds: seq<Risk>, f: Finding, id: string)
    ensures id in ConfirmingIds(holds, f.component, f.aliases, f.locations)
       <==> exists r :: r in holds && r.id == id && Backs(r, f)
  {
    if holds != [] {
      ConfirmingMembers(holds[1..], f, id);
      BacksMeans(holds[0], f);
      hide Backs, Confirms;
      assert forall r :: r in holds <==> r == holds[0] || r in holds[1..];
    }
  }

  lemma BacksMeans(r: Risk, f: Finding)
    ensures Confirms(r, f.component, f.aliases, f.locations) <==> Backs(r, f)
  {
  }

  /** Which findings `validate_confirmed_findings` accepts: they name exactly the risks that back them. */
  lemma BindsExactly(f: Finding, holds: seq<Risk>)
    ensures FindingBound(f, holds) <==>
              && f.outcome == Blocked && f.reason == ConfirmedExploitability && Nonempty(f.component) && f.complete
              && Listed(f.confirmedReviews) && Listed(f.aliases) && Listed(f.locations)
              && (forall v :: v in f.locations ==> CanonicalLocation(v))
              && f.confirmedReviews == SortedList(ConfirmingIds(holds, f.component, f.aliases, f.locations))
    ensures FindingBound(f, holds) ==>
              forall id :: id in f.confirmedReviews <==> exists r :: r in holds && r.id == id && Backs(r, f)
  {
    hide Nonempty, CanonicalLocation, ConfirmingIds, SortedList, Backs;
    var ids := ConfirmingIds(holds, f.component, f.aliases, f.locations);
    SortedListMembers(ids);
    forall id ensures id in ids <==> exists r :: r in holds && r.id == id && Backs(r, f) {
      ConfirmingMembers(holds, f, id);
    }
  }

  // ----- Paths and texts -----

  /** What stands between two slashes, or a slash and an end. */
  ghost predicate PartAt(s: string, i: nat, j: nat) {
    && i <= j <= |s| && (i == 0 || s[i - 1] == '/') && (j == |s| || s[j] == '/')
    && forall k :: i <= k < j ==> s[k] != '/'
  }

  lemma {:induction false} FirstPart(s: string) returns (n: nat)
    ensures PartAt(s, 0, n) && Text.SplitOn(s, '/')[0] == s[..n]
    ensures if n == |s| then |Text.SplitOn(s, '/')| == 1
            else Text.SplitOn(s, '/')[1..] == Text.SplitOn(s[n + 1..], '/')
  {
    if s == [] || s[0] == '/' {
      n := 0;
    } else {
      var m := FirstPart(s[1..]);
      n := m + 1;
      assert s[..n] == [s[0]] + s[1..][..m];
      assert n < |s| ==> s[1..][m + 1..] == s[n + 1..];
    }
  }

  lemma LaterParts(s: string, n: nat, i: nat, j: nat)
    requires PartAt(s, 0, n) && n < |s|
    ensures n < i ==> (PartAt(s, i, j) <==> i <= j && PartAt(s[n + 1..], i - (n + 1), j - (n + 1)))
    ensures i <= n && PartAt(s, i, j) ==> i == 0 && j == n
  {
    var rest := s[n + 1..];
    assert forall k :: 0 <= k < |rest| ==> rest[k] == s[n + 1 + k];
    if n < i {
      if PartAt(s, i, j) {
        assert forall k :: i - (n + 1) <= k < j - (n + 1) ==> rest[k] == s[n + 1 + k] != '/';
      }
      if i <= j && PartAt(rest, i - (n + 1), j - (n + 1)) {
        forall k | i <= k < j ensures s[k] != '/' {
          assert s[k] == rest[k - (n + 1)];
        }
      }
    }
  }

  lemma {:induction false} PartsExactly(s: string, x: string)
    ensures x in Text.SplitOn(s, '/') <==> exists i: nat, j: nat :: PartAt(s, i, j) && x == s[i..j]
    decreases |s|
  {
    hide PartAt, Text.SplitOn;
    var n := FirstPart(s);
    var parts := Text.SplitOn(s, '/');
    assert parts == [parts[0]] + parts[1..] && s[0..n] == s[..n];
    PartBounds(s);
    if n < |s| {
      var rest := s[n + 1..];
      PartsExactly(rest, x);
      PartBounds(rest);
      forall i: nat, j: nat | PartAt(s, i, j)
        ensures || s[i..j] == s[..n]
                || (n < i && PartAt(rest, i - (n + 1), j - (n + 1)) && s[i..j] == rest[i - (n + 1)..j - (n + 1)])
      {
        LaterParts(s, n, i, j);
      }
      forall i: nat, j: nat | PartAt(rest, i, j)
        ensures PartAt(s, i + n + 1, j + n + 1) && rest[i..j] == s[i + n + 1..j + n + 1]
      {
        LaterParts(s, n, i + n + 1, j + n + 1);
      }
    } else {
      forall i: nat, j: nat | PartAt(s, i, j) ensures i == 0 && j == n {
        WholePart(s, n, i, j);
      }
    }
  }

  lemma PartBounds(s: string)
    ensures forall i: nat, j: nat :: PartAt(s, i, j) ==> i <= j <= |s|
  {
  }

  lemma WholePart(s: string, n: nat, i: nat, j: nat)
    requires PartAt(s, 0, n) && n == |s| && PartAt(s, i, j)
    ensures i == 0 && j == n
  {
  }

  lemma {:induction false} SkipsNothing(s: string)
    ensures Text.SkipBlank(s) == s <==> s == [] || !Text.Blank(s[0])
  {
  }

  lemma {:induction false} DropsNothing(s: string)
    ensures |Text.DropTrailing(s)| <= |s|
    ensures Text.DropTrailing(s) == s <==> s == [] || !Text.Blank(s[|s| - 1])
  {
    if s != [] && Text.Blank(s[|s| - 1]) {
      DropsNothing(s[..|s| - 1]);
    }
  }

  /** A text is its own stripped text exactly if no blank stands at either end. */
  lemma NonemptyExactly(s: string)
    ensures Nonempty(s) <==> s != [] && !Text.Blank(s[0]) && !Text.Blank(s[|s| - 1])
  {
    hide Text.Blank;
    SkipsNothing(s);
    DropsNothing(s);
    DropsNothing(Text.SkipBlank(s));
    hide Text.DropTrailing;
  }

  /**
   * Canonical paths: absolute, not the root, not ending in a blank, and with no part that is
   * empty, `.` or `..` after the slash, or the two slashes, at the start.
   */
  lemma CanonicalExactly(s: string)
    ensures CanonicalLocation(s) <==>
              && |s| >= 2 && s[0] == '/' && !Text.Blank(s[|s| - 1])
              && var rest := if s[1] == '/' then s[2..] else s[1..];
                 rest == "" || forall i: nat, j: nat :: PartAt(rest, i, j) ==>
                   rest[i..j] != "" && rest[i..j] != "." && rest[i..j] != ".."
  {
    hide Nonempty, Text.SplitOn, PartAt, Segment;
    NonemptyExactly(s);
    if |s| >= 2 {
      PartsAreSegments(if s[1] == '/' then s[2..] else s[1..]);
    }
  }

  lemma PartsAreSegments(rest: string)
    ensures (forall part :: part in Text.SplitOn(rest, '/') ==> Segment(part))
       <==> forall i: nat, j: nat :: PartAt(rest, i, j) ==>
              rest[i..j] != "" && rest[i..j] != "." && rest[i..j] != ".."
  {
    hide Text.SplitOn, PartAt;
    PartBounds(rest);
    forall i: nat, j: nat | PartAt(rest, i, j) ensures rest[i..j] in Text.SplitOn(rest, '/') {
      PartsExactly(rest, rest[i..j]);
    }
    forall part | part in Text.SplitOn(rest, '/')
      ensures exists i: nat, j: nat :: PartAt(rest, i, j) && part == rest[i..j]
    {
      PartsExactly(rest, part);
    }
  }
}
