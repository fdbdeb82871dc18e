/**
 * The ledger of human security decisions: scripts/ci/decision_revocation.py, and the
 * supersede-all decisions that scripts/ci/decision-controller.py writes into it.
 */
module DecisionLedger {
  import opened Wrappers
  import Text

  const MAX_RECORDS := 10000
  const MAX_SIZE := 8 * 1024 * 1024
  const MAX_RATIONALE := 20000

  datatype Disposition = Accepted | Rejected | Revoked

  datatype Finding = Finding(profile: string, text: string)

  /** `revocation` is the proposal's kind, `packet` the text of its evidence packet. */
  datatype Proposal = Proposal(
    revocation: bool,
    profiles: seq<string>,
    findings: seq<Finding>,
    disposition: Disposition,
    supersedes: seq<string>,
    packet: string,
    rationale: string)

  datatype LedgerError =
    | TooManyRecords | Irregular | Malformed | NameDoesNotBind
    | NotARevocation | MissingTarget | TargetNotAccepted | SnapshotChanged | NotUniqueLeaf | NotAHash

  /** The decisions on record, under the hash of their content. */
  type Ledger = map<string, Proposal>

  // ----- Well-formed proposals -----

  predicate KnownProfile(profile: string) {
    profile == "finite" || profile == "finite-dev"
  }

  predicate IsHash(s: string) {
    |s| == 64 && forall i :: 0 <= i < |s| ==> '0' <= s[i] <= '9' || 'a' <= s[i] <= 'f'
  }

  predicate Unique(s: seq<string>) {
    forall i, j :: 0 <= i < j < |s| ==> s[i] != s[j]
  }

  predicate RationaleOk(rationale: string) {
    Text.SkipBlank(rationale) != [] && |rationale| <= MAX_RATIONALE
  }

  predicate WellFormed(p: Proposal) {
    && p.profiles != [] && (forall profile :: profile in p.profiles ==> KnownProfile(profile)) && Unique(p.profiles)
    && (forall finding :: finding in p.findings ==> finding.profile in p.profiles)
    && (p.revocation <==> p.disposition == Revoked)
    && (forall id :: id in p.supersedes ==> IsHash(id)) && Unique(p.supersedes)
    && (p.disposition == Revoked ==> p.supersedes != [])
    && RationaleOk(p.rationale)
  }

  // ----- Reading the ledger -----

  /** A file of the ledger directory; `proposal` is what its text decodes to. */
  datatype File = File(name: string, regular: bool, size: nat, proposal: Option<Proposal>)

  /** An empty file decodes to nothing, so both readers refuse it. */
  predicate Readable(f: File) {
    f.regular && 0 < f.size <= MAX_SIZE && f.proposal.Some?
  }

  predicate Admissible(f: File, hash: Proposal -> string) {
    Readable(f) && WellFormed(f.proposal.value) && f.name == hash(f.proposal.value) + ".json"
  }

  ghost predicate DistinctNames(files: seq<File>) {
    forall i, j :: 0 <= i < j < |files| ==> files[i].name != files[j].name
  }

  /** The ledger holds exactly the proposals of the first `n` files. */
  ghost predicate Holds(ledger: Ledger, files: seq<File>, n: nat, hash: Proposal -> string)
    requires n <= |files|
  {
    && (forall i :: 0 <= i < n ==> Admissible(files[i], hash) && Entry(ledger, files[i].proposal.value, hash))
    && (forall id :: id in ledger ==>
          exists i :: 0 <= i < n && Admissible(files[i], hash) && hash(files[i].proposal.value) == id)
  }

  predicate Entry(ledger: Ledger, p: Proposal, hash: Proposal -> string) {
    hash(p) in ledger && ledger[hash(p)] == p
  }

  method Records(files: seq<File>, hash: Proposal -> string) returns (r: Result<Ledger, LedgerError>)
    requires DistinctNames(files)
    ensures r.Ok? <==> |files| <= 10000 && forall i :: 0 <= i < |files| ==>
              && files[i].regular && 0 < files[i].size <= 8388608 && files[i].proposal.Some?
              && WellFormed(files[i].proposal.value) && files[i].name == hash(files[i].proposal.value) + ".json"
    ensures r.Ok? ==> Holds(r.value, files, |files|, hash)
    ensures r.Ok? ==> (forall i :: 0 <= i < |files| ==>
                         var p := files[i].proposal.value; hash(p) in r.value && r.value[hash(p)] == p)
    ensures r.Ok? ==> forall id :: id in r.value ==>
                        exists i :: 0 <= i < |files| && hash(files[i].proposal.value) == id
  {
    if |files| > MAX_RECORDS {
      return Err(TooManyRecords);
    }
    var ledger: Ledger := map[];
    for n := 0 to |files|
      invariant Holds(ledger, files, n, hash)
    {
      var f := files[n];
      if !Readable(f) {
        return Err(Irregular);
      }
      var p := f.proposal.value;
      if !WellFormed(p) {
        return Err(Malformed);
      }
      if f.name != hash(p) + ".json" {
        return Err(NameDoesNotBind);
      }
      HoldsOneMore(ledger, files, n, hash);
      ledger := ledger[hash(p) := p];
    }
    r := Ok(ledger);
  }

  lemma HoldsOneMore(ledger: Ledger, files: seq<File>, n: nat, hash: Proposal -> string)
    requires n < |files| && DistinctNames(files) && Holds(ledger, files, n, hash) && Admissible(files[n], hash)
    ensures var p := files[n].proposal.value; Holds(ledger[hash(p) := p], files, n + 1, hash)
  {
    hide WellFormed;
    var p := files[n].proposal.value;
    assert Admissible(files[n], hash) && Entry(ledger[hash(p) := p], p, hash);
    forall i | 0 <= i < n ensures hash(files[i].proposal.value) != hash(p) {
      assert files[i].name != files[n].name;
    }
  }

  /** The identities a new decision supersedes. */
  method DecisionIds(files: seq<File>, hash: Proposal -> string) returns (r: Result<seq<string>, LedgerError>)
    ensures r.Ok? <==> |files| <= MAX_RECORDS && forall i :: 0 <= i < |files| ==> Admissible(files[i], hash)
    ensures r.Ok? ==> |r.value| == |files|
    ensures r.Ok? ==> forall i :: 0 <= i < |files| ==>
              Admissible(files[i], hash) && r.value[i] == hash(files[i].proposal.value)
  {
    if |files| > MAX_RECORDS {
      return Err(TooManyRecords);
    }
    var ids: seq<string> := [];
    for n := 0 to |files|
      invariant |ids| == n
      invariant forall i :: 0 <= i < n ==> Admissible(files[i], hash) && ids[i] == hash(files[i].proposal.value)
    {
      var f := files[n];
      if !Readable(f) {
        return Err(Irregular);
      }
      var p := f.proposal.value;
      if !WellFormed(p) {
        return Err(Malformed);
      }
      if f.name != hash(p) + ".json" {
        return Err(NameDoesNotBind);
      }
      ids := ids + [hash(p)];
    }
    r := Ok(ids);
  }

  /** Both readings of one directory agree: a new decision supersedes every record, each once. */
  lemma IdsAreTheLedger(files: seq<File>, hash: Proposal -> string, ledger: Ledger, ids: seq<string>)
    requires DistinctNames(files) && Holds(ledger, files, |files|, hash) && |ids| == |files|
    requires forall i :: 0 <= i < |files| ==> Admissible(files[i], hash) && ids[i] == hash(files[i].proposal.value)
    ensures Unique(ids) && forall id :: id in ids <==> id in ledger
  {
    hide WellFormed;
    forall i, j | 0 <= i < j < |ids| ensures ids[i] != ids[j] {
      assert files[i].name != files[j].name;
    }
    forall id | id in ids ensures id in ledger {
      var i :| 0 <= i < |ids| && ids[i] == id;
      assert Entry(ledger, files[i].proposal.value, hash);
    }
  }

  // ----- Active leaves -----

  predicate Covers(ledger: Ledger, id: string, profile: string) {
    id in ledger && profile in ledger[id].profiles
  }

  /** Some record for the profile supersedes `id`. */
  ghost predicate Named(ledger: Ledger, id: string, profile: string) {
    exists j :: Covers(ledger, j, profile) && id in ledger[j].supersedes
  }

  /** The records for a profile that no other record for it supersedes. */
  ghost function Active(ledger: Ledger, profile: string): set<string> {
    set id | id in ledger && Covers(ledger, id, profile) && !Named(ledger, id, profile)
  }

  ghost predicate SameSnapshot(p: Proposal, q: Proposal) {
    p.profiles == q.profiles && p.findings == q.findings && p.packet == q.packet
  }

  /**
   * `p`, whose hash is `own`, revokes the one active and accepted decision of each of its
   * profiles, leaving its own record aside.
   */
  ghost predicate Revokes(p: Proposal, ledger: Ledger, own: string) {
    && WellFormed(p) && p.revocation && |p.supersedes| == 1
    && Targets(p, ledger, own, p.supersedes[0])
  }

  ghost predicate Targets(p: Proposal, ledger: Ledger, own: string, target: string) {
    && target in ledger && ledger[target].disposition == Accepted && SameSnapshot(p, ledger[target])
    && forall profile :: profile in p.profiles ==> Active(ledger - {own}, profile) == {target}
  }

  /**
   * Accepts exactly the revocations. Success means that profiles, findings and packet are each
   * the target's own; a proposal that differs in any of them is refused.
   */
  method Validate(p: Proposal, ledger: Ledger, hash: Proposal -> string) returns (r: Result<(), LedgerError>)
    ensures r.Ok? <==> Revokes(p, ledger, hash(p))
    ensures r.Ok? ==> && p.disposition == Revoked && |p.supersedes| == 1 && p.supersedes[0] in ledger
                      && var target := ledger[p.supersedes[0]];
                         && target.disposition == Accepted && p.profiles == target.profiles
                         && p.findings == target.findings && p.packet == target.packet
    ensures |p.supersedes| == 1 && p.supersedes[0] in ledger ==>
              var target := ledger[p.supersedes[0]];
              p.profiles != target.profiles || p.findings != target.findings || p.packet != target.packet ==> r.Err?
  {
    hide Active;
    if !WellFormed(p) {
      return Err(Malformed);
    }
    assert p.revocation <==> p.disposition == Revoked;
    hide WellFormed;
    if !p.revocation || p.disposition != Revoked || |p.supersedes| != 1 {
      return Err(NotARevocation);
    }
    var target := p.supersedes[0];
    if target !in ledger {
      return Err(MissingTarget);
    }
    var parent := ledger[target];
    if parent.disposition != Accepted {
      return Err(TargetNotAccepted);
    }
    if p.profiles != parent.profiles || p.findings != parent.findings || p.packet != parent.packet {
      return Err(SnapshotChanged);
    }
    var own := hash(p);
    for n := 0 to |p.profiles|
      invariant forall i :: 0 <= i < n ==> Active(ledger - {own}, p.profiles[i]) == {target}
    {
      var profile := p.profiles[n];
      var relevant := set id | id in ledger && profile in ledger[id].profiles && id != own;
      var superseded := set j, id | j in relevant && id in ledger[j].supersedes && id in relevant :: id;
      ActiveIsDifference(ledger, own, profile, relevant, superseded);
      if relevant - superseded != {target} {
        return Err(NotUniqueLeaf);
      }
    }
    r := Ok(());
  }

  lemma ActiveIsDifference(ledger: Ledger, own: string, profile: string, relevant: set<string>, superseded: set<string>)
    requires relevant == set id | id in ledger && profile in ledger[id].profiles && id != own
    requires superseded == set j, id | j in relevant && id in ledger[j].supersedes && id in relevant :: id
    ensures Active(ledger - {own}, profile) == relevant - superseded
  {
    var rest := ledger - {own};
    forall id ensures id in relevant <==> Covers(rest, id, profile) {
    }
    forall id | id in relevant ensures id in superseded <==> Named(rest, id, profile) {
    }
  }

  /** Well-formed proposals, by their fields. */
  lemma WellFormedExactly(p: Proposal)
    ensures WellFormed(p) <==>
              && p.profiles != [] && (forall x :: x in p.profiles ==> x == "finite" || x == "finite-dev")
              && (forall i, j :: 0 <= i < j < |p.profiles| ==> p.profiles[i] != p.profiles[j])
              && (forall f :: f in p.findings ==> f.profile in p.profiles)
              && (p.revocation <==> p.disposition == Revoked) && (p.revocation ==> p.supersedes != [])
              && (forall id :: id in p.supersedes ==>
                    |id| == 64 && forall i :: 0 <= i < 64 ==> '0' <= id[i] <= '9' || 'a' <= id[i] <= 'f')
              && (forall i, j :: 0 <= i < j < |p.supersedes| ==> p.supersedes[i] != p.supersedes[j])
              && |p.rationale| <= 20000 && exists i :: 0 <= i < |p.rationale| && !Text.Blank(p.rationale[i])
  {
    hide Text.Blank;
    NotBlank(p.rationale);
    hide Text.SkipBlank;
  }

  lemma {:induction false} NotBlank(s: string)
    ensures Text.SkipBlank(s) != [] <==> exists i :: 0 <= i < |s| && !Text.Blank(s[i])
  {
    if s != [] && Text.Blank(s[0]) {
      NotBlank(s[1..]);
      assert forall i :: 0 <= i < |s[1..]| ==> s[1..][i] == s[i + 1];
      if i :| 0 <= i < |s| && !Text.Blank(s[i]) {
        assert s[1..][i - 1] == s[i];
      }
    }
  }

  /** A record other than `own` that covers the profile. */
  ghost predicate Other(ledger: Ledger, own: string, id: string, profile: string) {
    id in ledger && id != own && profile in ledger[id].profiles
  }

  /** Such a record supersedes `id`. */
  ghost predicate Overruled(ledger: Ledger, own: string, id: string, profile: string) {
    exists j :: Other(ledger, own, j, profile) && id in ledger[j].supersedes
  }

  /** Of the records for the profile but `own`, all but the target are superseded. */
  ghost predicate OnlyTarget(ledger: Ledger, own: string, profile: string, target: string) {
    && target != own && !Overruled(ledger, own, target, profile)
    && forall id :: Other(ledger, own, id, profile) && id != target ==> Overruled(ledger, own, id, profile)
  }

  /** The revocations that are accepted, by the fields of the proposal and of the records. */
  lemma RevokesExactly(p: Proposal, ledger: Ledger, own: string)
    ensures Revokes(p, ledger, own) <==>
              && WellFormed(p) && p.revocation && |p.supersedes| == 1 && p.supersedes[0] in ledger
              && var target := p.supersedes[0];
                 && ledger[target].disposition == Accepted && p.profiles == ledger[target].profiles
                 && p.findings == ledger[target].findings && p.packet == ledger[target].packet
                 && forall profile :: profile in p.profiles ==> OnlyTarget(ledger, own, profile, target)
  {
    hide WellFormed, Active, OnlyTarget;
    if |p.supersedes| == 1 && p.supersedes[0] in ledger && p.profiles == ledger[p.supersedes[0]].profiles {
      forall profile | profile in p.profiles
        ensures Active(ledger - {own}, profile) == {p.supersedes[0]}
           <==> OnlyTarget(ledger, own, profile, p.supersedes[0])
      {
        OnlyLeaf(ledger, own, profile, p.supersedes[0]);
      }
    }
  }

  lemma OnlyLeaf(ledger: Ledger, own: string, profile: string, target: string)
    requires target in ledger && profile in ledger[target].profiles
    ensures Active(ledger - {own}, profile) == {target} <==> OnlyTarget(ledger, own, profile, target)
  {
    var rest := ledger - {own};
    forall id ensures Covers(rest, id, profile) <==> Other(ledger, own, id, profile) {
    }
    forall id ensures Named(rest, id, profile) <==> Overruled(ledger, own, id, profile) {
    }
    hide Covers, Named, Overruled;
    var active := Active(rest, profile);
    assert forall id :: id in active <==> Other(ledger, own, id, profile) && !Overruled(ledger, own, id, profile);
    if active == {target} {
      assert target in active;
    }
  }

  predicate Sound(ledger: Ledger, hash: Proposal -> string) {
    forall id :: id in ledger ==> WellFormed(ledger[id]) && hash(ledger[id]) == id
  }

  /** The revocation of `target` that copies its snapshot. */
  function RevocationOf(parent: Proposal, target: string, rationale: string): Proposal {
    Proposal(true, parent.profiles, parent.findings, Revoked, [target], parent.packet, rationale)
  }

  /**
   * A revocation can be created exactly for an accepted decision that is the one active
   * leaf of all its profiles; it validates, and copies the decision's snapshot.
   */
  method Create(target: string, rationale: string, ledger: Ledger, hash: Proposal -> string)
    returns (r: Result<Proposal, LedgerError>)
    requires Sound(ledger, hash)
    ensures r.Ok? <==>
      && IsHash(target) && target in ledger && ledger[target].disposition == Accepted && RationaleOk(rationale)
      && var own := hash(RevocationOf(ledger[target], target, rationale));
         forall profile :: profile in ledger[target].profiles ==> Active(ledger - {own}, profile) == {target}
    ensures r.Ok? ==> Revokes(r.value, ledger, hash(r.value)) && r.value.supersedes == [target]
    ensures r.Ok? ==> && r.value.profiles == ledger[target].profiles && r.value.findings == ledger[target].findings
                      && r.value.packet == ledger[target].packet && r.value.rationale == rationale
                      && r.value.disposition == Revoked && r.value.revocation
  {
    hide Active, RationaleOk, IsHash;
    if !IsHash(target) {
      return Err(NotAHash);
    }
    if target !in ledger {
      return Err(MissingTarget);
    }
    var p := RevocationOf(ledger[target], target, rationale);
    assert WellFormed(p) <==> RationaleOk(rationale);
    var verdict := Validate(p, ledger, hash);
    r := if verdict.Ok? then Ok(p) else Err(verdict.error);
  }

  // ----- Merging a record -----

  /** What one more record does to the leaves of a profile. */
  lemma ActiveAfterMerge(ledger: Ledger, own: string, p: Proposal, profile: string)
    requires own !in ledger
    ensures profile !in p.profiles ==> Active(ledger[own := p], profile) == Active(ledger, profile)
    ensures profile in p.profiles ==>
              Active(ledger[own := p], profile)
              == (Active(ledger, profile) - set id | id in p.supersedes)
                 + if Named(ledger, own, profile) || own in p.supersedes then {} else {own}
  {
    var after := ledger[own := p];
    forall id
      ensures Named(after, id, profile) <==> Named(ledger, id, profile) || (profile in p.profiles && id in p.supersedes)
    {
      if Named(ledger, id, profile) {
        var j :| Covers(ledger, j, profile) && id in ledger[j].supersedes;
        assert Covers(after, j, profile);
      }
      if profile in p.profiles && id in p.supersedes {
        assert Covers(after, own, profile);
      }
      if Named(after, id, profile) {
        var j :| Covers(after, j, profile) && id in after[j].supersedes;
        assert j != own ==> Covers(ledger, j, profile);
      }
    }
    forall id
      ensures Covers(after, id, profile) <==> Covers(ledger, id, profile) || (id == own && profile in p.profiles)
    {
    }
  }

  /** A revocation's ledger verdict is the same before and after it is merged. */
  lemma VerdictSurvivesMerge(p: Proposal, ledger: Ledger, own: string)
    requires own in ledger ==> ledger[own] == p
    ensures Revokes(p, ledger, own) <==> Revokes(p, ledger[own := p], own)
  {
    hide Active, WellFormed;
    KindOfWellFormed(p);
    assert ledger[own := p] - {own} == ledger - {own};
  }

  lemma KindOfWellFormed(p: Proposal)
    ensures WellFormed(p) ==> (p.revocation <==> p.disposition == Revoked) && p.profiles != []
  {
  }

  /**
   * After a validated revocation is merged it is the unique active leaf of every profile
   * it covers, unless an earlier record already names it.
   */
  lemma RevocationIsLeafExactly(p: Proposal, ledger: Ledger, own: string, profile: string)
    requires Revokes(p, ledger, own) && profile in p.profiles
    ensures Active(ledger[own := p], profile) == {own} <==> !Named(ledger - {own}, own, profile)
    ensures Active(ledger[own := p], profile) <= {own}
  {
    hide WellFormed;
    var base, target := ledger - {own}, p.supersedes[0];
    assert ledger[own := p] == base[own := p];
    ActiveAfterMerge(base, own, p, profile);
    assert target in Active(base, profile);
    assert own != target;
  }

  // ----- Content hashes cannot be circular -----

  /**
   * A record's hash covers the hashes it names, so no record comes before one it names.
   * `rank` is any such order.
   */
  ghost predicate Grounded(ledger: Ledger, rank: string -> nat) {
    forall j, id :: j in ledger && id in ledger[j].supersedes ==> rank(id) < rank(j)
  }

  lemma Rises(ledger: Ledger, rank: string -> nat, j: string, id: string)
    requires Grounded(ledger, rank) && j in ledger && id in ledger[j].supersedes
    ensures rank(id) < rank(j)
  {
  }

  ghost function Above(ledger: Ledger, rank: string -> nat, id: string): set<string> {
    set j | j in ledger && rank(j) > rank(id)
  }

  /** Above every record of a profile stands one of the profile's leaves. */
  lemma {:induction false} LeafAbove(ledger: Ledger, rank: string -> nat, id: string, profile: string)
    returns (leaf: string)
    requires Grounded(ledger, rank) && Covers(ledger, id, profile)
    ensures leaf in Active(ledger, profile) && rank(leaf) >= rank(id)
    decreases |Above(ledger, rank, id)|
  {
    if Named(ledger, id, profile) {
      var j :| Covers(ledger, j, profile) && id in ledger[j].supersedes;
      assert j in Above(ledger, rank, id);
      Smaller(Above(ledger, rank, j), Above(ledger, rank, id));
      leaf := LeafAbove(ledger, rank, j, profile);
    } else {
      leaf := id;
    }
  }

  lemma {:induction false} Smaller(a: set<string>, b: set<string>)
    requires a < b
    ensures |a| < |b|
  {
    if a == {} {
      assert b != {};
    } else {
      var x :| x in a;
      Smaller(a - {x}, b - {x});
    }
  }

  /** With content hashes the merged revocation is the unique active leaf. */
  lemma RevocationIsLeaf(p: Proposal, ledger: Ledger, own: string, rank: string -> nat, profile: string)
    requires Revokes(p, ledger, own) && profile in p.profiles && Grounded(ledger[own := p], rank)
    ensures Active(ledger[own := p], profile) == {own}
  {
    hide WellFormed;
    RevocationIsLeafExactly(p, ledger, own, profile);
    var base, target, merged := ledger - {own}, p.supersedes[0], ledger[own := p];
    assert Active(base, profile) == {target};
    if Named(base, own, profile) {
      var j :| Covers(base, j, profile) && own in base[j].supersedes;
      assert merged[j] == base[j] && merged[own] == p;
      forall k, id | k in base && id in base[k].supersedes ensures rank(id) < rank(k) {
        assert merged[k] == base[k];
      }
      var leaf := LeafAbove(base, rank, j, profile);
    }
  }

  ghost predicate Extends(later: Ledger, ledger: Ledger) {
    forall id :: id in ledger ==> id in later && later[id] == ledger[id]
  }

  /** A revoked decision is never active again in any later ledger. */
  lemma RevokedForGood(p: Proposal, ledger: Ledger, own: string, later: Ledger, profile: string)
    requires Revokes(p, ledger, own) && Extends(later, ledger[own := p]) && profile in p.profiles
    ensures p.supersedes[0] !in Active(later, profile)
  {
    hide WellFormed;
    assert Covers(later, own, profile);
  }

  /** No other revocation of the same decision is accepted, then or later. */
  lemma SecondRevocationRejected(p: Proposal, q: Proposal, ledger: Ledger, own: string, other: string, later: Ledger)
    requires Revokes(p, ledger, own) && Extends(later, ledger[own := p])
    requires own != other && q.supersedes == p.supersedes
    ensures !Revokes(q, later, other)
  {
    hide WellFormed;
    var target := p.supersedes[0];
    KindOfWellFormed(p);
    var profile := p.profiles[0];
    assert target in Active(ledger - {own}, profile);
    assert later[target] == ledger[target];
    assert Covers(later - {other}, own, profile);
    assert target !in Active(later - {other}, profile);
  }

  /** The record supersedes every active leaf of the profile. */
  ghost predicate SupersedesLeaves(ledger: Ledger, d: Proposal, profile: string) {
    forall id :: id in Active(ledger, profile) ==> id in d.supersedes
  }

  /**
   * The exact condition for any new record to become the unique leaf of a profile it covers:
   * it supersedes all its leaves, and neither an earlier record for the profile nor itself names it.
   */
  lemma RecordIsLeafExactly(ledger: Ledger, own: string, d: Proposal, profile: string)
    requires own !in ledger && profile in d.profiles
    ensures Active(ledger[own := d], profile) == {own}
       <==> SupersedesLeaves(ledger, d, profile) && !Named(ledger, own, profile) && own !in d.supersedes
  {
    hide Named, Active;
    ActiveAfterMerge(ledger, own, d, profile);
    ActiveAreRecords(ledger, profile);
    if Active(ledger[own := d], profile) == {own} {
      assert own in Active(ledger[own := d], profile);
      forall id | id in Active(ledger, profile) ensures id in d.supersedes {
        assert id !in d.supersedes ==> id in Active(ledger[own := d], profile);
      }
    }
  }

  lemma ActiveAreRecords(ledger: Ledger, profile: string)
    ensures forall id :: id in Active(ledger, profile) ==> id in ledger
  {
  }

  /** A decision that supersedes every current record becomes the unique leaf of its profiles. */
  lemma DecisionRestoresLeaf(ledger: Ledger, own: string, d: Proposal, profile: string)
    requires own !in ledger && forall id :: id in ledger ==> id in d.supersedes
    ensures profile in d.profiles ==>
              (Active(ledger[own := d], profile) == {own} <==> !Named(ledger, own, profile) && own !in d.supersedes)
    ensures profile !in d.profiles ==> Active(ledger[own := d], profile) == Active(ledger, profile)
  {
    ActiveAfterMerge(ledger, own, d, profile);
    if profile in d.profiles {
      RecordIsLeafExactly(ledger, own, d, profile);
    }
  }

  lemma GroundedDecisionRestoresLeaf(ledger: Ledger, own: string, d: Proposal, rank: string -> nat, profile: string)
    requires own !in ledger && forall id :: id in ledger ==> id in d.supersedes
    requires profile in d.profiles && Grounded(ledger[own := d], rank)
    ensures Active(ledger[own := d], profile) == {own}
  {
    var merged := ledger[own := d];
    DecisionRestoresLeaf(ledger, own, d, profile);
    assert own in merged && merged[own] == d;
    if own in d.supersedes {
      Rises(merged, rank, own, own);
    }
    if Named(ledger, own, profile) {
      var j :| Covers(ledger, j, profile) && own in ledger[j].supersedes;
      assert j in merged && merged[j] == ledger[j];
      Rises(merged, rank, j, own);
    }
  }

  /**
   * Two decisions prepared from the same ledger and both merged stay side by side: the
   * profile has two leaves, and no revocation for it is accepted until a later decision
   * supersedes both.
   */
  lemma StaleDecisionsConflict(ledger: Ledger, a: string, c: Proposal, b: string, d: Proposal, profile: string,
                               q: Proposal, own: string)
    requires a !in ledger && b !in ledger && a != b
    requires forall id :: id in ledger <==> id in c.supersedes
    requires forall id :: id in ledger <==> id in d.supersedes
    requires profile in c.profiles && profile in d.profiles
    requires !Named(ledger, a, profile) && !Named(ledger, b, profile)
    ensures Active(ledger[a := c][b := d], profile) == {a, b}
    ensures profile in q.profiles && own !in ledger[a := c][b := d] ==> !Revokes(q, ledger[a := c][b := d], own)
  {
    hide WellFormed;
    ActiveAfterMerge(ledger, a, c, profile);
    var one, both := ledger[a := c], ledger[a := c][b := d];
    forall j | Covers(one, j, profile) ensures b !in one[j].supersedes {
      assert j == a || Covers(ledger, j, profile);
    }
    ActiveAfterMerge(one, b, d, profile);
    assert own !in both ==> both - {own} == both;
    assert a in {a, b} && b in {a, b};
  }

  // ----- Runs -----

  /** A merged proposal and its hash. */
  datatype Merge = Merge(own: string, proposal: Proposal)

  function LedgerAfter(merges: seq<Merge>): Ledger {
    if merges == [] then map[]
    else
      var last := merges[|merges| - 1];
      LedgerAfter(merges[..|merges| - 1])[last.own := last.proposal]
  }

  /**
   * The writers: a validated revocation, or a decision or proposed record that names only
   * records of the ledger, among them the leaves of the profiles it covers.
   */
  ghost predicate Written(ledger: Ledger, m: Merge) {
    && m.own !in ledger
    && (Revokes(m.proposal, ledger, m.own)
        || ((forall id :: id in m.proposal.supersedes ==> id in ledger)
            && forall profile :: profile in m.proposal.profiles ==> SupersedesLeaves(ledger, m.proposal, profile)))
  }

  /** A decision that supersedes all records is one of them. */
  lemma SupersedeAllIsWritten(ledger: Ledger, m: Merge)
    requires m.own !in ledger && forall id :: id in ledger <==> id in m.proposal.supersedes
    ensures Written(ledger, m)
  {
    hide Revokes;
  }

  ghost predicate Run(merges: seq<Merge>) {
    merges == []
    || (Run(merges[..|merges| - 1]) && Written(LedgerAfter(merges[..|merges| - 1]), merges[|merges| - 1]))
  }

  /** The last record that covers the profile, if any. */
  function Latest(merges: seq<Merge>, profile: string): set<string> {
    if merges == [] then {}
    else if profile in merges[|merges| - 1].proposal.profiles then {merges[|merges| - 1].own}
    else Latest(merges[..|merges| - 1], profile)
  }

  ghost predicate Closed(ledger: Ledger) {
    forall j, id :: j in ledger && id in ledger[j].supersedes ==> id in ledger
  }

  /** In every run the active leaves of a profile are its latest record, alone. */
  lemma {:induction false} LatestIsTheLeaf(merges: seq<Merge>, profile: string)
    requires Run(merges)
    ensures Active(LedgerAfter(merges), profile) == Latest(merges, profile)
    ensures Closed(LedgerAfter(merges))
  {
    hide WellFormed;
    if merges != [] {
      var before, m := merges[..|merges| - 1], merges[|merges| - 1];
      LatestIsTheLeaf(before, profile);
      MergeKeepsLeaf(LedgerAfter(before), m, profile);
    }
  }

  lemma MergeKeepsLeaf(ledger: Ledger, m: Merge, profile: string)
    requires Closed(ledger) && Written(ledger, m)
    ensures Closed(ledger[m.own := m.proposal])
    ensures Active(ledger[m.own := m.proposal], profile)
            == if profile in m.proposal.profiles then {m.own} else Active(ledger, profile)
  {
    hide WellFormed;
    assert !Named(ledger, m.own, profile);
    assert ledger - {m.own} == ledger;
    assert forall id :: id in m.proposal.supersedes ==> id in ledger;
    ActiveAfterMerge(ledger, m.own, m.proposal, profile);
    if profile in m.proposal.profiles {
      if Revokes(m.proposal, ledger, m.own) {
        RevocationIsLeafExactly(m.proposal, ledger, m.own, profile);
      } else {
        RecordIsLeafExactly(ledger, m.own, m.proposal, profile);
      }
    }
  }
}
