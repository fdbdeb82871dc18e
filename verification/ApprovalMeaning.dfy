/**
 * What an approval of scripts/ci/decision-authority.py says of the review records and the team,
 * in terms of their fields alone.
 */
module ApprovalMeaning {
  import opened Wrappers
  import opened ReviewApproval
  import Text

  // ----- What a record counts as -----

  ghost predicate LoginText(login: string) {
    login != [] && forall i :: 0 <= i < |login| ==>
      'a' <= login[i] <= 'z' || 'A' <= login[i] <= 'Z' || '0' <= login[i] <= '9' || login[i] == '-'
  }

  ghost predicate Author(user: User, login: string, id: int) {
    user.kind == Human && user.login == Some(login) && user.id == Some(id) && id >= 1 && LoginText(login)
  }

  /** A comment on exactly this head that approves it, or withdraws an approval. */
  ghost predicate Commands(record: Record, head: string, state: State) {
    && record.Record? && record.state == Commented && record.commit == head && record.body.Body?
    && ((state == Approved && Text.Strip(record.body.text) == "/decider approve " + head)
        || (state == Dismissed && Text.Strip(record.body.text) == "/decider withdraw " + head))
  }

  /** What the record says: its own state, or what its comment commands. */
  ghost predicate Says(record: Record, head: string, state: State) {
    && record.Record?
    && if record.state == Commented then Commands(record, head, state)
       else state == record.state && (state == Approved || state == ChangesRequested || state == Dismissed)
  }

  /** The record counts as the review `v`. */
  ghost predicate CountsAs(record: Record, head: string, v: Review) {
    && record.Record? && record.id >= 1 && Author(record.user, v.login, v.userId) && Says(record, head, v.state)
    && v.id == record.id && v.commit == record.commit && (v.byComment <==> record.state == Commented)
  }

  /** The record makes the whole listing unreadable. */
  ghost predicate Unreadable(record: Record, head: string) {
    || record.Malformed? || record.id < 1 || (record.state == Commented && record.body.NotText?)
    || ((exists state :: Says(record, head, state)) && record.user.kind != Bot
        && forall login, id :: !Author(record.user, login, id))
  }

  lemma OneCommand(head: string)
    ensures "/decider approve " + head != "/decider withdraw " + head
  {
    assert |"/decider approve " + head| != |"/decider withdraw " + head|;
  }

  lemma AuthorMeans(user: User)
    ensures forall login, id :: Author(user, login, id) <==>
              && user.kind == Human && user.login.Some? && LoginOk(user.login.value)
              && user.id.Some? && user.id.value >= 1 && login == user.login.value && id == user.id.value
    ensures (exists login, id :: Author(user, login, id)) <==>
              user.kind == Human && user.login.Some? && LoginOk(user.login.value) && user.id.Some? && user.id.value >= 1
  {
    if user.kind == Human && user.login.Some? && LoginOk(user.login.value) && user.id.Some? && user.id.value >= 1 {
      assert Author(user, user.login.value, user.id.value);
    }
  }

  /** Exactly these records count, as exactly this, and exactly these cannot be read. */
  lemma ReadsExactly(record: Record, head: string, v: Review)
    ensures ReadRecord(record, head) == Counted(v) <==> CountsAs(record, head, v)
    ensures ReadRecord(record, head) == Rejected <==> Unreadable(record, head)
  {
    OneCommand(head);
    if record.Record? {
      AuthorMeans(record.user);
      StatesSaid(record, head);
    }
    hide Author, Text.Strip, LoginOk;
  }

  lemma StatesSaid(record: Record, head: string)
    requires record.Record?
    ensures (exists state :: Says(record, head, state)) <==>
              if record.state == Commented then
                && record.commit == head && record.body.Body?
                && (Text.Strip(record.body.text) == "/decider approve " + head
                    || Text.Strip(record.body.text) == "/decider withdraw " + head)
              else record.state != OtherState
  {
    hide Text.Strip;
    assert Says(record, head, Approved) || Says(record, head, Dismissed) || Says(record, head, record.state)
      || forall state :: !Says(record, head, state);
  }

  // ----- What the team says of an author -----

  /** The same text with ASCII capitals in lower case. */
  ghost predicate Lowered(s: string, t: string) {
    && |t| == |s|
    && forall i :: 0 <= i < |s| ==> t[i] == if 'A' <= s[i] <= 'Z' then (s[i] as int + 32) as char else s[i]
  }

  /** An active team member under exactly this identity, who may maintain the repository. */
  ghost predicate Authorised(api: Directory, members: map<string, int>, v: Review) {
    exists key :: Lowered(v.login, key) && key in members && members[key] == v.userId
      && api.membership(v.login) == Some(Membership(true))
      && (api.role(v.login) == Some("maintain") || api.role(v.login) == Some("admin"))
  }

  /** A listed login whose identity differs, or of which the API does not say enough. */
  ghost predicate Unknowable(api: Directory, members: map<string, int>, v: Review) {
    exists key :: Lowered(v.login, key) && key in members
      && (members[key] != v.userId || api.membership(v.login).None?
          || (api.membership(v.login).value.active && api.role(v.login).None?))
  }

  lemma {:induction false} LowerMeans(s: string, t: string)
    ensures Lowered(s, t) <==> t == Lower(s)
  {
    if s != [] {
      if t != [] {
        LowerMeans(s[1..], t[1..]);
        assert t == [t[0]] + t[1..];
        if Lowered(s, t) {
          assert forall i :: 0 <= i < |s[1..]| ==> t[1..][i] == t[i + 1] && s[1..][i] == s[i + 1];
        }
        if Lowered(s[1..], t[1..]) && t[0] == LowerCharacter(s[0]) {
          forall i | 0 <= i < |s| ensures t[i] == LowerCharacter(s[i]) {
            assert i > 0 ==> t[i] == t[1..][i - 1] && s[i] == s[1..][i - 1];
          }
        }
      }
    }
  }

  lemma EligibleExactly(api: Directory, members: map<string, int>, v: Review)
    ensures Eligible(api, members, v) == Ok(true) <==> Authorised(api, members, v)
    ensures Eligible(api, members, v).Err? <==> Unknowable(api, members, v)
  {
    forall key ensures Lowered(v.login, key) <==> key == Lower(v.login) {
      LowerMeans(v.login, key);
    }
    hide Lowered, Lower;
  }

  // ----- The decision -----

  /** The counted review of its author with the highest id. */
  ghost predicate Last(records: seq<Record>, head: string, v: Review) {
    && (exists record :: record in records && CountsAs(record, head, v))
    && forall record, w :: record in records && CountsAs(record, head, w) && w.userId == v.userId ==> w.id <= v.id
  }

  /** The author's last word is an approval of exactly this head, and the author is authorised. */
  ghost predicate Approval(records: seq<Record>, head: string, api: Directory, members: map<string, int>, v: Review) {
    Last(records, head, v) && v.state == Approved && v.commit == head && Authorised(api, members, v)
  }

  /** Nothing stands against an approval: no unreadable record, no unknowable author, no request for changes. */
  ghost predicate Unopposed(records: seq<Record>, head: string, api: Directory, members: map<string, int>) {
    && (forall record :: record in records ==> !Unreadable(record, head))
    && forall w :: Last(records, head, w) ==>
         !Unknowable(api, members, w) && !(w.state == ChangesRequested && Authorised(api, members, w))
  }

  lemma LastMeans(records: seq<Record>, head: string, v: Review)
    ensures Effective(records, head, v) <==> Last(records, head, v)
  {
    hide ReadRecord, CountsAs, Unreadable;
    forall record, w ensures ReadRecord(record, head) == Counted(w) <==> CountsAs(record, head, w) {
      ReadsExactly(record, head, w);
    }
  }

  lemma ReadableMeans(records: seq<Record>, head: string)
    ensures ReviewApproval.Readable(records, head) <==> forall record :: record in records ==> !Unreadable(record, head)
  {
    hide ReadRecord, CountsAs, Unreadable;
    var v := Review(0, [], 0, Approved, [], false);
    forall record ensures ReadRecord(record, head) == Rejected <==> Unreadable(record, head) {
      ReadsExactly(record, head, v);
    }
  }

  lemma UnopposedMeans(records: seq<Record>, head: string, api: Directory, members: map<string, int>)
    ensures ReviewApproval.Readable(records, head) && NoObstacle(records, head, api, members)
       <==> Unopposed(records, head, api, members)
  {
    hide ReviewApproval.Readable, Effective, Last, Eligible, Authorised, Unknowable, Unreadable;
    ReadableMeans(records, head);
    forall w ensures Effective(records, head, w) <==> Last(records, head, w) {
      LastMeans(records, head, w);
    }
    forall w
      ensures (exists e :: Obstacle(api, members, w, e))
         <==> Unknowable(api, members, w) || (w.state == ChangesRequested && Authorised(api, members, w))
    {
      EligibleExactly(api, members, w);
      assert Obstacle(api, members, w, Unauthentic) <==> Unknowable(api, members, w);
      assert Obstacle(api, members, w, HumanRequired) <==> w.state == ChangesRequested && Authorised(api, members, w);
    }
  }

  /** A review is returned exactly if it is the newest approval, unopposed, and still authorised afterwards. */
  lemma DecidesExactly(records: seq<Record>, head: string, before: Directory, after: Directory, v: Review)
    requires DistinctIds(records)
    ensures Decide(records, head, before, after) == Ok(v)
       <==> && before.members.Some? && Unopposed(records, head, before, before.members.value)
            && Approval(records, head, before, before.members.value, v)
            && (forall w :: Approval(records, head, before, before.members.value, w) ==> w.id <= v.id)
            && after.members == before.members && Authorised(after, before.members.value, v)
  {
    hide Decide, ReviewApproval.Readable, NoObstacle, Unopposed, Effective, Last, Eligible, Authorised, Unknowable,
         DistinctIds;
    ApprovesExactly(records, head, before, after, v);
    if before.members.Some? {
      var members := before.members.value;
      UnopposedMeans(records, head, before, members);
      EligibleExactly(after, members, v);
      forall w
        ensures EffectiveApproval(records, head, before, members, w) <==> Approval(records, head, before, members, w)
      {
        LastMeans(records, head, w);
        EligibleExactly(before, members, w);
      }
    }
  }

  /** A last word that withdraws, dismisses, requests changes or approves another head never approves. */
  lemma OtherWordsNeverApprove(records: seq<Record>, head: string, before: Directory, after: Directory,
                               v: Review, r: Review)
    requires DistinctIds(records) && Last(records, head, v) && (v.state != Approved || v.commit != head)
    requires Decide(records, head, before, after) == Ok(r)
    ensures r.userId != v.userId
  {
    hide Decide, Unopposed, Authorised, CountsAs;
    DecidesExactly(records, head, before, after, r);
    if r.userId == v.userId {
      assert r.id == v.id;
      LastMeans(records, head, v);
      LastMeans(records, head, r);
      SameId(records, head, v, r);
    }
  }

  /** A withdrawal comment on this head, as its author's last word, is none of these approvals. */
  lemma WithdrawalNeverApproves(records: seq<Record>, head: string, before: Directory, after: Directory,
                                record: Record, v: Review, r: Review)
    requires DistinctIds(records) && record in records && record.Record?
    requires record.state == Commented && record.body.Body?
    requires Text.Strip(record.body.text) == "/decider withdraw " + head
    requires CountsAs(record, head, v) && Last(records, head, v)
    requires Decide(records, head, before, after) == Ok(r)
    ensures r.userId != v.userId
  {
    hide Decide, Last, Author, Text.Strip, DistinctIds;
    OneCommand(head);
    OtherWordsNeverApprove(records, head, before, after, v, r);
  }

  /** An approving comment on exactly this head suffices when nothing stands against it. */
  lemma ApprovingCommentApproves(records: seq<Record>, head: string, api: Directory, record: Record, v: Review)
    requires DistinctIds(records) && record in records && record.Record?
    requires record.state == Commented && record.commit == head
    requires record.body.Body? && Text.Strip(record.body.text) == "/decider approve " + head
    requires record.id >= 1 && Author(record.user, v.login, v.userId)
    requires v == Review(record.id, v.login, v.userId, Approved, head, true) && Last(records, head, v)
    requires api.members.Some? && Unopposed(records, head, api, api.members.value)
    requires Authorised(api, api.members.value, v)
    ensures Decide(records, head, api, api).Ok?
  {
    hide Decide, Unopposed, Last, Author, Text.Strip, Authorised, DistinctIds;
    NewestExists(records, head, api, v);
  }

  lemma NewestExists(records: seq<Record>, head: string, api: Directory, v: Review)
    requires DistinctIds(records) && api.members.Some? && Unopposed(records, head, api, api.members.value)
    requires Approval(records, head, api, api.members.value, v)
    ensures Decide(records, head, api, api).Ok?
  {
    hide Decide, ReviewApproval.Readable, Obstacle, Unopposed, Effective, Last, Eligible, Authorised, Unknowable,
         DistinctIds;
    var members := api.members.value;
    UnopposedMeans(records, head, api, members);
    AcceptedAreApprovals(records, head, api, members);
    var latest := ReviewApproval.Latest(CountedReviews(records, |records|, head));
    var accepted := Accepted(latest, |latest|, head, api, members).value;
    forall w ensures w in accepted <==> Approval(records, head, api, members, w) {
      LastMeans(records, head, w);
      EligibleExactly(api, members, w);
    }
    DecidesExactly(records, head, api, api, Newest(accepted));
  }

  // ----- Failures -----

  /** Some author of a last word cannot be known. */
  ghost predicate SomeUnknowable(records: seq<Record>, head: string, api: Directory, members: map<string, int>) {
    exists w :: Last(records, head, w) && Unknowable(api, members, w)
  }

  /** Some authorised author's last word requests changes. */
  ghost predicate ChangesWanted(records: seq<Record>, head: string, api: Directory, members: map<string, int>) {
    exists w :: Last(records, head, w) && w.state == ChangesRequested && Authorised(api, members, w)
  }

  lemma ObstaclesMean(records: seq<Record>, head: string, api: Directory, members: map<string, int>)
    ensures SomeObstacle(records, head, api, members, Unauthentic) <==> SomeUnknowable(records, head, api, members)
    ensures SomeObstacle(records, head, api, members, HumanRequired) <==> ChangesWanted(records, head, api, members)
  {
    hide Effective, Last, Eligible, Authorised, Unknowable;
    forall w
      ensures Effective(records, head, w) <==> Last(records, head, w)
      ensures Obstacle(api, members, w, Unauthentic) <==> Unknowable(api, members, w)
      ensures Obstacle(api, members, w, HumanRequired) <==> w.state == ChangesRequested && Authorised(api, members, w)
    {
      LastMeans(records, head, w);
      EligibleExactly(api, members, w);
    }
  }

  /** Which error a readable listing ends in, unless it holds both kinds of obstacle. */
  lemma FailsExactly(records: seq<Record>, head: string, before: Directory, after: Directory)
    requires DistinctIds(records) && before.members.Some?
    requires forall record :: record in records ==> !Unreadable(record, head)
    ensures var members, r := before.members.value, Decide(records, head, before, after);
            var unknowable := SomeUnknowable(records, head, before, members);
            var changes := ChangesWanted(records, head, before, members);
            && (unknowable && !changes ==> r == Err(Unauthentic))
            && (changes && !unknowable ==> r == Err(HumanRequired))
            && (!unknowable && !changes && (forall w :: !Approval(records, head, before, members, w)) ==>
                  r == Err(HumanRequired))
  {
    hide Decide, ReviewApproval.Readable, Effective, Last, Eligible, Authorised, Unknowable, Unreadable, Recheck,
         Obstacle, Approving;
    var members := before.members.value;
    ReadableMeans(records, head);
    ErrorOf(records, head, before, after);
    ObstaclesMean(records, head, before, members);
    forall w
      ensures EffectiveApproval(records, head, before, members, w) <==> Approval(records, head, before, members, w)
    {
      ApprovalMeans(records, head, before, members, w);
    }
    var e := Decide(records, head, before, after);
    assert e.Err? ==> e.error == Unauthentic || e.error == HumanRequired;
    assert !NoObstacle(records, head, before, members) <==>
             || SomeObstacle(records, head, before, members, Unauthentic)
             || SomeObstacle(records, head, before, members, HumanRequired)
    by {
      OneKind(records, head, before, members);
    }
  }

  lemma OneKind(records: seq<Record>, head: string, api: Directory, members: map<string, int>)
    ensures !NoObstacle(records, head, api, members) <==>
              || SomeObstacle(records, head, api, members, Unauthentic)
              || SomeObstacle(records, head, api, members, HumanRequired)
  {
    hide Effective, Eligible;
  }

  lemma ApprovalMeans(records: seq<Record>, head: string, api: Directory, members: map<string, int>, w: Review)
    ensures EffectiveApproval(records, head, api, members, w) <==> Approval(records, head, api, members, w)
  {
    hide Effective, Last, Eligible, Authorised;
    LastMeans(records, head, w);
    EligibleExactly(api, members, w);
  }
}
