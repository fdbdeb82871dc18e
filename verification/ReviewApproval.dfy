/** Bounded collections and the review fold of scripts/ci/decision-authority.py. */
module ReviewApproval {
  import opened Wrappers
  import Text

  const PAGE := 100
  const PAGES := 10

  // ----- Bounded collections -----

  /** The responses of an endpoint by page number, `None` for one that is not a list. */
  function CollectFrom<T>(pages: nat -> Option<seq<T>>, page: nat): Option<seq<T>>
    requires 1 <= page <= PAGES + 1
    decreases PAGES + 1 - page
  {
    if page > PAGES then None
    else
      match pages(page)
      case None => None
      case Some(values) =>
        if |values| > PAGE then None
        else if |values| < PAGE then Some(values)
        else
          match CollectFrom(pages, page + 1) { case None => None case Some(rest) => Some(values + rest) }
  }

  method Collection<T>(pages: nat -> Option<seq<T>>) returns (r: Option<seq<T>>)
    ensures r == CollectFrom(pages, 1)
  {
    var values: seq<T> := [];
    PrependTwice(values, values, CollectFrom(pages, 1));
    for page := 1 to PAGES + 1
      invariant CollectFrom(pages, 1) == Prepend(values, CollectFrom(pages, page))
    {
      var response := pages(page);
      if response.None? || |response.value| > PAGE {
        return None;
      }
      PrependTwice(values, response.value, if page < PAGES + 1 then CollectFrom(pages, page + 1) else None);
      values := values + response.value;
      if |response.value| < PAGE {
        return Some(values);
      }
    }
    r := None;
  }

  function Prepend<T>(values: seq<T>, rest: Option<seq<T>>): Option<seq<T>> {
    if rest.None? then None else Some(values + rest.value)
  }

  lemma PrependTwice<T>(a: seq<T>, b: seq<T>, rest: Option<seq<T>>)
    ensures Prepend(a, Prepend(b, rest)) == Prepend(a + b, rest)
    ensures Prepend([], rest) == rest
  {
    if rest.Some? {
      assert a + (b + rest.value) == (a + b) + rest.value;
      assert [] + rest.value == rest.value;
    }
  }

  /** The pages of an unchanging list. */
  function PagesOf<T>(items: seq<T>): nat -> Option<seq<T>> {
    (page: nat) => Some(Slice(items, page))
  }

  function Slice<T>(items: seq<T>, page: nat): seq<T> {
    var from: int := PAGE * (page - 1);
    if page == 0 || from > |items| then []
    else if |items| < from + PAGE then items[from..]
    else items[from..from + PAGE]
  }

  lemma {:induction false} StableFrom<T>(items: seq<T>, page: nat)
    requires 1 <= page <= PAGES + 1 && PAGE * (page - 1) <= |items|
    ensures CollectFrom(PagesOf(items), page)
            == if |items| < PAGE * PAGES then Some(items[PAGE * (page - 1)..]) else None
    decreases PAGES + 1 - page
  {
    var from := PAGE * (page - 1);
    if page <= PAGES && from + PAGE <= |items| {
      StableFrom(items, page + 1);
      assert items[from..] == items[from..from + PAGE] + items[from + PAGE..];
    }
  }

  /** An unchanging list is returned in full exactly when it has at most 999 items. */
  lemma StableCollection<T>(items: seq<T>)
    ensures CollectFrom(PagesOf(items), 1) == if |items| <= 999 then Some(items) else None
  {
    StableFrom(items, 1);
    assert items[0..] == items;
  }

  // ----- Reviews -----

  datatype UserKind = Human | Bot | OtherKind
  datatype User = User(kind: UserKind, login: Option<string>, id: Option<int>)
  datatype State = Commented | Approved | ChangesRequested | Dismissed | OtherState
  datatype Body = Body(text: string) | NotText

  /** A review as listed; `Malformed` has no integer id or no user. */
  datatype Record = Malformed | Record(id: int, user: User, state: State, body: Body, commit: string)

  /** A review that counts. */
  datatype Review = Review(id: int, login: string, userId: int, state: State, commit: string, byComment: bool)

  datatype Reading = Rejected | Skipped | Counted(review: Review)

  predicate LoginOk(login: string) {
    login != [] && forall i :: 0 <= i < |login| ==>
      'a' <= login[i] <= 'z' || 'A' <= login[i] <= 'Z' || '0' <= login[i] <= '9' || login[i] == '-'
  }

  const APPROVE := "/decider approve "
  const WITHDRAW := "/decider withdraw "

  /** A comment that commands something about the head stands for an approval or a withdrawal. */
  function ReadRecord(record: Record, head: string): Reading {
    if record.Malformed? || record.id < 1 then Rejected
    else if record.state == Commented then
      if record.body.NotText? then Rejected
      else
        var command := Text.Strip(record.body.text);
        if record.commit != head then Skipped
        else if command == APPROVE + head then ReadUser(record, Approved, true)
        else if command == WITHDRAW + head then ReadUser(record, Dismissed, true)
        else Skipped
    else if record.state == OtherState then Skipped
    else ReadUser(record, record.state, false)
  }

  function ReadUser(record: Record, state: State, byComment: bool): Reading
    requires record.Record?
  {
    var user := record.user;
    if user.kind == Bot then Skipped
    else if user.kind == OtherKind || user.login.None? || !LoginOk(user.login.value) || user.id.None?
         || user.id.value < 1 then Rejected
    else Counted(Review(record.id, user.login.value, user.id.value, state, record.commit, byComment))
  }

  // ----- The latest review of each user -----

  /** Updates a dictionary keyed by user id, in the order of first insertion. */
  function Put(latest: seq<Review>, v: Review): seq<Review> {
    if latest == [] then [v]
    else if latest[0].userId == v.userId then
      if latest[0].id < v.id then [v] + latest[1..] else latest
    else [latest[0]] + Put(latest[1..], v)
  }

  function Latest(reviews: seq<Review>): seq<Review> {
    if reviews == [] then [] else Put(Latest(reviews[..|reviews| - 1]), reviews[|reviews| - 1])
  }

  /** The reviews that count among the first `n` records. */
  function CountedReviews(records: seq<Record>, n: nat, head: string): seq<Review>
    requires n <= |records|
  {
    if n == 0 then []
    else
      CountedReviews(records, n - 1, head)
      + match ReadRecord(records[n - 1], head) { case Counted(v) => [v] case _ => [] }
  }

  ghost predicate Readable(records: seq<Record>, head: string) {
    forall record :: record in records ==> ReadRecord(record, head) != Rejected
  }

  // ----- Eligibility -----

  datatype Membership = Membership(active: bool)

  /**
   * What the API says of the pinned team: its members' ids by lower-case login (`None` when the
   * inventory cannot be authenticated), their memberships and their repository roles.
   */
  datatype Directory = Directory(
    members: Option<map<string, int>>,
    membership: string -> Option<Membership>,
    role: string -> Option<string>)

  datatype ApprovalError = Unauthentic | HumanRequired

  function LowerCharacter(c: char): char {
    if 'A' <= c <= 'Z' then ((c as int) + 32) as char else c
  }

  function Lower(s: string): string {
    if s == [] then [] else [LowerCharacter(s[0])] + Lower(s[1..])
  }

  function Eligible(api: Directory, members: map<string, int>, v: Review): Result<bool, ApprovalError> {
    if Lower(v.login) !in members then Ok(false)
    else if members[Lower(v.login)] != v.userId then Err(Unauthentic)
    else
      match api.membership(v.login)
      case None => Err(Unauthentic)
      case Some(membership) =>
        if !membership.active then Ok(false)
        else
          match api.role(v.login)
          case None => Err(Unauthentic)
          case Some(role) => Ok(role == "maintain" || role == "admin")
  }

  // ----- The decision -----

  /** The approvals among the first `n` latest reviews, or the first obstacle. */
  function Accepted(latest: seq<Review>, n: nat, head: string, api: Directory, members: map<string, int>)
    : Result<seq<Review>, ApprovalError>
    requires n <= |latest|
  {
    if n == 0 then Ok([])
    else
      match Accepted(latest, n - 1, head, api, members)
      case Err(e) => Err(e)
      case Ok(before) =>
        var v := latest[n - 1];
        match Eligible(api, members, v)
        case Err(e) => Err(e)
        case Ok(eligible) =>
          if !eligible then Ok(before)
          else if v.state == ChangesRequested then Err(HumanRequired)
          else if v.state == Approved && v.commit == head then Ok(before + [v])
          else Ok(before)
  }

  /** The last of the accepted reviews in the order of their ids. */
  function Newest(accepted: seq<Review>): (v: Review)
    requires accepted != []
    ensures v in accepted && forall w :: w in accepted ==> w.id <= v.id
  {
    var last := accepted[|accepted| - 1];
    if |accepted| == 1 then last
    else
      var earlier := Newest(accepted[..|accepted| - 1]);
      if earlier.id <= last.id then last else earlier
  }

  function Judge(latest: seq<Review>, head: string, before: Directory, after: Directory, members: map<string, int>)
    : Result<Review, ApprovalError>
  {
    match Accepted(latest, |latest|, head, before, members)
    case Err(e) => Err(e)
    case Ok(accepted) => if accepted == [] then Err(HumanRequired) else Recheck(Newest(accepted), after, members)
  }

  /** Membership must be unchanged and the selected reviewer still eligible. */
  function Recheck(v: Review, after: Directory, members: map<string, int>): Result<Review, ApprovalError> {
    if after.members != Some(members) then Err(Unauthentic)
    else
      match Eligible(after, members, v)
      case Err(e) => Err(e)
      case Ok(eligible) => if eligible then Ok(v) else Err(HumanRequired)
  }

  ghost function Decide(records: seq<Record>, head: string, before: Directory, after: Directory)
    : Result<Review, ApprovalError>
  {
    if before.members.None? || !Readable(records, head) then Err(Unauthentic)
    else Judge(Latest(CountedReviews(records, |records|, head)), head, before, after, before.members.value)
  }

  /** The first loop: the latest review of each user, or a record that cannot be read. */
  method FoldReviews(records: seq<Record>, head: string) returns (r: Result<seq<Review>, ApprovalError>)
    ensures r == if Readable(records, head) then Ok(Latest(CountedReviews(records, |records|, head)))
                 else Err(Unauthentic)
  {
    hide ReadRecord, Put;
    var latest: seq<Review> := [];
    for n := 0 to |records|
      invariant forall i :: 0 <= i < n ==> ReadRecord(records[i], head) != Rejected
      invariant latest == Latest(CountedReviews(records, n, head))
    {
      match ReadRecord(records[n], head) {
        case Rejected => return Err(Unauthentic);
        case Skipped =>
        case Counted(v) => latest := Put(latest, v);
      }
      LatestStep(records, n, head);
    }
    r := Ok(latest);
  }

  /** The second loop: the accepted reviews, or the first obstacle. */
  method AcceptReviews(latest: seq<Review>, head: string, api: Directory, members: map<string, int>)
    returns (r: Result<seq<Review>, ApprovalError>)
    ensures r == Accepted(latest, |latest|, head, api, members)
  {
    hide Eligible;
    var accepted: seq<Review> := [];
    for n := 0 to |latest|
      invariant Accepted(latest, n, head, api, members) == Ok(accepted)
    {
      var v := latest[n];
      var eligible := Eligible(api, members, v);
      if eligible.Err? {
        AcceptedStops(latest, n + 1, head, api, members);
        return Err(eligible.error);
      }
      if !eligible.value {
        continue;
      }
      if v.state == ChangesRequested {
        AcceptedStops(latest, n + 1, head, api, members);
        return Err(HumanRequired);
      }
      if v.state == Approved && v.commit == head {
        accepted := accepted + [v];
      }
    }
    r := Ok(accepted);
  }

  method Approval(records: seq<Record>, head: string, before: Directory, after: Directory)
    returns (r: Result<Review, ApprovalError>)
    ensures r == Decide(records, head, before, after)
  {
    hide Readable, Latest, CountedReviews, Accepted, Recheck;
    if before.members.None? {
      return Err(Unauthentic);
    }
    var members := before.members.value;
    var latest := FoldReviews(records, head);
    if latest.Err? {
      return Err(latest.error);
    }
    var accepted := AcceptReviews(latest.value, head, before, members);
    if accepted.Err? {
      return Err(accepted.error);
    }
    if accepted.value == [] {
      return Err(HumanRequired);
    }
    r := Recheck(Newest(accepted.value), after, members);
  }

  lemma LatestStep(records: seq<Record>, n: nat, head: string)
    requires n < |records|
    ensures var latest := Latest(CountedReviews(records, n, head));
            Latest(CountedReviews(records, n + 1, head))
            == match ReadRecord(records[n], head) { case Counted(v) => Put(latest, v) case _ => latest }
  {
    hide ReadRecord, Put;
    var counted := CountedReviews(records, n, head);
    match ReadRecord(records[n], head) {
      case Counted(v) => assert (counted + [v])[..|counted|] == counted;
      case _ => assert counted + [] == counted;
    }
  }

  lemma {:induction false} AcceptedStops(latest: seq<Review>, n: nat, head: string, api: Directory,
                                         members: map<string, int>)
    requires n <= |latest| && Accepted(latest, n, head, api, members).Err?
    ensures Accepted(latest, |latest|, head, api, members) == Accepted(latest, n, head, api, members)
    decreases |latest| - n
  {
    if n < |latest| {
      AcceptedStops(latest, n + 1, head, api, members);
    }
  }

  // ----- What an approval means -----

  ghost predicate CountedIn(records: seq<Record>, head: string, v: Review) {
    exists record :: record in records && ReadRecord(record, head) == Counted(v)
  }

  /** The review with the highest id among those of its author that count. */
  ghost predicate Effective(records: seq<Record>, head: string, v: Review) {
    && CountedIn(records, head, v)
    && forall w :: CountedIn(records, head, w) && w.userId == v.userId ==> w.id <= v.id
  }

  /** Records that share an id are one record listed twice. */
  ghost predicate DistinctIds(records: seq<Record>) {
    forall a, b :: a in records && b in records && a.Record? && b.Record? && a.id == b.id ==> a == b
  }

  ghost predicate DistinctReviews(reviews: seq<Review>) {
    forall v, w :: v in reviews && w in reviews && v.id == w.id ==> v == w
  }

  ghost predicate EffectiveAmong(reviews: seq<Review>, v: Review) {
    v in reviews && forall w :: w in reviews && w.userId == v.userId ==> w.id <= v.id
  }

  lemma {:induction false} CountedMembers(records: seq<Record>, n: nat, head: string, v: Review)
    requires n <= |records|
    ensures v in CountedReviews(records, n, head) <==> CountedIn(records[..n], head, v)
  {
    hide ReadRecord;
    if n > 0 {
      CountedMembers(records, n - 1, head, v);
      assert records[..n] == records[..n - 1] + [records[n - 1]];
    }
  }

  ghost predicate OnePerUser(latest: seq<Review>) {
    forall i, j :: 0 <= i < j < |latest| ==> latest[i].userId != latest[j].userId
  }

  ghost predicate PutKeeps(latest: seq<Review>, v: Review, w: Review) {
    || (w in latest && (w.userId == v.userId ==> v.id <= w.id))
    || (w == v && Exceeds(v, latest))
  }

  lemma {:induction false} PutMembers(latest: seq<Review>, v: Review)
    requires OnePerUser(latest)
    ensures forall w :: w in Put(latest, v) <==> PutKeeps(latest, v, w)
    ensures OnePerUser(Put(latest, v))
    ensures latest != [] ==> Put(latest, v) != [] && Put(latest, v)[0].userId == latest[0].userId
  {
    if latest != [] {
      var x, rest := latest[0], latest[1..];
      PutMembers(rest, v);
      assert forall u :: u in latest <==> u == x || u in rest;
      assert forall u :: u in rest ==> u.userId != x.userId;
      if x.userId == v.userId {
        OnePerUserCons(v, rest);
      } else {
        OnePerUserCons(x, Put(rest, v));
      }
    }
  }

  lemma OnePerUserCons(x: Review, rest: seq<Review>)
    requires OnePerUser(rest) && forall u :: u in rest ==> u.userId != x.userId
    ensures OnePerUser([x] + rest)
  {
    var all := [x] + rest;
    forall i, j | 0 <= i < j < |all| ensures all[i].userId != all[j].userId {
      assert all[j] == rest[j - 1] && rest[j - 1] in rest;
    }
  }

  /** Every user with a review has an effective one. */
  lemma {:induction false} SomeEffective(reviews: seq<Review>, x: Review) returns (u: Review)
    requires x in reviews
    ensures EffectiveAmong(reviews, u) && u.userId == x.userId && u.id >= x.id
  {
    var before, v := reviews[..|reviews| - 1], reviews[|reviews| - 1];
    assert reviews == before + [v];
    if !exists w :: w in before && w.userId == v.userId {
      if x == v {
        u := v;
      } else {
        u := SomeEffective(before, x);
      }
    } else {
      var y := x;
      if x !in before {
        y :| y in before && y.userId == v.userId;
      }
      u := SomeEffective(before, y);
      if u.userId == v.userId && u.id < v.id {
        u := v;
      }
    }
  }

  ghost predicate Exceeds(v: Review, reviews: seq<Review>) {
    forall u :: u in reviews && u.userId == v.userId ==> u.id < v.id
  }

  lemma ExceedsLatest(before: seq<Review>, latest: seq<Review>, v: Review)
    requires forall u :: u in latest <==> EffectiveAmong(before, u)
    ensures Exceeds(v, latest) <==> Exceeds(v, before)
  {
    forall x | x in before && x.userId == v.userId
      ensures exists u :: u in latest && u.userId == v.userId && u.id >= x.id
    {
      var u := SomeEffective(before, x);
    }
  }

  lemma OneMore(before: seq<Review>, v: Review, w: Review)
    requires DistinctReviews(before + [v])
    ensures EffectiveAmong(before + [v], w)
            <==> (EffectiveAmong(before, w) && (w.userId == v.userId ==> v.id <= w.id))
                 || (w == v && Exceeds(v, before))
  {
    assert forall u :: u in before + [v] <==> u in before || u == v;
  }

  lemma OneMoreEffective(before: seq<Review>, latest: seq<Review>, v: Review, w: Review)
    requires DistinctReviews(before + [v])
    requires forall u :: u in latest <==> EffectiveAmong(before, u)
    ensures PutKeeps(latest, v, w) <==> EffectiveAmong(before + [v], w)
  {
    ExceedsLatest(before, latest, v);
    OneMore(before, v, w);
    hide EffectiveAmong, DistinctReviews;
  }

  lemma {:induction false} LatestMembers(reviews: seq<Review>)
    requires DistinctReviews(reviews)
    ensures OnePerUser(Latest(reviews))
    ensures forall w :: w in Latest(reviews) <==> EffectiveAmong(reviews, w)
  {
    hide Put;
    if reviews != [] {
      var before, v := reviews[..|reviews| - 1], reviews[|reviews| - 1];
      assert reviews == before + [v];
      LatestMembers(before);
      PutMembers(Latest(before), v);
      forall w ensures PutKeeps(Latest(before), v, w) <==> EffectiveAmong(reviews, w) {
        OneMoreEffective(before, Latest(before), v, w);
      }
    }
  }

  /** The fold keeps exactly the effective reviews. */
  lemma LatestIsEffective(records: seq<Record>, head: string)
    requires DistinctIds(records)
    ensures var latest := Latest(CountedReviews(records, |records|, head));
            OnePerUser(latest) && forall v :: v in latest <==> Effective(records, head, v)
  {
    hide ReadRecord;
    var reviews := CountedReviews(records, |records|, head);
    assert records[..|records|] == records;
    forall v ensures v in reviews <==> CountedIn(records, head, v) {
      CountedMembers(records, |records|, head, v);
    }
    forall v, w | v in reviews && w in reviews && v.id == w.id ensures v == w {
      var a :| a in records && ReadRecord(a, head) == Counted(v);
      var b :| b in records && ReadRecord(b, head) == Counted(w);
      CountedKeepsId(a, head, v);
      CountedKeepsId(b, head, w);
    }
    LatestMembers(reviews);
  }

  lemma CountedKeepsId(record: Record, head: string, v: Review)
    requires ReadRecord(record, head) == Counted(v)
    ensures record.Record? && record.id == v.id
  {
  }

  predicate Faulty(api: Directory, members: map<string, int>, v: Review) {
    Eligible(api, members, v).Err?
  }

  predicate Blocking(api: Directory, members: map<string, int>, v: Review) {
    Eligible(api, members, v) == Ok(true) && v.state == ChangesRequested
  }

  predicate Approving(api: Directory, members: map<string, int>, head: string, v: Review) {
    Eligible(api, members, v) == Ok(true) && v.state == Approved && v.commit == head
  }

  ghost predicate Obstacle(api: Directory, members: map<string, int>, v: Review, e: ApprovalError) {
    || (e == Unauthentic && Faulty(api, members, v))
    || (e == HumanRequired && Blocking(api, members, v))
  }

  lemma FaultIsUnauthentic(api: Directory, members: map<string, int>, v: Review)
    ensures Faulty(api, members, v) ==> Eligible(api, members, v) == Err(Unauthentic)
  {
  }

  lemma {:induction false} AcceptedMembers(latest: seq<Review>, n: nat, head: string, api: Directory,
                                           members: map<string, int>)
    requires n <= |latest|
    ensures var r := Accepted(latest, n, head, api, members);
            if r.Ok? then
              && (forall v, e :: v in latest[..n] ==> !Obstacle(api, members, v, e))
              && (forall v :: v in r.value <==> v in latest[..n] && Approving(api, members, head, v))
            else exists v :: v in latest[..n] && Obstacle(api, members, v, r.error)
  {
    hide Eligible;
    if n > 0 {
      AcceptedMembers(latest, n - 1, head, api, members);
      assert latest[..n] == latest[..n - 1] + [latest[n - 1]];
      FaultIsUnauthentic(api, members, latest[n - 1]);
      if Accepted(latest, n - 1, head, api, members).Ok? && Accepted(latest, n, head, api, members).Err? {
        assert Obstacle(api, members, latest[n - 1], Accepted(latest, n, head, api, members).error);
      }
    }
  }

  ghost predicate NoObstacle(records: seq<Record>, head: string, api: Directory, members: map<string, int>) {
    forall w, e :: Effective(records, head, w) ==> !Obstacle(api, members, w, e)
  }

  ghost predicate EffectiveApproval(records: seq<Record>, head: string, api: Directory, members: map<string, int>,
                                    v: Review) {
    Effective(records, head, v) && Approving(api, members, head, v)
  }

  /**
   * What a successful approval means, without the fold: every record is readable, no author
   * of an effective review is unauthenticated, no eligible one requests changes, and `v` is
   * the newest effective approval of exactly this head by an eligible member, whose membership
   * still holds after the fold.
   */
  ghost predicate Approves(records: seq<Record>, head: string, before: Directory, after: Directory, v: Review) {
    && before.members.Some? && Readable(records, head)
    && NoObstacle(records, head, before, before.members.value)
    && EffectiveApproval(records, head, before, before.members.value, v)
    && (forall w :: EffectiveApproval(records, head, before, before.members.value, w) ==> w.id <= v.id)
    && Recheck(v, after, before.members.value) == Ok(v)
  }

  lemma AcceptedAreApprovals(records: seq<Record>, head: string, api: Directory, members: map<string, int>)
    requires DistinctIds(records)
    ensures var latest := Latest(CountedReviews(records, |records|, head));
            var r := Accepted(latest, |latest|, head, api, members);
            if r.Ok? then
              && NoObstacle(records, head, api, members)
              && (forall v :: v in r.value <==> EffectiveApproval(records, head, api, members, v))
            else exists v :: Effective(records, head, v) && Obstacle(api, members, v, r.error)
  {
    hide Effective, Obstacle, Approving, Accepted, Latest, CountedReviews;
    var latest := Latest(CountedReviews(records, |records|, head));
    LatestIsEffective(records, head);
    AcceptedMembers(latest, |latest|, head, api, members);
    assert latest[..|latest|] == latest;
  }

  lemma SameId(records: seq<Record>, head: string, v: Review, w: Review)
    requires DistinctIds(records) && CountedIn(records, head, v) && CountedIn(records, head, w) && v.id == w.id
    ensures v == w
  {
    hide ReadRecord;
    var a :| a in records && ReadRecord(a, head) == Counted(v);
    var b :| b in records && ReadRecord(b, head) == Counted(w);
    CountedKeepsId(a, head, v);
    CountedKeepsId(b, head, w);
  }

  /** A review is approved exactly when it is the newest effective approval. */
  lemma ApprovesExactly(records: seq<Record>, head: string, before: Directory, after: Directory, v: Review)
    requires DistinctIds(records)
    ensures Decide(records, head, before, after) == Ok(v) <==> Approves(records, head, before, after, v)
  {
    hide Readable, Recheck, CountedReviews, Latest, Accepted, Obstacle, Approving;
    if before.members.Some? && Readable(records, head) {
      var members := before.members.value;
      AcceptedAreApprovals(records, head, before, members);
      var latest := Latest(CountedReviews(records, |records|, head));
      var r := Accepted(latest, |latest|, head, before, members);
      if r.Ok? && r.value != [] {
        var newest := Newest(r.value);
        RecheckKeeps(newest, after, members);
        if Approves(records, head, before, after, v) {
          SameId(records, head, v, newest);
        }
      }
    }
  }

  lemma RecheckKeeps(v: Review, after: Directory, members: map<string, int>)
    ensures Recheck(v, after, members).Ok? ==> Recheck(v, after, members) == Ok(v)
  {
  }

  // ----- Order of the records -----

  ghost predicate SameRecords(p: seq<Record>, q: seq<Record>) {
    forall record :: record in p <==> record in q
  }

  lemma SameReading(p: seq<Record>, q: seq<Record>, head: string)
    requires SameRecords(p, q)
    ensures Readable(p, head) <==> Readable(q, head)
    ensures DistinctIds(p) <==> DistinctIds(q)
    ensures forall v :: Effective(p, head, v) <==> Effective(q, head, v)
  {
    hide ReadRecord;
    assert forall v :: CountedIn(p, head, v) <==> CountedIn(q, head, v);
  }

  /** A successful approval does not depend on the order of the records, nor does failure. */
  lemma ApprovalForgetsOrder(p: seq<Record>, q: seq<Record>, head: string, before: Directory, after: Directory)
    requires DistinctIds(p) && multiset(p) == multiset(q)
    ensures var r, s := Decide(p, head, before, after), Decide(q, head, before, after);
            r.Ok? || s.Ok? ==> r == s
  {
    SameMultiset(p, q);
    SameReading(p, q, head);
    var r, s := Decide(p, head, before, after), Decide(q, head, before, after);
    if r.Ok? {
      ApprovesExactly(p, head, before, after, r.value);
      ApprovesExactly(q, head, before, after, r.value);
      SameApproval(p, q, head, before, after, r.value);
    }
    if s.Ok? {
      ApprovesExactly(p, head, before, after, s.value);
      ApprovesExactly(q, head, before, after, s.value);
      SameApproval(p, q, head, before, after, s.value);
    }
  }

  lemma SameMultiset(p: seq<Record>, q: seq<Record>)
    requires multiset(p) == multiset(q)
    ensures SameRecords(p, q)
  {
    forall record ensures record in p <==> record in q {
      assert record in p <==> record in multiset(p);
    }
  }

  lemma SameApproval(p: seq<Record>, q: seq<Record>, head: string, before: Directory, after: Directory, v: Review)
    requires Readable(p, head) <==> Readable(q, head)
    requires forall w :: Effective(p, head, w) <==> Effective(q, head, w)
    ensures Approves(p, head, before, after, v) <==> Approves(q, head, before, after, v)
  {
    hide Readable, Effective, Recheck;
  }

  // ----- Which error -----

  ghost predicate SomeObstacle(records: seq<Record>, head: string, api: Directory, members: map<string, int>,
                               e: ApprovalError) {
    exists v :: Effective(records, head, v) && Obstacle(api, members, v, e)
  }

  /** Both a reviewer that cannot be authenticated and an eligible one that requests changes. */
  ghost predicate Mixed(records: seq<Record>, head: string, before: Directory) {
    && before.members.Some? && Readable(records, head)
    && SomeObstacle(records, head, before, before.members.value, Unauthentic)
    && SomeObstacle(records, head, before, before.members.value, HumanRequired)
  }

  /** The error of an approval without mixed obstacles, read off the effective reviews. */
  lemma ErrorOf(records: seq<Record>, head: string, before: Directory, after: Directory)
    requires DistinctIds(records) && before.members.Some? && Readable(records, head)
    ensures var members, r := before.members.value, Decide(records, head, before, after);
            && (!NoObstacle(records, head, before, members) ==>
                  r.Err? && SomeObstacle(records, head, before, members, r.error))
            && (NoObstacle(records, head, before, members) ==>
                  if exists v :: NewestApproval(records, head, before, members, v)
                  then exists v :: NewestApproval(records, head, before, members, v) && r == Recheck(v, after, members)
                  else r == Err(HumanRequired))
  {
    hide Readable, Recheck, CountedReviews, Latest, Accepted, Obstacle, Approving, Effective;
    var members := before.members.value;
    AcceptedAreApprovals(records, head, before, members);
    var latest := Latest(CountedReviews(records, |records|, head));
    var r := Accepted(latest, |latest|, head, before, members);
    if r.Ok? && r.value != [] {
      assert NewestApproval(records, head, before, members, Newest(r.value));
    }
  }

  ghost predicate NewestApproval(records: seq<Record>, head: string, api: Directory, members: map<string, int>,
                                 v: Review) {
    && EffectiveApproval(records, head, api, members, v)
    && forall w :: EffectiveApproval(records, head, api, members, w) ==> w.id <= v.id
  }

  lemma SameError(p: seq<Record>, q: seq<Record>, head: string, before: Directory, after: Directory)
    requires DistinctIds(p) && SameRecords(p, q) && !Mixed(p, head, before)
    ensures Decide(p, head, before, after) == Decide(q, head, before, after)
  {
    hide Obstacle, Approving, Effective, Recheck, DistinctIds;
    SameReading(p, q, head);
    hide Readable;
    if before.members.Some? && Readable(p, head) {
      var members := before.members.value;
      ErrorOf(p, head, before, after);
      ErrorOf(q, head, before, after);
      SameObstacles(p, q, head, before, members);
      forall v, w | NewestApproval(p, head, before, members, v) && NewestApproval(p, head, before, members, w)
        ensures v == w
      {
        EffectiveIsCounted(p, head, v);
        EffectiveIsCounted(p, head, w);
        SameId(p, head, v, w);
      }
      hide SomeObstacle, NoObstacle, NewestApproval;
      var r, s := Decide(p, head, before, after), Decide(q, head, before, after);
      assert r.Err? ==> r.error == Unauthentic || r.error == HumanRequired;
      assert s.Err? ==> s.error == Unauthentic || s.error == HumanRequired;
    }
  }

  lemma EffectiveIsCounted(records: seq<Record>, head: string, v: Review)
    requires Effective(records, head, v)
    ensures CountedIn(records, head, v)
  {
  }

  lemma SameObstacles(p: seq<Record>, q: seq<Record>, head: string, api: Directory, members: map<string, int>)
    requires forall v :: Effective(p, head, v) <==> Effective(q, head, v)
    ensures NoObstacle(p, head, api, members) <==> NoObstacle(q, head, api, members)
    ensures forall e :: SomeObstacle(p, head, api, members, e) <==> SomeObstacle(q, head, api, members, e)
    ensures forall v :: NewestApproval(p, head, api, members, v) <==> NewestApproval(q, head, api, members, v)
  {
    hide Obstacle, Approving, Effective;
  }

  lemma {:induction false} LatestKeepsFirst(reviews: seq<Review>)
    requires reviews != [] && EffectiveAmong(reviews, reviews[0])
    ensures Latest(reviews) != [] && Latest(reviews)[0] == reviews[0]
  {
    var before, v := reviews[..|reviews| - 1], reviews[|reviews| - 1];
    if before == [] {
      assert Latest(before) == [];
    } else {
      assert v in reviews && forall w :: w in before ==> w in reviews;
      LatestKeepsFirst(before);
    }
  }

  lemma {:induction false} CountedFirst(records: seq<Record>, n: nat, head: string, v: Review)
    requires 0 < n <= |records| && ReadRecord(records[0], head) == Counted(v)
    ensures CountedReviews(records, n, head) != [] && CountedReviews(records, n, head)[0] == v
  {
    hide ReadRecord;
    if n == 1 {
      assert CountedReviews(records, 0, head) == [];
    } else {
      CountedFirst(records, n - 1, head, v);
    }
  }

  /** An obstacle at the head of the list decides the error. */
  lemma FrontObstacle(records: seq<Record>, head: string, before: Directory, after: Directory, v: Review,
                      e: ApprovalError)
    requires DistinctIds(records) && before.members.Some? && Readable(records, head)
    requires records != [] && ReadRecord(records[0], head) == Counted(v)
    requires Effective(records, head, v) && Obstacle(before, before.members.value, v, e)
    ensures Decide(records, head, before, after) == Err(e)
  {
    hide ReadRecord, Eligible, Latest, CountedReviews, Readable, DistinctIds;
    var members, reviews := before.members.value, CountedReviews(records, |records|, head);
    CountedFirst(records, |records|, head, v);
    assert records[..|records|] == records;
    forall w | w in reviews && w.userId == v.userId ensures w.id <= v.id {
      CountedMembers(records, |records|, head, w);
    }
    LatestKeepsFirst(reviews);
    FaultIsUnauthentic(before, members, v);
    var latest := Latest(reviews);
    assert Accepted(latest, 0, head, before, members) == Ok([]);
    assert Accepted(latest, 1, head, before, members) == Err(e);
    AcceptedStops(latest, 1, head, before, members);
  }

  /** The same records with one of them first. */
  lemma ToFront(records: seq<Record>, record: Record) returns (q: seq<Record>)
    requires record in records
    ensures q != [] && q[0] == record && multiset(q) == multiset(records)
  {
    var i :| 0 <= i < |records| && records[i] == record;
    q := [record] + (records[..i] + records[i + 1..]);
    assert records == records[..i] + [record] + records[i + 1..];
  }

  lemma FrontError(records: seq<Record>, head: string, before: Directory, after: Directory, e: ApprovalError)
    returns (q: seq<Record>)
    requires DistinctIds(records) && before.members.Some? && Readable(records, head)
    requires SomeObstacle(records, head, before, before.members.value, e)
    ensures multiset(q) == multiset(records) && Decide(q, head, before, after) == Err(e)
  {
    hide ReadRecord, Obstacle, Readable, DistinctIds, Decide;
    var v :| Effective(records, head, v) && Obstacle(before, before.members.value, v, e);
    var record :| record in records && ReadRecord(record, head) == Counted(v);
    q := ToFront(records, record);
    SameMultiset(records, q);
    SameReading(records, q, head);
    FrontObstacle(q, head, before, after, v, e);
  }

  /**
   * The exact condition: the whole outcome, error included, is the same for every order of
   * the records unless the effective reviews hold both kinds of obstacle. The order of the
   * reviews then decides whether the error names missing authority or a human decision.
   */
  lemma OutcomeForgetsOrderExactly(records: seq<Record>, head: string, before: Directory, after: Directory)
    requires DistinctIds(records)
    ensures (forall q :: multiset(q) == multiset(records) ==>
              Decide(q, head, before, after) == Decide(records, head, before, after))
            <==> !Mixed(records, head, before)
  {
    hide Decide, Readable, DistinctIds, SomeObstacle;
    if Mixed(records, head, before) {
      var a := FrontError(records, head, before, after, Unauthentic);
      var b := FrontError(records, head, before, after, HumanRequired);
    } else {
      forall q | multiset(q) == multiset(records)
        ensures Decide(q, head, before, after) == Decide(records, head, before, after)
      {
        SameMultiset(records, q);
        SameError(records, q, head, before, after);
      }
    }
  }

  /** Two reviewers of one team: the inventory holds another id for `a`, and `b` requests changes. */
  lemma OrderShowsInTheError(head: string) returns (a: Record, b: Record, api: Directory)
    ensures DistinctIds([a, b])
    ensures Decide([a, b], head, api, api) == Err(Unauthentic)
    ensures Decide([b, a], head, api, api) == Err(HumanRequired)
  {
    var v, w: Review;
    a, v := ReadExample(1, "a", Approved, head);
    b, w := ReadExample(2, "b", ChangesRequested, head);
    var members := map["a" := 7, "b" := 2];
    api := Directory(Some(members), _ => Some(Membership(true)), _ => Some("admin"));
    LowerExamples();
    KnownUnder(api, members, v);
    KnownUnder(api, members, w);
    hide ReadRecord, Eligible, Decide, Lower;
    BothEffective([a, b], head, v, w);
    BothEffective([b, a], head, v, w);
    FrontObstacle([a, b], head, api, api, v, Unauthentic);
    FrontObstacle([b, a], head, api, api, w, HumanRequired);
  }

  lemma ReadExample(id: int, login: string, state: State, head: string) returns (record: Record, v: Review)
    requires id >= 1 && LoginOk(login) && (state == Approved || state == ChangesRequested)
    ensures record.Record? && record.id == id && v == Review(id, login, id, state, head, false)
    ensures ReadRecord(record, head) == Counted(v)
  {
    record := Record(id, User(Human, Some(login), Some(id)), state, Body([]), head);
    v := Review(id, login, id, state, head, false);
  }

  lemma LowerExamples()
    ensures Lower("a") == "a" && Lower("b") == "b"
  {
    assert "a"[1..] == [] && "b"[1..] == [];
  }

  /** A listed login is eligible under its own id and a fault under any other. */
  lemma KnownUnder(api: Directory, members: map<string, int>, v: Review)
    requires Lower(v.login) in members
    requires api.membership(v.login) == Some(Membership(true)) && api.role(v.login) == Some("admin")
    ensures Eligible(api, members, v) == if members[Lower(v.login)] == v.userId then Ok(true) else Err(Unauthentic)
  {
  }

  lemma BothEffective(records: seq<Record>, head: string, v: Review, w: Review)
    requires |records| == 2 && v.userId != w.userId
    requires {ReadRecord(records[0], head), ReadRecord(records[1], head)} == {Counted(v), Counted(w)}
    ensures Effective(records, head, v) && Effective(records, head, w) && Readable(records, head)
  {
    hide ReadRecord;
    var x, y := ReadRecord(records[0], head), ReadRecord(records[1], head);
    assert x in {x, y} && y in {x, y} && Counted(v) in {x, y} && Counted(w) in {x, y};
    assert records[0] in records && records[1] in records;
  }
}
