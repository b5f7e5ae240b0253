/** Friend requests, friendships and blocks: one row of the friendship table per pair of users,
    rewritten in place. */
module Friendships {
  import opened Sql
  import opened Schema

  type FriendshipTable = Table<Friendship>

  datatype Failure =
    | UserNotFound | SelfRequest | AlreadyRequested | UserBlocked | AlreadyFriends
    | RequestNotFound | FriendshipNotFound | CannotBlockSelf

  /** The table, and the next primary key. */
  datatype Friends = Friends(rows: FriendshipTable, next: Id)

  // ---------- The repository's queries ----------

  predicate IsBetween(f: Friendship, a: Id, b: Id) {
    || (f.requesterId == a && f.addresseeId == b)
    || (f.requesterId == b && f.addresseeId == a)
  }

  /** get_between: the first row of the pair, whoever asked. */
  function GetBetween(t: FriendshipTable, a: Id, b: Id): (r: Option<Row<Friendship>>)
    ensures r.Some? ==> r.value in t && IsBetween(r.value.data, a, b)
    ensures r.None? ==> forall i :: 0 <= i < |t| ==> !IsBetween(t[i].data, a, b)
  {
    if t == [] then None
    else if IsBetween(t[0].data, a, b) then Some(t[0])
    else GetBetween(t[1..], a, b)
  }

  /** An UPDATE by primary key. */
  function Rewrite(t: FriendshipTable, key: Id, f: Friendship): (r: FriendshipTable)
    ensures |r| == |t|
    ensures forall i :: 0 <= i < |t| ==> r[i] == if t[i].id == key then Row(key, f) else t[i]
  {
    seq(|t|, i requires 0 <= i < |t| => if t[i].id == key then Row(key, f) else t[i])
  }

  /** What the pair's row says; no row for two users who have nothing to do with each other. */
  function PairOf(s: Friends, a: Id, b: Id): Option<Friendship> {
    var r := GetBetween(s.rows, a, b);
    if r.Some? then Some(r.value.data) else None
  }

  // ---------- The steps, one pair at a time ----------

  datatype Step =
    | Request(user: Id, target: Id, now: int)
    | Accept(user: Id, key: Id, now: int)
    | Decline(user: Id, key: Id, now: int)
    | Unfriend(user: Id, target: Id)
    | Block(user: Id, target: Id, now: int)
    | Unblock(user: Id, target: Id)

  datatype Verdict = Refuse(failure: Failure) | Write(f: Friendship) | Erase

  /** What a request does to the row it finds. */
  function OnRequest(found: Option<Friendship>, user: Id, target: Id, now: int): Verdict {
    if found.None? || found.value.status == Declined then Write(Friendship(user, target, Pending, None))
    else match found.value.status
      case Blocked => Refuse(UserBlocked)
      case Accepted => Refuse(AlreadyFriends)
      case _ =>
        if found.value.requesterId == user then Refuse(AlreadyRequested)
        else Write(found.value.(status := Accepted, respondedAt := Some(now)))
  }

  /** What an answer does to the row of its key: only the addressee of a pending request may give one. */
  function OnAnswer(found: Option<Friendship>, user: Id, answer: FriendshipStatus, now: int): Verdict {
    if found.None? || found.value.addresseeId != user || found.value.status != Pending then Refuse(RequestNotFound)
    else Write(found.value.(status := answer, respondedAt := Some(now)))
  }

  function OnUnfriend(found: Option<Friendship>): Verdict {
    if found.None? || found.value.status != Accepted then Refuse(FriendshipNotFound) else Erase
  }

  function OnUnblock(found: Option<Friendship>, user: Id): Verdict {
    if found.None? || found.value.status != Blocked || found.value.requesterId != user
    then Refuse(FriendshipNotFound)
    else Erase
  }

  function Found(s: Friends, step: Step): Option<Row<Friendship>> {
    match step
    case Accept(_, key, _) => Get(s.rows, key)
    case Decline(_, key, _) => Get(s.rows, key)
    case _ => GetBetween(s.rows, step.user, step.target)
  }

  /** The verdict of a step on what the row it looks up says. */
  function Judge(users: set<Id>, step: Step, found: Option<Friendship>): Verdict {
    match step
    case Request(user, target, now) =>
      if target !in users then Refuse(UserNotFound)
      else if target == user then Refuse(SelfRequest)
      else OnRequest(found, user, target, now)
    case Accept(user, key, now) => OnAnswer(found, user, Accepted, now)
    case Decline(user, key, now) => OnAnswer(found, user, Declined, now)
    case Unfriend(user, target) => OnUnfriend(found)
    case Block(user, target, now) =>
      if target == user then Refuse(CannotBlockSelf)
      else if target !in users then Refuse(UserNotFound)
      else Write(Friendship(user, target, Blocked, Some(now)))
    case Unblock(user, target) => OnUnblock(found, user)
  }

  function DataOf(r: Option<Row<Friendship>>): Option<Friendship> {
    if r.Some? then Some(r.value.data) else None
  }

  function VerdictOn(users: set<Id>, s: Friends, step: Step): Verdict {
    Judge(users, step, DataOf(Found(s, step)))
  }

  /** A verdict carried out on the row that was looked up. */
  function Apply(s: Friends, found: Option<Row<Friendship>>, v: Verdict): Friends {
    match v
    case Refuse(_) => s
    case Write(f) =>
      if found.Some? then s.(rows := Rewrite(s.rows, found.value.id, f))
      else Friends(s.rows + [Row(s.next, f)], s.next + 1)
    case Erase => if found.Some? then s.(rows := WithoutKey(s.rows, found.value.id)) else s
  }

  function Next(users: set<Id>, s: Friends, step: Step): Friends {
    Apply(s, Found(s, step), VerdictOn(users, s, step))
  }

  // ---------- One row per pair ----------

  predicate SamePair(f: Friendship, g: Friendship) {
    IsBetween(f, g.requesterId, g.addresseeId)
  }

  ghost predicate OnePerPair(t: FriendshipTable) {
    forall i, j :: 0 <= i < j < |t| ==> !SamePair(t[i].data, t[j].data)
  }

  ghost predicate RowsOk(users: set<Id>, t: FriendshipTable) {
    forall i :: 0 <= i < |t| ==> FriendshipRowOk(users, t[i].data)
  }

  ghost predicate WellFormed(users: set<Id>, s: Friends) {
    KeysBelow(s.rows, s.next) && OnePerPair(s.rows) && RowsOk(users, s.rows)
  }

  /** In particular the table's own constraints hold: no commit of a serial run is refused. */
  lemma WellFormedIsConsistent(users: set<Id>, s: Friends)
    requires WellFormed(users, s)
    ensures FriendshipsOk(users, s.rows)
  {
    forall q, r | q in s.rows && r in s.rows && SameDirection(q.data, r.data) ensures q == r {
      var i :| 0 <= i < |s.rows| && s.rows[i] == q;
      var j :| 0 <= j < |s.rows| && s.rows[j] == r;
      assert i < j ==> !SamePair(q.data, r.data);
      assert j < i ==> !SamePair(r.data, q.data);
    }
  }

  lemma {:induction false} BetweenAppended(t: FriendshipTable, r: Row<Friendship>, a: Id, b: Id)
    ensures GetBetween(t + [r], a, b)
      == if GetBetween(t, a, b).Some? then GetBetween(t, a, b)
         else if IsBetween(r.data, a, b) then Some(r) else None
  {
    if t != [] {
      assert (t + [r])[1..] == t[1..] + [r];
      BetweenAppended(t[1..], r, a, b);
    }
  }

  lemma {:induction false} BetweenRewritten(t: FriendshipTable, found: Row<Friendship>, f: Friendship, a: Id, b: Id)
    requires DistinctIds(t) && OnePerPair(t) && found in t && SamePair(f, found.data)
    ensures GetBetween(Rewrite(t, found.id, f), a, b)
      == if IsBetween(f, a, b) then Some(Row(found.id, f)) else GetBetween(t, a, b)
  {
    var u := Rewrite(t, found.id, f);
    var i :| 0 <= i < |t| && t[i] == found;
    if i == 0 {
      assert u[1..] == t[1..];
      if IsBetween(f, a, b) {
        assert u[0] == Row(found.id, f);
      } else {
        assert GetBetween(u, a, b) == GetBetween(t[1..], a, b);
      }
    } else {
      assert u[0] == t[0] && u[1..] == Rewrite(t[1..], found.id, f);
      assert t[1..][i - 1] == found;
      assert !SamePair(t[0].data, found.data);
      BetweenRewritten(t[1..], found, f, a, b);
    }
  }

  lemma {:induction false} BetweenErased(t: FriendshipTable, k: nat, a: Id, b: Id)
    requires k < |t| && DistinctIds(t) && OnePerPair(t)
    ensures GetBetween(WithoutKey(t, t[k].id), a, b)
      == if IsBetween(t[k].data, a, b) then None else GetBetween(t, a, b)
  {
    var key := t[k].id;
    if k == 0 {
      WithoutAbsent(t[1..], key);
      WithoutHead(t, key);
      if IsBetween(t[k].data, a, b) {
        NoneBetween(t[1..], a, b);
      }
    } else {
      assert !SamePair(t[0].data, t[k].data);
      BetweenErased(t[1..], k - 1, a, b);
      WithoutHead(t, key);
      BetweenHead(t[0], WithoutKey(t[1..], key), a, b);
    }
  }

  lemma BetweenHead(r: Row<Friendship>, t: FriendshipTable, a: Id, b: Id)
    ensures GetBetween([r] + t, a, b) == if IsBetween(r.data, a, b) then Some(r) else GetBetween(t, a, b)
  {
    assert ([r] + t)[1..] == t;
  }

  lemma {:induction false} NoneBetween(t: FriendshipTable, a: Id, b: Id)
    requires forall i :: 0 <= i < |t| ==> !IsBetween(t[i].data, a, b)
    ensures GetBetween(t, a, b) == None
  {
    if t != [] {
      NoneBetween(t[1..], a, b);
    }
  }

  lemma {:induction false} PairFound(t: FriendshipTable, r: Row<Friendship>, a: Id, b: Id)
    requires OnePerPair(t) && r in t && IsBetween(r.data, a, b)
    ensures GetBetween(t, a, b) == Some(r)
  {
    if t[0] != r {
      var i :| 0 <= i < |t| && t[i] == r;
      assert !SamePair(t[0].data, t[i].data);
      assert t[1..][i - 1] == r;
      PairFound(t[1..], r, a, b);
    }
  }

  // ---------- Every step keeps one row per pair ----------

  /** A verdict writes the row of the pair it was asked about, between two different users. */
  predicate Fitting(users: set<Id>, found: Option<Row<Friendship>>, v: Verdict) {
    && (v.Write? ==> FriendshipRowOk(users, v.f))
    && (v.Write? && found.Some? ==> SamePair(v.f, found.value.data))
    && (v.Erase? ==> found.Some?)
  }

  lemma VerdictFits(users: set<Id>, s: Friends, step: Step)
    requires WellFormed(users, s) && step.user in users
    ensures Fitting(users, Found(s, step), VerdictOn(users, s, step))
  {
    var found := Found(s, step);
    if found.Some? {
      var i :| 0 <= i < |s.rows| && s.rows[i] == found.value;
      assert FriendshipRowOk(users, s.rows[i].data);
    }
  }

  lemma AppendKeeps(users: set<Id>, s: Friends, f: Friendship)
    requires WellFormed(users, s) && FriendshipRowOk(users, f)
    requires GetBetween(s.rows, f.requesterId, f.addresseeId).None?
    ensures WellFormed(users, Friends(s.rows + [Row(s.next, f)], s.next + 1))
  {
    var t := s.rows + [Row(s.next, f)];
    forall i, j | 0 <= i < j < |t| ensures !SamePair(t[i].data, t[j].data) {
      if j == |s.rows| {
        assert !IsBetween(s.rows[i].data, f.requesterId, f.addresseeId);
      }
    }
  }

  lemma RewriteKeeps(users: set<Id>, s: Friends, found: Row<Friendship>, f: Friendship)
    requires WellFormed(users, s) && found in s.rows && FriendshipRowOk(users, f) && SamePair(f, found.data)
    ensures WellFormed(users, s.(rows := Rewrite(s.rows, found.id, f)))
  {
    var t := Rewrite(s.rows, found.id, f);
    var k :| 0 <= k < |s.rows| && s.rows[k] == found;
    forall i, j | 0 <= i < j < |t| ensures !SamePair(t[i].data, t[j].data) && t[i].id != t[j].id {
      assert !SamePair(s.rows[i].data, s.rows[j].data) && s.rows[i].id != s.rows[j].id;
      assert i != k ==> t[i] == s.rows[i];
      assert j != k ==> t[j] == s.rows[j];
    }
  }

  lemma {:induction false} EraseKeepsPairs(users: set<Id>, t: FriendshipTable, key: Id)
    requires OnePerPair(t) && RowsOk(users, t)
    ensures OnePerPair(WithoutKey(t, key)) && RowsOk(users, WithoutKey(t, key))
  {
    if t != [] {
      EraseKeepsPairs(users, t[1..], key);
      var rest := WithoutKey(t[1..], key);
      forall j | 0 <= j < |rest| ensures !SamePair(t[0].data, rest[j].data) {
        assert rest[j] in t[1..];
      }
    }
  }

  /** A step keeps every constraint, and at most one row per unordered pair. */
  lemma NextKeeps(users: set<Id>, s: Friends, step: Step)
    requires WellFormed(users, s) && step.user in users
    ensures WellFormed(users, Next(users, s, step))
  {
    var found, v := Found(s, step), VerdictOn(users, s, step);
    VerdictFits(users, s, step);
    match v
    case Refuse(_) =>
    case Write(f) =>
      if found.Some? {
        RewriteKeeps(users, s, found.value, f);
      } else {
        AppendKeeps(users, s, f);
      }
    case Erase =>
      EraseKeepsPairs(users, s.rows, found.value.id);
      WithoutKeyBelow(s.rows, found.value.id, s.next);
  }

  // ---------- The table is a family of independent pairs ----------

  /** The pair a step is about: the two users it names, or those of the request it names. */
  predicate Concerns(s: Friends, step: Step, a: Id, b: Id) {
    match step
    case Accept(_, key, _) => Get(s.rows, key).Some? && IsBetween(Get(s.rows, key).value.data, a, b)
    case Decline(_, key, _) => Get(s.rows, key).Some? && IsBetween(Get(s.rows, key).value.data, a, b)
    case _ => (step.user == a && step.target == b) || (step.user == b && step.target == a)
  }

  /** What a step makes of a pair's row. */
  function Become(v: Verdict, p: Option<Friendship>): Option<Friendship> {
    match v
    case Refuse(_) => p
    case Write(f) => Some(f)
    case Erase => None
  }

  lemma ConcernedRow(users: set<Id>, s: Friends, step: Step, a: Id, b: Id)
    requires WellFormed(users, s) && Concerns(s, step, a, b)
    ensures Found(s, step) == GetBetween(s.rows, a, b)
  {
    var found := Found(s, step);
    if found.Some? {
      PairFound(s.rows, found.value, a, b);
    } else {
      NoneBetween(s.rows, a, b);
    }
  }

  /** Whether carrying out a verdict touches this pair's row. */
  predicate Touches(found: Option<Row<Friendship>>, v: Verdict, a: Id, b: Id)
    requires v.Erase? ==> found.Some?
  {
    match v
    case Refuse(_) => false
    case Write(f) => IsBetween(f, a, b)
    case Erase => IsBetween(found.value.data, a, b)
  }

  lemma AppliedPair(users: set<Id>, s: Friends, found: Option<Row<Friendship>>, v: Verdict, a: Id, b: Id)
    requires WellFormed(users, s) && Fitting(users, found, v)
    requires found.Some? ==> found.value in s.rows
    requires found.None? && v.Write? ==> GetBetween(s.rows, v.f.requesterId, v.f.addresseeId).None?
    ensures PairOf(Apply(s, found, v), a, b)
      == if Touches(found, v, a, b) then Become(v, PairOf(s, a, b)) else PairOf(s, a, b)
  {
    match v
    case Refuse(_) =>
    case Write(f) =>
      if found.Some? {
        BetweenRewritten(s.rows, found.value, f, a, b);
      } else {
        BetweenAppended(s.rows, Row(s.next, f), a, b);
      }
    case Erase =>
      var k :| 0 <= k < |s.rows| && s.rows[k] == found.value;
      BetweenErased(s.rows, k, a, b);
  }

  lemma TouchesConcerned(users: set<Id>, s: Friends, step: Step, a: Id, b: Id)
    requires WellFormed(users, s) && step.user in users && !VerdictOn(users, s, step).Refuse?
    requires Fitting(users, Found(s, step), VerdictOn(users, s, step))
    ensures Touches(Found(s, step), VerdictOn(users, s, step), a, b) <==> Concerns(s, step, a, b)
  {
  }

  /** Steps act on one pair's row alone, as a function of what that row says: the table is a
      family of independent machines, one per unordered pair. */
  lemma NextPair(users: set<Id>, s: Friends, step: Step, a: Id, b: Id)
    requires WellFormed(users, s) && step.user in users
    ensures PairOf(Next(users, s, step), a, b)
      == if Concerns(s, step, a, b) then Become(Judge(users, step, PairOf(s, a, b)), PairOf(s, a, b))
         else PairOf(s, a, b)
  {
    var found, v := Found(s, step), VerdictOn(users, s, step);
    VerdictFits(users, s, step);
    if !v.Refuse? {
      AppliedPair(users, s, found, v, a, b);
      TouchesConcerned(users, s, step, a, b);
    }
    if Concerns(s, step, a, b) {
      ConcernedRow(users, s, step, a, b);
    }
  }

  // ---------- What each step makes of its pair ----------

  /** A request writes a pending row where there is none or a refusal, answers the other user's request, and else
      changes nothing. */
  lemma RequestBecomes(users: set<Id>, s: Friends, user: Id, target: Id, now: int)
    requires WellFormed(users, s) && user in users && target in users && target != user
    ensures var before := PairOf(s, user, target);
      var after := PairOf(Next(users, s, Request(user, target, now)), user, target);
      && (before.None? || before.value.status == Declined ==> after == Some(Friendship(user, target, Pending, None)))
      && (before.Some? && before.value.status == Pending && before.value.requesterId != user ==>
            before.value.requesterId == target && after == Some(Friendship(target, user, Accepted, Some(now))))
      && (before.Some? && before.value.status == Pending && before.value.requesterId == user ==> after == before)
      && (before.Some? && before.value.status in {Accepted, Blocked} ==> after == before)
  {
    NextPair(users, s, Request(user, target, now), user, target);
  }

  /** An answer takes the request of its key, if it is pending and was addressed to the user; any other answer
      changes nothing. */
  lemma AnswerBecomes(users: set<Id>, s: Friends, user: Id, r: Row<Friendship>, now: int)
    requires WellFormed(users, s) && user in users && r in s.rows
    ensures var a, b := r.data.requesterId, r.data.addresseeId;
      var accepted, declined := Next(users, s, Accept(user, r.id, now)), Next(users, s, Decline(user, r.id, now));
      if b == user && r.data.status == Pending then
        && PairOf(accepted, a, b) == Some(Friendship(a, b, Accepted, Some(now)))
        && PairOf(declined, a, b) == Some(Friendship(a, b, Declined, Some(now)))
      else accepted == s && declined == s
  {
    GetRow(s.rows, r);
    PairFound(s.rows, r, r.data.requesterId, r.data.addresseeId);
    NextPair(users, s, Accept(user, r.id, now), r.data.requesterId, r.data.addresseeId);
    NextPair(users, s, Decline(user, r.id, now), r.data.requesterId, r.data.addresseeId);
  }

  lemma AnswerToNothing(users: set<Id>, s: Friends, user: Id, key: Id, now: int)
    requires forall r :: r in s.rows ==> r.id != key
    ensures Next(users, s, Accept(user, key, now)) == s && Next(users, s, Decline(user, key, now)) == s
  {
  }

  /** Ending a friendship and lifting one's own block erase the row; blocking writes it, whatever it said. */
  lemma OthersBecome(users: set<Id>, s: Friends, user: Id, target: Id, now: int)
    requires WellFormed(users, s) && user in users && target in users && target != user
    ensures var before := PairOf(s, user, target);
      && PairOf(Next(users, s, Unfriend(user, target)), user, target)
           == (if before.Some? && before.value.status == Accepted then None else before)
      && PairOf(Next(users, s, Unblock(user, target)), user, target)
           == (if before.Some? && before.value.status == Blocked && before.value.requesterId == user then None
               else before)
      && PairOf(Next(users, s, Block(user, target, now)), user, target)
           == Some(Friendship(user, target, Blocked, Some(now)))
  {
    NextPair(users, s, Unfriend(user, target), user, target);
    NextPair(users, s, Unblock(user, target), user, target);
    NextPair(users, s, Block(user, target, now), user, target);
  }

  /** The request of a key that a user may answer. */
  ghost predicate Answerable(t: FriendshipTable, user: Id, key: Id) {
    exists r :: r in t && r.id == key && r.data.addresseeId == user && r.data.status == Pending
  }

  lemma AnswerableIs(t: FriendshipTable, user: Id, key: Id)
    requires DistinctIds(t)
    ensures Answerable(t, user, key) <==>
      Get(t, key).Some? && Get(t, key).value.data.addresseeId == user && Get(t, key).value.data.status == Pending
  {
    if r :| r in t && r.id == key && r.data.addresseeId == user && r.data.status == Pending {
      GetRow(t, r);
    }
  }

  // ---------- The service ----------

  class FriendshipService {
    const users: set<Id>
    var rows: FriendshipTable
    var next: Id

    ghost predicate Valid()
      reads this
    {
      WellFormed(users, State())
    }

    function State(): Friends
      reads this
    {
      Friends(rows, next)
    }

    constructor (users: set<Id>)
      ensures Valid() && this.users == users && rows == []
    {
      this.users := users;
      rows, next := [], 0;
    }

    /** INSERT of a new row. */
    method Insert(f: Friendship) returns (r: Row<Friendship>)
      modifies this
      ensures r == Row(old(next), f) && State() == Friends(old(rows) + [r], old(next) + 1)
    {
      r := Row(next, f);
      rows, next := rows + [r], next + 1;
    }

    /** UPDATE of a loaded row. */
    method Save(r: Row<Friendship>)
      modifies this`rows
      ensures rows == Rewrite(old(rows), r.id, r.data)
    {
      rows := Rewrite(rows, r.id, r.data);
    }

    method SendRequest(user: Id, target: Id, now: int) returns (r: Result<Row<Friendship>, Failure>)
      requires Valid() && user in users
      modifies this
      ensures Valid() && State() == Next(users, old(State()), Request(user, target, now))
      ensures r.Err? ==> Refuse(r.error) == VerdictOn(users, old(State()), Request(user, target, now))
      ensures r.Ok? ==> Write(r.value.data) == VerdictOn(users, old(State()), Request(user, target, now))
      ensures r.Ok? ==> GetBetween(rows, user, target) == Some(r.value)
      ensures var before := old(PairOf(State(), user, target));
        r.Ok? <==> target in users && target != user
                   && (before.None? || before.value.status == Declined
                       || (before.value.status == Pending && before.value.requesterId == target))
      ensures var before := old(PairOf(State(), user, target));
        r.Ok? ==> r.value.data == if before.None? || before.value.status == Declined
                                  then Friendship(user, target, Pending, None)
                                  else Friendship(target, user, Accepted, Some(now))
      ensures var before := old(PairOf(State(), user, target));
        r.Err? ==> rows == old(rows) && r.error == if target !in users then UserNotFound
                                                   else if target == user then SelfRequest
                                                   else if before.value.status == Blocked then UserBlocked
                                                   else if before.value.status == Accepted then AlreadyFriends
                                                   else AlreadyRequested
    {
      ghost var step := Request(user, target, now);
      ghost var before := State();
      NextKeeps(users, State(), step);
      if target !in users {
        return Err(UserNotFound);
      }
      if target == user {
        return Err(SelfRequest);
      }
      var existing := GetBetween(rows, user, target);
      if existing.None? {
        var row := Insert(Friendship(user, target, Pending, None));
        BetweenAppended(before.rows, row, user, target);
        return Ok(row);
      }
      var row := existing.value;
      match row.data.status
      case Blocked =>
        return Err(UserBlocked);
      case Accepted =>
        return Err(AlreadyFriends);
      case Pending =>
        if row.data.requesterId == user {
          return Err(AlreadyRequested);
        }
        row := Row(row.id, row.data.(status := Accepted, respondedAt := Some(now)));
        Save(row);
        BetweenRewritten(before.rows, existing.value, row.data, user, target);
        return Ok(row);
      case Declined =>
        row := Row(row.id, Friendship(user, target, Pending, None));
        Save(row);
        BetweenRewritten(before.rows, existing.value, row.data, user, target);
        return Ok(row);
    }

    /** _get_pending_as_addressee. */
    method GetPendingAsAddressee(user: Id, key: Id) returns (r: Result<Row<Friendship>, Failure>)
      ensures r.Ok? <==> Get(rows, key).Some? && Get(rows, key).value.data.addresseeId == user
                         && Get(rows, key).value.data.status == Pending
      ensures r.Ok? ==> Get(rows, key) == Some(r.value)
      ensures r.Err? ==> r.error == RequestNotFound
    {
      var f := Get(rows, key);
      if f.None? || f.value.data.addresseeId != user || f.value.data.status != Pending {
        return Err(RequestNotFound);
      }
      r := Ok(f.value);
    }

    method AcceptRequest(user: Id, key: Id, now: int) returns (r: Result<Row<Friendship>, Failure>)
      requires Valid() && user in users
      modifies this
      ensures Valid() && State() == Next(users, old(State()), Accept(user, key, now))
      ensures r.Err? ==> Refuse(r.error) == VerdictOn(users, old(State()), Accept(user, key, now))
      ensures r.Ok? ==>
        Write(r.value.data) == VerdictOn(users, old(State()), Accept(user, key, now)) && r.value.id == key
      ensures r.Ok? <==> Answerable(old(rows), user, key)
      ensures r.Ok? ==>
        && r.value.data.addresseeId == user && r.value.data.status == Accepted && r.value.data.respondedAt == Some(now)
        && GetBetween(rows, r.value.data.requesterId, user) == Some(r.value)
      ensures r.Err? ==> r.error == RequestNotFound && rows == old(rows)
    {
      ghost var before := rows;
      AnswerableIs(rows, user, key);
      NextKeeps(users, State(), Accept(user, key, now));
      var pending := GetPendingAsAddressee(user, key);
      if pending.Err? {
        return pending;
      }
      var row := Row(key, pending.value.data.(status := Accepted, respondedAt := Some(now)));
      Save(row);
      BetweenRewritten(before, pending.value, row.data, row.data.requesterId, user);
      r := Ok(row);
    }

    method DeclineRequest(user: Id, key: Id, now: int) returns (r: Result<Row<Friendship>, Failure>)
      requires Valid() && user in users
      modifies this
      ensures Valid() && State() == Next(users, old(State()), Decline(user, key, now))
      ensures r.Err? ==> Refuse(r.error) == VerdictOn(users, old(State()), Decline(user, key, now))
      ensures r.Ok? ==>
        Write(r.value.data) == VerdictOn(users, old(State()), Decline(user, key, now)) && r.value.id == key
      ensures r.Ok? <==> Answerable(old(rows), user, key)
      ensures r.Ok? ==>
        && r.value.data.addresseeId == user && r.value.data.status == Declined && r.value.data.respondedAt == Some(now)
        && GetBetween(rows, r.value.data.requesterId, user) == Some(r.value)
      ensures r.Err? ==> r.error == RequestNotFound && rows == old(rows)
    {
      ghost var before := rows;
      AnswerableIs(rows, user, key);
      NextKeeps(users, State(), Decline(user, key, now));
      var pending := GetPendingAsAddressee(user, key);
      if pending.Err? {
        return pending;
      }
      var row := Row(key, pending.value.data.(status := Declined, respondedAt := Some(now)));
      Save(row);
      BetweenRewritten(before, pending.value, row.data, row.data.requesterId, user);
      r := Ok(row);
    }

    method EndFriendship(user: Id, target: Id) returns (r: Result<(), Failure>)
      requires Valid() && user in users
      modifies this
      ensures Valid() && State() == Next(users, old(State()), Unfriend(user, target))
      ensures r == if VerdictOn(users, old(State()), Unfriend(user, target)) == Erase then Ok(())
        else Err(FriendshipNotFound)
      ensures r.Ok? <==>
        old(PairOf(State(), user, target).Some? && PairOf(State(), user, target).value.status == Accepted)
    {
      NextKeeps(users, State(), Unfriend(user, target));
      var f := GetBetween(rows, user, target);
      if f.None? || f.value.data.status != Accepted {
        return Err(FriendshipNotFound);
      }
      rows := WithoutKey(rows, f.value.id);
      r := Ok(());
    }

    method BlockUser(user: Id, target: Id, now: int) returns (r: Result<Row<Friendship>, Failure>)
      requires Valid() && user in users
      modifies this
      ensures Valid() && State() == Next(users, old(State()), Block(user, target, now))
      ensures r.Err? ==> Refuse(r.error) == VerdictOn(users, old(State()), Block(user, target, now))
      ensures r.Ok? <==> target != user && target in users
      ensures r.Err? ==> rows == old(rows) && r.error == if target == user then CannotBlockSelf else UserNotFound
      ensures r.Ok? ==> r.value.data == Friendship(user, target, Blocked, Some(now))
                        && GetBetween(rows, user, target) == Some(r.value)
    {
      ghost var before := State();
      NextKeeps(users, State(), Block(user, target, now));
      if target == user {
        return Err(CannotBlockSelf);
      }
      if target !in users {
        return Err(UserNotFound);
      }
      var existing := GetBetween(rows, user, target);
      var f := Friendship(user, target, Blocked, Some(now));
      if existing.None? {
        var row := Insert(f);
        BetweenAppended(before.rows, row, user, target);
        return Ok(row);
      }
      var row := Row(existing.value.id, f);
      Save(row);
      BetweenRewritten(before.rows, existing.value, f, user, target);
      r := Ok(row);
    }

    method UnblockUser(user: Id, target: Id) returns (r: Result<(), Failure>)
      requires Valid() && user in users
      modifies this
      ensures Valid() && State() == Next(users, old(State()), Unblock(user, target))
      ensures r == if VerdictOn(users, old(State()), Unblock(user, target)) == Erase then Ok(())
        else Err(FriendshipNotFound)
      ensures r.Ok? <==>
        old(PairOf(State(), user, target).Some? && PairOf(State(), user, target).value.status == Blocked
            && PairOf(State(), user, target).value.requesterId == user)
    {
      NextKeeps(users, State(), Unblock(user, target));
      var f := GetBetween(rows, user, target);
      if f.None? || f.value.data.status != Blocked || f.value.data.requesterId != user {
        return Err(FriendshipNotFound);
      }
      rows := WithoutKey(rows, f.value.id);
      r := Ok(());
    }
  }
}
