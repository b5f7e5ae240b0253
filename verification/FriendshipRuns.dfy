/** What holds over every serial run of the friendship steps: consent, and how long a block lasts. */
module FriendshipRuns {
  import opened Sql
  import opened Schema
  import opened Friendships

  function After(users: set<Id>, s: Friends, steps: seq<Step>): Friends {
    if steps == [] then s
    else Next(users, After(users, s, steps[..|steps| - 1]), steps[|steps| - 1])
  }

  /** Every step is taken by an authenticated user. */
  ghost predicate ByUsers(users: set<Id>, steps: seq<Step>) {
    forall i :: 0 <= i < |steps| ==> steps[i].user in users
  }

  lemma AfterSnoc(users: set<Id>, s: Friends, steps: seq<Step>, step: Step)
    ensures After(users, s, steps + [step]) == Next(users, After(users, s, steps), step)
  {
    assert (steps + [step])[..|steps|] == steps;
  }

  lemma {:induction false} RunKeeps(users: set<Id>, s: Friends, steps: seq<Step>)
    requires WellFormed(users, s) && ByUsers(users, steps)
    ensures WellFormed(users, After(users, s, steps))
  {
    if steps != [] {
      var front := steps[..|steps| - 1];
      RunKeeps(users, s, front);
      NextKeeps(users, After(users, s, front), steps[|steps| - 1]);
    }
  }

  lemma {:induction false} BetweenSymmetric(t: FriendshipTable, a: Id, b: Id)
    ensures GetBetween(t, a, b) == GetBetween(t, b, a)
  {
    if t != [] {
      BetweenSymmetric(t[1..], a, b);
    }
  }

  // ---------- One step on one pair ----------

  predicate HasStatus(p: Option<Friendship>, status: FriendshipStatus) {
    p.Some? && p.value.status == status
  }

  /** The addressee agrees: by accepting the pair's own request, or by asking in turn. */
  predicate Agrees(s: Friends, step: Step, asker: Id, answerer: Id) {
    || (step.Request? && step.user == answerer && step.target == asker)
    || (step.Accept? && step.user == answerer
        && GetBetween(s.rows, asker, answerer).Some? && GetBetween(s.rows, asker, answerer).value.id == step.key)
  }

  /** The users a step names are the pair; an answer names the request instead. */
  predicate Names(step: Step, a: Id, b: Id) {
    step.Accept? || step.Decline? || (step.user == a && step.target == b) || (step.user == b && step.target == a)
  }

  /** What becomes of a pair's row, when a step changes it. */
  lemma PairBecomes(users: set<Id>, s: Friends, step: Step, a: Id, b: Id)
    requires WellFormed(users, s) && step.user in users
    requires PairOf(Next(users, s, step), a, b) != PairOf(s, a, b)
    ensures Names(step, a, b)
    ensures PairOf(Next(users, s, step), a, b) == Become(Judge(users, step, PairOf(s, a, b)), PairOf(s, a, b))
    ensures step.Accept? || step.Decline?
      ==> GetBetween(s.rows, a, b).Some? && GetBetween(s.rows, a, b).value.id == step.key
  {
    NextPair(users, s, step, a, b);
    ConcernedRow(users, s, step, a, b);
  }

  lemma PairIsBetween(users: set<Id>, s: Friends, a: Id, b: Id)
    requires WellFormed(users, s) && PairOf(s, a, b).Some?
    ensures IsBetween(PairOf(s, a, b).value, a, b) && FriendshipRowOk(users, PairOf(s, a, b).value)
  {
    var r := GetBetween(s.rows, a, b).value;
    var k :| 0 <= k < |s.rows| && s.rows[k] == r;
  }

  lemma JudgedPending(users: set<Id>, step: Step, p: Option<Friendship>)
    ensures var q := Become(Judge(users, step, p), p);
      q != p && HasStatus(q, Pending) ==>
        && (p.None? || HasStatus(p, Declined))
        && step.Request? && q == Some(Friendship(step.user, step.target, Pending, None))
  {
  }

  /** A pair's row becomes pending only by a request of its requester to its addressee, from
      nothing or from a refusal. */
  lemma BecomesPending(users: set<Id>, s: Friends, step: Step, a: Id, b: Id)
    requires WellFormed(users, s) && step.user in users
    ensures var p, q := PairOf(s, a, b), PairOf(Next(users, s, step), a, b);
      q != p && HasStatus(q, Pending) ==>
        && (p.None? || HasStatus(p, Declined))
        && step.Request? && q == Some(Friendship(step.user, step.target, Pending, None))
  {
    if PairOf(Next(users, s, step), a, b) != PairOf(s, a, b) {
      PairBecomes(users, s, step, a, b);
      JudgedPending(users, step, PairOf(s, a, b));
    }
  }

  lemma JudgedAccepted(users: set<Id>, step: Step, p: Option<Friendship>, a: Id, b: Id)
    requires Names(step, a, b) && (p.Some? ==> IsBetween(p.value, a, b) && FriendshipRowOk(users, p.value))
    ensures var q := Become(Judge(users, step, p), p);
      q != p && HasStatus(q, Accepted) ==>
        && HasStatus(p, Pending)
        && (step.Request? || step.Accept?) && step.user == p.value.addresseeId
        && (step.Request? ==> step.target == p.value.requesterId)
        && q == Some(p.value.(status := Accepted, respondedAt := Some(step.now)))
  {
  }

  /** It becomes accepted only from pending, by its addressee. */
  lemma BecomesAccepted(users: set<Id>, s: Friends, step: Step, a: Id, b: Id)
    requires WellFormed(users, s) && step.user in users
    ensures var p, q := PairOf(s, a, b), PairOf(Next(users, s, step), a, b);
      q != p && HasStatus(q, Accepted) ==>
        && HasStatus(p, Pending)
        && Agrees(s, step, p.value.requesterId, p.value.addresseeId)
        && (step.Request? || step.Accept?) && q == Some(p.value.(status := Accepted, respondedAt := Some(step.now)))
  {
    if PairOf(Next(users, s, step), a, b) != PairOf(s, a, b) {
      PairBecomes(users, s, step, a, b);
      if PairOf(s, a, b).Some? {
        PairIsBetween(users, s, a, b);
      }
      JudgedAccepted(users, step, PairOf(s, a, b), a, b);
      BetweenSymmetric(s.rows, a, b);
    }
  }

  lemma JudgedDeclined(users: set<Id>, step: Step, p: Option<Friendship>)
    ensures var q := Become(Judge(users, step, p), p);
      q != p && HasStatus(q, Declined) ==>
        && HasStatus(p, Pending) && step.Decline? && step.user == p.value.addresseeId
        && q == Some(p.value.(status := Declined, respondedAt := Some(step.now)))
  {
  }

  /** It becomes declined only from pending, by its addressee. */
  lemma BecomesDeclined(users: set<Id>, s: Friends, step: Step, a: Id, b: Id)
    requires WellFormed(users, s) && step.user in users
    ensures var p, q := PairOf(s, a, b), PairOf(Next(users, s, step), a, b);
      q != p && HasStatus(q, Declined) ==>
        && HasStatus(p, Pending) && step.Decline? && step.user == p.value.addresseeId
        && GetBetween(s.rows, a, b).value.id == step.key
        && q == Some(p.value.(status := Declined, respondedAt := Some(step.now)))
  {
    if PairOf(Next(users, s, step), a, b) != PairOf(s, a, b) {
      PairBecomes(users, s, step, a, b);
      JudgedDeclined(users, step, PairOf(s, a, b));
    }
  }

  /** The row of a block by the step's user, when the step blocks one of the two. */
  predicate BlocksPair(step: Step, f: Friendship) {
    step.Block? && IsBetween(f, step.user, step.target)
  }

  lemma JudgedFromAccepted(users: set<Id>, step: Step, f: Friendship, a: Id, b: Id)
    requires Names(step, a, b) && IsBetween(f, a, b) && FriendshipRowOk(users, f) && f.status == Accepted
    ensures var q := Become(Judge(users, step, Some(f)), Some(f));
      q != Some(f) ==>
        if step.Unfriend? then IsBetween(f, step.user, step.target) && q.None?
        else BlocksPair(step, f) && q == Some(Friendship(step.user, step.target, Blocked, Some(step.now)))
    ensures (step.Unfriend? && IsBetween(f, step.user, step.target)) || BlocksPair(step, f)
      ==> Become(Judge(users, step, Some(f)), Some(f)) != Some(f)
  {
  }

  /** It leaves accepted exactly when one of the two ends the friendship or blocks the other. */
  lemma LeavesAccepted(users: set<Id>, s: Friends, step: Step, a: Id, b: Id)
    requires WellFormed(users, s) && step.user in users && HasStatus(PairOf(s, a, b), Accepted)
    ensures var p, q := PairOf(s, a, b).value, PairOf(Next(users, s, step), a, b);
      if step.Unfriend? && IsBetween(p, step.user, step.target) then q.None?
      else if BlocksPair(step, p) then q == Some(Friendship(step.user, step.target, Blocked, Some(step.now)))
      else q == Some(p)
  {
    var p := PairOf(s, a, b).value;
    PairIsBetween(users, s, a, b);
    NextPair(users, s, step, a, b);
    if Names(step, a, b) {
      JudgedFromAccepted(users, step, p, a, b);
    }
    if PairOf(Next(users, s, step), a, b) != Some(p) {
      PairBecomes(users, s, step, a, b);
    }
  }

  lemma JudgedFromBlocked(users: set<Id>, step: Step, f: Friendship, a: Id, b: Id)
    requires Names(step, a, b) && IsBetween(f, a, b) && FriendshipRowOk(users, f) && f.status == Blocked
    ensures Become(Judge(users, step, Some(f)), Some(f))
      == if step == Unblock(f.requesterId, f.addresseeId) then None
         else if BlocksPair(step, f) then Some(Friendship(step.user, step.target, Blocked, Some(step.now)))
         else Some(f)
  {
  }

  /** It leaves blocked only by an unblock from its current requester; a block by either user
      rewrites it in place. */
  lemma LeavesBlocked(users: set<Id>, s: Friends, step: Step, a: Id, b: Id)
    requires WellFormed(users, s) && step.user in users && HasStatus(PairOf(s, a, b), Blocked)
    ensures var p, q := PairOf(s, a, b).value, PairOf(Next(users, s, step), a, b);
      if step == Unblock(p.requesterId, p.addresseeId) then q.None?
      else if BlocksPair(step, p) then q == Some(Friendship(step.user, step.target, Blocked, Some(step.now)))
      else q == Some(p)
  {
    var p := PairOf(s, a, b).value;
    PairIsBetween(users, s, a, b);
    NextPair(users, s, step, a, b);
    if Names(step, a, b) {
      JudgedFromBlocked(users, step, p, a, b);
    }
    if PairOf(Next(users, s, step), a, b) != Some(p) {
      PairBecomes(users, s, step, a, b);
    }
  }

  // ---------- Consent ----------

  predicate IsPendingRow(p: Option<Friendship>, asker: Id, answerer: Id) {
    p == Some(Friendship(asker, answerer, Pending, None))
  }

  predicate IsAcceptedRow(p: Option<Friendship>, asker: Id, answerer: Id) {
    HasStatus(p, Accepted) && p.value.requesterId == asker && p.value.addresseeId == answerer
  }

  function PairAfter(users: set<Id>, s: Friends, steps: seq<Step>, n: nat, a: Id, b: Id): Option<Friendship>
    requires n <= |steps|
  {
    PairOf(After(users, s, steps[..n]), a, b)
  }

  /** Step i asked, and the row has been pending in that direction ever since. */
  ghost predicate Asked(users: set<Id>, s: Friends, steps: seq<Step>, i: nat, asker: Id, answerer: Id) {
    && i < |steps|
    && steps[i].Request? && steps[i].user == asker && steps[i].target == answerer
    && forall k :: i < k <= |steps| ==> IsPendingRow(PairAfter(users, s, steps, k, asker, answerer), asker, answerer)
  }

  /** Step i asked, the row stayed pending until step j agreed, and has been accepted ever since. */
  ghost predicate Consented(
    users: set<Id>, s: Friends, steps: seq<Step>, i: nat, j: nat, asker: Id, answerer: Id)
  {
    && i < j < |steps|
    && Asked(users, s, steps[..j], i, asker, answerer)
    && Agrees(After(users, s, steps[..j]), steps[j], asker, answerer)
    && forall k :: j < k <= |steps| ==> IsAcceptedRow(PairAfter(users, s, steps, k, asker, answerer), asker, answerer)
  }

  /** The pair's row after a run, and why. */
  ghost predicate Explained(users: set<Id>, s: Friends, steps: seq<Step>, asker: Id, answerer: Id) {
    var p := PairOf(After(users, s, steps), asker, answerer);
    && (HasStatus(p, Pending) && p.value.requesterId == asker && p.value.addresseeId == answerer
        ==> exists i :: Asked(users, s, steps, i, asker, answerer))
    && (IsAcceptedRow(p, asker, answerer) ==> exists i, j :: Consented(users, s, steps, i, j, asker, answerer))
  }

  lemma AskedStays(users: set<Id>, s: Friends, steps: seq<Step>, i: nat, asker: Id, answerer: Id)
    requires steps != [] && Asked(users, s, steps[..|steps| - 1], i, asker, answerer)
    requires IsPendingRow(PairOf(After(users, s, steps), asker, answerer), asker, answerer)
    ensures Asked(users, s, steps, i, asker, answerer)
  {
    var front := steps[..|steps| - 1];
    assert steps[..|steps|] == steps;
    forall k | i < k <= |steps| ensures IsPendingRow(PairAfter(users, s, steps, k, asker, answerer), asker, answerer) {
      if k < |steps| {
        assert front[..k] == steps[..k];
        assert IsPendingRow(PairAfter(users, s, front, k, asker, answerer), asker, answerer);
      }
    }
  }

  lemma ConsentStays(users: set<Id>, s: Friends, steps: seq<Step>, i: nat, j: nat, asker: Id, answerer: Id)
    requires steps != [] && Consented(users, s, steps[..|steps| - 1], i, j, asker, answerer)
    requires IsAcceptedRow(PairOf(After(users, s, steps), asker, answerer), asker, answerer)
    ensures Consented(users, s, steps, i, j, asker, answerer)
  {
    var front := steps[..|steps| - 1];
    assert steps[..|steps|] == steps && front[..j] == steps[..j];
    forall k | j < k <= |steps| ensures IsAcceptedRow(PairAfter(users, s, steps, k, asker, answerer), asker, answerer) {
      if k < |steps| {
        assert front[..k] == steps[..k];
        assert IsAcceptedRow(PairAfter(users, s, front, k, asker, answerer), asker, answerer);
      }
    }
  }

  lemma JustAsked(users: set<Id>, s: Friends, steps: seq<Step>, asker: Id, answerer: Id)
    requires steps != []
    requires var last := steps[|steps| - 1]; last.Request? && last.user == asker && last.target == answerer
    requires IsPendingRow(PairOf(After(users, s, steps), asker, answerer), asker, answerer)
    ensures Asked(users, s, steps, |steps| - 1, asker, answerer)
  {
    assert steps[..|steps|] == steps;
  }

  lemma JustAgreed(users: set<Id>, s: Friends, steps: seq<Step>, i: nat, asker: Id, answerer: Id)
    requires steps != [] && Asked(users, s, steps[..|steps| - 1], i, asker, answerer)
    requires Agrees(After(users, s, steps[..|steps| - 1]), steps[|steps| - 1], asker, answerer)
    requires IsAcceptedRow(PairOf(After(users, s, steps), asker, answerer), asker, answerer)
    ensures Consented(users, s, steps, i, |steps| - 1, asker, answerer)
  {
    assert steps[..|steps|] == steps;
  }

  /** Every pending row was asked for by its requester, every accepted row has both consents in its
      history since it last became pending: its requester asked, its addressee accepted that request
      or asked in turn. The run may start from any state where the two users are neither. */
  lemma {:induction false} EveryRowIsExplained(users: set<Id>, s: Friends, steps: seq<Step>, asker: Id, answerer: Id)
    requires WellFormed(users, s) && ByUsers(users, steps)
    requires !HasStatus(PairOf(s, asker, answerer), Pending) && !HasStatus(PairOf(s, asker, answerer), Accepted)
    ensures Explained(users, s, steps, asker, answerer)
  {
    if steps != [] {
      var front, last := steps[..|steps| - 1], steps[|steps| - 1];
      EveryRowIsExplained(users, s, front, asker, answerer);
      RunKeeps(users, s, front);
      var mid := After(users, s, front);
      var p, q := PairOf(mid, asker, answerer), PairOf(Next(users, mid, last), asker, answerer);
      BecomesPending(users, mid, last, asker, answerer);
      BecomesAccepted(users, mid, last, asker, answerer);
      if HasStatus(q, Pending) && q.value.requesterId == asker && q.value.addresseeId == answerer {
        if q == p {
          var i :| Asked(users, s, front, i, asker, answerer);
          assert IsPendingRow(PairAfter(users, s, front, |front|, asker, answerer), asker, answerer);
          assert front[..|front|] == front;
          AskedStays(users, s, steps, i, asker, answerer);
        } else {
          JustAsked(users, s, steps, asker, answerer);
        }
      }
      if IsAcceptedRow(q, asker, answerer) {
        if q == p {
          var i, j :| Consented(users, s, front, i, j, asker, answerer);
          ConsentStays(users, s, steps, i, j, asker, answerer);
        } else {
          var i :| Asked(users, s, front, i, asker, answerer);
          JustAgreed(users, s, steps, i, asker, answerer);
        }
      }
    }
  }

  /** From an empty table: no friendship without a request and an agreement. */
  lemma FriendshipsAreMutual(users: set<Id>, steps: seq<Step>, a: Id, b: Id)
    requires ByUsers(users, steps)
    ensures var p := PairOf(After(users, Friends([], 0), steps), a, b);
      HasStatus(p, Accepted) ==>
        exists i, j :: Consented(users, Friends([], 0), steps, i, j, p.value.requesterId, p.value.addresseeId)
  {
    var s := Friends([], 0);
    var p := PairOf(After(users, s, steps), a, b);
    if HasStatus(p, Accepted) {
      BetweenSymmetric(After(users, s, steps).rows, a, b);
      EveryRowIsExplained(users, s, steps, p.value.requesterId, p.value.addresseeId);
    }
  }

  // ---------- Blocks ----------

  /** Who of the two blocked last, a having blocked before the steps. */
  function LastBlocker(a: Id, b: Id, steps: seq<Step>): (r: Id)
    ensures r == a || r == b
  {
    if steps == [] then a
    else
      var last := steps[|steps| - 1];
      if last.Block? && last.user == a && last.target == b then a
      else if last.Block? && last.user == b && last.target == a then b
      else LastBlocker(a, b, steps[..|steps| - 1])
  }

  function Other(a: Id, b: Id, x: Id): Id {
    if x == a then b else a
  }

  /** The step lifts the block: an unblock by the one who blocked last. */
  predicate Lifts(a: Id, b: Id, before: seq<Step>, step: Step) {
    step == Unblock(LastBlocker(a, b, before), Other(a, b, LastBlocker(a, b, before)))
  }

  ghost predicate NeverLifted(a: Id, b: Id, steps: seq<Step>) {
    forall j :: 0 <= j < |steps| ==> !Lifts(a, b, steps[..j], steps[j])
  }

  ghost predicate AlwaysBlocked(users: set<Id>, s: Friends, steps: seq<Step>, a: Id, b: Id) {
    forall k :: 0 <= k <= |steps| ==> HasStatus(PairAfter(users, s, steps, k, a, b), Blocked)
  }

  predicate BlockedBy(p: Option<Friendship>, blocker: Id, blocked: Id) {
    HasStatus(p, Blocked) && p.value.requesterId == blocker && p.value.addresseeId == blocked
  }

  lemma NeverLiftedFront(a: Id, b: Id, steps: seq<Step>)
    requires steps != []
    ensures NeverLifted(a, b, steps) <==>
      NeverLifted(a, b, steps[..|steps| - 1]) && !Lifts(a, b, steps[..|steps| - 1], steps[|steps| - 1])
  {
    var front := steps[..|steps| - 1];
    assert forall j :: 0 <= j < |front| ==> front[..j] == steps[..j] && front[j] == steps[j];
  }

  /** As long as nobody lifted it, the row names the one who blocked last. */
  lemma {:induction false} BlockedByLast(users: set<Id>, s: Friends, steps: seq<Step>, a: Id, b: Id)
    requires WellFormed(users, s) && ByUsers(users, steps) && a != b
    requires BlockedBy(PairOf(s, a, b), a, b) && NeverLifted(a, b, steps)
    ensures var last := LastBlocker(a, b, steps);
      BlockedBy(PairOf(After(users, s, steps), a, b), last, Other(a, b, last))
  {
    if steps != [] {
      var front := steps[..|steps| - 1];
      NeverLiftedFront(a, b, steps);
      BlockedByLast(users, s, front, a, b);
      RunKeeps(users, s, front);
      LeavesBlocked(users, After(users, s, front), steps[|steps| - 1], a, b);
    }
  }

  lemma {:induction false} LiftedIsFree(users: set<Id>, s: Friends, steps: seq<Step>, a: Id, b: Id)
    requires WellFormed(users, s) && ByUsers(users, steps) && a != b
    requires BlockedBy(PairOf(s, a, b), a, b) && !NeverLifted(a, b, steps)
    ensures exists k :: 0 <= k <= |steps| && PairAfter(users, s, steps, k, a, b).None?
  {
    if steps != [] {
      var front := steps[..|steps| - 1];
      NeverLiftedFront(a, b, steps);
      if NeverLifted(a, b, front) {
        BlockedByLast(users, s, front, a, b);
        RunKeeps(users, s, front);
        LeavesBlocked(users, After(users, s, front), steps[|steps| - 1], a, b);
        assert steps[..|steps|] == steps;
        assert PairAfter(users, s, steps, |steps|, a, b).None?;
      } else {
        LiftedIsFree(users, s, front, a, b);
        var k :| 0 <= k <= |front| && PairAfter(users, s, front, k, a, b).None?;
        assert front[..k] == steps[..k];
        assert PairAfter(users, s, steps, k, a, b).None?;
      }
    }
  }

  /** A block lasts exactly until an unblock by whichever of the two blocked last. */
  lemma BlockLastsIff(users: set<Id>, s: Friends, steps: seq<Step>, a: Id, b: Id)
    requires WellFormed(users, s) && ByUsers(users, steps) && a != b
    requires BlockedBy(PairOf(s, a, b), a, b)
    ensures AlwaysBlocked(users, s, steps, a, b) <==> NeverLifted(a, b, steps)
  {
    if NeverLifted(a, b, steps) {
      forall k | 0 <= k <= |steps| ensures HasStatus(PairAfter(users, s, steps, k, a, b), Blocked) {
        var prefix := steps[..k];
        assert forall j :: 0 <= j < k ==> prefix[..j] == steps[..j] && prefix[j] == steps[j];
        BlockedByLast(users, s, prefix, a, b);
      }
    } else {
      LiftedIsFree(users, s, steps, a, b);
    }
  }

  /** If b does not block back, a's block lasts exactly until a unblocks. */
  lemma OwnBlockLastsIff(users: set<Id>, s: Friends, steps: seq<Step>, a: Id, b: Id)
    requires WellFormed(users, s) && ByUsers(users, steps) && a != b
    requires BlockedBy(PairOf(s, a, b), a, b)
    requires forall j :: 0 <= j < |steps| ==> !(steps[j].Block? && steps[j].user == b && steps[j].target == a)
    ensures AlwaysBlocked(users, s, steps, a, b) <==> forall j :: 0 <= j < |steps| ==> steps[j] != Unblock(a, b)
  {
    BlockLastsIff(users, s, steps, a, b);
    forall j | 0 <= j < |steps| ensures Lifts(a, b, steps[..j], steps[j]) <==> steps[j] == Unblock(a, b) {
      OnlyOneBlocker(a, b, steps[..j]);
    }
  }

  lemma {:induction false} OnlyOneBlocker(a: Id, b: Id, steps: seq<Step>)
    requires forall j :: 0 <= j < |steps| ==> !(steps[j].Block? && steps[j].user == b && steps[j].target == a)
    ensures LastBlocker(a, b, steps) == a
  {
    if steps != [] {
      OnlyOneBlocker(a, b, steps[..|steps| - 1]);
    }
  }

  lemma AfterThree(users: set<Id>, s: Friends, x: Step, y: Step, z: Step)
    ensures After(users, s, [x, y, z]) == Next(users, Next(users, Next(users, s, x), y), z)
  {
    AfterSnoc(users, s, [], x);
    AfterSnoc(users, s, [x], y);
    AfterSnoc(users, s, [x, y], z);
    assert [] + [x] == [x] && [x] + [y] == [x, y] && [x, y] + [z] == [x, y, z];
  }

  /** But one who is blocked can block back and unblock, and the first block is gone, though the one
      who set it never lifted it. */
  lemma BlockedUserCanLiftIt(users: set<Id>, s: Friends, a: Id, b: Id, t: int, u: int)
    requires WellFormed(users, s) && a in users && b in users && a != b
    ensures PairOf(After(users, s, [Block(a, b, t), Block(b, a, u), Unblock(b, a)]), a, b) == None
  {
    var s1 := Next(users, s, Block(a, b, t));
    var s2 := Next(users, s1, Block(b, a, u));
    NextKeeps(users, s, Block(a, b, t));
    NextKeeps(users, s1, Block(b, a, u));
    NextPair(users, s, Block(a, b, t), a, b);
    NextPair(users, s1, Block(b, a, u), a, b);
    NextPair(users, s2, Unblock(b, a), a, b);
    AfterThree(users, s, Block(a, b, t), Block(b, a, u), Unblock(b, a));
  }
}
