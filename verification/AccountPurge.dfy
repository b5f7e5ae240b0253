/** Deleting an account for good: the purge of its data, committed, then the deletion of the user. */
module AccountPurge {
  import opened Sql
  import opened Schema
  import opened Runs
  import Backup

  // ---------- The statements of purge_user_data ----------

  predicate WroteReview(u: Id, r: Review) {
    r.userId == Some(u)
  }

  function Anonymous(r: Review): Review {
    r.(userId := None)
  }

  function AnonymizeReviews(db: Database, u: Id): Database {
    db.(reviews := UpdateWhere(db.reviews, r => WroteReview(u, r), Anonymous))
  }

  predicate LentTo(u: Id, s: BookStatus) {
    s.lentToUserId == Some(u)
  }

  function NotLentTo(s: BookStatus): BookStatus {
    s.(lentToUserId := None)
  }

  function DetachLoans(db: Database, u: Id): Database {
    db.(statuses := UpdateWhere(db.statuses, s => LentTo(u, s), NotLentTo))
  }

  predicate ReviewedBy(u: Id, c: Contribution) {
    c.reviewerId == Some(u)
  }

  function Unreviewed(c: Contribution): Contribution {
    c.(reviewerId := None)
  }

  function DetachReviewer(db: Database, u: Id): Database {
    db.(contributions := UpdateWhere(db.contributions, c => ReviewedBy(u, c), Unreviewed))
  }

  predicate ReadBy(u: Id, s: ReadingSession) {
    s.userId == u
  }

  function DeleteSessions(db: Database, u: Id): Database {
    db.(sessions := DeleteWhere(db.sessions, s => ReadBy(u, s)))
  }

  predicate ShelvedBy(u: Id, s: BookStatus) {
    s.userId == u
  }

  function DeleteStatuses(db: Database, u: Id): Database {
    db.(statuses := DeleteWhere(db.statuses, s => ShelvedBy(u, s)))
  }

  /** The items of a deleted collection go with it (ON DELETE CASCADE). */
  function DeleteCollections(db: Database, u: Id): Database {
    var gone := Keys(Backup.CollectionsOf(db, u));
    db.(collections := DeleteWhere(db.collections, c => Backup.Mine(u, c)),
        items := DeleteWhere(db.items, (i: CollectionItem) => i.collectionId in gone))
  }

  predicate Involves(u: Id, f: Friendship) {
    f.requesterId == u || f.addresseeId == u
  }

  function DeleteFriendships(db: Database, u: Id): Database {
    db.(friendships := DeleteWhere(db.friendships, f => Involves(u, f)))
  }

  predicate ProposedBy(u: Id, c: Contribution) {
    c.userId == u
  }

  function DeleteContributions(db: Database, u: Id): Database {
    db.(contributions := DeleteWhere(db.contributions, c => ProposedBy(u, c)))
  }

  function ContributionsOf(db: Database, u: Id): Table<Contribution> {
    Where(db.contributions, c => ProposedBy(u, c))
  }

  /** A version still names one of the user's contributions, so its deletion is refused. */
  predicate ContributionRecorded(db: Database, u: Id) {
    exists i :: 0 <= i < |db.versions| && db.versions[i].data.contributionId.Some?
      && db.versions[i].data.contributionId.value in Keys(ContributionsOf(db, u))
  }

  /** The n-th of the eight statements. */
  function Statement(db: Database, u: Id, n: nat): Database
    requires 1 <= n <= 8
  {
    match n
    case 1 => AnonymizeReviews(db, u)
    case 2 => DetachLoans(db, u)
    case 3 => DetachReviewer(db, u)
    case 4 => DeleteSessions(db, u)
    case 5 => DeleteStatuses(db, u)
    case 6 => DeleteCollections(db, u)
    case 7 => DeleteFriendships(db, u)
    case _ => DeleteContributions(db, u)
  }

  /** The tables after the first n statements. */
  function AfterStatements(db: Database, u: Id, n: nat): Database
    requires n <= 8
  {
    if n == 0 then db else Statement(AfterStatements(db, u, n - 1), u, n)
  }

  function PurgedTables(db: Database, u: Id): Database {
    var detached := DetachReviewer(DetachLoans(AnonymizeReviews(db, u), u), u);
    DeleteContributions(DeleteFriendships(DeleteCollections(DeleteStatuses(DeleteSessions(detached, u), u), u), u), u)
  }

  lemma NextStatement(db: Database, u: Id, n: nat, before: Database)
    requires 1 <= n <= 8 && before == AfterStatements(db, u, n - 1)
    ensures AfterStatements(db, u, n) == Statement(before, u, n)
  {
  }

  lemma AllStatements(db: Database, u: Id)
    ensures AfterStatements(db, u, 8) == PurgedTables(db, u)
  {
    var db1 := AnonymizeReviews(db, u);
    var db2 := DetachLoans(db1, u);
    var db3 := DetachReviewer(db2, u);
    var db4 := DeleteSessions(db3, u);
    var db5 := DeleteStatuses(db4, u);
    var db6 := DeleteCollections(db5, u);
    NextStatement(db, u, 1, db);
    NextStatement(db, u, 2, db1);
    NextStatement(db, u, 3, db2);
    NextStatement(db, u, 4, db3);
    NextStatement(db, u, 5, db4);
    NextStatement(db, u, 6, db5);
    NextStatement(db, u, 7, db6);
    NextStatement(db, u, 8, DeleteFriendships(db6, u));
  }

  // ---------- delete_user ----------

  /** Chat and import rows refer to the user without a cascade. */
  predicate UserReferenced(db: Database, u: Id) {
    || (exists i :: 0 <= i < |db.threads| && (db.threads[i].data.userA == u || db.threads[i].data.userB == u))
    || (exists i :: 0 <= i < |db.messages| && db.messages[i].data.senderId == u)
    || (exists i :: 0 <= i < |db.imports| && db.imports[i].data.userId == u)
  }

  /** No review, status, contribution, session, collection or friendship names the user. */
  predicate Detached(db: Database, u: Id) {
    && (forall r :: r in db.reviews ==> !WroteReview(u, r.data))
    && (forall r :: r in db.statuses ==> !LentTo(u, r.data) && !ShelvedBy(u, r.data))
    && (forall r :: r in db.contributions ==> !ReviewedBy(u, r.data) && !ProposedBy(u, r.data))
    && (forall r :: r in db.sessions ==> !ReadBy(u, r.data))
    && (forall r :: r in db.collections ==> !Backup.Mine(u, r.data))
    && (forall r :: r in db.friendships ==> !Involves(u, r.data))
  }

  lemma PurgeDetaches(db: Database, u: Id)
    ensures Detached(PurgedTables(db, u), u)
  {
    UpdatedRows(db.reviews, r => WroteReview(u, r), Anonymous);
    UpdatedRows(db.statuses, s => LentTo(u, s), NotLentTo);
    UpdatedRows(db.contributions, c => ReviewedBy(u, c), Unreviewed);
  }

  predicate AttendsTo(u: Id, a: Attendant) {
    a.userId == u
  }

  /** Tokens, backup records and the Google integration go with the user (ON DELETE CASCADE). */
  function WithoutUser(db: Database, u: Id): Database {
    db.(users := db.users - {u}, attendants := DeleteWhere(db.attendants, a => AttendsTo(u, a)))
  }

  // ---------- The service ----------

  class AccountDeletionService {
    var db: Database
    var committed: Database

    /** purge_user_data: its own transaction. */
    method PurgeUserData(u: Id) returns (ok: bool)
      requires db == committed
      modifies this
      ensures db == committed
      ensures ok <==> !Backup.CollectionAttached(old(db), u) && !ContributionRecorded(old(db), u)
      ensures db == if ok then PurgedTables(old(db), u) else old(db)
    {
      db := AnonymizeReviews(db, u);
      db := DetachLoans(db, u);
      db := DetachReviewer(db, u);
      db := DeleteSessions(db, u);
      db := DeleteStatuses(db, u);
      if Backup.CollectionAttached(db, u) {
        db := committed;  // rollback
        return false;
      }
      db := DeleteCollections(db, u);
      db := DeleteFriendships(db, u);
      DetachingKeepsProposals(committed, u);
      if ContributionRecorded(db, u) {
        db := committed;  // rollback
        return false;
      }
      db := DeleteContributions(db, u);
      committed := db;
      ok := true;
    }

    /** delete_user: a second transaction. A row that refers to the user without a cascade refuses it. */
    method DeleteUser(u: Id) returns (ok: bool)
      requires db == committed
      modifies this
      ensures db == committed
      ensures ok <==> u !in old(db).users || (Detached(old(db), u) && !UserReferenced(old(db), u))
      ensures db == if u in old(db).users && ok then WithoutUser(old(db), u) else old(db)
    {
      if u !in db.users {
        return true;
      }
      if !Detached(db, u) || UserReferenced(db, u) {
        return false;
      }
      db := WithoutUser(db, u);
      committed := db;
      ok := true;
    }

    /** One account: the deletion of the user is a second transaction, after the purge's commit. */
    method PurgeAccount(u: Id) returns (ok: bool)
      requires db == committed
      modifies this
      ensures db == committed && Attempt(db, ok) == PurgeOne(old(db), u)
    {
      ok := PurgeUserData(u);
      if ok {
        PurgeDetaches(old(db), u);
        ok := DeleteUser(u);
      }
    }

    /** purge_deleted_users: each account on its own. The handler of a failure rolls back, which expires the
        users the loop goes through, and then reads one of them for its log line. That read raises, so the
        first failure leaves the loop, and there is no summary. */
    method PurgeDeletedUsers(pending: seq<Id>) returns (purged: Option<nat>)
      requires db == committed
      modifies this
      ensures db == committed && Summary(db, purged) == PurgeAll(old(db), pending)
    {
      ghost var whole := PurgeAll(db, pending);
      var count := 0;
      for i := 0 to |pending|
        invariant db == committed && whole == PurgeAll(db, pending[i..]).Plus(count)
      {
        ghost var before := db;
        var ok := PurgeAccount(pending[i]);
        Tried(PurgeOne, before, pending[i..], Attempt(db, ok), pending[i + 1..], count);
        if !ok {
          return None;
        }
        count := count + 1;
      }
      purged := Some(count);
    }
  }

  /** The state after one account, and whether it counts as purged. */
  function PurgeOne(db: Database, u: Id): Attempt<Database> {
    if Backup.CollectionAttached(db, u) || ContributionRecorded(db, u) then Attempt(db, false)
    else
      var purged := PurgedTables(db, u);
      if u !in purged.users then Attempt(purged, true)
      else if UserReferenced(purged, u) then Attempt(purged, false)
      else Attempt(WithoutUser(purged, u), true)
  }

  function PurgeAll(db: Database, pending: seq<Id>): Summary<Database> {
    Run(PurgeOne, db, pending)
  }

  /** Nulling reviewerId does not change whose contributions are whose. */
  lemma DetachingKeepsProposals(db: Database, u: Id)
    ensures Keys(ContributionsOf(DetachReviewer(db, u), u)) == Keys(ContributionsOf(db, u))
  {
    SameOwners(db.contributions, c => ReviewedBy(u, c), Unreviewed, c => ProposedBy(u, c));
  }

  /** An update that leaves the owner column alone leaves the owner's rows. */
  lemma {:induction false} SameOwners<D(!new)>(t: Table<D>, w: D -> bool, f: D -> D, p: D -> bool)
    requires forall d :: p(f(d)) == p(d)
    ensures Keys(Where(UpdateWhere(t, w, f), p)) == Keys(Where(t, p))
  {
    if t != [] {
      SameOwners(t[1..], w, f, p);
      assert UpdateWhere(t, w, f)[1..] == UpdateWhere(t[1..], w, f);
      KeysOfCons(t[0], Where(t[1..], p));
      KeysOfCons(UpdateRow(t[0], w, f), Where(UpdateWhere(t[1..], w, f), p));
      assert [] + Where(t[1..], p) == Where(t[1..], p);
    }
  }

  lemma KeysOfCons<D(!new)>(r: Row<D>, t: Table<D>)
    ensures Keys([r] + t) == {r.id} + Keys(t)
    ensures [] + t == t
  {
    assert forall x :: x in [r] + t <==> x == r || x in t;
  }
}
