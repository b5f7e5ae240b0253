/** What an account purge removes, what it keeps, and when it cannot finish. */
module AccountPurgeLaws {
  import opened Sql
  import opened Schema
  import opened Runs
  import Backup
  import BookRatings
  import opened AccountPurge

  // ---------- Every constraint holds after each statement ----------

  lemma UpdatedKeys<D(!new)>(t: Table<D>, w: D -> bool, f: D -> D, next: Id)
    requires KeysBelow(t, next)
    ensures KeysBelow(UpdateWhere(t, w, f), next) && Keys(UpdateWhere(t, w, f)) == Keys(t)
  {
    SameKeys(t, UpdateWhere(t, w, f));
  }

  /** A NULL author clashes with nothing. */
  lemma AnonymousStayUnique(t: Table<Review>, u: Id)
    requires ReviewsUnique(t)
    ensures ReviewsUnique(UpdateWhere(t, r => WroteReview(u, r), Anonymous))
  {
    var after := UpdateWhere(t, r => WroteReview(u, r), Anonymous);
    forall q, r | q in after && r in after && ReviewsClash(q.data, r.data) ensures q == r {
      var i :| 0 <= i < |after| && after[i] == q;
      var j :| 0 <= j < |after| && after[j] == r;
      assert t[i] == q && t[j] == r;
    }
  }

  lemma AnonymousStayOk(users: set<Id>, books: set<Id>, releases: set<Id>, t: Table<Review>, u: Id)
    requires ReviewsOk(users, books, releases, t)
    ensures ReviewsOk(users, books, releases, UpdateWhere(t, r => WroteReview(u, r), Anonymous))
  {
    var after := UpdateWhere(t, r => WroteReview(u, r), Anonymous);
    AnonymousStayUnique(t, u);
    forall r | r in after ensures ReviewRowOk(users, books, releases, r.data) {
      var i :| 0 <= i < |after| && after[i] == r;
      assert t[i] in t;
    }
  }

  lemma AnonymizeKeeps(db: Database, u: Id)
    requires Consistent(db)
    ensures Consistent(AnonymizeReviews(db, u))
  {
    UpdatedKeys(db.reviews, r => WroteReview(u, r), Anonymous, db.nextId);
    AnonymousStayOk(db.users, Keys(db.books), Keys(db.releases), db.reviews, u);
  }

  lemma NotLentStayOk(users: set<Id>, books: set<Id>, releases: set<Id>, t: Table<BookStatus>, u: Id)
    requires StatusesOk(users, books, releases, t)
    ensures StatusesOk(users, books, releases, UpdateWhere(t, s => LentTo(u, s), NotLentTo))
  {
    var after := UpdateWhere(t, s => LentTo(u, s), NotLentTo);
    forall r | r in after ensures StatusRowOk(users, books, releases, r.data) {
      var i :| 0 <= i < |after| && after[i] == r;
      assert t[i] in t;
    }
  }

  lemma DetachLoansKeeps(db: Database, u: Id)
    requires Consistent(db)
    ensures Consistent(DetachLoans(db, u))
  {
    UpdatedKeys(db.statuses, s => LentTo(u, s), NotLentTo, db.nextId);
    NotLentStayOk(db.users, Keys(db.books), Keys(db.releases), db.statuses, u);
  }

  lemma UnreviewedStayOk(users: set<Id>, t: Table<Contribution>, u: Id)
    requires ContributionsOk(users, t)
    ensures ContributionsOk(users, UpdateWhere(t, c => ReviewedBy(u, c), Unreviewed))
  {
    var after := UpdateWhere(t, c => ReviewedBy(u, c), Unreviewed);
    forall r | r in after ensures r.data.userId in users && References(r.data.reviewerId, users) {
      var i :| 0 <= i < |after| && after[i] == r;
      assert t[i] in t;
    }
  }

  lemma DetachReviewerKeeps(db: Database, u: Id)
    requires Consistent(db)
    ensures Consistent(DetachReviewer(db, u))
  {
    UpdatedKeys(db.contributions, c => ReviewedBy(u, c), Unreviewed, db.nextId);
    UnreviewedStayOk(db.users, db.contributions, u);
  }

  lemma DeleteSessionsKeeps(db: Database, u: Id)
    requires Consistent(db)
    ensures Consistent(DeleteSessions(db, u))
  {
    DeleteKeysBelow(db.sessions, s => ReadBy(u, s), db.nextId);
  }

  lemma DeleteStatusesKeeps(db: Database, u: Id)
    requires Consistent(db)
    ensures Consistent(DeleteStatuses(db, u))
  {
    DeleteKeysBelow(db.statuses, s => ShelvedBy(u, s), db.nextId);
  }

  lemma DeleteCollectionsKeeps(db: Database, u: Id)
    requires Consistent(db) && !Backup.CollectionAttached(db, u)
    ensures Consistent(DeleteCollections(db, u))
  {
    var after := DeleteCollections(db, u);
    var gone := Keys(Backup.CollectionsOf(db, u));
    DeleteKeysBelow(db.collections, c => Backup.Mine(u, c), db.nextId);
    DeleteKeysBelow(db.items, (i: CollectionItem) => i.collectionId in gone, db.nextId);
    KeysLeft(db.collections, c => Backup.Mine(u, c));
    assert ItemsOk(Keys(after.books), Keys(after.releases), Keys(after.collections), after.items);
    assert MessagesOk(after.users, Keys(after.books), Keys(after.collections), Keys(after.threads), after.messages);
  }

  lemma AttachedDangles(db: Database, after: Database, u: Id)
    requires DistinctIds(db.collections) && Backup.CollectionAttached(db, u)
    requires after.messages == db.messages
    requires after.collections == DeleteWhere(db.collections, c => Backup.Mine(u, c))
    ensures !MessagesOk(after.users, Keys(after.books), Keys(after.collections), Keys(after.threads), after.messages)
  {
    var i :| 0 <= i < |db.messages| && db.messages[i].data.attachedCollection.Some?
      && db.messages[i].data.attachedCollection.value in Keys(Backup.CollectionsOf(db, u));
    DeletedKeyGone(db.collections, c => Backup.Mine(u, c), db.messages[i].data.attachedCollection.value);
    assert after.messages[i] in after.messages;
  }

  /** The deletion of the collections is refused exactly when it would leave a foreign key dangling. */
  lemma DeleteCollectionsIff(db: Database, u: Id)
    requires Consistent(db)
    ensures Consistent(DeleteCollections(db, u)) <==> !Backup.CollectionAttached(db, u)
  {
    if Backup.CollectionAttached(db, u) {
      AttachedDangles(db, DeleteCollections(db, u), u);
    } else {
      DeleteCollectionsKeeps(db, u);
    }
  }

  lemma DeleteFriendshipsKeeps(db: Database, u: Id)
    requires Consistent(db)
    ensures Consistent(DeleteFriendships(db, u))
  {
    DeleteKeysBelow(db.friendships, f => Involves(u, f), db.nextId);
  }

  lemma DeleteContributionsKeeps(db: Database, u: Id)
    requires Consistent(db) && !ContributionRecorded(db, u)
    ensures Consistent(DeleteContributions(db, u))
  {
    var after := DeleteContributions(db, u);
    DeleteKeysBelow(db.contributions, c => ProposedBy(u, c), db.nextId);
    forall r | r in after.versions ensures References(r.data.contributionId, Keys(after.contributions)) {
      if r.data.contributionId.Some? {
        var c :| c in db.contributions && c.id == r.data.contributionId.value;
        var i :| 0 <= i < |db.versions| && db.versions[i] == r;
        assert c !in ContributionsOf(db, u);
        assert c in after.contributions;
      }
    }
  }

  lemma RecordedDangles(db: Database, after: Database, u: Id, table: Table<Contribution>)
    requires DistinctIds(table) && Keys(Where(table, c => ProposedBy(u, c))) == Keys(ContributionsOf(db, u))
    requires ContributionRecorded(db, u) && after.versions == db.versions
    requires after.contributions == DeleteWhere(table, c => ProposedBy(u, c))
    ensures !VersionsOk(Keys(after.contributions), after.versions)
  {
    var i :| 0 <= i < |db.versions| && db.versions[i].data.contributionId.Some?
      && db.versions[i].data.contributionId.value in Keys(ContributionsOf(db, u));
    DeletedKeyGone(table, c => ProposedBy(u, c), db.versions[i].data.contributionId.value);
    assert after.versions[i] in after.versions;
  }

  /** And so is the deletion of the contributions. */
  lemma DeleteContributionsIff(db: Database, u: Id)
    requires Consistent(db)
    ensures Consistent(DeleteContributions(db, u)) <==> !ContributionRecorded(db, u)
  {
    if ContributionRecorded(db, u) {
      RecordedDangles(db, DeleteContributions(db, u), u, db.contributions);
    } else {
      DeleteContributionsKeeps(db, u);
    }
  }

  lemma ReviewsWithoutUser(db: Database, u: Id)
    requires Consistent(db) && Detached(db, u)
    ensures ReviewsOk(db.users - {u}, Keys(db.books), Keys(db.releases), db.reviews)
    ensures StatusesOk(db.users - {u}, Keys(db.books), Keys(db.releases), db.statuses)
  {
  }

  lemma ShelvesWithoutUser(db: Database, u: Id)
    requires Consistent(db) && Detached(db, u)
    ensures CollectionsOk(db.users - {u}, db.collections) && SessionsOk(db.users - {u}, Keys(db.releases), db.sessions)
  {
    SessionsWithoutUser(db.users, Keys(db.releases), db.sessions, u);
  }

  lemma SessionsWithoutUser(users: set<Id>, releases: set<Id>, sessions: Table<ReadingSession>, u: Id)
    requires SessionsOk(users, releases, sessions) && forall r :: r in sessions ==> !ReadBy(u, r.data)
    ensures SessionsOk(users - {u}, releases, sessions)
  {
  }

  lemma ContributionsWithoutUser(db: Database, u: Id)
    requires Consistent(db) && Detached(db, u)
    ensures FriendshipsOk(db.users - {u}, db.friendships) && ContributionsOk(db.users - {u}, db.contributions)
  {
  }

  lemma ChatWithoutUser(db: Database, u: Id)
    requires Consistent(db) && !UserReferenced(db, u)
    ensures ThreadsOk(db.users - {u}, db.threads) && ImportsOk(db.users - {u}, db.imports)
    ensures MessagesOk(db.users - {u}, Keys(db.books), Keys(db.collections), Keys(db.threads), db.messages)
  {
  }

  lemma WithoutUserKeeps(db: Database, u: Id)
    requires Consistent(db) && Detached(db, u) && !UserReferenced(db, u)
    ensures Consistent(WithoutUser(db, u))
  {
    DeleteKeysBelow(db.attendants, a => AttendsTo(u, a), db.nextId);
    ReviewsWithoutUser(db, u);
    ShelvesWithoutUser(db, u);
    ContributionsWithoutUser(db, u);
    ChatWithoutUser(db, u);
  }

  /** So delete_user is refused exactly when its foreign keys would dangle. */
  lemma DeletionKeepsConstraintsIff(db: Database, u: Id)
    requires Consistent(db)
    ensures Consistent(WithoutUser(db, u)) <==> Detached(db, u) && !UserReferenced(db, u)
  {
    if Detached(db, u) && !UserReferenced(db, u) {
      WithoutUserKeeps(db, u);
    }
    if Consistent(WithoutUser(db, u)) {
      AbsentIsDetached(WithoutUser(db, u), u);
      SameReferences(db, WithoutUser(db, u), u);
    }
  }

  lemma SameReferences(db: Database, after: Database, u: Id)
    requires after == db.(users := after.users, attendants := after.attendants)
    ensures Detached(after, u) == Detached(db, u) && UserReferenced(after, u) == UserReferenced(db, u)
  {
  }

  lemma AbsentIsDetached(db: Database, u: Id)
    requires Consistent(db) && u !in db.users
    ensures Detached(db, u) && !UserReferenced(db, u)
  {
    AbsentFromShelves(db.users, Keys(db.books), Keys(db.releases), db.reviews, db.statuses, u);
    AbsentFromChat(db, u);
  }

  lemma AbsentFromShelves(
    users: set<Id>, books: set<Id>, releases: set<Id>, reviews: Table<Review>, statuses: Table<BookStatus>, u: Id)
    requires ReviewsOk(users, books, releases, reviews) && StatusesOk(users, books, releases, statuses) && u !in users
    ensures forall r :: r in reviews ==> !WroteReview(u, r.data)
    ensures forall r :: r in statuses ==> !LentTo(u, r.data) && !ShelvedBy(u, r.data)
  {
  }

  lemma AbsentFromChat(db: Database, u: Id)
    requires ThreadsOk(db.users, db.threads) && ImportsOk(db.users, db.imports)
    requires MessagesOk(db.users, Keys(db.books), Keys(db.collections), Keys(db.threads), db.messages)
    requires u !in db.users
    ensures !UserReferenced(db, u)
  {
  }

  lemma StatementKeeps(db: Database, u: Id, n: nat)
    requires 1 <= n <= 8 && Consistent(db)
    requires n == 6 ==> !Backup.CollectionAttached(db, u)
    requires n == 8 ==> !ContributionRecorded(db, u)
    ensures Consistent(Statement(db, u, n))
  {
    match n
    case 1 => AnonymizeKeeps(db, u);
    case 2 => DetachLoansKeeps(db, u);
    case 3 => DetachReviewerKeeps(db, u);
    case 4 => DeleteSessionsKeeps(db, u);
    case 5 => DeleteStatusesKeeps(db, u);
    case 6 => DeleteCollectionsKeeps(db, u);
    case 7 => DeleteFriendshipsKeeps(db, u);
    case _ => DeleteContributionsKeeps(db, u);
  }

  lemma SameAttached(db: Database, e: Database, u: Id)
    requires e.messages == db.messages && Keys(Backup.CollectionsOf(e, u)) == Keys(Backup.CollectionsOf(db, u))
    ensures Backup.CollectionAttached(e, u) == Backup.CollectionAttached(db, u)
  {
  }

  lemma SameRecorded(db: Database, e: Database, u: Id)
    requires e.versions == db.versions && Keys(ContributionsOf(e, u)) == Keys(ContributionsOf(db, u))
    ensures ContributionRecorded(e, u) == ContributionRecorded(db, u)
  {
  }

  /** Until their own deletion, the collections and the user's contributions are what they were. */
  lemma StatementLeaves(db: Database, u: Id, n: nat)
    requires 1 <= n < 8
    ensures var after := Statement(db, u, n);
      && (n < 6 ==> Backup.CollectionAttached(after, u) == Backup.CollectionAttached(db, u))
      && ContributionRecorded(after, u) == ContributionRecorded(db, u)
  {
    var after := Statement(db, u, n);
    if n < 6 {
      SameAttached(db, after, u);
    }
    if n == 3 {
      DetachingKeepsProposals(db, u);
    }
    SameRecorded(db, after, u);
  }

  /** Every constraint holds after each of the eight statements of the purge. */
  lemma {:induction false} PurgeKeepsConstraints(db: Database, u: Id, n: nat)
    requires n <= 8
    requires Consistent(db) && !Backup.CollectionAttached(db, u) && !ContributionRecorded(db, u)
    ensures Consistent(AfterStatements(db, u, n))
    ensures n < 6 ==> !Backup.CollectionAttached(AfterStatements(db, u, n), u)
    ensures n < 8 ==> !ContributionRecorded(AfterStatements(db, u, n), u)
  {
    if n > 0 {
      var before := AfterStatements(db, u, n - 1);
      PurgeKeepsConstraints(db, u, n - 1);
      NextStatement(db, u, n, before);
      StatementKeeps(before, u, n);
      if n < 8 {
        StatementLeaves(before, u, n);
      }
    }
  }

  // ---------- When an account can be purged ----------

  /** A version names the user as the one who made the change; the column has no foreign key. */
  predicate NamedInVersions(db: Database, u: Id) {
    exists i :: 0 <= i < |db.versions| && db.versions[i].data.changedBy == Some(u)
  }

  /** No column of any table names the user, changedBy of the versions aside. */
  ghost predicate MentionedOnlyInVersions(db: Database, u: Id) {
    && u !in db.users
    && Detached(db, u)
    && !UserReferenced(db, u)
    && forall r :: r in db.attendants ==> r.data.userId != u
  }

  /** No column of any table names the user. */
  ghost predicate NowhereMentioned(db: Database, u: Id) {
    MentionedOnlyInVersions(db, u) && !NamedInVersions(db, u)
  }

  /** An account is purged exactly when no chat message attaches one of its collections, no
      version records one of its contributions, and no chat or import row names it. */
  lemma PurgedIff(db: Database, u: Id)
    requires u in db.users
    ensures PurgeOne(db, u).ok
      <==> !Backup.CollectionAttached(db, u) && !ContributionRecorded(db, u) && !UserReferenced(db, u)
  {
    var after := PurgedTables(db, u);
    assert after.users == db.users && after.threads == db.threads && after.messages == db.messages;
    assert after.imports == db.imports;
  }

  lemma WithoutUserHardlyMentioned(db: Database, u: Id)
    requires Detached(db, u) && !UserReferenced(db, u)
    ensures MentionedOnlyInVersions(WithoutUser(db, u), u)
  {
  }

  /** After the purge of an account nothing refers to a deleted row, and only the versions can still
      mention the user: the same rows as before, since no statement writes that table. So the user is
      mentioned nowhere exactly when no version named them before. */
  lemma PurgedLeavesNoReference(db: Database, u: Id)
    requires Consistent(db) && u in db.users && PurgeOne(db, u).ok
    ensures var after := PurgeOne(db, u).db;
      && Consistent(after)
      && MentionedOnlyInVersions(after, u)
      && after.versions == db.versions
      && (NowhereMentioned(after, u) <==> !NamedInVersions(db, u))
  {
    PurgedIff(db, u);
    PurgeDetaches(db, u);
    PurgeKeepsConstraints(db, u, 8);
    AllStatements(db, u);
    WithoutUserHardlyMentioned(PurgedTables(db, u), u);
    WithoutUserKeeps(PurgedTables(db, u), u);
    assert PurgedTables(db, u).versions == db.versions;
  }

  lemma RecordedPurgeDangles(db: Database, after: Database, u: Id)
    requires KeysBelow(db.contributions, db.nextId) && ContributionRecorded(db, u) && after.versions == db.versions
    requires after.contributions == DeleteWhere(DetachReviewer(db, u).contributions, c => ProposedBy(u, c))
    ensures !VersionsOk(Keys(after.contributions), after.versions)
  {
    DetachingKeepsProposals(db, u);
    UpdatedKeys(db.contributions, c => ReviewedBy(u, c), Unreviewed, db.nextId);
    RecordedDangles(db, after, u, DetachReviewer(db, u).contributions);
  }

  lemma ReferencedPurgeDangles(db: Database, after: Database, u: Id)
    requires UserReferenced(db, u) && u !in after.users
    requires after.threads == db.threads && after.messages == db.messages && after.imports == db.imports
    ensures !Consistent(after)
  {
    if Consistent(after) {
      AbsentIsDetached(after, u);
      assert false;
    }
  }

  lemma RefusedDangles(db: Database, u: Id, after: Database)
    requires Consistent(db) && u in db.users && !PurgeOne(db, u).ok && after == WithoutUser(PurgedTables(db, u), u)
    ensures !Consistent(after)
  {
    PurgedIff(db, u);
    if Backup.CollectionAttached(db, u) {
      AttachedDangles(db, after, u);
    } else if ContributionRecorded(db, u) {
      RecordedPurgeDangles(db, after, u);
    } else {
      ReferencedPurgeDangles(db, after, u);
    }
  }

  lemma PurgedStaysConsistent(db: Database, u: Id)
    requires Consistent(db) && !Backup.CollectionAttached(db, u) && !ContributionRecorded(db, u)
    requires !UserReferenced(PurgedTables(db, u), u)
    ensures Consistent(WithoutUser(PurgedTables(db, u), u))
  {
    PurgeDetaches(db, u);
    PurgeKeepsConstraints(db, u, 8);
    AllStatements(db, u);
    WithoutUserKeeps(PurgedTables(db, u), u);
  }

  /** In all, an account is purged exactly when that leaves every foreign key with its row. */
  lemma PurgedIffConsistent(db: Database, u: Id)
    requires Consistent(db) && u in db.users
    ensures PurgeOne(db, u).ok <==> Consistent(WithoutUser(PurgedTables(db, u), u))
  {
    if PurgeOne(db, u).ok {
      PurgedStaysConsistent(db, u);
    } else {
      RefusedDangles(db, u, WithoutUser(PurgedTables(db, u), u));
    }
  }

  lemma OnlyVersionsOk(users: set<Id>, contributions: Table<Contribution>, versions: Table<EntityVersion>, next: Id)
    requires KeysBelow(contributions, next) && KeysBelow(versions, next)
    requires ContributionsOk(users, contributions) && VersionsOk(Keys(contributions), versions)
    ensures Consistent(Empty(users, next).(contributions := contributions, versions := versions))
  {
  }

  /** An administrator who once changed a book. */
  function OneChange(u: Id): Database {
    Empty({u}, 1).(versions := [Row(0, EntityVersion(BookEntity, 7, 1, "", Some(u), AdminChange, None))])
  }

  /** Their account is purged, and that version still names them. */
  lemma VersionNamesPurgedUser(u: Id)
    ensures Consistent(OneChange(u)) && PurgeOne(OneChange(u), u).ok
    ensures !NowhereMentioned(PurgeOne(OneChange(u), u).db, u)
  {
    var db := OneChange(u);
    OnlyVersionsOk({u}, [], db.versions, 1);
    PurgedIff(db, u);
    assert db.versions[0].data.changedBy == Some(u);
    PurgedLeavesNoReference(db, u);
  }

  /** A user whose contribution was applied. */
  function OneContribution(u: Id): Database {
    Empty({u}, 2).(
      contributions := [Row(0, Contribution(u, None))],
      versions := [Row(1, EntityVersion(BookEntity, 7, 1, "", Some(u), ContributionChange, Some(0)))])
  }

  /** Their account is not purged, not even in part. */
  lemma RecordedContributionRefuses(u: Id)
    ensures Consistent(OneContribution(u)) && PurgeOne(OneContribution(u), u) == Attempt(OneContribution(u), false)
  {
    var db := OneContribution(u);
    assert db.contributions[0] in db.contributions;
    assert db.contributions[0] in ContributionsOf(db, u);
    OnlyVersionsOk({u}, db.contributions, db.versions, 2);
    assert db.versions[0].data.contributionId == Some(0);
  }

  /** Nor is the account of a user who sent one of their collections. */
  lemma SentCollectionRefuses(u: Id, friend: Id)
    requires u < friend
    ensures var db := Backup.SentCollection(u, friend);
      Consistent(db) && PurgeOne(db, u) == Attempt(db, false)
  {
    Backup.SentCollectionIsAttached(u, friend);
  }

  /** The purge commits before the deletion: with a chat or import row left, the account keeps
      its user row but has lost its data, and it is not counted as purged. */
  lemma HalfPurgedIff(db: Database, u: Id)
    requires u in db.users && !Backup.CollectionAttached(db, u) && !ContributionRecorded(db, u)
    ensures PurgeOne(db, u) == Attempt(PurgedTables(db, u), false) <==> UserReferenced(db, u)
    ensures u in PurgedTables(db, u).users && Detached(PurgedTables(db, u), u)
  {
    PurgeDetaches(db, u);
  }

  /** Two users who have a thread, though nothing is written in it. */
  function OneThread(u: Id, v: Id): Database {
    Empty({u, v}, 1).(threads := [Row(0, ChatThread(u, v, None))])
  }

  /** Neither can be purged: the account would keep its user row. */
  lemma ThreadLeavesHalfPurged(u: Id, v: Id)
    requires u < v
    ensures var db := OneThread(u, v);
      && Consistent(db)
      && PurgeOne(db, u) == Attempt(PurgedTables(db, u), false) && u in PurgeOne(db, u).db.users
  {
    var db := OneThread(u, v);
    HalfPurgedIff(db, u);
    assert db.threads[0].data.userA == u;
  }

  // ---------- Repeating it changes nothing ----------

  lemma UpdateNone<D(!new)>(t: Table<D>, p: D -> bool, f: D -> D)
    requires forall r :: r in t ==> !p(r.data)
    ensures UpdateWhere(t, p, f) == t
  {
    assert forall i :: 0 <= i < |t| ==> t[i] in t;
  }

  lemma DetachedStatements(db: Database, u: Id)
    requires Detached(db, u)
    ensures AnonymizeReviews(db, u) == db && DetachLoans(db, u) == db && DetachReviewer(db, u) == db
    ensures DeleteSessions(db, u) == db && DeleteStatuses(db, u) == db && DeleteCollections(db, u) == db
    ensures DeleteFriendships(db, u) == db && DeleteContributions(db, u) == db
  {
    UpdateNone(db.reviews, r => WroteReview(u, r), Anonymous);
    UpdateNone(db.statuses, s => LentTo(u, s), NotLentTo);
    UpdateNone(db.contributions, c => ReviewedBy(u, c), Unreviewed);
    DeleteNone(db.sessions, s => ReadBy(u, s));
    DeleteNone(db.statuses, s => ShelvedBy(u, s));
    DeleteNone(db.collections, c => Backup.Mine(u, c));
    DeleteNone(db.friendships, f => Involves(u, f));
    DeleteNone(db.contributions, c => ProposedBy(u, c));
    var gone := Keys(Backup.CollectionsOf(db, u));
    assert gone == {};
    DeleteNone(db.items, (i: CollectionItem) => i.collectionId in gone);
  }

  lemma DetachedIsFixed(db: Database, u: Id)
    requires Detached(db, u)
    ensures PurgedTables(db, u) == db
  {
    DetachedStatements(db, u);
  }

  /** Purging an account again, finished or half finished, changes nothing. */
  lemma PurgeIsIdempotent(db: Database, u: Id)
    ensures PurgeOne(PurgeOne(db, u).db, u).db == PurgeOne(db, u).db
  {
    PurgeDetaches(db, u);
    var once := PurgeOne(db, u).db;
    if !Backup.CollectionAttached(db, u) && !ContributionRecorded(db, u) {
      DetachedIsFixed(once, u);
    }
  }

  // ---------- What other users keep ----------

  /** A row without the user in a nullable column. */
  function WithoutAuthor(r: Row<Review>, u: Id): Row<Review> {
    if r.data.userId == Some(u) then Row(r.id, r.data.(userId := None)) else r
  }

  function WithoutBorrower(r: Row<BookStatus>, u: Id): Row<BookStatus> {
    if r.data.lentToUserId == Some(u) then Row(r.id, r.data.(lentToUserId := None)) else r
  }

  function WithoutReviewer(r: Row<Contribution>, u: Id): Row<Contribution> {
    if r.data.reviewerId == Some(u) then Row(r.id, r.data.(reviewerId := None)) else r
  }

  /** Every review stays, with at most its author nulled. */
  lemma ReviewsStay(db: Database, u: Id)
    ensures var after := PurgedTables(db, u).reviews;
      |after| == |db.reviews| && forall i :: 0 <= i < |after| ==> after[i] == WithoutAuthor(db.reviews[i], u)
  {
  }

  lemma OthersKeepStatuses(t: Table<BookStatus>, u: Id)
    ensures var after := DeleteWhere(UpdateWhere(t, s => LentTo(u, s), NotLentTo), s => ShelvedBy(u, s));
      && (forall r :: r in t && r.data.userId != u ==> WithoutBorrower(r, u) in after)
      && (forall q :: q in after ==> exists r :: r in t && r.data.userId != u && q == WithoutBorrower(r, u))
  {
    UpdatedRows(t, s => LentTo(u, s), NotLentTo);
    assert forall r: Row<BookStatus> :: UpdateRow(r, s => LentTo(u, s), NotLentTo) == WithoutBorrower(r, u);
  }

  lemma OthersKeepContributions(t: Table<Contribution>, u: Id)
    ensures var after := DeleteWhere(UpdateWhere(t, c => ReviewedBy(u, c), Unreviewed), c => ProposedBy(u, c));
      && (forall r :: r in t && r.data.userId != u ==> WithoutReviewer(r, u) in after)
      && (forall q :: q in after ==> exists r :: r in t && r.data.userId != u && q == WithoutReviewer(r, u))
  {
    UpdatedRows(t, c => ReviewedBy(u, c), Unreviewed);
    assert forall r: Row<Contribution> :: UpdateRow(r, c => ReviewedBy(u, c), Unreviewed) == WithoutReviewer(r, u);
  }

  /** Every other user's statuses and contributions stay, with at most lentToUserId and
      reviewerId nulled; their sessions, collections, items and the friendships that do
      not involve the user stay as they are. */
  lemma OthersKeepTheirRows(db: Database, u: Id)
    ensures var after := PurgedTables(db, u);
      && (forall r :: r in db.statuses && r.data.userId != u ==> WithoutBorrower(r, u) in after.statuses)
      && (forall r :: r in db.contributions && r.data.userId != u ==> WithoutReviewer(r, u) in after.contributions)
      && (forall q :: q in after.statuses ==>
            exists r :: r in db.statuses && r.data.userId != u && q == WithoutBorrower(r, u))
      && (forall q :: q in after.contributions ==>
            exists r :: r in db.contributions && r.data.userId != u && q == WithoutReviewer(r, u))
      && (forall r :: r in after.sessions <==> r in db.sessions && r.data.userId != u)
      && (forall r :: r in after.collections <==> r in db.collections && r.data.userId != u)
      && (forall r :: r in after.friendships <==> r in db.friendships && !Involves(u, r.data))
      && (forall r :: r in after.items <==> r in db.items && r.data.collectionId !in Keys(Backup.CollectionsOf(db, u)))
      && after == db.(reviews := after.reviews, statuses := after.statuses, contributions := after.contributions,
                      sessions := after.sessions, collections := after.collections, friendships := after.friendships,
                      items := after.items)
  {
    OthersKeepStatuses(db.statuses, u);
    OthersKeepContributions(db.contributions, u);
  }

  /** The deletion of the user row takes their own tokens and backup records along, and nothing else. */
  lemma DeletionKeepsOthers(db: Database, u: Id)
    ensures var after := WithoutUser(db, u);
      && (forall v :: v in after.users <==> v in db.users && v != u)
      && (forall r :: r in after.attendants <==> r in db.attendants && r.data.userId != u)
      && after == db.(users := after.users, attendants := after.attendants)
  {
  }

  // ---------- Ratings ----------

  lemma CountedIgnoresAuthor(reviews: Table<Review>, u: Id, b: Id, ids: seq<Option<Id>>, f: Review -> int)
    requires forall r: Review :: f(Anonymous(r)) == f(r)
    ensures var after := UpdateWhere(reviews, r => WroteReview(u, r), Anonymous);
      && SumOf(Where(after, r => BookRatings.Counts(r, b, ids)), f)
           == SumOf(Where(reviews, r => BookRatings.Counts(r, b, ids)), f)
      && |Where(after, r => BookRatings.Counts(r, b, ids))| == |Where(reviews, r => BookRatings.Counts(r, b, ids))|
  {
    SumUpdated(reviews, r => WroteReview(u, r), Anonymous, r => BookRatings.Counts(r, b, ids),
      r => BookRatings.Counts(r, b, ids), f);
  }

  lemma TallyKept(db: Database, after: Database, u: Id, b: Id)
    requires after.releases == db.releases
    requires after.reviews == UpdateWhere(db.reviews, r => WroteReview(u, r), Anonymous)
    ensures BookRatings.TallyOf(BookRatings.Counted(after, b)) == BookRatings.TallyOf(BookRatings.Counted(db, b))
  {
    var ids := BookRatings.ReleaseIds(db.releases, b);
    CountedIgnoresAuthor(db.reviews, u, b, ids, BookRatings.Rated);
    CountedIgnoresAuthor(db.reviews, u, b, ids, BookRatings.Score);
  }

  /** A purge leaves every book's rating aggregate as it was. */
  lemma RatingsKept(db: Database, u: Id, b: Id)
    ensures BookRatings.RatingAggregate(PurgeOne(db, u).db, b) == BookRatings.RatingAggregate(db, b)
  {
    if !Backup.CollectionAttached(db, u) && !ContributionRecorded(db, u) {
      TallyKept(db, PurgeOne(db, u).db, u, b);
    }
  }

  lemma ReleaseTallyKept(db: Database, after: Database, u: Id, release: Id)
    requires after.reviews == UpdateWhere(db.reviews, r => WroteReview(u, r), Anonymous)
    ensures BookRatings.ReleaseRatingAggregate(after, release) == BookRatings.ReleaseRatingAggregate(db, release)
  {
    SumUpdated(db.reviews, r => WroteReview(u, r), Anonymous, r => BookRatings.CountsForRelease(r, release),
      r => BookRatings.CountsForRelease(r, release), BookRatings.Rated);
    SumUpdated(db.reviews, r => WroteReview(u, r), Anonymous, r => BookRatings.CountsForRelease(r, release),
      r => BookRatings.CountsForRelease(r, release), BookRatings.Score);
  }

  /** And every release's. */
  lemma ReleaseRatingsKept(db: Database, u: Id, release: Id)
    ensures BookRatings.ReleaseRatingAggregate(PurgeOne(db, u).db, release)
      == BookRatings.ReleaseRatingAggregate(db, release)
  {
    if !Backup.CollectionAttached(db, u) && !ContributionRecorded(db, u) {
      ReleaseTallyKept(db, PurgeOne(db, u).db, u, release);
    }
  }
}
