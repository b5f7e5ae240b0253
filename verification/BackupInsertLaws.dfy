/** When a batch of rows can be inserted, and what the tables hold afterwards. */
module BackupInsertLaws {
  import opened Sql
  import opened Schema
  import opened Backup
  import opened BackupMergeLaws

  // ---------- When every row can be inserted ----------

  /** The rows of two entries violate a unique key together. */
  predicate EntriesClash(user: Id, a: Entry, b: Entry) {
    match (a, b)
    case (OfReview(q), OfReview(r)) => ReviewsClash(OwnReview(user, q), OwnReview(user, r))
    case (OfSession(t), OfSession(u)) => SessionsClash(OwnSession(user, t), OwnSession(user, u))
    case _ => false
  }

  lemma InsertableAfterInsert(db: Database, user: Id, a: Entry, e: Entry)
    ensures Fits(Insert(db, user, a), user, e) == Fits(db, user, e)
    ensures ClashesWith(Insert(db, user, a), user, e) <==> ClashesWith(db, user, e) || EntriesClash(user, a, e)
  {
    var after := Insert(db, user, a);
    assert forall i :: 0 <= i < |db.reviews| ==> after.reviews[i] == db.reviews[i];
    assert forall i :: 0 <= i < |db.sessions| ==> after.sessions[i] == db.sessions[i];
    match a
    case OfReview(q) => assert after.reviews[|db.reviews|].data == OwnReview(user, q);
    case OfSession(t) => assert after.sessions[|db.sessions|].data == OwnSession(user, t);
    case _ =>
  }

  predicate ClashesWithAny(user: Id, es: seq<Entry>, e: Entry) {
    exists i :: 0 <= i < |es| && EntriesClash(user, es[i], e)
  }

  lemma ClashesWithAnySnoc(user: Id, es: seq<Entry>, a: Entry, e: Entry)
    ensures ClashesWithAny(user, es + [a], e) <==> ClashesWithAny(user, es, e) || EntriesClash(user, a, e)
  {
    var all := es + [a];
    assert all[|es|] == a && forall i :: 0 <= i < |es| ==> all[i] == es[i];
  }

  lemma {:induction false} InsertableAfterAll(db: Database, user: Id, es: seq<Entry>, e: Entry)
    requires InsertAll(db, user, es).Some?
    ensures var after := InsertAll(db, user, es).value;
      && Fits(after, user, e) == Fits(db, user, e)
      && (ClashesWith(after, user, e) <==> ClashesWith(db, user, e) || ClashesWithAny(user, es, e))
  {
    if es != [] {
      var front, last := es[..|es| - 1], es[|es| - 1];
      InsertableAfterAll(db, user, front, e);
      InsertableAfterInsert(InsertAll(db, user, front).value, user, last, e);
      ClashesWithAnySnoc(user, front, last, e);
      assert es == front + [last];
    }
  }

  ghost predicate AllInsertable(db: Database, user: Id, es: seq<Entry>) {
    forall i :: 0 <= i < |es| ==> Fits(db, user, es[i]) && !ClashesWith(db, user, es[i])
  }

  ghost predicate NoneClash(user: Id, es: seq<Entry>) {
    forall i, j :: 0 <= i < j < |es| ==> !EntriesClash(user, es[i], es[j])
  }

  /** A batch goes in exactly when each row satisfies its own constraints and the unique keys
      against the table, and no two rows of the batch clash. */
  lemma {:induction false} InsertAllIff(db: Database, user: Id, es: seq<Entry>)
    ensures InsertAll(db, user, es).Some? <==> AllInsertable(db, user, es) && NoneClash(user, es)
  {
    if es != [] {
      var front, last := es[..|es| - 1], es[|es| - 1];
      InsertAllIff(db, user, front);
      assert es == front + [last];
      assert forall i :: 0 <= i < |front| ==> front[i] == es[i];
      if InsertAll(db, user, front).Some? {
        InsertableAfterAll(db, user, front, last);
      }
    }
  }

  /** An active session finds no other active session of its release, present or added. */
  ghost predicate ActiveSessionsClear(db: Database, user: Id, es: seq<Entry>) {
    && (forall i :: 0 <= i < |es| && es[i].OfSession? ==> !ClashesWith(db, user, es[i]))
    && (forall i, j :: 0 <= i < j < |es| && es[i].OfSession? ==> !EntriesClash(user, es[i], es[j]))
  }

  /** The natural key of a review is at least as strict as its unique keys. */
  lemma ReviewsNeverClash(db: Database, user: Id, a: Entry, b: Entry)
    requires WellTargeted([a]) && a.OfReview?
    ensures !Found(db, user, a) ==> !ClashesWith(db, user, a)
    ensures WellTargeted([b]) && !SameKey(a, b) ==> !EntriesClash(user, a, b)
  {
    assert [a][0] == a && [b][0] == b;
    forall i | 0 <= i < |db.reviews| && ReviewsClash(db.reviews[i].data, OwnReview(user, a.r))
      ensures MatchesReview(db.reviews[i].data, user, a.r)
    {
    }
  }

  lemma NewReviewsNeverClash(db: Database, user: Id, es: seq<Entry>)
    requires WellTargeted(es) && DistinctKeys(es) && forall a :: a in es ==> !Found(db, user, a)
    ensures forall i :: 0 <= i < |es| && !es[i].OfSession? ==> !ClashesWith(db, user, es[i])
    ensures forall i, j :: 0 <= i < j < |es| && !es[i].OfSession? ==> !EntriesClash(user, es[i], es[j])
  {
    forall i | 0 <= i < |es| && !es[i].OfSession? ensures !ClashesWith(db, user, es[i]) {
      if es[i].OfReview? {
        assert WellTargeted([es[i]]);
        ReviewsNeverClash(db, user, es[i], es[i]);
      }
    }
    forall i, j | 0 <= i < j < |es| && !es[i].OfSession? ensures !EntriesClash(user, es[i], es[j]) {
      if es[i].OfReview? && es[j].OfReview? {
        assert WellTargeted([es[i]]) && WellTargeted([es[j]]);
        ReviewsNeverClash(db, user, es[i], es[j]);
      }
    }
  }

  ghost predicate AllFit(db: Database, user: Id, es: seq<Entry>) {
    forall i :: 0 <= i < |es| ==> Fits(db, user, es[i])
  }

  /** A merge-restore is refused exactly when an addition fails its own constraints, or is an
      active reading session whose release already has one, present or among the additions. */
  lemma MergeSucceedsIff(db: Database, user: Id, es: seq<Entry>)
    ensures var added := Additions(db, user, es);
      Merge(db, user, es).ok <==> AllFit(db, user, added) && ActiveSessionsClear(db, user, added)
  {
    var added := Additions(db, user, es);
    MergeInsertsAdditions(db, user, es);
    InsertAllIff(db, user, added);
    if AllFit(db, user, added) {
      assert WellTargeted(added);
      LeftBiasedUnion(db, user, es);
      NewReviewsNeverClash(db, user, added);
    }
  }

  /** A release that the user is reading. */
  function Reading(user: Id): Database {
    Empty({user}, 3).(
      books := [Row(0, Book("A book", "", None))],
      releases := [Row(1, Release(0, 0, "", None, ""))],
      sessions := [Row(2, ReadingSession(user, 1, 0, None, None, None, None, None, None))])
  }

  lemma ReleaseTablesOk(
    users: set<Id>, books: Table<Book>, releases: Table<Release>, sessions: Table<ReadingSession>, next: Id)
    requires KeysBelow(books, next) && KeysBelow(releases, next) && KeysBelow(sessions, next)
    requires BooksOk(books) && ReleasesOk(Keys(books), releases) && SessionsOk(users, Keys(releases), sessions)
    ensures Consistent(Empty(users, next).(books := books, releases := releases, sessions := sessions))
  {
  }

  lemma ReadingOk(user: Id)
    ensures Consistent(Reading(user))
  {
    var db := Reading(user);
    assert db.books[0] in db.books && db.releases[0] in db.releases;
    ReleaseTablesOk({user}, db.books, db.releases, db.sessions, 3);
  }

  function AnotherSession(user: Id): Entry {
    OfSession(ReadingSession(user, 1, 7, None, None, None, None, None, None))
  }

  lemma ClashingEntryIsRefused(db: Database, user: Id, e: Entry)
    requires !Found(db, user, e) && ClashesWith(db, user, e)
    ensures !Merge(db, user, [e]).ok
  {
    assert [e][..0] == [] && Merge(db, user, []) == Progress(db, true);
  }

  /** There an exported session of the same release, also without an end, is refused, though it fits. */
  lemma SecondActiveSessionIsRefused(user: Id)
    ensures Consistent(Reading(user)) && Fits(Reading(user), user, AnotherSession(user))
    ensures !Merge(Reading(user), user, [AnotherSession(user)]).ok
  {
    var db, e := Reading(user), AnotherSession(user);
    ReadingOk(user);
    assert db.releases[0] in db.releases;
    assert SessionsClash(db.sessions[0].data, OwnSession(user, e.t));
    ClashingEntryIsRefused(db, user, e);
  }

  // ---------- What the tables hold afterwards ----------

  /** Rows were appended to the four tables, and nothing else changed. */
  ghost predicate OnlyAppends(before: Database, after: Database) {
    && before.collections <= after.collections && before.statuses <= after.statuses
    && before.reviews <= after.reviews && before.sessions <= after.sessions
    && after == before.(collections := after.collections, statuses := after.statuses, reviews := after.reviews,
                        sessions := after.sessions, nextId := after.nextId)
  }

  lemma {:induction false} InsertAllAppends(db: Database, user: Id, es: seq<Entry>)
    requires InsertAll(db, user, es).Some?
    ensures OnlyAppends(db, InsertAll(db, user, es).value)
  {
    if es != [] {
      InsertAllAppends(db, user, es[..|es| - 1]);
    }
  }

  /** A merge-restore leaves every existing row as it is, even when it is refused halfway. */
  lemma {:induction false} MergeAppends(db: Database, user: Id, es: seq<Entry>)
    ensures OnlyAppends(db, Merge(db, user, es).db)
  {
    if es != [] {
      MergeAppends(db, user, es[..|es| - 1]);
    }
  }

  /** The rows that the entries of each kind become. */
  function CollectionsIn(user: Id, es: seq<Entry>): seq<Collection> {
    if es == [] then []
    else
      var e := es[|es| - 1];
      CollectionsIn(user, es[..|es| - 1]) + if e.OfCollection? then [e.c.(userId := user)] else []
  }

  function StatusesIn(user: Id, es: seq<Entry>): seq<BookStatus> {
    if es == [] then []
    else
      var e := es[|es| - 1];
      StatusesIn(user, es[..|es| - 1]) + if e.OfStatus? then [e.s.(userId := user)] else []
  }

  function ReviewsIn(user: Id, es: seq<Entry>): seq<Review> {
    if es == [] then []
    else
      var e := es[|es| - 1];
      ReviewsIn(user, es[..|es| - 1]) + if e.OfReview? then [OwnReview(user, e.r)] else []
  }

  function SessionsIn(user: Id, es: seq<Entry>): seq<ReadingSession> {
    if es == [] then []
    else
      var e := es[|es| - 1];
      SessionsIn(user, es[..|es| - 1]) + if e.OfSession? then [OwnSession(user, e.t)] else []
  }

  lemma ColumnsSnoc<D>(t: Table<D>, r: Row<D>)
    ensures Columns(t + [r]) == Columns(t) + [r.data]
  {
  }

  /** Each table gains exactly the rows of its kind of entry, in order. */
  lemma {:induction false} InsertAllColumns(db: Database, user: Id, es: seq<Entry>)
    requires InsertAll(db, user, es).Some?
    ensures var after := InsertAll(db, user, es).value;
      && Columns(after.collections) == Columns(db.collections) + CollectionsIn(user, es)
      && Columns(after.statuses) == Columns(db.statuses) + StatusesIn(user, es)
      && Columns(after.reviews) == Columns(db.reviews) + ReviewsIn(user, es)
      && Columns(after.sessions) == Columns(db.sessions) + SessionsIn(user, es)
  {
    if es != [] {
      var front, last := es[..|es| - 1], es[|es| - 1];
      InsertAllColumns(db, user, front);
      var before := InsertAll(db, user, front).value;
      match last
      case OfCollection(c) => ColumnsSnoc(before.collections, Row(before.nextId, c.(userId := user)));
      case OfStatus(s) => ColumnsSnoc(before.statuses, Row(before.nextId, s.(userId := user)));
      case OfReview(r) => ColumnsSnoc(before.reviews, Row(before.nextId, OwnReview(user, r)));
      case OfSession(t) => ColumnsSnoc(before.sessions, Row(before.nextId, OwnSession(user, t)));
    }
  }

  // ---------- Every constraint still holds ----------

  lemma KeysStayBelow(db: Database)
    requires KeysOk(db)
    ensures KeysOk(db.(nextId := db.nextId + 1))
  {
  }

  lemma InsertCollectionOk(db: Database, user: Id, c: Collection)
    requires Consistent(db) && Fits(db, user, OfCollection(c))
    ensures Consistent(Insert(db, user, OfCollection(c)))
  {
    KeysOfAppended(db.collections, Row(db.nextId, c.(userId := user)));
    KeysStayBelow(db);
  }

  lemma InsertStatusOk(db: Database, user: Id, s: BookStatus)
    requires Consistent(db) && Fits(db, user, OfStatus(s))
    ensures Consistent(Insert(db, user, OfStatus(s)))
  {
    KeysOfAppended(db.statuses, Row(db.nextId, s.(userId := user)));
    KeysStayBelow(db);
  }

  lemma AppendUniqueReview(t: Table<Review>, r: Row<Review>)
    requires ReviewsUnique(t) && forall q :: q in t ==> !ReviewsClash(q.data, r.data)
    ensures ReviewsUnique(t + [r])
  {
    assert forall x :: x in t + [r] <==> x in t || x == r;
    assert forall q :: q in t ==> (ReviewsClash(r.data, q.data) <==> ReviewsClash(q.data, r.data));
  }

  lemma InsertReviewOk(db: Database, user: Id, r: Review)
    requires Consistent(db) && Fits(db, user, OfReview(r)) && !ClashesWith(db, user, OfReview(r))
    ensures Consistent(Insert(db, user, OfReview(r)))
  {
    KeysOfAppended(db.reviews, Row(db.nextId, OwnReview(user, r)));
    KeysStayBelow(db);
    AppendUniqueReview(db.reviews, Row(db.nextId, OwnReview(user, r)));
  }

  lemma AppendUniqueSession(t: Table<ReadingSession>, r: Row<ReadingSession>)
    requires SessionsUnique(t) && forall q :: q in t ==> !SessionsClash(q.data, r.data)
    ensures SessionsUnique(t + [r])
  {
    assert forall x :: x in t + [r] <==> x in t || x == r;
    assert forall q :: q in t ==> (SessionsClash(r.data, q.data) <==> SessionsClash(q.data, r.data));
  }

  lemma AppendSessionOk(users: set<Id>, releases: set<Id>, t: Table<ReadingSession>, r: Row<ReadingSession>)
    requires SessionsOk(users, releases, t) && SessionRowOk(users, releases, r.data)
    requires forall q :: q in t ==> !SessionsClash(q.data, r.data)
    ensures SessionsOk(users, releases, t + [r])
  {
    AppendUniqueSession(t, r);
  }

  lemma InsertSessionOk(db: Database, user: Id, t: ReadingSession)
    requires Consistent(db) && Fits(db, user, OfSession(t)) && !ClashesWith(db, user, OfSession(t))
    ensures Consistent(Insert(db, user, OfSession(t)))
  {
    KeysOfAppended(db.sessions, Row(db.nextId, OwnSession(user, t)));
    KeysStayBelow(db);
    AppendSessionOk(db.users, Keys(db.releases), db.sessions, Row(db.nextId, OwnSession(user, t)));
  }

  lemma InsertKeepsConstraints(db: Database, user: Id, e: Entry)
    requires Consistent(db) && TryInsert(db, user, e).Some?
    ensures Consistent(TryInsert(db, user, e).value)
  {
    match e
    case OfCollection(c) => InsertCollectionOk(db, user, c);
    case OfStatus(s) => InsertStatusOk(db, user, s);
    case OfReview(r) => InsertReviewOk(db, user, r);
    case OfSession(t) => InsertSessionOk(db, user, t);
  }

  lemma InsertedReviewClashes(db: Database, user: Id, r: Review)
    requires KeysBelow(db.reviews, db.nextId) && ReviewsUnique(Insert(db, user, OfReview(r)).reviews)
    ensures !ClashesWith(db, user, OfReview(r))
  {
    var after, row := Insert(db, user, OfReview(r)).reviews, Row(db.nextId, OwnReview(user, r));
    assert after[|db.reviews|] == row;
    forall i | 0 <= i < |db.reviews| ensures !ReviewsClash(db.reviews[i].data, row.data) {
      assert after[i] == db.reviews[i] && after[i] in after && row in after;
    }
  }

  lemma InsertedSessionClashes(db: Database, user: Id, t: ReadingSession)
    requires KeysBelow(db.sessions, db.nextId) && SessionsUnique(Insert(db, user, OfSession(t)).sessions)
    ensures !ClashesWith(db, user, OfSession(t))
  {
    var after, row := Insert(db, user, OfSession(t)).sessions, Row(db.nextId, OwnSession(user, t));
    assert after[|db.sessions|] == row;
    forall i | 0 <= i < |db.sessions| ensures !SessionsClash(db.sessions[i].data, row.data) {
      assert after[i] == db.sessions[i] && after[i] in after && row in after;
    }
  }

  lemma ConsistentInsertFits(db: Database, user: Id, e: Entry)
    requires Consistent(db) && Consistent(Insert(db, user, e))
    ensures Fits(db, user, e)
  {
    var after := Insert(db, user, e);
    match e
    case OfCollection(c) => assert after.collections[|db.collections|] in after.collections;
    case OfStatus(s) => assert after.statuses[|db.statuses|] in after.statuses;
    case OfReview(r) => assert after.reviews[|db.reviews|] in after.reviews;
    case OfSession(t) => assert after.sessions[|db.sessions|] in after.sessions;
  }

  /** A row is refused exactly when it would violate a constraint. */
  lemma InsertIff(db: Database, user: Id, e: Entry)
    requires Consistent(db)
    ensures TryInsert(db, user, e).Some? <==> Consistent(Insert(db, user, e))
  {
    if TryInsert(db, user, e).Some? {
      InsertKeepsConstraints(db, user, e);
    }
    if Consistent(Insert(db, user, e)) {
      ConsistentInsertFits(db, user, e);
      match e
      case OfReview(r) => InsertedReviewClashes(db, user, r);
      case OfSession(t) => InsertedSessionClashes(db, user, t);
      case _ =>
    }
  }

  /** The constraints of each row, by its columns. */
  lemma FitsMeans(db: Database, user: Id, e: Entry)
    ensures Fits(db, user, e) <==>
      match e
      case OfCollection(c) =>
        && user in db.users && |c.name| <= 255 && (c.cover.Some? ==> |c.cover.value| <= 2048)
        && -0x8000_0000 <= c.sortOrder <= 0x7fff_ffff
      case OfStatus(s) =>
        && user in db.users && (s.bookId.Some? <==> s.releaseId.None?)
        && (s.bookId.Some? ==> s.bookId.value in Keys(db.books))
        && (s.releaseId.Some? ==> s.releaseId.value in Keys(db.releases))
        && (s.lentToUserId.Some? ==> s.lentToUserId.value in db.users)
        && (s.lentToName.Some? ==> |s.lentToName.value| <= 255)
      case OfReview(r) =>
        && user in db.users && (r.bookId.Some? <==> r.releaseId.None?)
        && (r.bookId.Some? ==> r.bookId.value in Keys(db.books))
        && (r.releaseId.Some? ==> r.releaseId.value in Keys(db.releases))
        && (r.rating.Some? ==> 1 <= r.rating.value <= 5)
        && (r.title.Some? ==> |r.title.value| <= 255)
      case OfSession(t) =>
        && user in db.users && t.releaseId in Keys(db.releases)
        && (t.pagesRead.Some? ==> -0x8000_0000 <= t.pagesRead.value <= 0x7fff_ffff)
        && (t.positionStart.Some? ==> -0x8000_0000 <= t.positionStart.value <= 0x7fff_ffff)
        && (t.positionEnd.Some? ==> -0x8000_0000 <= t.positionEnd.value <= 0x7fff_ffff)
  {
  }

  /** A merge-restore keeps every constraint, refused or not. */
  lemma {:induction false} MergeKeepsConstraints(db: Database, user: Id, es: seq<Entry>)
    requires Consistent(db)
    ensures Consistent(Merge(db, user, es).db)
  {
    if es != [] {
      var p := Merge(db, user, es[..|es| - 1]);
      MergeKeepsConstraints(db, user, es[..|es| - 1]);
      if TryInsert(p.db, user, es[|es| - 1]).Some? {
        InsertKeepsConstraints(p.db, user, es[|es| - 1]);
      }
    }
  }

  lemma {:induction false} InsertAllKeepsConstraints(db: Database, user: Id, es: seq<Entry>)
    requires Consistent(db) && InsertAll(db, user, es).Some?
    ensures Consistent(InsertAll(db, user, es).value)
  {
    if es != [] {
      InsertAllKeepsConstraints(db, user, es[..|es| - 1]);
      InsertKeepsConstraints(InsertAll(db, user, es[..|es| - 1]).value, user, es[|es| - 1]);
    }
  }
}
