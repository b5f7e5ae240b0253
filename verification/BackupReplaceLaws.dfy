/** Replace-restore undoes an export, except for what an export does not hold. */
module BackupReplaceLaws {
  import opened Sql
  import opened Schema
  import opened Backup
  import opened BackupInsertLaws

  // ---------- The rows of an export's entries ----------

  lemma {:induction false} CollectionsInConcat(user: Id, a: seq<Entry>, b: seq<Entry>)
    ensures CollectionsIn(user, a + b) == CollectionsIn(user, a) + CollectionsIn(user, b)
  {
    if b == [] {
      assert a + b == a;
    } else {
      CollectionsInConcat(user, a, b[..|b| - 1]);
      assert (a + b)[..|a + b| - 1] == a + b[..|b| - 1];
    }
  }

  lemma {:induction false} StatusesInConcat(user: Id, a: seq<Entry>, b: seq<Entry>)
    ensures StatusesIn(user, a + b) == StatusesIn(user, a) + StatusesIn(user, b)
  {
    if b == [] {
      assert a + b == a;
    } else {
      StatusesInConcat(user, a, b[..|b| - 1]);
      assert (a + b)[..|a + b| - 1] == a + b[..|b| - 1];
    }
  }

  lemma {:induction false} ReviewsInConcat(user: Id, a: seq<Entry>, b: seq<Entry>)
    ensures ReviewsIn(user, a + b) == ReviewsIn(user, a) + ReviewsIn(user, b)
  {
    if b == [] {
      assert a + b == a;
    } else {
      ReviewsInConcat(user, a, b[..|b| - 1]);
      assert (a + b)[..|a + b| - 1] == a + b[..|b| - 1];
    }
  }

  lemma {:induction false} SessionsInConcat(user: Id, a: seq<Entry>, b: seq<Entry>)
    ensures SessionsIn(user, a + b) == SessionsIn(user, a) + SessionsIn(user, b)
  {
    if b == [] {
      assert a + b == a;
    } else {
      SessionsInConcat(user, a, b[..|b| - 1]);
      assert (a + b)[..|a + b| - 1] == a + b[..|b| - 1];
    }
  }

  lemma InSnoc(user: Id, es: seq<Entry>, e: Entry)
    ensures CollectionsIn(user, es + [e])
      == CollectionsIn(user, es) + if e.OfCollection? then [e.c.(userId := user)] else []
    ensures StatusesIn(user, es + [e]) == StatusesIn(user, es) + if e.OfStatus? then [e.s.(userId := user)] else []
    ensures ReviewsIn(user, es + [e]) == ReviewsIn(user, es) + if e.OfReview? then [OwnReview(user, e.r)] else []
    ensures SessionsIn(user, es + [e]) == SessionsIn(user, es) + if e.OfSession? then [OwnSession(user, e.t)] else []
  {
    assert (es + [e])[..|es|] == es;
  }

  lemma {:induction false} InCollectionEntries(user: Id, xs: seq<Collection>)
    requires forall x :: x in xs ==> x.userId == user
    ensures var es := CollectionEntries(xs);
      && CollectionsIn(user, es) == xs && StatusesIn(user, es) == []
      && ReviewsIn(user, es) == [] && SessionsIn(user, es) == []
  {
    if xs != [] {
      var front, last := xs[..|xs| - 1], xs[|xs| - 1];
      InCollectionEntries(user, front);
      InSnoc(user, CollectionEntries(front), OfCollection(last));
      assert xs == front + [last] && last in xs;
      assert CollectionEntries(xs) == CollectionEntries(front) + [OfCollection(last)];
    }
  }

  lemma {:induction false} InStatusEntries(user: Id, xs: seq<BookStatus>)
    requires forall x :: x in xs ==> x.userId == user
    ensures var es := StatusEntries(xs);
      && CollectionsIn(user, es) == [] && StatusesIn(user, es) == xs
      && ReviewsIn(user, es) == [] && SessionsIn(user, es) == []
  {
    if xs != [] {
      var front, last := xs[..|xs| - 1], xs[|xs| - 1];
      InStatusEntries(user, front);
      InSnoc(user, StatusEntries(front), OfStatus(last));
      assert xs == front + [last] && last in xs;
      assert StatusEntries(xs) == StatusEntries(front) + [OfStatus(last)];
    }
  }

  lemma {:induction false} InReviewEntries(user: Id, xs: seq<Review>)
    requires forall x :: x in xs ==> x.userId == Some(user)
    ensures var es := ReviewEntries(xs);
      && CollectionsIn(user, es) == [] && StatusesIn(user, es) == []
      && ReviewsIn(user, es) == xs && SessionsIn(user, es) == []
  {
    if xs != [] {
      var front, last := xs[..|xs| - 1], xs[|xs| - 1];
      InReviewEntries(user, front);
      InSnoc(user, ReviewEntries(front), OfReview(last));
      assert xs == front + [last] && last in xs && OwnReview(user, last) == last;
      assert ReviewEntries(xs) == ReviewEntries(front) + [OfReview(last)];
    }
  }

  lemma {:induction false} InSessionEntries(user: Id, xs: seq<ReadingSession>)
    requires forall x :: x in xs ==> x.userId == user
    ensures var es := SessionEntries(xs);
      && CollectionsIn(user, es) == [] && StatusesIn(user, es) == []
      && ReviewsIn(user, es) == [] && SessionsIn(user, es) == xs
  {
    if xs != [] {
      var front, last := xs[..|xs| - 1], xs[|xs| - 1];
      InSessionEntries(user, front);
      InSnoc(user, SessionEntries(front), OfSession(last));
      assert xs == front + [last] && last in xs && OwnSession(user, last) == last;
      assert SessionEntries(xs) == SessionEntries(front) + [OfSession(last)];
    }
  }

  lemma ColumnsMember<D>(t: Table<D>, d: D)
    requires d in Columns(t)
    ensures exists r :: r in t && r.data == d
  {
    var i :| 0 <= i < |t| && Columns(t)[i] == d;
    assert t[i] in t;
  }

  lemma ExportIsOwn(db: Database, user: Id)
    ensures var e := ExportOf(db, user);
      && (forall c :: c in e.collections ==> c.userId == user && exists r :: r in db.collections && r.data == c)
      && (forall s :: s in e.statuses ==> s.userId == user && exists r :: r in db.statuses && r.data == s)
      && (forall q :: q in e.reviews ==> q.userId == Some(user) && exists r :: r in db.reviews && r.data == q)
      && (forall t :: t in e.sessions ==> t.userId == user && exists r :: r in db.sessions && r.data == t)
  {
    var e := ExportOf(db, user);
    forall c | c in e.collections ensures c.userId == user && exists r :: r in db.collections && r.data == c {
      ColumnsMember(CollectionsOf(db, user), c);
    }
    forall s | s in e.statuses ensures s.userId == user && exists r :: r in db.statuses && r.data == s {
      ColumnsMember(StatusesOf(db, user), s);
    }
    forall q | q in e.reviews ensures q.userId == Some(user) && exists r :: r in db.reviews && r.data == q {
      ColumnsMember(ReviewsOf(db, user), q);
    }
    forall t | t in e.sessions ensures t.userId == user && exists r :: r in db.sessions && r.data == t {
      ColumnsMember(SessionsOf(db, user), t);
    }
  }

  lemma InFour(user: Id, c: seq<Entry>, s: seq<Entry>, r: seq<Entry>, t: seq<Entry>)
    ensures CollectionsIn(user, c + s + r + t)
      == CollectionsIn(user, c) + CollectionsIn(user, s) + CollectionsIn(user, r) + CollectionsIn(user, t)
    ensures StatusesIn(user, c + s + r + t)
      == StatusesIn(user, c) + StatusesIn(user, s) + StatusesIn(user, r) + StatusesIn(user, t)
    ensures ReviewsIn(user, c + s + r + t)
      == ReviewsIn(user, c) + ReviewsIn(user, s) + ReviewsIn(user, r) + ReviewsIn(user, t)
    ensures SessionsIn(user, c + s + r + t)
      == SessionsIn(user, c) + SessionsIn(user, s) + SessionsIn(user, r) + SessionsIn(user, t)
  {
    CollectionsInConcat(user, c, s);
    CollectionsInConcat(user, c + s, r);
    CollectionsInConcat(user, c + s + r, t);
    StatusesInConcat(user, c, s);
    StatusesInConcat(user, c + s, r);
    StatusesInConcat(user, c + s + r, t);
    ReviewsInConcat(user, c, s);
    ReviewsInConcat(user, c + s, r);
    ReviewsInConcat(user, c + s + r, t);
    SessionsInConcat(user, c, s);
    SessionsInConcat(user, c + s, r);
    SessionsInConcat(user, c + s + r, t);
  }

  lemma OnlyOne<T>(x: seq<T>)
    ensures x + [] + [] + [] == x && [] + x + [] + [] == x && [] + [] + x + [] == x && [] + [] + [] + x == x
  {
  }

  lemma InExport(db: Database, user: Id)
    ensures var e := ExportOf(db, user);
      && CollectionsIn(user, Entries(e)) == e.collections && StatusesIn(user, Entries(e)) == e.statuses
      && ReviewsIn(user, Entries(e)) == e.reviews && SessionsIn(user, Entries(e)) == e.sessions
  {
    var e := ExportOf(db, user);
    ExportIsOwn(db, user);
    InEntries(user, e);
  }

  lemma InEntries(user: Id, e: Export)
    requires forall c :: c in e.collections ==> c.userId == user
    requires forall s :: s in e.statuses ==> s.userId == user
    requires forall q :: q in e.reviews ==> q.userId == Some(user)
    requires forall t :: t in e.sessions ==> t.userId == user
    ensures CollectionsIn(user, Entries(e)) == e.collections && StatusesIn(user, Entries(e)) == e.statuses
    ensures ReviewsIn(user, Entries(e)) == e.reviews && SessionsIn(user, Entries(e)) == e.sessions
  {
    InCollectionEntries(user, e.collections);
    InStatusEntries(user, e.statuses);
    InReviewEntries(user, e.reviews);
    InSessionEntries(user, e.sessions);
    InFour(user, CollectionEntries(e.collections), StatusEntries(e.statuses), ReviewEntries(e.reviews),
      SessionEntries(e.sessions));
    OnlyOne(e.collections);
    OnlyOne(e.statuses);
    OnlyOne(e.reviews);
    OnlyOne(e.sessions);
  }

  // ---------- An export can be inserted again ----------

  lemma InsertableConcat(db: Database, user: Id, a: seq<Entry>, b: seq<Entry>)
    requires AllInsertable(db, user, a) && AllInsertable(db, user, b)
    ensures AllInsertable(db, user, a + b)
  {
  }

  /** Only entries of one kind can clash. */
  lemma NoneClashConcat(user: Id, a: seq<Entry>, b: seq<Entry>, kind: nat)
    requires NoneClash(user, a) && NoneClash(user, b)
    requires (forall x :: x in a ==> Kind(x) < kind) && forall y :: y in b ==> Kind(y) == kind
    ensures NoneClash(user, a + b) && forall x :: x in a + b ==> Kind(x) < kind + 1
  {
    var all := a + b;
    forall i, j | 0 <= i < j < |all| ensures !EntriesClash(user, all[i], all[j]) {
      if i < |a| <= j {
        assert a[i] in a && b[j - |a|] in b;
        assert Kind(all[i]) != Kind(all[j]);
      }
    }
  }

  lemma CollectionsInsertable(db: Database, user: Id)
    requires Consistent(db)
    ensures AllInsertable(Purged(db, user), user, CollectionEntries(ExportOf(db, user).collections))
  {
    var xs := ExportOf(db, user).collections;
    ExportIsOwn(db, user);
    forall i | 0 <= i < |xs| ensures Fits(Purged(db, user), user, OfCollection(xs[i])) {
      assert xs[i] in xs;
    }
  }

  lemma StatusesInsertable(db: Database, user: Id)
    requires Consistent(db)
    ensures AllInsertable(Purged(db, user), user, StatusEntries(ExportOf(db, user).statuses))
  {
    var xs := ExportOf(db, user).statuses;
    ExportIsOwn(db, user);
    forall i | 0 <= i < |xs| ensures Fits(Purged(db, user), user, OfStatus(xs[i])) {
      assert xs[i] in xs;
    }
  }

  /** Nothing of the user's is left to clash with. */
  lemma PurgedNeverClashes(db: Database, user: Id, e: Entry)
    ensures !ClashesWith(Purged(db, user), user, e)
  {
    var after := Purged(db, user);
    assert forall k :: 0 <= k < |after.reviews| ==> after.reviews[k] in after.reviews;
    assert forall k :: 0 <= k < |after.sessions| ==> after.sessions[k] in after.sessions;
  }

  lemma ReviewsInsertable(db: Database, user: Id)
    requires Consistent(db)
    ensures AllInsertable(Purged(db, user), user, ReviewEntries(ExportOf(db, user).reviews))
  {
    var xs := ExportOf(db, user).reviews;
    forall i | 0 <= i < |xs|
      ensures Fits(Purged(db, user), user, OfReview(xs[i])) && !ClashesWith(Purged(db, user), user, OfReview(xs[i]))
    {
      ReviewFitsAgain(db, user, xs[i]);
      PurgedNeverClashes(db, user, OfReview(xs[i]));
    }
  }

  lemma ReviewFitsAgain(db: Database, user: Id, x: Review)
    requires Consistent(db) && x in ExportOf(db, user).reviews
    ensures Fits(Purged(db, user), user, OfReview(x))
  {
    ExportIsOwn(db, user);
  }

  lemma SessionsInsertable(db: Database, user: Id)
    requires Consistent(db)
    ensures AllInsertable(Purged(db, user), user, SessionEntries(ExportOf(db, user).sessions))
  {
    var xs := ExportOf(db, user).sessions;
    forall i | 0 <= i < |xs|
      ensures Fits(Purged(db, user), user, OfSession(xs[i])) && !ClashesWith(Purged(db, user), user, OfSession(xs[i]))
    {
      SessionFitsAgain(db, user, xs[i]);
      PurgedNeverClashes(db, user, OfSession(xs[i]));
    }
  }

  lemma SessionFitsAgain(db: Database, user: Id, x: ReadingSession)
    requires Consistent(db) && x in ExportOf(db, user).sessions
    ensures Fits(Purged(db, user), user, OfSession(x))
  {
    ExportIsOwn(db, user);
  }

  lemma ReviewRowsNoneClash(user: Id, rows: Table<Review>)
    requires DistinctIds(rows) && ReviewsUnique(rows) && forall r :: r in rows ==> r.data.userId == Some(user)
    ensures NoneClash(user, ReviewEntries(Columns(rows)))
  {
    forall i, j | 0 <= i < j < |rows|
      ensures !ReviewsClash(OwnReview(user, rows[i].data), OwnReview(user, rows[j].data))
    {
      assert rows[i] in rows && rows[j] in rows && rows[i] != rows[j];
    }
  }

  lemma SessionRowsNoneClash(user: Id, rows: Table<ReadingSession>)
    requires DistinctIds(rows) && SessionsUnique(rows) && forall r :: r in rows ==> r.data.userId == user
    ensures NoneClash(user, SessionEntries(Columns(rows)))
  {
    forall i, j | 0 <= i < j < |rows|
      ensures !SessionsClash(OwnSession(user, rows[i].data), OwnSession(user, rows[j].data))
    {
      assert rows[i] in rows && rows[j] in rows && rows[i] != rows[j];
    }
  }

  lemma ReviewsNoneClash(db: Database, user: Id)
    requires Consistent(db)
    ensures NoneClash(user, ReviewEntries(ExportOf(db, user).reviews))
  {
    WhereKeys(db.reviews, (r: Review) => r.userId == Some(user));
    ReviewRowsNoneClash(user, ReviewsOf(db, user));
  }

  lemma SessionsNoneClash(db: Database, user: Id)
    requires Consistent(db)
    ensures NoneClash(user, SessionEntries(ExportOf(db, user).sessions))
  {
    WhereKeys(db.sessions, (t: ReadingSession) => t.userId == user);
    SessionRowsNoneClash(user, SessionsOf(db, user));
  }

  lemma ExportNoneClash(db: Database, user: Id)
    requires Consistent(db)
    ensures NoneClash(user, Entries(ExportOf(db, user)))
  {
    var e := ExportOf(db, user);
    var c, s := CollectionEntries(e.collections), StatusEntries(e.statuses);
    var r, t := ReviewEntries(e.reviews), SessionEntries(e.sessions);
    ReviewsNoneClash(db, user);
    SessionsNoneClash(db, user);
    NoneClashConcat(user, c, s, 1);
    NoneClashConcat(user, c + s, r, 2);
    NoneClashConcat(user, c + s + r, t, 3);
  }

  lemma ExportInsertable(db: Database, user: Id)
    requires Consistent(db) && user in db.users
    ensures InsertAll(Purged(db, user), user, Entries(ExportOf(db, user))).Some?
  {
    var e := ExportOf(db, user);
    var after := Purged(db, user);
    var c, s := CollectionEntries(e.collections), StatusEntries(e.statuses);
    var r, t := ReviewEntries(e.reviews), SessionEntries(e.sessions);
    StatusesInsertable(db, user);
    ReviewsInsertable(db, user);
    SessionsInsertable(db, user);
    CollectionsInsertable(db, user);
    InsertableConcat(after, user, c, s);
    InsertableConcat(after, user, c + s, r);
    InsertableConcat(after, user, c + s + r, t);
    ExportNoneClash(db, user);
    InsertAllIff(after, user, Entries(e));
  }

  // ---------- The round trip ----------

  /** A table whose own rows were deleted, with new own rows appended. */
  lemma OwnRowsReplaced<D(!new)>(t: Table<D>, u: Table<D>, mine: D -> bool)
    requires DeleteWhere(t, mine) <= u
    requires forall d :: d in Columns(u)[|DeleteWhere(t, mine)|..] ==> mine(d)
    ensures Where(u, mine) == u[|DeleteWhere(t, mine)|..]
    ensures DeleteWhere(u, mine) == DeleteWhere(t, mine)
  {
    var kept := DeleteWhere(t, mine);
    var added := u[|kept|..];
    assert u == kept + added;
    forall r | r in added ensures mine(r.data) {
      var i :| 0 <= i < |added| && added[i] == r;
      assert Columns(u)[|kept|..][i] == r.data;
    }
    WhereConcat(kept, added, mine);
    WhereNone(kept, mine);
    WhereAll(added, mine);
    WhereConcat(kept, added, d => !mine(d));
    WhereNone(added, d => !mine(d));
    WhereAll(kept, d => !mine(d));
    assert kept + [] == kept && [] + added == added;
  }

  /** The user's rows of a table after the restore, as columns. */
  lemma OwnColumnsRestored<D(!new)>(t: Table<D>, u: Table<D>, mine: D -> bool, xs: seq<D>)
    requires DeleteWhere(t, mine) <= u
    requires Columns(u) == Columns(DeleteWhere(t, mine)) + xs
    requires forall x :: x in xs ==> mine(x)
    ensures Columns(Where(u, mine)) == xs && DeleteWhere(u, mine) == DeleteWhere(t, mine)
  {
    var n := |DeleteWhere(t, mine)|;
    assert Columns(u)[n..] == xs;
    OwnRowsReplaced(t, u, mine);
    assert Columns(u[n..]) == Columns(u)[n..];
  }

  ghost predicate Restored(before: Database, after: Database, user: Id) {
    && Columns(StatusesOf(after, user)) == Columns(StatusesOf(before, user))
    && Columns(ReviewsOf(after, user)) == Columns(ReviewsOf(before, user))
    && Columns(SessionsOf(after, user)) == Columns(SessionsOf(before, user))
    && Columns(CollectionsOf(after, user)) == ExportOf(before, user).collections
  }

  /** Every other user's rows are the same rows; of the items only those in the user's collections are
      gone; and no other table changed. */
  ghost predicate OthersUntouched(before: Database, after: Database, user: Id) {
    && DeleteWhere(after.collections, c => Mine(user, c)) == DeleteWhere(before.collections, c => Mine(user, c))
    && DeleteWhere(after.statuses, (s: BookStatus) => s.userId == user)
         == DeleteWhere(before.statuses, (s: BookStatus) => s.userId == user)
    && DeleteWhere(after.reviews, (r: Review) => r.userId == Some(user))
         == DeleteWhere(before.reviews, (r: Review) => r.userId == Some(user))
    && DeleteWhere(after.sessions, (t: ReadingSession) => t.userId == user)
         == DeleteWhere(before.sessions, (t: ReadingSession) => t.userId == user)
    && (forall i :: i in after.items
         <==> i in before.items && i.data.collectionId !in Keys(CollectionsOf(before, user)))
    && after == before.(collections := after.collections, items := after.items, statuses := after.statuses,
                        reviews := after.reviews, sessions := after.sessions, nextId := after.nextId)
  }

  /** The rows of entries are the user's. */
  lemma {:induction false} RowsAreOwn(user: Id, es: seq<Entry>)
    ensures forall c :: c in CollectionsIn(user, es) ==> c.userId == user
    ensures forall s :: s in StatusesIn(user, es) ==> s.userId == user
    ensures forall q :: q in ReviewsIn(user, es) ==> q.userId == Some(user)
    ensures forall t :: t in SessionsIn(user, es) ==> t.userId == user
  {
    if es != [] {
      RowsAreOwn(user, es[..|es| - 1]);
    }
  }

  lemma ReplaceRestores(db: Database, user: Id, es: seq<Entry>)
    requires InsertAll(Purged(db, user), user, es).Some?
    ensures var after := InsertAll(Purged(db, user), user, es).value;
      && Columns(CollectionsOf(after, user)) == CollectionsIn(user, es)
      && Columns(StatusesOf(after, user)) == StatusesIn(user, es)
      && Columns(ReviewsOf(after, user)) == ReviewsIn(user, es)
      && Columns(SessionsOf(after, user)) == SessionsIn(user, es)
      && OthersUntouched(db, after, user)
  {
    var after := InsertAll(Purged(db, user), user, es).value;
    InsertAllAppends(Purged(db, user), user, es);
    InsertAllColumns(Purged(db, user), user, es);
    RowsAreOwn(user, es);
    OwnColumnsRestored(db.collections, after.collections, c => Mine(user, c), CollectionsIn(user, es));
    OwnColumnsRestored(db.statuses, after.statuses, (s: BookStatus) => s.userId == user, StatusesIn(user, es));
    OwnColumnsRestored(db.reviews, after.reviews, (r: Review) => r.userId == Some(user), ReviewsIn(user, es));
    OwnColumnsRestored(db.sessions, after.sessions, (t: ReadingSession) => t.userId == user, SessionsIn(user, es));
  }

  /** Export then replace-restore succeeds exactly when no chat message attaches a collection
      of the user. It then gives back the user's statuses, reviews and sessions column for
      column and in order, and the first 10000 collections; every other user's rows stay. */
  lemma ExportThenReplace(db: Database, user: Id)
    requires Consistent(db) && user in db.users
    ensures var r := Replace(db, user, Entries(ExportOf(db, user)));
      && (r.Some? <==> !CollectionAttached(db, user))
      && (r.Some? ==> Restored(db, r.value, user) && OthersUntouched(db, r.value, user))
  {
    ExportInsertable(db, user);
    ExportIsOwn(db, user);
    InExport(db, user);
    ReplaceRestores(db, user, Entries(ExportOf(db, user)));
  }

  lemma PurgedReviewsOk(users: set<Id>, books: set<Id>, releases: set<Id>, t: Table<Review>, p: Review -> bool)
    requires ReviewsOk(users, books, releases, t)
    ensures ReviewsOk(users, books, releases, DeleteWhere(t, p))
  {
  }

  lemma PurgedRowsOk(db: Database, user: Id)
    requires Consistent(db)
    ensures var after := Purged(db, user);
      && StatusesOk(db.users, Keys(db.books), Keys(db.releases), after.statuses)
      && SessionsOk(db.users, Keys(db.releases), after.sessions) && CollectionsOk(db.users, after.collections)
      && ReviewsOk(db.users, Keys(db.books), Keys(db.releases), after.reviews)
  {
    PurgedReviewsOk(db.users, Keys(db.books), Keys(db.releases), db.reviews, (r: Review) => r.userId == Some(user));
  }

  lemma PurgedReferencesOk(db: Database, user: Id)
    requires Consistent(db) && !CollectionAttached(db, user)
    ensures var after := Purged(db, user);
      && ItemsOk(Keys(db.books), Keys(db.releases), Keys(after.collections), after.items)
      && MessagesOk(db.users, Keys(db.books), Keys(after.collections), Keys(db.threads), db.messages)
  {
    KeysLeft(db.collections, c => Mine(user, c));
  }

  lemma PurgedKeeps(db: Database, user: Id)
    requires Consistent(db) && !CollectionAttached(db, user)
    ensures Consistent(Purged(db, user))
  {
    var gone := Keys(CollectionsOf(db, user));
    DeleteKeysBelow(db.collections, c => Mine(user, c), db.nextId);
    DeleteKeysBelow(db.items, (i: CollectionItem) => i.collectionId in gone, db.nextId);
    DeleteKeysBelow(db.statuses, (s: BookStatus) => s.userId == user, db.nextId);
    DeleteKeysBelow(db.reviews, (r: Review) => r.userId == Some(user), db.nextId);
    DeleteKeysBelow(db.sessions, (t: ReadingSession) => t.userId == user, db.nextId);
    PurgedRowsOk(db, user);
    PurgedReferencesOk(db, user);
  }

  /** The purge of a replace-restore is refused exactly when it would leave a foreign key dangling. */
  lemma PurgedIff(db: Database, user: Id)
    requires Consistent(db)
    ensures Consistent(Purged(db, user)) <==> !CollectionAttached(db, user)
  {
    if CollectionAttached(db, user) {
      var i :| 0 <= i < |db.messages| && db.messages[i].data.attachedCollection.Some?
        && db.messages[i].data.attachedCollection.value in Keys(CollectionsOf(db, user));
      DeletedKeyGone(db.collections, c => Mine(user, c), db.messages[i].data.attachedCollection.value);
      assert db.messages[i] in Purged(db, user).messages;
    } else {
      PurgedKeeps(db, user);
    }
  }

  /** A replace-restore keeps every constraint. */
  lemma ReplaceKeepsConstraints(db: Database, user: Id, es: seq<Entry>)
    requires Consistent(db) && Replace(db, user, es).Some?
    ensures Consistent(Replace(db, user, es).value)
  {
    PurgedKeeps(db, user);
    InsertAllKeepsConstraints(Purged(db, user), user, es);
  }

  /** A user who sent a friend one of their collections cannot restore any export. */
  lemma SentCollectionIsRefused(user: Id, friend: Id, es: seq<Entry>)
    requires user < friend
    ensures Consistent(SentCollection(user, friend)) && Replace(SentCollection(user, friend), user, es).None?
  {
    SentCollectionIsAttached(user, friend);
  }

  /** All collections come back exactly when there were at most 10000. */
  lemma CollectionsComeBackIff(db: Database, user: Id)
    requires Consistent(db) && user in db.users && !CollectionAttached(db, user)
    ensures var r := Replace(db, user, Entries(ExportOf(db, user)));
      r.Some? && (Columns(CollectionsOf(r.value, user)) == Columns(CollectionsOf(db, user))
                  <==> |CollectionsOf(db, user)| <= 10000)
  {
    ExportThenReplace(db, user);
  }

  /** A user with n collections. */
  function ManyCollections(user: Id, n: nat): Database {
    Empty({user}, n).(
      collections := seq(n, i requires 0 <= i < n => Row(i, Collection(user, "", None, false, None, 0))))
  }

  lemma ManyCollectionsOk(user: Id, n: nat)
    ensures Consistent(ManyCollections(user, n)) && |CollectionsOf(ManyCollections(user, n), user)| == n
  {
    var t := ManyCollections(user, n).collections;
    assert KeysBelow(t, n) && CollectionsOk({user}, t);
    WhereAll(t, c => Mine(user, c));
  }

  /** With more than 10000, an export and replace-restore loses some. */
  lemma CollectionsAreLost(user: Id, n: nat)
    requires n > 10000
    ensures var db := ManyCollections(user, n);
      var r := Replace(db, user, Entries(ExportOf(db, user)));
      Consistent(db) && r.Some? && Columns(CollectionsOf(r.value, user)) != Columns(CollectionsOf(db, user))
  {
    ManyCollectionsOk(user, n);
    CollectionsComeBackIff(ManyCollections(user, n), user);
  }

  // ---------- What an export does not hold ----------

  lemma {:induction false} NewCollectionsAreFresh(db: Database, user: Id, es: seq<Entry>)
    requires InsertAll(db, user, es).Some?
    ensures InsertAll(db, user, es).value.nextId >= db.nextId
    ensures forall r :: r in InsertAll(db, user, es).value.collections ==> r in db.collections || r.id >= db.nextId
  {
    if es != [] {
      NewCollectionsAreFresh(db, user, es[..|es| - 1]);
    }
  }

  lemma ItemsAreOfOldCollections(db: Database, i: Row<CollectionItem>)
    requires Consistent(db) && i in db.items
    ensures i.data.collectionId < db.nextId
  {
    assert ItemRowOk(Keys(db.books), Keys(db.releases), Keys(db.collections), i.data);
    var c :| c in db.collections && c.id == i.data.collectionId;
    var k :| 0 <= k < |db.collections| && db.collections[k] == c;
  }

  lemma OwnCollectionsAreNew(db: Database, user: Id, es: seq<Entry>)
    requires InsertAll(Purged(db, user), user, es).Some?
    ensures forall id :: id in Keys(CollectionsOf(InsertAll(Purged(db, user), user, es).value, user)) ==>
      id >= db.nextId
  {
    NewCollectionsAreFresh(Purged(db, user), user, es);
  }

  /** The restored collections are empty: an export does not hold items. */
  lemma RestoredCollectionsAreEmpty(db: Database, user: Id, es: seq<Entry>)
    requires Consistent(db) && InsertAll(Purged(db, user), user, es).Some?
    ensures var after := InsertAll(Purged(db, user), user, es).value;
      forall i :: i in after.items ==> i.data.collectionId !in Keys(CollectionsOf(after, user))
  {
    var after := InsertAll(Purged(db, user), user, es).value;
    InsertAllAppends(Purged(db, user), user, es);
    OwnCollectionsAreNew(db, user, es);
    forall i | i in after.items ensures i.data.collectionId < db.nextId {
      assert after.items == Purged(db, user).items;
      ItemsAreOfOldCollections(db, i);
    }
  }

  /** So the items table survives an export and replace-restore exactly when the user's
      collections had no items. */
  lemma ItemsSurviveIff(db: Database, user: Id)
    requires Consistent(db) && user in db.users && !CollectionAttached(db, user)
    ensures var r := Replace(db, user, Entries(ExportOf(db, user)));
      r.Some? && (r.value.items == db.items
                  <==> forall i :: i in db.items ==> i.data.collectionId !in Keys(CollectionsOf(db, user)))
  {
    var es := Entries(ExportOf(db, user));
    ExportInsertable(db, user);
    InsertAllAppends(Purged(db, user), user, es);
    ItemsKeptIff(db, user);
  }

  lemma ItemsKeptIff(db: Database, user: Id)
    ensures Purged(db, user).items == db.items
      <==> forall i :: i in db.items ==> i.data.collectionId !in Keys(CollectionsOf(db, user))
  {
    var gone := Keys(CollectionsOf(db, user));
    if forall i :: i in db.items ==> i.data.collectionId !in gone {
      DeleteNone(db.items, (i: CollectionItem) => i.collectionId in gone);
    }
  }

  /** A library with a collection that holds a book. */
  function OneItem(user: Id): Database {
    Empty({user}, 3).(
      books := [Row(0, Book("A book", "", None))],
      collections := [Row(1, Collection(user, "Favourites", None, false, None, 0))],
      items := [Row(2, CollectionItem(1, Some(0), None, 0, None))])
  }

  lemma ShelfOk(
    users: set<Id>, books: Table<Book>, collections: Table<Collection>, items: Table<CollectionItem>, next: Id)
    requires KeysBelow(books, next) && KeysBelow(collections, next) && KeysBelow(items, next)
    requires BooksOk(books) && CollectionsOk(users, collections) && ItemsOk(Keys(books), {}, Keys(collections), items)
    ensures Consistent(Empty(users, next).(books := books, collections := collections, items := items))
  {
  }

  lemma OneItemOk(user: Id)
    ensures Consistent(OneItem(user)) && !CollectionAttached(OneItem(user), user)
    ensures forall i :: i in OneItem(user).items ==> i.data.collectionId in Keys(CollectionsOf(OneItem(user), user))
  {
    var db := OneItem(user);
    assert db.books[0] in db.books && db.collections[0] in db.collections;
    ShelfOk({user}, db.books, db.collections, db.items, 3);
    assert db.collections[0] in CollectionsOf(db, user);
  }

  /** There the item is lost. */
  lemma ItemIsLost(user: Id)
    ensures var db := OneItem(user);
      var r := Replace(db, user, Entries(ExportOf(db, user)));
      Consistent(db) && !CollectionAttached(db, user) && r.Some? && r.value.items == [] != db.items
  {
    var db := OneItem(user);
    OneItemOk(user);
    ExportThenReplace(db, user);
    EmptyMeans(Replace(db, user, Entries(ExportOf(db, user))).value.items);
  }
}
