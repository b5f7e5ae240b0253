/** Merging a duplicate book into another: the five statements, the deletion of the source,
    and the single commit. */
module BookMerge {
  import opened Sql
  import opened Schema

  // ---------- The statements ----------

  /** UPDATE releases SET book_id = t WHERE book_id = s. */
  function MoveReleases(db: Database, s: Id, t: Id): Database {
    db.(releases := UpdateWhere(db.releases, (r: Release) => r.bookId == s, (r: Release) => r.(bookId := t)))
  }

  predicate OfBook(r: Review, b: Id) {
    Holds(Equal(r.bookId, Some(b)))
  }

  /** SELECT user_id FROM review WHERE book_id = b. */
  function AuthorColumn(reviews: Table<Review>, b: Id): seq<Option<Id>> {
    var rows := Where(reviews, r => OfBook(r, b));
    seq(|rows|, i requires 0 <= i < |rows| => rows[i].data.userId)
  }

  /** The WHERE clause of the DELETE: for a NULL author the second conjunct is never true. */
  predicate IsDuplicate(r: Review, s: Id, authors: seq<Option<Id>>) {
    Holds(And(Equal(r.bookId, Some(s)), In(r.userId, authors)))
  }

  function DropDuplicates(db: Database, s: Id, t: Id): Database {
    var authors := AuthorColumn(db.reviews, t);
    db.(reviews := DeleteWhere(db.reviews, r => IsDuplicate(r, s, authors)))
  }

  function MoveReview(r: Review, t: Id): Review {
    r.(bookId := Some(t))
  }

  function MoveReviews(db: Database, s: Id, t: Id): Database {
    db.(reviews := UpdateWhere(db.reviews, r => OfBook(r, s), r => MoveReview(r, t)))
  }

  function MoveStatuses(db: Database, s: Id, t: Id): Database {
    db.(statuses := UpdateWhere(db.statuses,
      (r: BookStatus) => Holds(Equal(r.bookId, Some(s))), (r: BookStatus) => r.(bookId := Some(t))))
  }

  function MoveItems(db: Database, s: Id, t: Id): Database {
    db.(items := UpdateWhere(db.items,
      (r: CollectionItem) => Holds(Equal(r.bookId, Some(s))), (r: CollectionItem) => r.(bookId := Some(t))))
  }

  /** Deleting a book through the ORM first removes its contributor links. (The cascade to
      its releases finds none here: they have moved.) */
  function DropBook(db: Database, s: Id): Database {
    db.(bookLinks := (set l | l in db.bookLinks && l.owner != s), books := WithoutKey(db.books, s))
  }

  /** The tables after the statements, before the deletion of the source. */
  function Reassigned(db: Database, s: Id, t: Id): Database {
    MoveItems(MoveStatuses(MoveReviews(DropDuplicates(MoveReleases(db, s, t), s, t), s, t), s, t), s, t)
  }

  function MergedTables(db: Database, s: Id, t: Id): Database {
    DropBook(Reassigned(db, s, t), s)
  }

  /** Some row still refers to the book, so the foreign keys refuse its deletion. */
  predicate BookReferenced(db: Database, b: Id) {
    || (exists i :: 0 <= i < |db.releases| && db.releases[i].data.bookId == b)
    || (exists i :: 0 <= i < |db.reviews| && db.reviews[i].data.bookId == Some(b))
    || (exists i :: 0 <= i < |db.statuses| && db.statuses[i].data.bookId == Some(b))
    || (exists i :: 0 <= i < |db.items| && db.items[i].data.bookId == Some(b))
    || AttachedInChat(db, b)
  }

  predicate AttachedInChat(db: Database, b: Id) {
    exists i :: 0 <= i < |db.messages| && db.messages[i].data.attachedBook == Some(b)
  }

  // ---------- The service ----------

  datatype Outcome = Merged | NotFound | SelfMerge | IntegrityError

  /** A session: what the open transaction sees, and what the last commit left. */
  class BookSession {
    var db: Database
    var committed: Database

    constructor (initial: Database)
      ensures db == committed == initial
    {
      db, committed := initial, initial;
    }

    /** BookRepository.merge: on any error get_session rolls the transaction back. */
    method Merge(s: Id, t: Id) returns (r: Outcome)
      requires db == committed && s != t
      modifies this
      ensures db == committed
      ensures r == NotFound <==> s !in Keys(old(db).books) || t !in Keys(old(db).books)
      ensures r == Merged <==>
        s in Keys(old(db).books) && t in Keys(old(db).books) && !BookReferenced(Reassigned(old(db), s, t), s)
      ensures r == Merged ==> db == MergedTables(old(db), s, t)
      ensures r != Merged ==> db == old(db)
      ensures r != SelfMerge
    {
      if s !in Keys(db.books) || t !in Keys(db.books) {
        return NotFound;
      }
      db := MoveReleases(db, s, t);
      db := DropDuplicates(db, s, t);
      db := MoveReviews(db, s, t);
      db := MoveStatuses(db, s, t);
      db := MoveItems(db, s, t);
      if BookReferenced(db, s) {
        db := committed;  // rollback
        return IntegrityError;
      }
      db := DropBook(db, s);
      committed := db;
      return Merged;
    }

    /** BookService.merge_books. */
    method MergeBooks(s: Id, t: Id) returns (r: Outcome)
      requires db == committed
      modifies this
      ensures db == committed
      ensures r == SelfMerge <==> s == t
      ensures r == Merged ==> db == MergedTables(old(db), s, t)
      ensures r != Merged ==> db == old(db)
      ensures r == Merged <==>
        s != t && s in Keys(old(db).books) && t in Keys(old(db).books) && !AttachedInChat(old(db), s)
      ensures Consistent(old(db)) && s != t && s in Keys(old(db).books) && t in Keys(old(db).books) ==>
        (r == Merged <==> Consistent(MergedTables(old(db), s, t)))
    {
      if s == t {
        return SelfMerge;
      }
      OnlyChatRefuses(db, s, t);
      if Consistent(db) && t in Keys(db.books) {
        MergeRefusedIff(db, s, t);
      }
      r := Merge(s, t);
    }
  }

  // ---------- What the statements leave ----------

  lemma DuplicateMeans(reviews: Table<Review>, r: Review, s: Id, t: Id)
    ensures IsDuplicate(r, s, AuthorColumn(reviews, t)) <==>
      && r.bookId == Some(s) && r.userId.Some?
      && exists q :: q in reviews && q.data.bookId == Some(t) && q.data.userId == r.userId
  {
    var authors := AuthorColumn(reviews, t);
    var rows := Where(reviews, r => OfBook(r, t));
    InHolds(r.userId, authors);
    if r.userId in authors {
      var i :| 0 <= i < |authors| && authors[i] == r.userId;
      assert rows[i] in rows;
    }
    if q :| q in reviews && q.data.bookId == Some(t) && q.data.userId == r.userId {
      assert q in rows;
      var i :| 0 <= i < |rows| && rows[i] == q;
      assert authors[i] == r.userId;
    }
  }

  /** After the five statements only a chat message can still refer to the source. */
  lemma OnlyChatRefuses(db: Database, s: Id, t: Id)
    requires s != t
    ensures BookReferenced(Reassigned(db, s, t), s) <==> AttachedInChat(db, s)
  {
    var m := Reassigned(db, s, t);
    assert m.messages == db.messages;
    assert forall r :: r in m.releases ==> r.data.bookId != s;
    assert forall r :: r in m.reviews ==> r.data.bookId != Some(s);
    assert forall r :: r in m.statuses ==> r.data.bookId != Some(s);
    assert forall r :: r in m.items ==> r.data.bookId != Some(s);
  }

  // ---------- Every constraint holds while each statement runs ----------

  /** Any number of the rows an UPDATE matches have been rewritten so far, in any order:
      PostgreSQL checks unique keys row by row. */
  ghost predicate Partly<D(!new)>(t: Table<D>, u: Table<D>, p: D -> bool, f: D -> D) {
    |u| == |t| && forall i :: 0 <= i < |t| ==> u[i] == t[i] || u[i] == UpdateRow(t[i], p, f)
  }

  lemma PartlySameKeys<D(!new)>(t: Table<D>, u: Table<D>, p: D -> bool, f: D -> D, next: Id)
    requires Partly(t, u, p, f) && KeysBelow(t, next)
    ensures KeysBelow(u, next) && Keys(u) == Keys(t)
  {
    SameKeys(t, u);
  }

  lemma ReleasesStayConsistent(db: Database, s: Id, t: Id, u: Table<Release>)
    requires Consistent(db) && t in Keys(db.books)
    requires Partly(db.releases, u, (r: Release) => r.bookId == s, (r: Release) => r.(bookId := t))
    ensures Consistent(db.(releases := u))
  {
    PartlySameKeys(db.releases, u, (r: Release) => r.bookId == s, (r: Release) => r.(bookId := t), db.nextId);
    forall r | r in u ensures r.data.bookId in Keys(db.books) {
      var i :| 0 <= i < |u| && u[i] == r;
      assert db.releases[i] in db.releases;
    }
  }

  /** No author has a review of each book. */
  ghost predicate NoDuplicates(reviews: Table<Review>, s: Id, t: Id) {
    forall q, r :: q in reviews && r in reviews && OfBook(q.data, s) && OfBook(r.data, t) && q.data.userId.Some?
      ==> q.data.userId != r.data.userId
  }

  lemma DropLeavesNoDuplicates(db: Database, s: Id, t: Id)
    ensures NoDuplicates(DropDuplicates(db, s, t).reviews, s, t)
  {
    var after := DropDuplicates(db, s, t).reviews;
    forall q, r | q in after && r in after && OfBook(q.data, s) && OfBook(r.data, t) && q.data.userId.Some?
      ensures q.data.userId != r.data.userId
    {
      DuplicateMeans(db.reviews, q.data, s, t);
    }
  }

  lemma DropStaysConsistent(db: Database, s: Id, t: Id)
    requires Consistent(db)
    ensures Consistent(DropDuplicates(db, s, t))
  {
    var authors := AuthorColumn(db.reviews, t);
    DeleteKeysBelow(db.reviews, r => IsDuplicate(r, s, authors), db.nextId);
    assert forall r :: r in DropDuplicates(db, s, t).reviews ==> r in db.reviews;
  }

  /** Two rows that clash, moved or not, were the same row before. */
  lemma ClashBeforeMove(t: Table<Review>, q: Row<Review>, r: Row<Review>, q': Review, r': Review, s: Id, b: Id)
    requires ReviewsUnique(t) && NoDuplicates(t, s, b) && q in t && r in t
    requires q' == q.data || (OfBook(q.data, s) && q' == MoveReview(q.data, b))
    requires r' == r.data || (OfBook(r.data, s) && r' == MoveReview(r.data, b))
    requires ReviewsClash(q', r')
    ensures q == r
  {
    if q' == q.data && r' != r.data {
      assert OfBook(q.data, b) ==> q.data.userId != r.data.userId;
    } else if q' != q.data && r' == r.data {
      assert OfBook(r.data, b) ==> q.data.userId != r.data.userId;
    }
  }

  lemma ClashesAreSameRow(t: Table<Review>, u: Table<Review>, s: Id, b: Id, i: nat, j: nat)
    requires DistinctIds(t) && ReviewsUnique(t) && NoDuplicates(t, s, b)
    requires Partly(t, u, r => OfBook(r, s), r => MoveReview(r, b))
    requires i < |u| && j < |u| && ReviewsClash(u[i].data, u[j].data)
    ensures i == j
  {
    assert u[i] == t[i] || u[i] == UpdateRow(t[i], r => OfBook(r, s), r => MoveReview(r, b));
    assert u[j] == t[j] || u[j] == UpdateRow(t[j], r => OfBook(r, s), r => MoveReview(r, b));
    ClashBeforeMove(t, t[i], t[j], u[i].data, u[j].data, s, b);
  }

  lemma ReviewsStayUnique(t: Table<Review>, u: Table<Review>, s: Id, b: Id)
    requires DistinctIds(t) && ReviewsUnique(t) && NoDuplicates(t, s, b)
    requires Partly(t, u, r => OfBook(r, s), r => MoveReview(r, b))
    ensures ReviewsUnique(u)
  {
    forall q, r | q in u && r in u && ReviewsClash(q.data, r.data) ensures q == r {
      var i :| 0 <= i < |u| && u[i] == q;
      var j :| 0 <= j < |u| && u[j] == r;
      ClashesAreSameRow(t, u, s, b, i, j);
    }
  }

  lemma ReviewsStayConsistent(db: Database, s: Id, t: Id, u: Table<Review>)
    requires Consistent(db) && t in Keys(db.books) && NoDuplicates(db.reviews, s, t)
    requires Partly(db.reviews, u, r => OfBook(r, s), r => MoveReview(r, t))
    ensures Consistent(db.(reviews := u))
  {
    PartlySameKeys(db.reviews, u, r => OfBook(r, s), r => MoveReview(r, t), db.nextId);
    ReviewsStayUnique(db.reviews, u, s, t);
    forall r | r in u ensures ReviewRowOk(db.users, Keys(db.books), Keys(db.releases), r.data) {
      var i :| 0 <= i < |u| && u[i] == r;
      assert db.reviews[i] in db.reviews;
    }
  }

  lemma StatusesStayConsistent(db: Database, s: Id, t: Id, u: Table<BookStatus>)
    requires Consistent(db) && t in Keys(db.books)
    requires Partly(db.statuses, u,
      (r: BookStatus) => Holds(Equal(r.bookId, Some(s))), (r: BookStatus) => r.(bookId := Some(t)))
    ensures Consistent(db.(statuses := u))
  {
    PartlySameKeys(db.statuses, u,
      (r: BookStatus) => Holds(Equal(r.bookId, Some(s))), (r: BookStatus) => r.(bookId := Some(t)), db.nextId);
    forall r | r in u ensures StatusRowOk(db.users, Keys(db.books), Keys(db.releases), r.data) {
      var i :| 0 <= i < |u| && u[i] == r;
      assert db.statuses[i] in db.statuses;
    }
  }

  lemma ItemsStayConsistent(db: Database, s: Id, t: Id, u: Table<CollectionItem>)
    requires Consistent(db) && t in Keys(db.books)
    requires Partly(db.items, u,
      (r: CollectionItem) => Holds(Equal(r.bookId, Some(s))), (r: CollectionItem) => r.(bookId := Some(t)))
    ensures Consistent(db.(items := u))
  {
    PartlySameKeys(db.items, u,
      (r: CollectionItem) => Holds(Equal(r.bookId, Some(s))), (r: CollectionItem) => r.(bookId := Some(t)), db.nextId);
    forall r | r in u ensures ItemRowOk(Keys(db.books), Keys(db.releases), Keys(db.collections), r.data) {
      var i :| 0 <= i < |u| && u[i] == r;
      assert db.items[i] in db.items;
    }
  }

  lemma UnreferencedByReviews(db: Database, s: Id)
    requires Consistent(db) && !BookReferenced(db, s)
    ensures ReleasesOk(Keys(db.books) - {s}, db.releases)
    ensures ReviewsOk(db.users, Keys(db.books) - {s}, Keys(db.releases), db.reviews)
  {
  }

  lemma UnreferencedByShelves(db: Database, s: Id)
    requires Consistent(db) && !BookReferenced(db, s)
    ensures StatusesOk(db.users, Keys(db.books) - {s}, Keys(db.releases), db.statuses)
    ensures ItemsOk(Keys(db.books) - {s}, Keys(db.releases), Keys(db.collections), db.items)
    ensures MessagesOk(db.users, Keys(db.books) - {s}, Keys(db.collections), Keys(db.threads), db.messages)
  {
  }

  lemma DropBookStaysConsistent(db: Database, s: Id)
    requires Consistent(db) && !BookReferenced(db, s)
    ensures Consistent(DropBook(db, s))
  {
    WithoutKeyBelow(db.books, s, db.nextId);
    KeysWithout(db.books, s);
    UnreferencedByReviews(db, s);
    UnreferencedByShelves(db, s);
  }

  lemma AbsentIsUnreferenced(db: Database, s: Id)
    requires Consistent(db) && s !in Keys(db.books)
    ensures !BookReferenced(db, s)
  {
    AbsentFromReviews(Keys(db.books), Keys(db.releases), db, s);
    AbsentFromShelves(Keys(db.books), Keys(db.releases), db, s);
  }

  lemma AbsentFromReviews(books: set<Id>, releases: set<Id>, db: Database, s: Id)
    requires ReleasesOk(books, db.releases) && ReviewsOk(db.users, books, releases, db.reviews) && s !in books
    ensures forall i :: 0 <= i < |db.releases| ==> db.releases[i].data.bookId != s
    ensures forall i :: 0 <= i < |db.reviews| ==> db.reviews[i].data.bookId != Some(s)
  {
    assert forall i :: 0 <= i < |db.releases| ==> db.releases[i] in db.releases;
    assert forall i :: 0 <= i < |db.reviews| ==> db.reviews[i] in db.reviews;
  }

  lemma AbsentFromShelves(books: set<Id>, releases: set<Id>, db: Database, s: Id)
    requires StatusesOk(db.users, books, releases, db.statuses) && s !in books
    requires ItemsOk(books, releases, Keys(db.collections), db.items)
    requires MessagesOk(db.users, books, Keys(db.collections), Keys(db.threads), db.messages)
    ensures forall i :: 0 <= i < |db.statuses| ==> db.statuses[i].data.bookId != Some(s)
    ensures forall i :: 0 <= i < |db.items| ==> db.items[i].data.bookId != Some(s)
    ensures forall i :: 0 <= i < |db.messages| ==> db.messages[i].data.attachedBook != Some(s)
  {
    assert forall i :: 0 <= i < |db.statuses| ==> db.statuses[i] in db.statuses;
    assert forall i :: 0 <= i < |db.items| ==> db.items[i] in db.items;
    assert forall i :: 0 <= i < |db.messages| ==> db.messages[i] in db.messages;
  }

  lemma DropBookReferences(db: Database, s: Id)
    ensures BookReferenced(DropBook(db, s), s) == BookReferenced(db, s)
  {
  }

  /** A book's deletion is refused exactly when it would leave a foreign key dangling. */
  lemma DropBookIff(db: Database, s: Id)
    requires Consistent(db)
    ensures Consistent(DropBook(db, s)) <==> !BookReferenced(db, s)
  {
    if !BookReferenced(db, s) {
      DropBookStaysConsistent(db, s);
    }
    if Consistent(DropBook(db, s)) {
      KeysWithout(db.books, s);
      AbsentIsUnreferenced(DropBook(db, s), s);
      DropBookReferences(db, s);
    }
  }

  /** So a merge of two books is refused exactly when it would leave a foreign key dangling: when a chat message
      attaches the source. */
  lemma MergeRefusedIff(db: Database, s: Id, t: Id)
    requires Consistent(db) && s != t && t in Keys(db.books)
    ensures Consistent(MergedTables(db, s, t)) <==>
      forall m :: m in db.messages ==> m.data.attachedBook != Some(s)
  {
    MergeKeepsConstraints(db, s, t);
    OnlyChatRefuses(db, s, t);
    DropBookIff(Reassigned(db, s, t), s);
    AttachedMeans(db, s);
  }

  lemma AttachedMeans(db: Database, s: Id)
    ensures !AttachedInChat(db, s) <==> forall m :: m in db.messages ==> m.data.attachedBook != Some(s)
  {
  }

  /** Every constraint holds after each statement, and after the whole merge. */
  lemma MergeKeepsConstraints(db: Database, s: Id, t: Id)
    requires Consistent(db) && s != t && t in Keys(db.books)
    ensures Consistent(MoveReleases(db, s, t))
    ensures Consistent(DropDuplicates(MoveReleases(db, s, t), s, t))
    ensures Consistent(MoveReviews(DropDuplicates(MoveReleases(db, s, t), s, t), s, t))
    ensures Consistent(MoveStatuses(MoveReviews(DropDuplicates(MoveReleases(db, s, t), s, t), s, t), s, t))
    ensures Consistent(Reassigned(db, s, t))
    ensures !AttachedInChat(db, s) ==> Consistent(MergedTables(db, s, t))
  {
    var db1 := MoveReleases(db, s, t);
    ReleasesStayConsistent(db, s, t, db1.releases);
    var db2 := DropDuplicates(db1, s, t);
    DropStaysConsistent(db1, s, t);
    DropLeavesNoDuplicates(db1, s, t);
    var db3 := MoveReviews(db2, s, t);
    ReviewsStayConsistent(db2, s, t, db3.reviews);
    var db4 := MoveStatuses(db3, s, t);
    StatusesStayConsistent(db3, s, t, db4.statuses);
    var db5 := MoveItems(db4, s, t);
    ItemsStayConsistent(db4, s, t, db5.items);
    OnlyChatRefuses(db, s, t);
    if !AttachedInChat(db, s) {
      DropBookStaysConsistent(db5, s);
    }
  }
}
