/** What a merge conserves and drops, and why the order of two merges does not matter. */
module BookMergeLaws {
  import opened Sql
  import opened Schema
  import opened BookMerge

  // ---------- What is conserved ----------

  function MergedReviews(reviews: Table<Review>, s: Id, t: Id): Table<Review> {
    var authors := AuthorColumn(reviews, t);
    UpdateWhere(DeleteWhere(reviews, r => IsDuplicate(r, s, authors)), r => OfBook(r, s), r => MoveReview(r, t))
  }

  /** The authors, where known, of a book's reviews. */
  function ReviewersOf(reviews: Table<Review>, b: Id): set<Id> {
    set r | r in reviews && OfBook(r.data, b) && r.data.userId.Some? :: r.data.userId.value
  }

  /** The reviews of a book whose author's account was deleted. */
  function AnonymousOf(reviews: Table<Review>, b: Id): set<Id> {
    set r | r in reviews && OfBook(r.data, b) && r.data.userId.None? :: r.id
  }

  function ReviewsOf(reviews: Table<Review>, b: Id): Table<Review> {
    Where(reviews, r => OfBook(r, b))
  }

  /** The author of this review of the source has reviewed the target as well. */
  predicate Redundant(reviews: Table<Review>, r: Review, s: Id, t: Id) {
    OfBook(r, s) && r.userId.Some? && r.userId.value in ReviewersOf(reviews, t)
  }

  /** Where a surviving review ends up. */
  function Moved(r: Row<Review>, s: Id, t: Id): Row<Review> {
    if OfBook(r.data, s) then Row(r.id, MoveReview(r.data, t)) else r
  }

  lemma RedundantMeans(reviews: Table<Review>, r: Review, s: Id, t: Id)
    ensures IsDuplicate(r, s, AuthorColumn(reviews, t)) <==> Redundant(reviews, r, s, t)
  {
    DuplicateMeans(reviews, r, s, t);
  }

  /** A merge removes exactly the source's reviews whose known author also reviewed the
      target; every other review survives, and moves if it was the source's. */
  lemma MergedReviewsAre(reviews: Table<Review>, s: Id, t: Id)
    ensures forall r :: r in reviews && !Redundant(reviews, r.data, s, t) ==>
      Moved(r, s, t) in MergedReviews(reviews, s, t)
    ensures forall q :: q in MergedReviews(reviews, s, t) ==>
      exists r :: r in reviews && !Redundant(reviews, r.data, s, t) && q == Moved(r, s, t)
  {
    var authors := AuthorColumn(reviews, t);
    var kept := DeleteWhere(reviews, r => IsDuplicate(r, s, authors));
    UpdatedRows(kept, r => OfBook(r, s), r => MoveReview(r, t));
    forall r | r in reviews && !Redundant(reviews, r.data, s, t)
      ensures Moved(r, s, t) in MergedReviews(reviews, s, t)
    {
      RedundantMeans(reviews, r.data, s, t);
      assert UpdateRow(r, r => OfBook(r, s), r => MoveReview(r, t)) in MergedReviews(reviews, s, t);
    }
    forall q | q in MergedReviews(reviews, s, t)
      ensures exists r :: r in reviews && !Redundant(reviews, r.data, s, t) && q == Moved(r, s, t)
    {
      var r :| r in kept && q == UpdateRow(r, r => OfBook(r, s), r => MoveReview(r, t));
      RedundantMeans(reviews, r.data, s, t);
      assert r in reviews && q == Moved(r, s, t);
    }
  }

  function ReleasesOf(db: Database, b: Id): set<Id> {
    set r | r in db.releases && r.data.bookId == b :: r.id
  }

  function StatusesOf(db: Database, b: Id): set<Id> {
    set r | r in db.statuses && r.data.bookId == Some(b) :: r.id
  }

  function ItemsOf(db: Database, b: Id): set<Id> {
    set r | r in db.items && r.data.bookId == Some(b) :: r.id
  }

  /** What book b gets when s is merged into t: t gets both books' rows, s none, others keep theirs. */
  function Gathered(b: Id, s: Id, t: Id, ofB: set<Id>, ofS: set<Id>): set<Id> {
    if b == s then {} else if b == t then ofB + ofS else ofB
  }

  /** Releases, statuses and collection items are conserved: no row appears or disappears. */
  lemma MergeConserves(db: Database, s: Id, t: Id, b: Id)
    requires s != t
    ensures var m := MergedTables(db, s, t);
      && Keys(m.releases) == Keys(db.releases) && Keys(m.statuses) == Keys(db.statuses)
      && Keys(m.items) == Keys(db.items)
      && ReleasesOf(m, b) == Gathered(b, s, t, ReleasesOf(db, b), ReleasesOf(db, s))
      && StatusesOf(m, b) == Gathered(b, s, t, StatusesOf(db, b), StatusesOf(db, s))
      && ItemsOf(m, b) == Gathered(b, s, t, ItemsOf(db, b), ItemsOf(db, s))
  {
    var m := MergedTables(db, s, t);
    SameKeys(db.releases, m.releases);
    SameKeys(db.statuses, m.statuses);
    SameKeys(db.items, m.items);
    GatheredReleases(db, s, t, b);
    GatheredStatuses(db, s, t, b);
    GatheredItems(db, s, t, b);
  }

  function Renamed(b: Id, s: Id, t: Id): Id {
    if b == s then t else b
  }

  function RenamedOption(b: Option<Id>, s: Id, t: Id): Option<Id> {
    if b == Some(s) then Some(t) else b
  }

  /** Row by row, a merge replaces the book and nothing else; it removes the source and its links, and
      leaves every other table as it is. */
  lemma MergeRewritesOnlyBook(db: Database, s: Id, t: Id)
    requires s != t
    ensures var m := MergedTables(db, s, t);
      && |m.releases| == |db.releases| && |m.statuses| == |db.statuses| && |m.items| == |db.items|
      && (forall i :: 0 <= i < |db.releases| ==>
        m.releases[i]
          == Row(db.releases[i].id, db.releases[i].data.(bookId := Renamed(db.releases[i].data.bookId, s, t))))
      && (forall i :: 0 <= i < |db.statuses| ==>
        m.statuses[i]
          == Row(db.statuses[i].id, db.statuses[i].data.(bookId := RenamedOption(db.statuses[i].data.bookId, s, t))))
      && (forall i :: 0 <= i < |db.items| ==>
        m.items[i] == Row(db.items[i].id, db.items[i].data.(bookId := RenamedOption(db.items[i].data.bookId, s, t))))
      && (forall r :: r in m.books <==> r in db.books && r.id != s)
      && (forall l :: l in m.bookLinks <==> l in db.bookLinks && l.owner != s)
      && db == m.(releases := db.releases, reviews := db.reviews, statuses := db.statuses, items := db.items,
                  books := db.books, bookLinks := db.bookLinks)
  {
  }

  lemma GatheredReleases(db: Database, s: Id, t: Id, b: Id)
    requires s != t
    ensures ReleasesOf(MergedTables(db, s, t), b) == Gathered(b, s, t, ReleasesOf(db, b), ReleasesOf(db, s))
  {
    var m := MergedTables(db, s, t);
    forall i | 0 <= i < |db.releases|
      ensures m.releases[i].id == db.releases[i].id && m.releases[i] in m.releases && db.releases[i] in db.releases
    {
    }
  }

  lemma GatheredStatuses(db: Database, s: Id, t: Id, b: Id)
    requires s != t
    ensures StatusesOf(MergedTables(db, s, t), b) == Gathered(b, s, t, StatusesOf(db, b), StatusesOf(db, s))
  {
    var m := MergedTables(db, s, t);
    forall i | 0 <= i < |db.statuses|
      ensures m.statuses[i].id == db.statuses[i].id && m.statuses[i] in m.statuses && db.statuses[i] in db.statuses
    {
    }
  }

  lemma GatheredItems(db: Database, s: Id, t: Id, b: Id)
    requires s != t
    ensures ItemsOf(MergedTables(db, s, t), b) == Gathered(b, s, t, ItemsOf(db, b), ItemsOf(db, s))
  {
    var m := MergedTables(db, s, t);
    forall i | 0 <= i < |db.items|
      ensures m.items[i].id == db.items[i].id && m.items[i] in m.items && db.items[i] in db.items
    {
    }
  }

  lemma GatheredReviewers(reviews: Table<Review>, s: Id, t: Id, b: Id)
    requires s != t
    ensures ReviewersOf(MergedReviews(reviews, s, t), b)
      == Gathered(b, s, t, ReviewersOf(reviews, b), ReviewersOf(reviews, s))
  {
    MergedReviewsAre(reviews, s, t);
    var after := ReviewersOf(MergedReviews(reviews, s, t), b);
    forall u ensures u in after <==> u in Gathered(b, s, t, ReviewersOf(reviews, b), ReviewersOf(reviews, s)) {
      if u in Gathered(b, s, t, ReviewersOf(reviews, b), ReviewersOf(reviews, s)) {
        var from := if u in ReviewersOf(reviews, b) then b else s;
        var r :| r in reviews && OfBook(r.data, from) && r.data.userId == Some(u);
        assert Moved(r, s, t) in MergedReviews(reviews, s, t);
      }
    }
  }

  lemma GatheredAnonymous(reviews: Table<Review>, s: Id, t: Id, b: Id)
    requires s != t
    ensures AnonymousOf(MergedReviews(reviews, s, t), b)
      == Gathered(b, s, t, AnonymousOf(reviews, b), AnonymousOf(reviews, s))
  {
    MergedReviewsAre(reviews, s, t);
    var after := AnonymousOf(MergedReviews(reviews, s, t), b);
    forall id ensures id in after <==> id in Gathered(b, s, t, AnonymousOf(reviews, b), AnonymousOf(reviews, s)) {
      if id in Gathered(b, s, t, AnonymousOf(reviews, b), AnonymousOf(reviews, s)) {
        var from := if id in AnonymousOf(reviews, b) then b else s;
        var r :| r in reviews && OfBook(r.data, from) && r.data.userId.None? && r.id == id;
        assert Moved(r, s, t) in MergedReviews(reviews, s, t);
      }
    }
  }

  lemma SetsOfHead(reviews: Table<Review>, b: Id)
    requires reviews != []
    ensures var r := reviews[0];
      && ReviewersOf(reviews, b) == ReviewersOf(reviews[1..], b)
           + (if OfBook(r.data, b) && r.data.userId.Some? then {r.data.userId.value} else {})
      && AnonymousOf(reviews, b) == AnonymousOf(reviews[1..], b)
           + (if OfBook(r.data, b) && r.data.userId.None? then {r.id} else {})
  {
    assert forall q :: q in reviews <==> q == reviews[0] || q in reviews[1..];
  }

  lemma HeadNotRepeated(reviews: Table<Review>, b: Id)
    requires reviews != [] && DistinctIds(reviews) && ReviewsUnique(reviews)
    ensures DistinctIds(reviews[1..]) && ReviewsUnique(reviews[1..])
    ensures var r := reviews[0].data;
      OfBook(r, b) && r.userId.Some? ==> r.userId.value !in ReviewersOf(reviews[1..], b)
    ensures reviews[0].id !in AnonymousOf(reviews[1..], b)
  {
    var r, rest := reviews[0], reviews[1..];
    forall q | q in rest ensures q in reviews && q.id != r.id {
      var i :| 0 <= i < |rest| && rest[i] == q;
      assert reviews[i + 1] == q;
    }
    forall q | q in rest && OfBook(q.data, b) && OfBook(r.data, b) && r.data.userId.Some?
      ensures q.data.userId != r.data.userId
    {
      assert q != r && r in reviews;
    }
  }

  /** A book has one review for each known author, plus the anonymous ones. */
  lemma {:induction false} CountReviews(reviews: Table<Review>, b: Id)
    requires DistinctIds(reviews) && ReviewsUnique(reviews)
    ensures |ReviewsOf(reviews, b)| == |ReviewersOf(reviews, b)| + |AnonymousOf(reviews, b)|
  {
    if reviews == [] {
      assert ReviewersOf(reviews, b) == {} && AnonymousOf(reviews, b) == {};
    } else {
      SetsOfHead(reviews, b);
      HeadNotRepeated(reviews, b);
      CountReviews(reviews[1..], b);
    }
  }

  // ---------- Order independence ----------

  /** Merging a into b and then b into c, or a into c and then b into c: the same releases,
      statuses, collection items, books and links, the same known reviewers and the same
      anonymous reviews of c, and as many reviews. (Which of an author's reviews survives
      may differ.) */
  lemma MergeOrderDoesNotMatter(db: Database, a: Id, b: Id, c: Id)
    requires Consistent(db) && a != b && b != c && a != c
    requires a in Keys(db.books) && b in Keys(db.books) && c in Keys(db.books)
    requires !AttachedInChat(db, a) && !AttachedInChat(db, b)
    ensures var x := MergedTables(MergedTables(db, a, b), b, c);
      var y := MergedTables(MergedTables(db, a, c), b, c);
      && x.releases == y.releases && x.statuses == y.statuses && x.items == y.items
      && Keys(x.books) == Keys(y.books) && x.bookLinks == y.bookLinks
      && (forall d :: ReviewersOf(x.reviews, d) == ReviewersOf(y.reviews, d))
      && (forall d :: AnonymousOf(x.reviews, d) == AnonymousOf(y.reviews, d))
      && (forall d :: |ReviewsOf(x.reviews, d)| == |ReviewsOf(y.reviews, d)|)
  {
    SameTables(db, a, b, c);
    var x := MergedTables(MergedTables(db, a, b), b, c);
    var y := MergedTables(MergedTables(db, a, c), b, c);
    SecondMergeRuns(db, a, b, b, c);
    SecondMergeRuns(db, a, c, b, c);
    forall d
      ensures ReviewersOf(x.reviews, d) == ReviewersOf(y.reviews, d)
      ensures AnonymousOf(x.reviews, d) == AnonymousOf(y.reviews, d)
      ensures |ReviewsOf(x.reviews, d)| == |ReviewsOf(y.reviews, d)|
    {
      SameCounts(db.reviews, a, b, c, d);
    }
  }

  /** The rows by which an author reviews a book. */
  function OwnReviewIds(reviews: Table<Review>, u: Id, b: Id): set<Id> {
    set r | r in reviews && Wrote(r, u, b) :: r.id
  }

  predicate Wrote(r: Row<Review>, u: Id, b: Id) {
    OfBook(r.data, b) && r.data.userId == Some(u)
  }

  lemma ReviewerHasReview(reviews: Table<Review>, u: Id, t: Id)
    ensures u in ReviewersOf(reviews, t) <==> OwnReviewIds(reviews, u, t) != {}
  {
    if u in ReviewersOf(reviews, t) {
      var r :| r in reviews && Wrote(r, u, t);
      assert r.id in OwnReviewIds(reviews, u, t);
    }
    if id :| id in OwnReviewIds(reviews, u, t) {
      var r :| r in reviews && Wrote(r, u, t) && r.id == id;
    }
  }

  /** Where a merge leaves a review by u, and whether it does. */
  lemma RowMerged(reviews: Table<Review>, r: Row<Review>, u: Id, s: Id, t: Id, b: Id)
    requires s != t
    ensures !Redundant(reviews, r.data, s, t) && Wrote(Moved(r, s, t), u, b) <==>
      b != s && (Wrote(r, u, b) || (b == t && OwnReviewIds(reviews, u, t) == {} && Wrote(r, u, s)))
  {
    ReviewerHasReview(reviews, u, t);
  }

  lemma MergedFrom(reviews: Table<Review>, u: Id, s: Id, t: Id, b: Id, id: Id) returns (r: Row<Review>)
    requires id in OwnReviewIds(MergedReviews(reviews, s, t), u, b)
    ensures r in reviews && !Redundant(reviews, r.data, s, t) && Wrote(Moved(r, s, t), u, b) && r.id == id
  {
    MergedReviewsAre(reviews, s, t);
    var q :| q in MergedReviews(reviews, s, t) && Wrote(q, u, b) && q.id == id;
    r :| r in reviews && !Redundant(reviews, r.data, s, t) && q == Moved(r, s, t);
  }

  lemma MergedTo(reviews: Table<Review>, u: Id, s: Id, t: Id, b: Id, r: Row<Review>)
    requires r in reviews && !Redundant(reviews, r.data, s, t) && Wrote(Moved(r, s, t), u, b)
    ensures r.id in OwnReviewIds(MergedReviews(reviews, s, t), u, b)
  {
    MergedReviewsAre(reviews, s, t);
    assert Moved(r, s, t) in MergedReviews(reviews, s, t);
  }

  lemma OwnReviewsMerged(reviews: Table<Review>, u: Id, s: Id, t: Id, b: Id)
    requires s != t
    ensures OwnReviewIds(MergedReviews(reviews, s, t), u, b)
      == if b == s then {} else if b == t && OwnReviewIds(reviews, u, t) == {} then OwnReviewIds(reviews, u, s)
         else OwnReviewIds(reviews, u, b)
  {
    var after := OwnReviewIds(MergedReviews(reviews, s, t), u, b);
    var from := if b == t && OwnReviewIds(reviews, u, t) == {} then s else b;
    assert from == s && b != s ==> forall r :: r in reviews ==> !Wrote(r, u, b) by {
      if from == s && b != s {
        forall r | r in reviews ensures !Wrote(r, u, b) {
          assert Wrote(r, u, b) ==> r.id in OwnReviewIds(reviews, u, b);
        }
      }
    }
    forall id ensures id in after <==> b != s && id in OwnReviewIds(reviews, u, from) {
      if id in after {
        var r := MergedFrom(reviews, u, s, t, b, id);
        RowMerged(reviews, r, u, s, t, b);
        assert Wrote(r, u, from);
      }
      if b != s && id in OwnReviewIds(reviews, u, from) {
        var r :| r in reviews && Wrote(r, u, from) && r.id == id;
        RowMerged(reviews, r, u, s, t, b);
        MergedTo(reviews, u, s, t, b, r);
      }
    }
  }

  /** What the order does decide: the review kept of an author who reviewed a and b but not c is the one of b
      when a is merged into b first, and the one of a when a is merged into c first. */
  lemma SurvivorDependsOnOrder(reviews: Table<Review>, u: Id, a: Id, b: Id, c: Id)
    requires a != b && b != c && a != c
    requires OwnReviewIds(reviews, u, a) != {} && OwnReviewIds(reviews, u, b) != {} && OwnReviewIds(reviews, u, c) == {}
    ensures OwnReviewIds(MergedReviews(MergedReviews(reviews, a, b), b, c), u, c) == OwnReviewIds(reviews, u, b)
    ensures OwnReviewIds(MergedReviews(MergedReviews(reviews, a, c), b, c), u, c) == OwnReviewIds(reviews, u, a)
  {
    OwnReviewsMerged(reviews, u, a, b, b);
    OwnReviewsMerged(reviews, u, a, b, c);
    OwnReviewsMerged(MergedReviews(reviews, a, b), u, b, c, c);
    OwnReviewsMerged(reviews, u, a, c, c);
    OwnReviewsMerged(MergedReviews(reviews, a, c), u, b, c, c);
  }

  /** The author has reviewed a and b, and not c. */
  predicate Contested(reviews: Table<Review>, u: Id, a: Id, b: Id, c: Id) {
    u in ReviewersOf(reviews, a) && u in ReviewersOf(reviews, b) && u !in ReviewersOf(reviews, c)
  }

  lemma OwnReviewsDiffer(reviews: Table<Review>, u: Id, a: Id, b: Id)
    requires DistinctIds(reviews) && a != b
    ensures OwnReviewIds(reviews, u, a) !! OwnReviewIds(reviews, u, b)
  {
    forall id | id in OwnReviewIds(reviews, u, a) ensures id !in OwnReviewIds(reviews, u, b) {
      var q :| q in reviews && Wrote(q, u, a) && q.id == id;
      var i :| 0 <= i < |reviews| && reviews[i] == q;
      forall r | r in reviews && Wrote(r, u, b) ensures r.id != id {
        var j :| 0 <= j < |reviews| && reviews[j] == r;
      }
    }
  }

  /** An author's reviews of d after both merges, a into b first, or a into c first. */
  lemma OwnReviewsTwice(reviews: Table<Review>, u: Id, a: Id, b: Id, c: Id, d: Id)
    requires a != b && b != c && a != c
    ensures var ofA, ofB, ofC := OwnReviewIds(reviews, u, a), OwnReviewIds(reviews, u, b), OwnReviewIds(reviews, u, c);
      var x := OwnReviewIds(MergedReviews(MergedReviews(reviews, a, b), b, c), u, d);
      var y := OwnReviewIds(MergedReviews(MergedReviews(reviews, a, c), b, c), u, d);
      if d != c then x == y
      else if ofC != {} then x == ofC == y
      else x == (if ofB != {} then ofB else ofA) && y == (if ofA != {} then ofA else ofB)
  {
    var ab, ac := MergedReviews(reviews, a, b), MergedReviews(reviews, a, c);
    OwnReviewsMerged(ab, u, b, c, d);
    OwnReviewsMerged(ac, u, b, c, d);
    OwnReviewsMerged(reviews, u, a, b, d);
    OwnReviewsMerged(reviews, u, a, c, d);
    OwnReviewsMerged(reviews, u, a, b, b);
    OwnReviewsMerged(reviews, u, a, b, c);
    OwnReviewsMerged(reviews, u, a, c, b);
    OwnReviewsMerged(reviews, u, a, c, c);
  }

  /** The same reviews by an author, for every book. */
  ghost predicate SameSurvivors(x: Table<Review>, y: Table<Review>, u: Id) {
    forall d :: OwnReviewIds(x, u, d) == OwnReviewIds(y, u, d)
  }

  /** Both orders keep the same review of an author, for every book, unless the author reviewed a and b
      and not c. */
  lemma SameSurvivorIff(reviews: Table<Review>, u: Id, a: Id, b: Id, c: Id)
    requires DistinctIds(reviews) && a != b && b != c && a != c
    ensures SameSurvivors(
      MergedReviews(MergedReviews(reviews, a, b), b, c), MergedReviews(MergedReviews(reviews, a, c), b, c), u)
      <==> !Contested(reviews, u, a, b, c)
  {
    forall d {
      OwnReviewsTwice(reviews, u, a, b, c, d);
    }
    OwnReviewsDiffer(reviews, u, a, b);
    ReviewerHasReview(reviews, u, a);
    ReviewerHasReview(reviews, u, b);
    ReviewerHasReview(reviews, u, c);
    if Contested(reviews, u, a, b, c) {
      OwnReviewsTwice(reviews, u, a, b, c, c);
    }
  }

  /** A review after both merges, if it is kept. */
  function Final(r: Row<Review>, a: Id, b: Id, c: Id): Row<Review> {
    if OfBook(r.data, a) || OfBook(r.data, b) then Row(r.id, MoveReview(r.data, c)) else r
  }

  ghost predicate RowsFrom(reviews: Table<Review>, x: Table<Review>, a: Id, b: Id, c: Id) {
    forall q :: q in x ==> exists r :: r in reviews && q == Final(r, a, b, c)
  }

  predicate Unowned(r: Review) {
    r.userId.None? || r.bookId.None?
  }

  /** Reviews without a known author, or of a release, are kept. */
  ghost predicate KeepsUnowned(reviews: Table<Review>, x: Table<Review>, a: Id, b: Id, c: Id) {
    forall r :: r in reviews && Unowned(r.data) ==> Final(r, a, b, c) in x
  }

  lemma MovedTwice(r: Row<Review>, t: Id, a: Id, b: Id, c: Id)
    requires a != b && b != c && a != c && (t == b || t == c)
    ensures Moved(Moved(r, a, t), b, c) == Final(r, a, b, c)
  {
  }

  /** Where a merge leaves its rows, without naming the reviews it drops. */
  ghost predicate MovesRows(reviews: Table<Review>, m: Table<Review>, s: Id, t: Id) {
    && (forall q :: q in m ==> exists r :: r in reviews && q == Moved(r, s, t))
    && (forall r :: r in reviews && Unowned(r.data) ==> Moved(r, s, t) in m)
  }

  lemma MergeMovesRows(reviews: Table<Review>, s: Id, t: Id)
    ensures MovesRows(reviews, MergedReviews(reviews, s, t), s, t)
  {
    MergedReviewsAre(reviews, s, t);
  }

  lemma MovedTwiceRows(reviews: Table<Review>, m: Table<Review>, n: Table<Review>, t: Id, a: Id, b: Id, c: Id)
    requires a != b && b != c && a != c && (t == b || t == c)
    requires MovesRows(reviews, m, a, t) && MovesRows(m, n, b, c)
    ensures RowsFrom(reviews, n, a, b, c) && KeepsUnowned(reviews, n, a, b, c)
  {
    forall q | q in n ensures exists r :: r in reviews && q == Final(r, a, b, c) {
      var p :| p in m && q == Moved(p, b, c);
      var r :| r in reviews && p == Moved(r, a, t);
      MovedTwice(r, t, a, b, c);
    }
    forall r | r in reviews && Unowned(r.data) ensures Final(r, a, b, c) in n {
      assert Moved(r, a, t) in m && Unowned(Moved(r, a, t).data);
      MovedTwice(r, t, a, b, c);
    }
  }

  lemma TwiceMergedRows(reviews: Table<Review>, t: Id, a: Id, b: Id, c: Id)
    requires a != b && b != c && a != c && (t == b || t == c)
    ensures RowsFrom(reviews, MergedReviews(MergedReviews(reviews, a, t), b, c), a, b, c)
    ensures KeepsUnowned(reviews, MergedReviews(MergedReviews(reviews, a, t), b, c), a, b, c)
  {
    var m := MergedReviews(reviews, a, t);
    MergeMovesRows(reviews, a, t);
    MergeMovesRows(m, b, c);
    MovedTwiceRows(reviews, m, MergedReviews(m, b, c), t, a, b, c);
  }

  lemma DistinctRow(reviews: Table<Review>, q: Row<Review>, r: Row<Review>)
    requires DistinctIds(reviews) && q in reviews && r in reviews && q.id == r.id
    ensures q == r
  {
    var i :| 0 <= i < |reviews| && reviews[i] == q;
    var j :| 0 <= j < |reviews| && reviews[j] == r;
  }

  /** A row of one outcome is one of the other when its author's survivors are the same. */
  lemma KeptByBoth(reviews: Table<Review>, x: Table<Review>, y: Table<Review>, a: Id, b: Id, c: Id, q: Row<Review>)
    requires DistinctIds(reviews) && RowsFrom(reviews, x, a, b, c) && RowsFrom(reviews, y, a, b, c)
    requires KeepsUnowned(reviews, y, a, b, c) && q in x
    requires q.data.userId.Some? ==> SameSurvivors(x, y, q.data.userId.value)
    ensures q in y
  {
    var r :| r in reviews && q == Final(r, a, b, c);
    if !Unowned(q.data) {
      var u, d := q.data.userId.value, q.data.bookId.value;
      assert Wrote(q, u, d) && q.id in OwnReviewIds(x, u, d);
      var p :| p in y && Wrote(p, u, d) && p.id == q.id;
      var r' :| r' in reviews && p == Final(r', a, b, c);
      DistinctRow(reviews, r, r');
    }
  }

  ghost predicate SameRows(x: Table<Review>, y: Table<Review>) {
    forall q :: q in x <==> q in y
  }

  lemma SameRowsIff(reviews: Table<Review>, x: Table<Review>, y: Table<Review>, a: Id, b: Id, c: Id)
    requires DistinctIds(reviews) && RowsFrom(reviews, x, a, b, c) && RowsFrom(reviews, y, a, b, c)
    requires KeepsUnowned(reviews, x, a, b, c) && KeepsUnowned(reviews, y, a, b, c)
    ensures SameRows(x, y) <==> forall u :: SameSurvivors(x, y, u)
  {
    if forall u :: SameSurvivors(x, y, u) {
      forall u ensures SameSurvivors(y, x, u) {
        assert SameSurvivors(x, y, u);
      }
      forall q ensures q in x <==> q in y {
        if q in x { KeptByBoth(reviews, x, y, a, b, c, q); }
        if q in y { KeptByBoth(reviews, y, x, a, b, c, q); }
      }
    }
    if SameRows(x, y) {
      forall u ensures SameSurvivors(x, y, u) {
        forall d ensures OwnReviewIds(x, u, d) == OwnReviewIds(y, u, d) {
        }
      }
    }
  }

  /** Both orders leave the same reviews exactly when no known author reviewed a and b and not c. */
  lemma SameReviewsIff(reviews: Table<Review>, a: Id, b: Id, c: Id)
    requires DistinctIds(reviews) && a != b && b != c && a != c
    ensures SameRows(
      MergedReviews(MergedReviews(reviews, a, b), b, c), MergedReviews(MergedReviews(reviews, a, c), b, c))
      <==> forall u :: !Contested(reviews, u, a, b, c)
  {
    var x, y := MergedReviews(MergedReviews(reviews, a, b), b, c), MergedReviews(MergedReviews(reviews, a, c), b, c);
    TwiceMergedRows(reviews, b, a, b, c);
    TwiceMergedRows(reviews, c, a, b, c);
    SameRowsIff(reviews, x, y, a, b, c);
    forall u ensures SameSurvivors(x, y, u) <==> !Contested(reviews, u, a, b, c) {
      SameSurvivorIff(reviews, u, a, b, c);
    }
  }

  /** So the order of two merges that succeed matters only to the reviews, and to them exactly when some known
      author reviewed a and b and not c. */
  lemma MergeOrderMattersIff(db: Database, a: Id, b: Id, c: Id)
    requires Consistent(db) && a != b && b != c && a != c
    ensures var x := MergedTables(MergedTables(db, a, b), b, c);
      var y := MergedTables(MergedTables(db, a, c), b, c);
      && x == y.(reviews := x.reviews)
      && (SameRows(x.reviews, y.reviews) <==> forall u :: !Contested(db.reviews, u, a, b, c))
  {
    SameTables(db, a, b, c);
    SameReviewsIff(db.reviews, a, b, c);
  }

  /** Three books, and a user who reviewed the first two. */
  function TwoReviews(user: Id): Database {
    var r := Review(Some(user), Some(0), None, None, None, None, true, false);
    Empty({user}, 5).(
      books := [Row(0, Book("A", "", None)), Row(1, Book("A.", "", None)), Row(2, Book("a", "", None))],
      reviews := [Row(3, r), Row(4, r.(bookId := Some(1)))])
  }

  lemma LibraryOk(users: set<Id>, books: Table<Book>, reviews: Table<Review>, next: Id)
    requires KeysBelow(books, next) && KeysBelow(reviews, next)
    requires BooksOk(books) && ReviewsOk(users, Keys(books), {}, reviews)
    ensures Consistent(Empty(users, next).(books := books, reviews := reviews))
  {
  }

  lemma TwoReviewRowsOk(user: Id, books: set<Id>)
    requires 0 in books && 1 in books
    ensures KeysBelow(TwoReviews(user).reviews, 5) && ReviewsOk({user}, books, {}, TwoReviews(user).reviews)
  {
  }

  lemma TwoReviewsOk(user: Id)
    ensures Consistent(TwoReviews(user))
  {
    var books := TwoReviews(user).books;
    assert books[0] in books && books[1] in books;
    TwoReviewRowsOk(user, Keys(books));
    LibraryOk({user}, books, TwoReviews(user).reviews, 5);
  }

  lemma ContestedReviews(reviews: Table<Review>, u: Id, p: Id, q: Id, r: Review)
    requires p != q && r.userId == Some(u) && r.releaseId == None
    requires reviews == [Row(p, r.(bookId := Some(0))), Row(q, r.(bookId := Some(1)))]
    ensures DistinctIds(reviews) && Contested(reviews, u, 0, 1, 2)
  {
    assert reviews[0] in reviews && reviews[1] in reviews;
  }

  /** There the two orders leave different reviews. */
  lemma OrderMatters(user: Id)
    ensures Consistent(TwoReviews(user))
    ensures var db := TwoReviews(user);
      !SameRows(MergedTables(MergedTables(db, 0, 1), 1, 2).reviews, MergedTables(MergedTables(db, 0, 2), 1, 2).reviews)
  {
    var db := TwoReviews(user);
    TwoReviewsOk(user);
    ContestedReviews(db.reviews, user, 3, 4, Review(Some(user), Some(0), None, None, None, None, true, false));
    MergeOrderMattersIff(db, 0, 1, 2);
  }

  lemma SameCounts(reviews: Table<Review>, a: Id, b: Id, c: Id, d: Id)
    requires a != b && b != c && a != c
    requires var x := MergedReviews(MergedReviews(reviews, a, b), b, c); DistinctIds(x) && ReviewsUnique(x)
    requires var y := MergedReviews(MergedReviews(reviews, a, c), b, c); DistinctIds(y) && ReviewsUnique(y)
    ensures var x := MergedReviews(MergedReviews(reviews, a, b), b, c);
      var y := MergedReviews(MergedReviews(reviews, a, c), b, c);
      && ReviewersOf(x, d) == ReviewersOf(y, d) && AnonymousOf(x, d) == AnonymousOf(y, d)
      && |ReviewsOf(x, d)| == |ReviewsOf(y, d)|
  {
    SameReviewers(reviews, a, b, c, d);
    CountReviews(MergedReviews(MergedReviews(reviews, a, b), b, c), d);
    CountReviews(MergedReviews(MergedReviews(reviews, a, c), b, c), d);
  }

  lemma SecondMergeRuns(db: Database, a: Id, t: Id, b: Id, c: Id)
    requires Consistent(db) && a != t && t in Keys(db.books) && c in Keys(db.books) && a != c && b != c
    requires !AttachedInChat(db, a) && !AttachedInChat(db, b)
    ensures Consistent(MergedTables(MergedTables(db, a, t), b, c))
  {
    MergeKeepsConstraints(db, a, t);
    var m := MergedTables(db, a, t);
    TablesAfter(db, a, t);
    KeysWithout(db.books, a);
    MergeKeepsConstraints(m, b, c);
  }

  lemma SameReviewers(reviews: Table<Review>, a: Id, b: Id, c: Id, d: Id)
    requires a != b && b != c && a != c
    ensures var x := MergedReviews(MergedReviews(reviews, a, b), b, c);
      var y := MergedReviews(MergedReviews(reviews, a, c), b, c);
      ReviewersOf(x, d) == ReviewersOf(y, d) && AnonymousOf(x, d) == AnonymousOf(y, d)
  {
    var ab, ac := MergedReviews(reviews, a, b), MergedReviews(reviews, a, c);
    GatheredReviewers(ab, b, c, d);
    GatheredReviewers(ac, b, c, d);
    GatheredReviewers(reviews, a, b, d);
    GatheredReviewers(reviews, a, b, b);
    GatheredReviewers(reviews, a, c, d);
    GatheredReviewers(reviews, a, c, b);
    GatheredAnonymous(ab, b, c, d);
    GatheredAnonymous(ac, b, c, d);
    GatheredAnonymous(reviews, a, b, d);
    GatheredAnonymous(reviews, a, b, b);
    GatheredAnonymous(reviews, a, c, d);
    GatheredAnonymous(reviews, a, c, b);
  }

  lemma SameReleases(db: Database, a: Id, b: Id, c: Id)
    requires a != b && b != c && a != c
    ensures MoveReleases(MoveReleases(db, a, b), b, c).releases == MoveReleases(MoveReleases(db, a, c), b, c).releases
  {
    var x := MoveReleases(MoveReleases(db, a, b), b, c).releases;
    var y := MoveReleases(MoveReleases(db, a, c), b, c).releases;
    assert |x| == |y| && forall i :: 0 <= i < |x| ==> x[i] == y[i];
  }

  lemma SameStatuses(db: Database, a: Id, b: Id, c: Id)
    requires a != b && b != c && a != c
    ensures MoveStatuses(MoveStatuses(db, a, b), b, c).statuses == MoveStatuses(MoveStatuses(db, a, c), b, c).statuses
  {
    var x := MoveStatuses(MoveStatuses(db, a, b), b, c).statuses;
    var y := MoveStatuses(MoveStatuses(db, a, c), b, c).statuses;
    assert |x| == |y| && forall i :: 0 <= i < |x| ==> x[i] == y[i];
  }

  lemma SameItems(db: Database, a: Id, b: Id, c: Id)
    requires a != b && b != c && a != c
    ensures MoveItems(MoveItems(db, a, b), b, c).items == MoveItems(MoveItems(db, a, c), b, c).items
  {
    var x := MoveItems(MoveItems(db, a, b), b, c).items;
    var y := MoveItems(MoveItems(db, a, c), b, c).items;
    assert |x| == |y| && forall i :: 0 <= i < |x| ==> x[i] == y[i];
  }

  /** Each table of the merged database, from the one statement that writes it. */
  lemma TablesAfter(db: Database, s: Id, t: Id)
    ensures var m := MergedTables(db, s, t);
      && m.releases == MoveReleases(db, s, t).releases && m.reviews == MergedReviews(db.reviews, s, t)
      && m.statuses == MoveStatuses(db, s, t).statuses && m.items == MoveItems(db, s, t).items
      && m.books == WithoutKey(db.books, s) && m.bookLinks == DropBook(db, s).bookLinks
      && m.messages == db.messages
  {
  }

  lemma SameTables(db: Database, a: Id, b: Id, c: Id)
    requires a != b && b != c && a != c
    ensures var x := MergedTables(MergedTables(db, a, b), b, c);
      var y := MergedTables(MergedTables(db, a, c), b, c);
      && x.releases == y.releases && x.statuses == y.statuses && x.items == y.items
      && x.books == y.books && x.bookLinks == y.bookLinks
      && x.reviews == MergedReviews(MergedReviews(db.reviews, a, b), b, c)
      && y.reviews == MergedReviews(MergedReviews(db.reviews, a, c), b, c)
  {
    TablesAfter(db, a, b);
    TablesAfter(db, a, c);
    TablesAfter(MergedTables(db, a, b), b, c);
    TablesAfter(MergedTables(db, a, c), b, c);
    SameReleases(db, a, b, c);
    SameStatuses(db, a, b, c);
    SameItems(db, a, b, c);
  }
}
