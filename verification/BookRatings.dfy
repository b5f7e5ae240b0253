/** The rating aggregate of a book, and how it adds up across a merge. */
module BookRatings {
  import opened Sql
  import opened Schema
  import opened BookMerge
  import opened BookMergeLaws

  // ---------- get_rating_aggregate_for_book ----------

  /** SELECT id FROM releases WHERE book_id = b. */
  function ReleaseIds(releases: Table<Release>, b: Id): seq<Option<Id>> {
    var rows := Where(releases, (r: Release) => r.bookId == b);
    seq(|rows|, i requires 0 <= i < |rows| => Some(rows[i].id))
  }

  /** The WHERE clause: public, and about the book or, when it has releases, about one of them. */
  predicate Counts(r: Review, b: Id, releaseIds: seq<Option<Id>>) {
    && r.isPublic
    && Holds(if releaseIds == [] then Equal(r.bookId, Some(b))
             else Or(Equal(r.bookId, Some(b)), In(r.releaseId, releaseIds)))
  }

  function Counted(db: Database, b: Id): Table<Review> {
    var releaseIds := ReleaseIds(db.releases, b);
    Where(db.reviews, r => Counts(r, b, releaseIds))
  }

  function One(r: Review): int {
    1
  }

  function Rated(r: Review): int {
    if r.rating.Some? then 1 else 0
  }

  function Score(r: Review): int {
    if r.rating.Some? then r.rating.value else 0
  }

  /** Public reviews, rated ones among them, and the sum of their ratings. */
  datatype Tally = Tally(count: int, rated: int, score: int) {
    function Plus(t: Tally): Tally {
      Tally(count + t.count, rated + t.rated, score + t.score)
    }

    function Minus(t: Tally): Tally {
      Tally(count - t.count, rated - t.rated, score - t.score)
    }
  }

  function TallyOf(rows: Table<Review>): Tally {
    Tally(|rows|, SumOf(rows, Rated), SumOf(rows, Score))
  }

  /** AVG skips NULL ratings and is NULL over none; COUNT(id) counts every row. */
  function FromTally(t: Tally): (Option<real>, int) {
    (if t.rated == 0 then None else Some(t.score as real / t.rated as real), t.count)
  }

  function RatingAggregate(db: Database, b: Id): (Option<real>, int) {
    FromTally(TallyOf(Counted(db, b)))
  }

  // ---------- What is counted ----------

  /** The book a review is about: its own, or that of its release. */
  ghost predicate IsAbout(db: Database, r: Review, b: Id) {
    r.bookId == Some(b) || (r.releaseId.Some? && r.releaseId.value in ReleasesOf(db, b))
  }

  lemma CountsMeans(db: Database, r: Review, b: Id)
    ensures Counts(r, b, ReleaseIds(db.releases, b)) <==> r.isPublic && IsAbout(db, r, b)
  {
    var ids := ReleaseIds(db.releases, b);
    var rows := Where(db.releases, (r: Release) => r.bookId == b);
    InHolds(r.releaseId, ids);
    if r.releaseId in ids {
      var i :| 0 <= i < |ids| && ids[i] == r.releaseId;
      assert rows[i] in rows;
    }
    if r.releaseId.Some? && r.releaseId.value in ReleasesOf(db, b) {
      var q :| q in db.releases && q.data.bookId == b && q.id == r.releaseId.value;
      assert q in rows;
      var i :| 0 <= i < |rows| && rows[i] == q;
      assert ids[i] == r.releaseId;
    }
  }

  /** A release belongs to one book. */
  lemma ReleaseOfOneBook(db: Database, id: Id, b: Id, c: Id)
    requires DistinctIds(db.releases) && id in ReleasesOf(db, b) && id in ReleasesOf(db, c)
    ensures b == c
  {
    var q :| q in db.releases && q.data.bookId == b && q.id == id;
    var r :| r in db.releases && r.data.bookId == c && r.id == id;
    var i :| 0 <= i < |db.releases| && db.releases[i] == q;
    var j :| 0 <= j < |db.releases| && db.releases[j] == r;
  }

  /** A public review counts for exactly one book, and only once. */
  lemma CountedForOneBook(db: Database, r: Row<Review>)
    requires Consistent(db) && r in db.reviews && r.data.isPublic
    ensures exists b :: b in Keys(db.books) && r in Counted(db, b)
    ensures forall b: Id, c: Id :: r in Counted(db, b) && r in Counted(db, c) ==> b == c
    ensures !(exists b :: OfBook(r.data, b) && r.data.releaseId.Some? && r.data.releaseId.value in ReleasesOf(db, b))
  {
    assert ReviewRowOk(db.users, Keys(db.books), Keys(db.releases), r.data);
    if r.data.bookId.Some? {
      CountsMeans(db, r.data, r.data.bookId.value);
      assert r in Counted(db, r.data.bookId.value);
    } else {
      var q: Row<Release> :| q in db.releases && q.id == r.data.releaseId.value;
      CountsMeans(db, r.data, q.data.bookId);
      assert r in Counted(db, q.data.bookId);
    }
    forall b: Id, c: Id | r in Counted(db, b) && r in Counted(db, c) ensures b == c {
      CountsMeans(db, r.data, b);
      CountsMeans(db, r.data, c);
      if r.data.bookId.None? {
        ReleaseOfOneBook(db, r.data.releaseId.value, b, c);
      }
    }
  }

  /** A book's count is over the public reviews of the book and of its releases. */
  lemma CountedAre(db: Database, b: Id)
    ensures forall r :: r in Counted(db, b) <==> r in db.reviews && r.data.isPublic && IsAbout(db, r.data, b)
    ensures forall id :: id in ReleasesOf(db, b) <==> exists q :: q in db.releases && q.id == id && q.data.bookId == b
  {
    forall r: Row<Review>
      ensures Counts(r.data, b, ReleaseIds(db.releases, b)) <==> r.data.isPublic && IsAbout(db, r.data, b)
    {
      CountsMeans(db, r.data, b);
    }
  }

  /** The ratings that some reviews give. */
  function Ratings(rows: Table<Review>): seq<int> {
    if rows == [] then []
    else (if rows[0].data.rating.Some? then [rows[0].data.rating.value] else []) + Ratings(rows[1..])
  }

  function Total(xs: seq<int>): int {
    if xs == [] then 0 else xs[0] + Total(xs[1..])
  }

  lemma {:induction false} SumsOfRatings(rows: Table<Review>)
    ensures SumOf(rows, Rated) == |Ratings(rows)| && SumOf(rows, Score) == Total(Ratings(rows))
  {
    if rows != [] {
      SumsOfRatings(rows[1..]);
      if rows[0].data.rating.Some? {
        assert Ratings(rows)[1..] == Ratings(rows[1..]);
      } else {
        assert Ratings(rows) == Ratings(rows[1..]);
      }
    }
  }

  lemma {:induction false} TotalBounds(xs: seq<int>)
    requires forall x :: x in xs ==> 1 <= x <= 5
    ensures |xs| <= Total(xs) <= 5 * |xs|
  {
    if xs != [] {
      assert xs[0] in xs && forall x :: x in xs[1..] ==> x in xs;
      TotalBounds(xs[1..]);
    }
  }

  lemma {:induction false} RatingsOf(rows: Table<Review>, x: int)
    requires x in Ratings(rows)
    ensures exists r :: r in rows && r.data.rating == Some(x)
  {
    var head := if rows[0].data.rating.Some? then [rows[0].data.rating.value] else [];
    assert Ratings(rows) == head + Ratings(rows[1..]);
    if x in head {
      assert rows[0] in rows;
    } else {
      RatingsOf(rows[1..], x);
    }
  }

  lemma MeanOf(sum: real, n: real)
    requires n > 0.0
    ensures sum / n * n == sum
  {
  }

  /** The average is the mean of the ratings given, NULL when none is; the count is that of the reviews. */
  lemma AggregateIsMean(rows: Table<Review>)
    ensures FromTally(TallyOf(rows)).1 == |rows|
    ensures var average := FromTally(TallyOf(rows)).0;
      && (average.None? <==> Ratings(rows) == [])
      && (average.Some? ==> average.value * (|Ratings(rows)| as real) == Total(Ratings(rows)) as real)
  {
    SumsOfRatings(rows);
    if Ratings(rows) != [] {
      MeanOf(Total(Ratings(rows)) as real, |Ratings(rows)| as real);
    }
  }

  lemma QuotientInRange(n: int, total: int)
    requires 0 < n <= total <= 5 * n
    ensures 1.0 <= total as real / n as real <= 5.0
  {
    var m := n as real;
    assert 5.0 * m == (5 * n) as real;
    MeanOf(total as real, m);
    InRange(m, total as real, total as real / m);
  }

  lemma InRange(n: real, total: real, mean: real)
    requires 0.0 < n <= total <= 5.0 * n && total == mean * n
    ensures 1.0 <= mean <= 5.0
  {
    Scaled(mean, 1.0, n);
    Scaled(5.0, mean, n);
  }

  lemma Scaled(x: real, y: real, n: real)
    requires n > 0.0
    ensures x < y ==> x * n < y * n
  {
    if x < y {
      assert (y - x) * n > 0.0;
    }
  }

  lemma RatingsInRange(db: Database, b: Id)
    requires Consistent(db)
    ensures forall x :: x in Ratings(Counted(db, b)) ==> 1 <= x <= 5
  {
    var rows := Counted(db, b);
    forall x | x in Ratings(rows) ensures 1 <= x <= 5 {
      RatingsOf(rows, x);
      var r :| r in rows && r.data.rating == Some(x);
      assert ReviewRowOk(db.users, Keys(db.books), Keys(db.releases), r.data);
    }
  }

  lemma RatedInRange(rows: Table<Review>)
    requires forall x :: x in Ratings(rows) ==> 1 <= x <= 5
    ensures var average := FromTally(TallyOf(rows)).0; average.Some? ==> 1.0 <= average.value <= 5.0
  {
    var xs := Ratings(rows);
    SumsOfRatings(rows);
    if xs != [] {
      TotalBounds(xs);
      QuotientInRange(|xs|, Total(xs));
    }
  }

  /** A book's average is between 1 and 5, over as many reviews as are counted for it. */
  lemma AverageInRange(db: Database, b: Id)
    requires Consistent(db)
    ensures var average := RatingAggregate(db, b).0; average.Some? ==> 1.0 <= average.value <= 5.0
    ensures RatingAggregate(db, b).1 == |Counted(db, b)|
  {
    RatingsInRange(db, b);
    RatedInRange(Counted(db, b));
  }

  // ---------- Across a merge ----------

  /** The public reviews a merge of s into t drops. */
  function DroppedPublic(db: Database, s: Id, t: Id): Table<Review> {
    Where(db.reviews, (r: Review) => r.isPublic && Redundant(db.reviews, r, s, t))
  }

  lemma AboutAfterMerge(db: Database, r: Row<Review>, s: Id, t: Id)
    requires s != t && ExactlyOneTarget(r.data.bookId, r.data.releaseId)
    ensures IsAbout(MergedTables(db, s, t), Moved(r, s, t).data, t)
      <==> IsAbout(db, r.data, s) || IsAbout(db, r.data, t)
  {
    MergeConserves(db, s, t, t);
  }

  /** A review that survives counts for the target afterwards exactly when it counted for
      either book before, and it never counted for both. */
  lemma CountsAcrossMerge(db: Database, r: Row<Review>, s: Id, t: Id)
    requires Consistent(db) && s != t && r in db.reviews
    ensures var forS := Counts(r.data, s, ReleaseIds(db.releases, s));
      var forT := Counts(r.data, t, ReleaseIds(db.releases, t));
      && !(forS && forT)
      && (Counts(Moved(r, s, t).data, t, ReleaseIds(MergedTables(db, s, t).releases, t)) <==> forS || forT)
      && (r.data.isPublic && Redundant(db.reviews, r.data, s, t) ==> forS)
  {
    var m := MergedTables(db, s, t);
    assert ReviewRowOk(db.users, Keys(db.books), Keys(db.releases), r.data);
    CountsMeans(db, r.data, s);
    CountsMeans(db, r.data, t);
    CountsMeans(m, Moved(r, s, t).data, t);
    AboutAfterMerge(db, r, s, t);
    if r.data.bookId.None? && r.data.releaseId.value in ReleasesOf(db, s)
      && r.data.releaseId.value in ReleasesOf(db, t) {
      ReleaseOfOneBook(db, r.data.releaseId.value, s, t);
    }
  }

  /** A review that a merge keeps and that counts for either book before it. */
  predicate StillCounts(db: Database, r: Review, s: Id, t: Id) {
    !Redundant(db.reviews, r, s, t)
    && (Counts(r, s, ReleaseIds(db.releases, s)) || Counts(r, t, ReleaseIds(db.releases, t)))
  }

  function CountedAfter(db: Database, s: Id, t: Id): Table<Review> {
    Where(db.reviews, r => StillCounts(db, r, s, t))
  }

  lemma StillCountsMeans(db: Database, r: Row<Review>, s: Id, t: Id, authors: seq<Option<Id>>, mIds: seq<Option<Id>>)
    requires Consistent(db) && s != t && r in db.reviews
    requires authors == AuthorColumn(db.reviews, t) && mIds == ReleaseIds(MergedTables(db, s, t).releases, t)
    ensures UpdateRow(r, r => OfBook(r, s), r => MoveReview(r, t)) == Moved(r, s, t)
    ensures StillCounts(db, r.data, s, t)
      <==> !IsDuplicate(r.data, s, authors) && Counts(Moved(r, s, t).data, t, mIds)
  {
    CountsAcrossMerge(db, r, s, t);
    RedundantMeans(db.reviews, r.data, s, t);
  }

  lemma CountedAfterMerge(db: Database, s: Id, t: Id, f: Review -> int)
    requires Consistent(db) && s != t
    requires forall r: Review, b: Id :: f(MoveReview(r, b)) == f(r)
    ensures SumOf(Counted(MergedTables(db, s, t), t), f) == SumOf(CountedAfter(db, s, t), f)
    ensures |Counted(MergedTables(db, s, t), t)| == |CountedAfter(db, s, t)|
  {
    var authors := AuthorColumn(db.reviews, t);
    var mIds := ReleaseIds(MergedTables(db, s, t).releases, t);
    forall r: Row<Review> | r in db.reviews
      ensures UpdateRow(r, r => OfBook(r, s), r => MoveReview(r, t)) == Moved(r, s, t)
      ensures StillCounts(db, r.data, s, t)
        <==> !IsDuplicate(r.data, s, authors) && Counts(Moved(r, s, t).data, t, mIds)
    {
      StillCountsMeans(db, r, s, t, authors, mIds);
    }
    TablesAfter(db, s, t);
    SumDeletedUpdated(db.reviews, r => IsDuplicate(r, s, authors), r => OfBook(r, s), r => MoveReview(r, t),
      r => StillCounts(db, r, s, t), r => Counts(r, t, mIds), f);
  }

  function CountedBefore(db: Database, s: Id, t: Id): Table<Review> {
    Where(db.reviews, r => Counts(r, s, ReleaseIds(db.releases, s)) || Counts(r, t, ReleaseIds(db.releases, t)))
  }

  lemma BeforeIsBoth(db: Database, s: Id, t: Id, f: Review -> int)
    requires Consistent(db) && s != t
    ensures SumOf(CountedBefore(db, s, t), f) == SumOf(Counted(db, s), f) + SumOf(Counted(db, t), f)
    ensures |CountedBefore(db, s, t)| == |Counted(db, s)| + |Counted(db, t)|
  {
    var sIds, tIds := ReleaseIds(db.releases, s), ReleaseIds(db.releases, t);
    forall r: Row<Review> | r in db.reviews ensures !(Counts(r.data, s, sIds) && Counts(r.data, t, tIds)) {
      CountsAcrossMerge(db, r, s, t);
    }
    SumSplit(db.reviews, r => Counts(r, s, sIds), r => Counts(r, t, tIds),
      r => Counts(r, s, ReleaseIds(db.releases, s)) || Counts(r, t, ReleaseIds(db.releases, t)), f);
  }

  lemma BeforeIsAfterAndDropped(db: Database, s: Id, t: Id, f: Review -> int)
    requires Consistent(db) && s != t
    ensures SumOf(CountedBefore(db, s, t), f) == SumOf(DroppedPublic(db, s, t), f) + SumOf(CountedAfter(db, s, t), f)
    ensures |CountedBefore(db, s, t)| == |DroppedPublic(db, s, t)| + |CountedAfter(db, s, t)|
  {
    forall r: Row<Review> | r in db.reviews
      ensures r.data.isPublic && Redundant(db.reviews, r.data, s, t) ==> Counts(r.data, s, ReleaseIds(db.releases, s))
    {
      CountsAcrossMerge(db, r, s, t);
    }
    SumSplit(db.reviews, (r: Review) => r.isPublic && Redundant(db.reviews, r, s, t),
      r => StillCounts(db, r, s, t),
      r => Counts(r, s, ReleaseIds(db.releases, s)) || Counts(r, t, ReleaseIds(db.releases, t)), f);
  }

  /** A column that is not the book's key sums, over the target's public reviews after the
      merge, to the sums over both books before it, less the dropped duplicates. */
  lemma SumsAcrossMerge(db: Database, s: Id, t: Id, f: Review -> int)
    requires Consistent(db) && s != t
    requires forall r: Review, b: Id :: f(MoveReview(r, b)) == f(r)
    ensures SumOf(Counted(MergedTables(db, s, t), t), f)
      == SumOf(Counted(db, s), f) + SumOf(Counted(db, t), f) - SumOf(DroppedPublic(db, s, t), f)
    ensures |Counted(MergedTables(db, s, t), t)| == |Counted(db, s)| + |Counted(db, t)| - |DroppedPublic(db, s, t)|
  {
    CountedAfterMerge(db, s, t, f);
    BeforeIsBoth(db, s, t, f);
    BeforeIsAfterAndDropped(db, s, t, f);
  }

  lemma TallyFromSums(after: Table<Review>, a: Table<Review>, b: Table<Review>, dropped: Table<Review>)
    requires |after| == |a| + |b| - |dropped|
    requires SumOf(after, Rated) == SumOf(a, Rated) + SumOf(b, Rated) - SumOf(dropped, Rated)
    requires SumOf(after, Score) == SumOf(a, Score) + SumOf(b, Score) - SumOf(dropped, Score)
    ensures TallyOf(after) == TallyOf(a).Plus(TallyOf(b)).Minus(TallyOf(dropped))
  {
  }

  lemma TalliesAddUp(db: Database, s: Id, t: Id)
    requires Consistent(db) && s != t
    ensures TallyOf(Counted(MergedTables(db, s, t), t))
      == TallyOf(Counted(db, s)).Plus(TallyOf(Counted(db, t))).Minus(TallyOf(DroppedPublic(db, s, t)))
  {
    SumsAcrossMerge(db, s, t, Rated);
    SumsAcrossMerge(db, s, t, Score);
    TallyFromSums(Counted(MergedTables(db, s, t), t), Counted(db, s), Counted(db, t), DroppedPublic(db, s, t));
  }

  /** The target's rating after a merge is that of both books' public reviews together, less
      the dropped duplicates: counts, rated counts and rating sums add up. */
  lemma RatingsAddUp(db: Database, s: Id, t: Id)
    requires Consistent(db) && s != t
    ensures RatingAggregate(MergedTables(db, s, t), t)
      == FromTally(TallyOf(Counted(db, s)).Plus(TallyOf(Counted(db, t))).Minus(TallyOf(DroppedPublic(db, s, t))))
  {
    TalliesAddUp(db, s, t);
  }

  /** Every other book keeps its aggregate. */
  lemma OtherBooksKeepRatings(db: Database, s: Id, t: Id, b: Id)
    requires Consistent(db) && s != t && b != s && b != t
    ensures RatingAggregate(MergedTables(db, s, t), b) == RatingAggregate(db, b)
  {
    SumsOfOthers(db, s, t, b, Rated);
    SumsOfOthers(db, s, t, b, Score);
  }

  lemma CountsForOthers(db: Database, r: Row<Review>, s: Id, t: Id, b: Id)
    requires Consistent(db) && s != t && b != s && b != t && r in db.reviews
    ensures var counts := Counts(r.data, b, ReleaseIds(db.releases, b));
      && (Counts(Moved(r, s, t).data, b, ReleaseIds(MergedTables(db, s, t).releases, b)) <==> counts)
      && (counts ==> Moved(r, s, t) == r && !Redundant(db.reviews, r.data, s, t))
  {
    assert ReviewRowOk(db.users, Keys(db.books), Keys(db.releases), r.data);
    MergeConserves(db, s, t, b);
    CountsMeans(db, r.data, b);
    CountsMeans(MergedTables(db, s, t), Moved(r, s, t).data, b);
  }

  lemma SumsOfOthers(db: Database, s: Id, t: Id, b: Id, f: Review -> int)
    requires Consistent(db) && s != t && b != s && b != t
    ensures SumOf(Counted(MergedTables(db, s, t), b), f) == SumOf(Counted(db, b), f)
    ensures |Counted(MergedTables(db, s, t), b)| == |Counted(db, b)|
  {
    var authors := AuthorColumn(db.reviews, t);
    var bIds, mIds := ReleaseIds(db.releases, b), ReleaseIds(MergedTables(db, s, t).releases, b);
    forall r: Row<Review> | r in db.reviews
      ensures UpdateRow(r, r => OfBook(r, s), r => MoveReview(r, t)) == Moved(r, s, t)
      ensures Counts(Moved(r, s, t).data, b, mIds) <==> Counts(r.data, b, bIds)
      ensures Counts(r.data, b, bIds) ==> Moved(r, s, t) == r && !IsDuplicate(r.data, s, authors)
    {
      CountsForOthers(db, r, s, t, b);
      RedundantMeans(db.reviews, r.data, s, t);
    }
    TablesAfter(db, s, t);
    SumDeletedUpdated(db.reviews, r => IsDuplicate(r, s, authors), r => OfBook(r, s), r => MoveReview(r, t),
      r => Counts(r, b, bIds), r => Counts(r, b, mIds), f);
  }

  // ---------- get_rating_aggregate_for_release ----------

  predicate CountsForRelease(r: Review, release: Id) {
    Holds(Equal(r.releaseId, Some(release))) && r.isPublic
  }

  function CountedForRelease(db: Database, release: Id): Table<Review> {
    Where(db.reviews, r => CountsForRelease(r, release))
  }

  function ReleaseRatingAggregate(db: Database, release: Id): (Option<real>, int) {
    FromTally(TallyOf(CountedForRelease(db, release)))
  }

  /** A release's count is over its own public reviews. */
  lemma CountedForReleaseAre(db: Database, release: Id)
    ensures forall r :: r in CountedForRelease(db, release) <==>
      r in db.reviews && r.data.isPublic && r.data.releaseId == Some(release)
    ensures ReleaseRatingAggregate(db, release) == FromTally(TallyOf(CountedForRelease(db, release)))
  {
  }

  lemma ReleaseSums(db: Database, s: Id, t: Id, release: Id, f: Review -> int)
    requires Consistent(db) && s != t
    ensures SumOf(CountedForRelease(MergedTables(db, s, t), release), f) == SumOf(CountedForRelease(db, release), f)
    ensures |CountedForRelease(MergedTables(db, s, t), release)| == |CountedForRelease(db, release)|
  {
    var authors := AuthorColumn(db.reviews, t);
    forall r: Row<Review> | r in db.reviews
      ensures CountsForRelease(r.data, release) ==> !OfBook(r.data, s) && !IsDuplicate(r.data, s, authors)
    {
      assert ReviewRowOk(db.users, Keys(db.books), Keys(db.releases), r.data);
      DuplicateMeans(db.reviews, r.data, s, t);
    }
    TablesAfter(db, s, t);
    SumDeletedUpdated(db.reviews, r => IsDuplicate(r, s, authors), r => OfBook(r, s), r => MoveReview(r, t),
      r => CountsForRelease(r, release), r => CountsForRelease(r, release), f);
  }

  /** Every release keeps its aggregate, those that change books included. */
  lemma ReleasesKeepRatings(db: Database, s: Id, t: Id, release: Id)
    requires Consistent(db) && s != t
    ensures ReleaseRatingAggregate(MergedTables(db, s, t), release) == ReleaseRatingAggregate(db, release)
  {
    ReleaseSums(db, s, t, release, Rated);
    ReleaseSums(db, s, t, release, Score);
  }
}
