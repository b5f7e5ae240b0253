/** Merge-restore is a keyed, left-biased union that can be resumed. */
module BackupMergeLaws {
  import opened Sql
  import opened Schema
  import opened Backup

  // ---------- A key once found stays found ----------

  lemma FoundStays(db: Database, user: Id, x: Entry, e: Entry)
    ensures Found(db, user, e) ==> Found(Insert(db, user, x), user, e)
    ensures Found(Insert(db, user, e), user, e)
  {
    var after := Insert(db, user, x);
    assert forall i :: 0 <= i < |db.collections| ==> after.collections[i] == db.collections[i];
    assert forall i :: 0 <= i < |db.statuses| ==> after.statuses[i] == db.statuses[i];
    assert forall i :: 0 <= i < |db.reviews| ==> after.reviews[i] == db.reviews[i];
    assert forall i :: 0 <= i < |db.sessions| ==> after.sessions[i] == db.sessions[i];
    var own := Insert(db, user, e);
    match e
    case OfCollection(c) => assert MatchesCollection(own.collections[|db.collections|].data, user, c);
    case OfStatus(s) => assert MatchesStatus(own.statuses[|db.statuses|].data, user, s);
    case OfReview(r) => assert MatchesReview(own.reviews[|db.reviews|].data, user, r);
    case OfSession(t) => assert MatchesSession(own.sessions[|db.sessions|].data, user, t);
  }

  lemma StepFinds(p: Progress, user: Id, x: Entry, e: Entry)
    ensures Found(p.db, user, e) ==> Found(MergeStep(p, user, x).db, user, e)
    ensures MergeStep(p, user, e).ok ==> Found(MergeStep(p, user, e).db, user, e)
  {
    FoundStays(p.db, user, x, e);
  }

  lemma {:induction false} MergeFinds(p: Progress, user: Id, es: seq<Entry>, e: Entry)
    ensures Found(p.db, user, e) ==> Found(MergeFrom(p, user, es).db, user, e)
  {
    if es != [] {
      MergeFinds(p, user, es[..|es| - 1], e);
      StepFinds(MergeFrom(p, user, es[..|es| - 1]), user, es[|es| - 1], e);
    }
  }

  /** A run that is not refused leaves every exported key present. */
  lemma {:induction false} MergeFindsAll(p: Progress, user: Id, es: seq<Entry>)
    requires MergeFrom(p, user, es).ok
    ensures forall i :: 0 <= i < |es| ==> Found(MergeFrom(p, user, es).db, user, es[i])
  {
    if es != [] {
      var before := MergeFrom(p, user, es[..|es| - 1]);
      MergeFindsAll(p, user, es[..|es| - 1]);
      forall i | 0 <= i < |es| ensures Found(MergeFrom(p, user, es).db, user, es[i]) {
        StepFinds(before, user, es[|es| - 1], es[i]);
      }
    }
  }

  lemma {:induction false} MergeSkips(p: Progress, user: Id, es: seq<Entry>)
    requires forall i :: 0 <= i < |es| ==> Found(p.db, user, es[i])
    ensures MergeFrom(p, user, es) == p
  {
    if es != [] {
      MergeSkips(p, user, es[..|es| - 1]);
    }
  }

  lemma {:induction false} MergeConcat(p: Progress, user: Id, a: seq<Entry>, b: seq<Entry>)
    ensures MergeFrom(p, user, a + b) == MergeFrom(MergeFrom(p, user, a), user, b)
  {
    if b == [] {
      assert a + b == a;
    } else {
      MergeConcat(p, user, a, b[..|b| - 1]);
      assert (a + b)[..|a + b| - 1] == a + b[..|b| - 1];
    }
  }

  lemma {:induction false} MergeStuck(p: Progress, user: Id, es: seq<Entry>)
    requires !p.ok
    ensures MergeFrom(p, user, es) == p
  {
    if es != [] {
      MergeStuck(p, user, es[..|es| - 1]);
    }
  }

  // ---------- What the lookups find, by the columns ----------

  /** The user has a row with the key columns of an entry. A review with a book is looked up by its book alone. */
  ghost predicate OwnsKey(db: Database, user: Id, e: Entry) {
    match e
    case OfCollection(c) => exists r :: r in CollectionsOf(db, user) && r.data.name == c.name
    case OfStatus(s) => exists r ::
      (r in StatusesOf(db, user) && r.data.bookId == s.bookId && r.data.releaseId == s.releaseId
       && r.data.status == s.status)
    case OfReview(q) => exists r ::
      (r in ReviewsOf(db, user)
       && if q.bookId.Some? then r.data.bookId == q.bookId else r.data.releaseId == q.releaseId)
    case OfSession(t) => exists r ::
      (r in SessionsOf(db, user) && r.data.releaseId == t.releaseId && r.data.startedAt == t.startedAt)
  }

  lemma FoundIff(db: Database, user: Id, e: Entry)
    ensures Found(db, user, e) <==> OwnsKey(db, user, e)
  {
    match e
    case OfCollection(c) =>
      assert forall i :: 0 <= i < |db.collections| && MatchesCollection(db.collections[i].data, user, c) ==>
        db.collections[i] in CollectionsOf(db, user);
    case OfStatus(s) =>
      assert forall i :: 0 <= i < |db.statuses| && MatchesStatus(db.statuses[i].data, user, s) ==>
        db.statuses[i] in StatusesOf(db, user);
    case OfReview(r) =>
      assert forall i :: 0 <= i < |db.reviews| && MatchesReview(db.reviews[i].data, user, r) ==>
        db.reviews[i] in ReviewsOf(db, user);
    case OfSession(t) =>
      assert forall i :: 0 <= i < |db.sessions| && MatchesSession(db.sessions[i].data, user, t) ==>
        db.sessions[i] in SessionsOf(db, user);
  }

  /** A merge that is not refused leaves the user with a row for every exported entry. */
  lemma MergeLeavesOwn(db: Database, user: Id, es: seq<Entry>)
    requires Merge(db, user, es).ok
    ensures forall e :: e in es ==> OwnsKey(Merge(db, user, es).db, user, e)
  {
    MergeFindsAll(Progress(db, true), user, es);
    forall e | e in es ensures OwnsKey(Merge(db, user, es).db, user, e) {
      FoundIff(Merge(db, user, es).db, user, e);
    }
  }

  /** The database without other users' rows in the four tables. */
  function OnlyOwn(db: Database, user: Id): Database {
    db.(collections := CollectionsOf(db, user), statuses := StatusesOf(db, user),
        reviews := ReviewsOf(db, user), sessions := SessionsOf(db, user))
  }

  lemma OnlyOwnRows(db: Database, user: Id)
    ensures CollectionsOf(OnlyOwn(db, user), user) == CollectionsOf(db, user)
    ensures StatusesOf(OnlyOwn(db, user), user) == StatusesOf(db, user)
    ensures ReviewsOf(OnlyOwn(db, user), user) == ReviewsOf(db, user)
    ensures SessionsOf(OnlyOwn(db, user), user) == SessionsOf(db, user)
  {
    WhereAll(CollectionsOf(db, user), c => Mine(user, c));
    WhereAll(StatusesOf(db, user), (s: BookStatus) => s.userId == user);
    WhereAll(ReviewsOf(db, user), (r: Review) => r.userId == Some(user));
    WhereAll(SessionsOf(db, user), (t: ReadingSession) => t.userId == user);
  }

  /** What is there of other users does not decide what a merge adds. */
  lemma {:induction false} AdditionsIgnoreOthers(db: Database, user: Id, es: seq<Entry>)
    ensures Additions(OnlyOwn(db, user), user, es) == Additions(db, user, es)
  {
    if es != [] {
      var last := es[|es| - 1];
      AdditionsIgnoreOthers(db, user, es[..|es| - 1]);
      OnlyOwnRows(db, user);
      FoundIff(db, user, last);
      FoundIff(OnlyOwn(db, user), user, last);
    }
  }

  // ---------- Resuming ----------

  /** A run cut off after any prefix (even at a refused row) and then repeated in full ends in
      the same state, with the same outcome, as one uninterrupted run. */
  lemma {:induction false} MergeResumes(db: Database, user: Id, es: seq<Entry>, k: nat)
    requires k <= |es|
    ensures Merge(Merge(db, user, es[..k]).db, user, es) == Merge(db, user, es)
    decreases k
  {
    var start := Progress(db, true);
    var p := MergeFrom(start, user, es[..k]);
    var again := Progress(p.db, true);
    assert es == es[..k] + es[k..];
    MergeConcat(start, user, es[..k], es[k..]);
    MergeConcat(again, user, es[..k], es[k..]);
    if p.ok {
      MergeFindsAll(start, user, es[..k]);
      MergeSkips(again, user, es[..k]);
    } else if k > 0 {
      assert es[..k][..k - 1] == es[..k - 1];
      var before := MergeFrom(start, user, es[..k - 1]);
      if before.ok {
        MergeFindsAll(start, user, es[..k - 1]);
        MergeSkips(again, user, es[..k - 1]);
      } else {
        MergeResumes(db, user, es, k - 1);
      }
    }
  }

  /** So a second full run creates nothing. */
  lemma SecondMergeCreatesNothing(db: Database, user: Id, es: seq<Entry>)
    ensures Merge(Merge(db, user, es).db, user, es) == Merge(db, user, es)
  {
    assert es[..|es|] == es;
    MergeResumes(db, user, es, |es|);
  }

  // ---------- The left-biased union ----------

  /** Every review has exactly one target, as in any export of a consistent database. An edited file
      may hold others. */
  predicate WellTargeted(es: seq<Entry>) {
    forall i :: 0 <= i < |es| && es[i].OfReview? ==> ExactlyOneTarget(es[i].r.bookId, es[i].r.releaseId)
  }

  /** Two entries have the same natural key. */
  predicate SameKey(a: Entry, b: Entry) {
    match (a, b)
    case (OfCollection(c), OfCollection(d)) => c.name == d.name
    case (OfStatus(s), OfStatus(t)) => s.bookId == t.bookId && s.releaseId == t.releaseId && s.status == t.status
    case (OfReview(q), OfReview(r)) => q.bookId == r.bookId && q.releaseId == r.releaseId
    case (OfSession(t), OfSession(u)) => t.releaseId == u.releaseId && t.startedAt == u.startedAt
    case _ => false
  }

  /** The row that a becomes is one that the lookup of e finds: a row of the same key, except that a review
      with a book is looked up by its book alone. */
  predicate Answers(a: Entry, e: Entry) {
    match (a, e)
    case (OfReview(q), OfReview(r)) => if r.bookId.Some? then q.bookId == r.bookId else q.releaseId == r.releaseId
    case _ => SameKey(a, e)
  }

  predicate HasKey(es: seq<Entry>, e: Entry) {
    exists i :: 0 <= i < |es| && SameKey(es[i], e)
  }

  predicate Answered(es: seq<Entry>, e: Entry) {
    exists i :: 0 <= i < |es| && Answers(es[i], e)
  }

  /** In export order, the entries whose lookup finds neither a row of the database nor one of those
      added before. */
  function Additions(db: Database, user: Id, es: seq<Entry>): seq<Entry> {
    if es == [] then []
    else
      var front, e := es[..|es| - 1], es[|es| - 1];
      var some := Additions(db, user, front);
      some + if Found(db, user, e) || Answered(some, e) then [] else [e]
  }

  lemma FoundByKey(db: Database, user: Id, a: Entry, b: Entry)
    requires SameKey(a, b)
    ensures Found(db, user, a) <==> Found(db, user, b)
  {
  }

  lemma AnsweredByKey(es: seq<Entry>, a: Entry, b: Entry)
    requires SameKey(a, b)
    ensures Answered(es, a) <==> Answered(es, b)
  {
    assert forall i :: 0 <= i < |es| ==> (Answers(es[i], a) <==> Answers(es[i], b));
  }

  /** Between entries with one target each, to answer is to have the same key. */
  lemma AnswersIsSameKey(a: Entry, e: Entry)
    requires WellTargeted([a]) && WellTargeted([e])
    ensures Answers(a, e) <==> SameKey(a, e)
  {
    assert [a][0] == a && [e][0] == e;
  }

  lemma AnsweredConcat(a: seq<Entry>, b: seq<Entry>, e: Entry)
    ensures Answered(a + b, e) <==> Answered(a, e) || Answered(b, e)
  {
    if i :| 0 <= i < |a| && Answers(a[i], e) { assert Answers((a + b)[i], e); }
    if i :| 0 <= i < |b| && Answers(b[i], e) { assert Answers((a + b)[|a| + i], e); }
  }

  lemma AnsweredSnoc(es: seq<Entry>, a: Entry, e: Entry)
    ensures Answered(es + [a], e) <==> Answered(es, e) || Answers(a, e)
  {
    AnsweredConcat(es, [a], e);
    assert Answered([a], e) <==> Answers([a][0], e);
  }

  /** Every exported entry is found in the database or answered by an addition. */
  lemma {:induction false} AdditionsCover(db: Database, user: Id, es: seq<Entry>, k: nat)
    requires k < |es|
    ensures Found(db, user, es[k]) || Answered(Additions(db, user, es), es[k])
  {
    var front, last := es[..|es| - 1], es[|es| - 1];
    var some := Additions(db, user, front);
    var more := if Found(db, user, last) || Answered(some, last) then [] else [last];
    AnsweredConcat(some, more, es[k]);
    if k < |front| {
      AdditionsCover(db, user, front, k);
    } else if more != [] {
      assert Answers(more[0], last);
    }
  }

  /** e is the first entry of es with its key. */
  predicate FirstWithKey(es: seq<Entry>, e: Entry) {
    exists k :: 0 <= k < |es| && es[k] == e && !HasKey(es[..k], e)
  }

  predicate DistinctKeys(es: seq<Entry>) {
    forall i, j :: 0 <= i < j < |es| ==> !SameKey(es[i], es[j])
  }

  lemma FirstStaysFirst(front: seq<Entry>, last: Entry, e: Entry)
    requires FirstWithKey(front, e)
    ensures FirstWithKey(front + [last], e)
  {
    var k :| 0 <= k < |front| && front[k] == e && !HasKey(front[..k], e);
    assert (front + [last])[..k] == front[..k] && (front + [last])[k] == e;
  }

  /** An entry that is added has a key no entry before it had. */
  lemma AddedIsFirst(db: Database, user: Id, front: seq<Entry>, e: Entry)
    requires !Found(db, user, e) && !Answered(Additions(db, user, front), e)
    ensures !HasKey(front, e)
  {
    if k :| 0 <= k < |front| && SameKey(front[k], e) {
      AdditionsCover(db, user, front, k);
      FoundByKey(db, user, front[k], e);
      AnsweredByKey(Additions(db, user, front), front[k], e);
    }
  }

  lemma {:induction false} AdditionsAreFirst(db: Database, user: Id, es: seq<Entry>)
    ensures forall a :: a in Additions(db, user, es) ==> !Found(db, user, a) && FirstWithKey(es, a)
  {
    if es != [] {
      var front, last := es[..|es| - 1], es[|es| - 1];
      AdditionsAreFirst(db, user, front);
      assert es == front + [last];
      forall a | a in Additions(db, user, front) ensures FirstWithKey(es, a) {
        FirstStaysFirst(front, last, a);
      }
      if !Found(db, user, last) && !Answered(Additions(db, user, front), last) {
        AddedIsFirst(db, user, front, last);
        assert es[|es| - 1] == last;
      }
    }
  }

  lemma {:induction false} AdditionsDistinct(db: Database, user: Id, es: seq<Entry>)
    ensures DistinctKeys(Additions(db, user, es))
  {
    if es != [] {
      var front, last := es[..|es| - 1], es[|es| - 1];
      AdditionsDistinct(db, user, front);
      var some := Additions(db, user, front);
      forall i | 0 <= i < |some| && SameKey(some[i], last) ensures Answered(some, last) {
        assert Answers(some[i], last);
      }
    }
  }

  lemma {:induction false} AdditionsAreExported(db: Database, user: Id, es: seq<Entry>)
    ensures forall a :: a in Additions(db, user, es) ==> a in es
  {
    if es != [] {
      AdditionsAreExported(db, user, es[..|es| - 1]);
    }
  }

  /** With one target each, the additions have every exported key that the database lacks. */
  lemma CoveredByKey(db: Database, user: Id, es: seq<Entry>, k: nat)
    requires WellTargeted(es) && k < |es|
    ensures Found(db, user, es[k]) || HasKey(Additions(db, user, es), es[k])
  {
    var some := Additions(db, user, es);
    AdditionsCover(db, user, es, k);
    AdditionsAreExported(db, user, es);
    if i :| 0 <= i < |some| && Answers(some[i], es[k]) {
      assert some[i] in es;
      AnswersIsSameKey(some[i], es[k]);
      assert SameKey(some[i], es[k]);
    }
  }

  /** The additions are a union biased to what is there: none of their keys is present, their
      keys are distinct, each is the first exported entry with its key, and together with the
      database they answer every exported entry, with its own key when each review has one target. */
  lemma LeftBiasedUnion(db: Database, user: Id, es: seq<Entry>)
    ensures DistinctKeys(Additions(db, user, es))
    ensures forall a :: a in Additions(db, user, es) ==> !Found(db, user, a) && FirstWithKey(es, a)
    ensures forall k :: 0 <= k < |es| ==> Found(db, user, es[k]) || Answered(Additions(db, user, es), es[k])
    ensures WellTargeted(es) ==>
      forall k :: 0 <= k < |es| ==> Found(db, user, es[k]) || HasKey(Additions(db, user, es), es[k])
  {
    AdditionsDistinct(db, user, es);
    AdditionsAreFirst(db, user, es);
    forall k | 0 <= k < |es| ensures Found(db, user, es[k]) || Answered(Additions(db, user, es), es[k]) {
      AdditionsCover(db, user, es, k);
    }
    if WellTargeted(es) {
      forall k | 0 <= k < |es| ensures Found(db, user, es[k]) || HasKey(Additions(db, user, es), es[k]) {
        CoveredByKey(db, user, es, k);
      }
    }
  }

  // ---------- Merging inserts exactly the additions ----------

  /** The lookup of e finds the row of a exactly when a answers it. */
  lemma FoundAfterInsert(db: Database, user: Id, a: Entry, e: Entry)
    ensures Found(Insert(db, user, a), user, e) <==> Found(db, user, e) || Answers(a, e)
  {
    FoundStays(db, user, a, e);
    var after := Insert(db, user, a);
    match (a, e)
    case (OfCollection(c), OfCollection(d)) =>
      assert after.collections[|db.collections|].data == c.(userId := user);
    case (OfStatus(s), OfStatus(t)) =>
      assert after.statuses[|db.statuses|].data == s.(userId := user);
    case (OfReview(q), OfReview(r)) =>
      assert after.reviews[|db.reviews|].data == OwnReview(user, q);
    case (OfSession(t), OfSession(u)) =>
      assert after.sessions[|db.sessions|].data == OwnSession(user, t);
    case _ =>
  }

  lemma {:induction false} FoundAfterAll(db: Database, user: Id, es: seq<Entry>, e: Entry)
    requires InsertAll(db, user, es).Some?
    ensures Found(InsertAll(db, user, es).value, user, e) <==> Found(db, user, e) || Answered(es, e)
  {
    if es != [] {
      var front, last := es[..|es| - 1], es[|es| - 1];
      FoundAfterAll(db, user, front, e);
      FoundAfterInsert(InsertAll(db, user, front).value, user, last, e);
      assert es == front + [last];
      AnsweredSnoc(front, last, e);
    }
  }

  lemma InsertAllSnoc(db: Database, user: Id, es: seq<Entry>, e: Entry)
    ensures InsertAll(db, user, es + [e])
      == if InsertAll(db, user, es).None? then None else TryInsert(InsertAll(db, user, es).value, user, e)
  {
    assert (es + [e])[..|es|] == es;
  }

  /** A merge-restore succeeds exactly when its additions can all be inserted, and then its
      result is the database with exactly those rows appended. */
  lemma {:induction false} MergeInsertsAdditions(db: Database, user: Id, es: seq<Entry>)
    ensures Merge(db, user, es).ok <==> InsertAll(db, user, Additions(db, user, es)).Some?
    ensures Merge(db, user, es).ok ==> Merge(db, user, es).db == InsertAll(db, user, Additions(db, user, es)).value
  {
    if es != [] {
      var front, last := es[..|es| - 1], es[|es| - 1];
      MergeInsertsAdditions(db, user, front);
      var some := Additions(db, user, front);
      InsertAllSnoc(db, user, some, last);
      assert some + [] == some;
      if Merge(db, user, front).ok {
        FoundAfterAll(db, user, some, last);
      }
    }
  }
}
