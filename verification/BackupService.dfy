/** The restore service: merge commits row by row, replace commits once. */
module BackupService {
  import opened Sql
  import opened Schema
  import opened Backup

  datatype Counts = Counts(created: nat, skipped: nat)

  datatype Report = Report(collections: Counts, statuses: Counts, reviews: Counts, sessions: Counts)

  datatype Failure = IntegrityError | ReplaceDisabled | ConfirmationRequired

  lemma MergeSnoc(db: Database, user: Id, es: seq<Entry>, e: Entry)
    ensures Merge(db, user, es + [e]) == MergeStep(Merge(db, user, es), user, e)
  {
    assert (es + [e])[..|es|] == es;
  }

  lemma InsertAllNext(db: Database, user: Id, es: seq<Entry>, n: nat)
    requires n < |es|
    ensures InsertAll(db, user, es[..n + 1])
      == if InsertAll(db, user, es[..n]).None? then None else TryInsert(InsertAll(db, user, es[..n]).value, user, es[n])
  {
    assert es[..n + 1][..n] == es[..n];
  }

  lemma {:induction false} InsertAllPrefix(db: Database, user: Id, es: seq<Entry>, n: nat)
    requires n <= |es| && InsertAll(db, user, es[..n]).None?
    ensures InsertAll(db, user, es).None?
    decreases |es| - n
  {
    if n < |es| {
      InsertAllNext(db, user, es, n);
      InsertAllPrefix(db, user, es, n + 1);
    } else {
      assert es[..n] == es;
    }
  }

  lemma {:induction false} MergePrefix(db: Database, user: Id, es: seq<Entry>, n: nat)
    requires n <= |es| && !Merge(db, user, es[..n]).ok
    ensures Merge(db, user, es) == Merge(db, user, es[..n])
    decreases |es| - n
  {
    if n < |es| {
      assert es[..n + 1] == es[..n] + [es[n]];
      MergeSnoc(db, user, es[..n], es[n]);
      MergePrefix(db, user, es, n + 1);
    } else {
      assert es[..n] == es;
    }
  }

  ghost predicate AllOf(kind: nat, es: seq<Entry>) {
    forall i :: 0 <= i < |es| ==> Kind(es[i]) == kind
  }

  lemma EntriesHaveKinds(e: Export)
    ensures AllOf(0, CollectionEntries(e.collections)) && AllOf(1, StatusEntries(e.statuses))
    ensures AllOf(2, ReviewEntries(e.reviews)) && AllOf(3, SessionEntries(e.sessions))
    ensures |CollectionEntries(e.collections)| == |e.collections| && |StatusEntries(e.statuses)| == |e.statuses|
    ensures |ReviewEntries(e.reviews)| == |e.reviews| && |SessionEntries(e.sessions)| == |e.sessions|
  {
  }

  lemma EntriesSplit(e: Export, cs: seq<Entry>, ss: seq<Entry>, rs: seq<Entry>, ts: seq<Entry>)
    requires cs == CollectionEntries(e.collections) && ss == StatusEntries(e.statuses)
    requires rs == ReviewEntries(e.reviews) && ts == SessionEntries(e.sessions)
    ensures Entries(e) == cs + ss + rs + ts && [] + cs == cs
    ensures cs + ss + rs + ts == cs + (ss + rs + ts) && cs + ss + rs + ts == cs + ss + (rs + ts)
  {
  }

  class RestoreService {
    var db: Database         // what the open transaction sees
    var committed: Database
    var replaceEnabled: bool

    /** One entry of the merge loop: look up, then create and commit. */
    method MergeEntry(user: Id, e: Entry) returns (created: bool, refused: bool)
      requires db == committed
      modifies this`db, this`committed
      ensures db == committed == MergeStep(Progress(old(db), true), user, e).db
      ensures refused <==> !MergeStep(Progress(old(db), true), user, e).ok
      ensures created <==> !Found(old(db), user, e) && !refused
      ensures SizesOf(db) == SizesOf(old(db)).Plus(Kind(e), if created then 1 else 0)
    {
      if Found(db, user, e) {
        return false, false;
      }
      var r := TryInsert(db, user, e);
      if r.None? {
        db := committed;  // rollback
        return false, true;
      }
      db := r.value;
      committed := db;
      return true, false;
    }

    /** One of the four loops. */
    method MergeEntries(user: Id, es: seq<Entry>, ghost start: Database, ghost done: seq<Entry>, ghost kind: nat)
      returns (c: Counts, refused: bool)
      requires db == committed && Progress(db, true) == Merge(start, user, done)
      requires AllOf(kind, es)
      modifies this`db, this`committed
      ensures db == committed && Progress(db, !refused) == Merge(start, user, done + es)
      ensures !refused ==> c.created + c.skipped == |es|
      ensures SizesOf(db) == SizesOf(old(db)).Plus(kind, c.created)
    {
      c, refused := Counts(0, 0), false;
      assert done + [] == done;
      for i := 0 to |es|
        invariant db == committed && !refused && c.created + c.skipped == i
        invariant Progress(db, true) == Merge(start, user, done + es[..i])
        invariant SizesOf(db) == SizesOf(old(db)).Plus(kind, c.created)
      {
        var created;
        MergeSnoc(start, user, done + es[..i], es[i]);
        assert done + es[..i] + [es[i]] == done + es[..i + 1];
        created, refused := MergeEntry(user, es[i]);
        if refused {
          assert (done + es)[..|done| + i + 1] == done + es[..i + 1];
          MergePrefix(start, user, done + es, |done| + i + 1);
          return;
        }
        c := if created then c.(created := c.created + 1) else c.(skipped := c.skipped + 1);
      }
      assert es[..|es|] == es;
    }

    /** _restore_merge. */
    method RestoreMerge(user: Id, e: Export) returns (r: Result<Report, Failure>)
      requires db == committed
      modifies this`db, this`committed
      ensures db == committed && Progress(db, r.Ok?) == Merge(old(db), user, Entries(e))
      ensures r.Err? ==> r.error == IntegrityError
      ensures r.Ok? ==>
        && r.value.collections.created + r.value.collections.skipped == |e.collections|
        && r.value.statuses.created + r.value.statuses.skipped == |e.statuses|
        && r.value.reviews.created + r.value.reviews.skipped == |e.reviews|
        && r.value.sessions.created + r.value.sessions.skipped == |e.sessions|
      ensures r.Ok? ==> SizesOf(db) == Sizes(
        |old(db).collections| + r.value.collections.created, |old(db).statuses| + r.value.statuses.created,
        |old(db).reviews| + r.value.reviews.created, |old(db).sessions| + r.value.sessions.created)
    {
      ghost var start := db;
      EntriesHaveKinds(e);
      var refused;
      var collections, statuses, reviews, sessions;
      ghost var cs, ss := CollectionEntries(e.collections), StatusEntries(e.statuses);
      ghost var rs, ts := ReviewEntries(e.reviews), SessionEntries(e.sessions);
      EntriesSplit(e, cs, ss, rs, ts);
      collections, refused := MergeEntries(user, CollectionEntries(e.collections), start, [], 0);
      if refused {
        LaterEntriesDoNotRun(start, user, cs, ss + rs + ts, e);
        return Err(IntegrityError);
      }
      statuses, refused := MergeEntries(user, StatusEntries(e.statuses), start, cs, 1);
      if refused {
        LaterEntriesDoNotRun(start, user, cs + ss, rs + ts, e);
        return Err(IntegrityError);
      }
      reviews, refused := MergeEntries(user, ReviewEntries(e.reviews), start, cs + ss, 2);
      if refused {
        LaterEntriesDoNotRun(start, user, cs + ss + rs, ts, e);
        return Err(IntegrityError);
      }
      sessions, refused := MergeEntries(user, SessionEntries(e.sessions), start, cs + ss + rs, 3);
      if refused {
        return Err(IntegrityError);
      }
      r := Ok(Report(collections, statuses, reviews, sessions));
    }

    /** The flush of the commit writes the rows that were added to the session. */
    method Flush(user: Id, pending: seq<Entry>) returns (ok: bool)
      modifies this`db
      ensures ok <==> InsertAll(old(db), user, pending).Some?
      ensures ok ==> Some(db) == InsertAll(old(db), user, pending)
    {
      ghost var start := db;
      for i := 0 to |pending|
        invariant InsertAll(start, user, pending[..i]) == Some(db)
      {
        InsertAllNext(start, user, pending, i);
        var next := TryInsert(db, user, pending[i]);
        if next.None? {
          InsertAllPrefix(start, user, pending, i + 1);
          return false;
        }
        db := next.value;
      }
      assert pending[..|pending|] == pending;
      ok := true;
    }

    /** _restore_replace: the purge and every insertion are committed together or not at all. */
    method RestoreReplace(user: Id, e: Export) returns (r: Result<Report, Failure>)
      requires db == committed
      modifies this`db, this`committed
      ensures db == committed
      ensures r.Ok? <==> Replace(old(db), user, Entries(e)).Some?
      ensures r.Ok? ==> Some(db) == Replace(old(db), user, Entries(e))
      ensures r.Err? ==> db == old(db) && r.error == IntegrityError
      ensures r.Ok? ==> r.value == Report(Counts(|e.collections|, 0), Counts(|e.statuses|, 0),
                                          Counts(|e.reviews|, 0), Counts(|e.sessions|, 0))
    {
      if CollectionAttached(db, user) {
        return Err(IntegrityError);
      }
      db := Purged(db, user);
      var ok := Flush(user, Entries(e));
      if !ok {
        db := committed;  // rollback
        return Err(IntegrityError);
      }
      committed := db;
      r := Ok(Report(Counts(|e.collections|, 0), Counts(|e.statuses|, 0), Counts(|e.reviews|, 0),
        Counts(|e.sessions|, 0)));
    }

    /** restore, once the backup file has been fetched and parsed. */
    method Restore(user: Id, e: Export, replace: bool, confirm: bool) returns (r: Result<Report, Failure>)
      requires db == committed
      modifies this`db, this`committed
      ensures db == committed
      ensures replace && !replaceEnabled ==> r == Err(ReplaceDisabled) && db == old(db)
      ensures replace && replaceEnabled && !confirm ==> r == Err(ConfirmationRequired) && db == old(db)
      ensures replace && replaceEnabled && confirm ==>
        if r.Ok? then Some(db) == Replace(old(db), user, Entries(e))
        else db == old(db) && r.error == IntegrityError && Replace(old(db), user, Entries(e)).None?
      ensures !replace ==> Progress(db, r.Ok?) == Merge(old(db), user, Entries(e))
    {
      if replace {
        if !replaceEnabled {
          return Err(ReplaceDisabled);
        }
        if !confirm {
          return Err(ConfirmationRequired);
        }
        r := RestoreReplace(user, e);
      } else {
        r := RestoreMerge(user, e);
      }
    }
  }

  lemma LaterEntriesDoNotRun(db: Database, user: Id, done: seq<Entry>, rest: seq<Entry>, e: Export)
    requires !Merge(db, user, done).ok && Entries(e) == done + rest
    ensures Merge(db, user, Entries(e)) == Merge(db, user, done)
  {
    assert (done + rest)[..|done|] == done;
    MergePrefix(db, user, done + rest, |done|);
  }
}
