/** Purging many accounts: what one purge does is its own, but a run ends at the first that fails,
    so the order decides which accounts it reaches. */
module AccountPurgeRuns {
  import opened Sql
  import opened Schema
  import opened Runs
  import Backup
  import opened AccountPurge
  import opened AccountPurgeLaws

  /** The account can be purged: no chat message attaches one of its collections, no version records one of
      its contributions, and no chat or import row names it. */
  predicate Purgeable(db: Database, u: Id) {
    !Backup.CollectionAttached(db, u) && !ContributionRecorded(db, u) && !UserReferenced(db, u)
  }

  // ---------- One account does not affect another ----------

  lemma DeleteKeepsWhere<D(!new)>(t: Table<D>, p: D -> bool, q: D -> bool)
    requires forall d :: q(d) ==> !p(d)
    ensures Where(DeleteWhere(t, p), q) == Where(t, q)
  {
    WhereWhere(t, d => !p(d), q, q);
  }

  lemma OthersCollectionsStay(db: Database, u: Id, v: Id)
    requires u != v
    ensures Backup.CollectionsOf(PurgedTables(db, u), v) == Backup.CollectionsOf(db, v)
  {
    DeleteKeepsWhere(db.collections, c => Backup.Mine(u, c), c => Backup.Mine(v, c));
  }

  lemma OthersProposalsStay(db: Database, u: Id, v: Id)
    requires u != v
    ensures Keys(ContributionsOf(PurgedTables(db, u), v)) == Keys(ContributionsOf(db, v))
  {
    var detached := UpdateWhere(db.contributions, c => ReviewedBy(u, c), Unreviewed);
    DeleteKeepsWhere(detached, c => ProposedBy(u, c), c => ProposedBy(v, c));
    SameOwners(db.contributions, c => ReviewedBy(u, c), Unreviewed, c => ProposedBy(v, c));
  }

  /** What decides v's purge is the same in both states. */
  ghost predicate SameFor(db: Database, e: Database, v: Id) {
    && Backup.CollectionAttached(e, v) == Backup.CollectionAttached(db, v)
    && ContributionRecorded(e, v) == ContributionRecorded(db, v)
    && UserReferenced(e, v) == UserReferenced(db, v)
    && (v in e.users <==> v in db.users)
  }

  lemma TablesPurgedForOthers(db: Database, u: Id, v: Id)
    requires u != v
    ensures SameFor(db, PurgedTables(db, u), v)
  {
    var after := PurgedTables(db, u);
    OthersCollectionsStay(db, u, v);
    SameAttached(db, after, v);
    OthersProposalsStay(db, u, v);
    SameRecorded(db, after, v);
  }

  lemma DeletedForOthers(db: Database, u: Id, v: Id)
    requires u != v
    ensures SameFor(db, WithoutUser(db, u), v)
  {
    SameAttached(db, WithoutUser(db, u), v);
    SameRecorded(db, WithoutUser(db, u), v);
  }

  /** A purge is refused as a whole, or stops before the user row, or is finished. */
  lemma PurgeOneIs(db: Database, u: Id)
    ensures var after := PurgeOne(db, u).db;
      if Backup.CollectionAttached(db, u) || ContributionRecorded(db, u) then after == db
      else if u !in db.users || UserReferenced(db, u) then after == PurgedTables(db, u)
      else after == WithoutUser(PurgedTables(db, u), u)
  {
    var after := PurgedTables(db, u);
    assert after.messages == db.messages && after.threads == db.threads && after.imports == db.imports;
  }

  /** The purge of one account, finished or not, leaves every condition of another's as it was. */
  lemma PurgeIsLocal(db: Database, u: Id, v: Id)
    requires u != v
    ensures SameFor(db, PurgeOne(db, u).db, v)
  {
    PurgeOneIs(db, u);
    TablesPurgedForOthers(db, u, v);
    DeletedForOthers(PurgedTables(db, u), u, v);
  }

  lemma UsersAfter(db: Database, u: Id)
    requires u in db.users
    ensures PurgeOne(db, u).ok <==> Purgeable(db, u)
    ensures PurgeOne(db, u).db.users == if Purgeable(db, u) then db.users - {u} else db.users
  {
    PurgedIff(db, u);
  }

  // ---------- Every constraint holds after a run ----------

  lemma PurgedTablesKeep(db: Database, u: Id)
    requires Consistent(db) && !Backup.CollectionAttached(db, u) && !ContributionRecorded(db, u)
    ensures Consistent(PurgedTables(db, u))
  {
    PurgeKeepsConstraints(db, u, 8);
    AllStatements(db, u);
  }

  lemma TablesKeepReferences(db: Database, u: Id)
    ensures UserReferenced(PurgedTables(db, u), u) == UserReferenced(db, u)
  {
    var after := PurgedTables(db, u);
    assert after.messages == db.messages && after.threads == db.threads && after.imports == db.imports;
  }

  lemma PurgeOneKeeps(db: Database, u: Id)
    requires Consistent(db)
    ensures Consistent(PurgeOne(db, u).db)
  {
    PurgeOneIs(db, u);
    if !Backup.CollectionAttached(db, u) && !ContributionRecorded(db, u) {
      PurgedTablesKeep(db, u);
      PurgeDetaches(db, u);
      TablesKeepReferences(db, u);
      if !UserReferenced(db, u) {
        WithoutUserKeeps(PurgedTables(db, u), u);
      }
    }
  }

  /** A run keeps every constraint, finished purges and unfinished ones alike. */
  lemma {:induction false} RunKeepsConstraints(db: Database, us: seq<Id>)
    requires Consistent(db)
    ensures Consistent(PurgeAll(db, us).db)
    decreases |us|
  {
    if us != [] {
      var a := PurgeOne(db, us[0]);
      Tried(PurgeOne, db, us, a, us[1..], 0);
      PurgeOneKeeps(db, us[0]);
      if a.ok {
        RunKeepsConstraints(a.db, us[1..]);
      }
    }
  }

  // ---------- The order of single purges ----------

  lemma DeletesCommute<D(!new)>(t: Table<D>, p: D -> bool, q: D -> bool)
    ensures DeleteWhere(DeleteWhere(t, p), q) == DeleteWhere(DeleteWhere(t, q), p)
  {
    WhereWhere(t, d => !p(d), d => !q(d), d => !p(d) && !q(d));
    WhereWhere(t, d => !q(d), d => !p(d), d => !p(d) && !q(d));
  }

  /** Two updates that clear one column, of different rows. */
  lemma UpdatesCommute<D(!new)>(t: Table<D>, p: D -> bool, q: D -> bool, f: D -> D)
    requires forall d :: !(p(d) && q(d)) && !p(f(d)) && !q(f(d))
    ensures UpdateWhere(UpdateWhere(t, p, f), q, f) == UpdateWhere(UpdateWhere(t, q, f), p, f)
  {
  }

  lemma {:induction false} UpdateThenDelete<D(!new)>(t: Table<D>, w: D -> bool, f: D -> D, p: D -> bool)
    requires forall d :: p(f(d)) == p(d)
    ensures DeleteWhere(UpdateWhere(t, w, f), p) == UpdateWhere(DeleteWhere(t, p), w, f)
  {
    if t != [] {
      var u := UpdateWhere(t, w, f);
      assert u[1..] == UpdateWhere(t[1..], w, f);
      UpdateThenDelete(t[1..], w, f, p);
      DeleteHead(t, p);
      DeleteHead(u, p);
      if !p(t[0].data) {
        UpdateHead(t[0], DeleteWhere(t[1..], p), w, f);
      }
    }
  }

  lemma DeleteHead<D(!new)>(t: Table<D>, p: D -> bool)
    requires t != []
    ensures DeleteWhere(t, p) == if p(t[0].data) then DeleteWhere(t[1..], p) else [t[0]] + DeleteWhere(t[1..], p)
  {
  }

  lemma UpdateHead<D(!new)>(r: Row<D>, t: Table<D>, w: D -> bool, f: D -> D)
    ensures UpdateWhere([r] + t, w, f) == [UpdateRow(r, w, f)] + UpdateWhere(t, w, f)
  {
  }

  /** Clearing a column and deleting rows, for one user and for another. */
  lemma ClearDeleteCommute<D(!new)>(t: Table<D>, w: D -> bool, p: D -> bool, w': D -> bool, p': D -> bool, f: D -> D)
    requires forall d :: p(f(d)) == p(d) && p'(f(d)) == p'(d)
    requires forall d :: !(w(d) && w'(d)) && !w(f(d)) && !w'(f(d))
    ensures DeleteWhere(UpdateWhere(DeleteWhere(UpdateWhere(t, w, f), p), w', f), p')
      == DeleteWhere(UpdateWhere(DeleteWhere(UpdateWhere(t, w', f), p'), w, f), p)
  {
    var u, u' := UpdateWhere(t, w, f), UpdateWhere(t, w', f);
    UpdateThenDelete(u, w', f, p);
    UpdateThenDelete(u', w, f, p');
    UpdatesCommute(t, w, w', f);
    DeletesCommute(UpdateWhere(u, w', f), p, p');
  }

  /** The tables of one purge, each from the statements that write it. */
  lemma PurgedTablesAre(db: Database, u: Id)
    ensures var after := PurgedTables(db, u);
      var gone := Keys(Backup.CollectionsOf(db, u));
      && after.reviews == UpdateWhere(db.reviews, r => WroteReview(u, r), Anonymous)
      && after.statuses == DeleteWhere(UpdateWhere(db.statuses, s => LentTo(u, s), NotLentTo), s => ShelvedBy(u, s))
      && after.contributions
           == DeleteWhere(UpdateWhere(db.contributions, c => ReviewedBy(u, c), Unreviewed), c => ProposedBy(u, c))
      && after.sessions == DeleteWhere(db.sessions, s => ReadBy(u, s))
      && after.collections == DeleteWhere(db.collections, c => Backup.Mine(u, c))
      && after.items == DeleteWhere(db.items, (i: CollectionItem) => i.collectionId in gone)
      && after.friendships == DeleteWhere(db.friendships, f => Involves(u, f))
      && after == db.(reviews := after.reviews, statuses := after.statuses, contributions := after.contributions,
                      sessions := after.sessions, collections := after.collections, items := after.items,
                      friendships := after.friendships)
  {
  }

  lemma ShelvesCommute(db: Database, u: Id, v: Id)
    requires u != v
    ensures var x, y := PurgedTables(PurgedTables(db, u), v), PurgedTables(PurgedTables(db, v), u);
      x.reviews == y.reviews && x.statuses == y.statuses && x.contributions == y.contributions
  {
    PurgedTablesAre(db, u);
    PurgedTablesAre(db, v);
    PurgedTablesAre(PurgedTables(db, u), v);
    PurgedTablesAre(PurgedTables(db, v), u);
    UpdatesCommute(db.reviews, r => WroteReview(u, r), r => WroteReview(v, r), Anonymous);
    ClearDeleteCommute(db.statuses, s => LentTo(u, s), s => ShelvedBy(u, s),
      s => LentTo(v, s), s => ShelvedBy(v, s), NotLentTo);
    ClearDeleteCommute(db.contributions, c => ReviewedBy(u, c), c => ProposedBy(u, c),
      c => ReviewedBy(v, c), c => ProposedBy(v, c), Unreviewed);
  }

  lemma RestCommutes(db: Database, u: Id, v: Id)
    requires u != v
    ensures var x, y := PurgedTables(PurgedTables(db, u), v), PurgedTables(PurgedTables(db, v), u);
      x.sessions == y.sessions && x.collections == y.collections && x.items == y.items && x.friendships == y.friendships
  {
    PurgedTablesAre(db, u);
    PurgedTablesAre(db, v);
    PurgedTablesAre(PurgedTables(db, u), v);
    PurgedTablesAre(PurgedTables(db, v), u);
    OthersCollectionsStay(db, u, v);
    OthersCollectionsStay(db, v, u);
    var ofU, ofV := Keys(Backup.CollectionsOf(db, u)), Keys(Backup.CollectionsOf(db, v));
    DeletesCommute(db.sessions, s => ReadBy(u, s), s => ReadBy(v, s));
    DeletesCommute(db.collections, c => Backup.Mine(u, c), c => Backup.Mine(v, c));
    DeletesCommute(db.items, (i: CollectionItem) => i.collectionId in ofU,
      (i: CollectionItem) => i.collectionId in ofV);
    DeletesCommute(db.friendships, f => Involves(u, f), f => Involves(v, f));
  }

  lemma TablesCommute(db: Database, u: Id, v: Id)
    requires u != v
    ensures PurgedTables(PurgedTables(db, u), v) == PurgedTables(PurgedTables(db, v), u)
  {
    PurgedTablesAre(db, u);
    PurgedTablesAre(db, v);
    PurgedTablesAre(PurgedTables(db, u), v);
    PurgedTablesAre(PurgedTables(db, v), u);
    ShelvesCommute(db, u, v);
    RestCommutes(db, u, v);
  }

  lemma DeletionCommutes(db: Database, u: Id, v: Id)
    ensures PurgedTables(WithoutUser(db, u), v) == WithoutUser(PurgedTables(db, v), u)
  {
    PurgedTablesAre(db, v);
    PurgedTablesAre(WithoutUser(db, u), v);
  }

  lemma DeletionsCommute(db: Database, u: Id, v: Id)
    ensures WithoutUser(WithoutUser(db, u), v) == WithoutUser(WithoutUser(db, v), u)
  {
    DeletesCommute(db.attendants, a => AttendsTo(u, a), a => AttendsTo(v, a));
    assert db.users - {u} - {v} == db.users - {v} - {u};
  }

  datatype Extent = Refused | Half | Whole

  function ExtentOf(db: Database, u: Id): Extent {
    if Backup.CollectionAttached(db, u) || ContributionRecorded(db, u) then Refused
    else if u !in db.users || UserReferenced(db, u) then Half
    else Whole
  }

  function Purge(db: Database, u: Id, e: Extent): Database {
    match e
    case Refused => db
    case Half => PurgedTables(db, u)
    case Whole => WithoutUser(PurgedTables(db, u), u)
  }

  lemma ExtentsCommute(db: Database, u: Id, v: Id, e: Extent, f: Extent)
    requires u != v
    ensures Purge(Purge(db, u, e), v, f) == Purge(Purge(db, v, f), u, e)
  {
    TablesCommute(db, u, v);
    DeletionCommutes(PurgedTables(db, u), u, v);
    DeletionCommutes(PurgedTables(db, v), v, u);
    DeletionsCommute(PurgedTables(PurgedTables(db, u), v), u, v);
  }

  lemma PurgeHasExtent(db: Database, u: Id)
    ensures PurgeOne(db, u).db == Purge(db, u, ExtentOf(db, u))
  {
    PurgeOneIs(db, u);
  }

  lemma TwicePurged(db: Database, u: Id, v: Id)
    requires u != v
    ensures PurgeOne(PurgeOne(db, u).db, v).db == Purge(Purge(db, u, ExtentOf(db, u)), v, ExtentOf(db, v))
  {
    PurgeHasExtent(db, u);
    PurgeHasExtent(PurgeOne(db, u).db, v);
    PurgeIsLocal(db, u, v);
  }

  /** Two accounts are purged to the same database in either order. */
  lemma PurgesCommute(db: Database, u: Id, v: Id)
    ensures PurgeOne(PurgeOne(db, u).db, v).db == PurgeOne(PurgeOne(db, v).db, u).db
  {
    if u != v {
      TwicePurged(db, u, v);
      TwicePurged(db, v, u);
      ExtentsCommute(db, u, v, ExtentOf(db, u), ExtentOf(db, v));
    }
  }

  // ---------- The whole run ----------

  /** What the query of a run gives: users, each once. */
  ghost predicate Listed(db: Database, us: seq<Id>) {
    Distinct(us) && Elements(us) <= db.users
  }

  function PurgeableOf(db: Database, us: seq<Id>): set<Id> {
    set u | u in us && Purgeable(db, u)
  }

  function UsersOf(db: Database): set<Id> {
    db.users
  }

  lemma OutcomeIs(db: Database, u: Id)
    ensures PurgeOne(db, u).ok <==> !Backup.CollectionAttached(db, u) && !ContributionRecorded(db, u)
                                    && (u in db.users ==> !UserReferenced(db, u))
    ensures UsersOf(PurgeOne(db, u).db) == if PurgeOne(db, u).ok then db.users - {u} else db.users
  {
    TablesKeepReferences(db, u);
  }

  lemma OutcomeStays(db: Database, u: Id, v: Id)
    requires u != v
    ensures PurgeOne(PurgeOne(db, u).db, v).ok == PurgeOne(db, v).ok
  {
    PurgeIsLocal(db, u, v);
    OutcomeIs(db, v);
    OutcomeIs(PurgeOne(db, u).db, v);
  }

  lemma FailsAgain(db: Database, u: Id)
    ensures !PurgeOne(db, u).ok ==> PurgeOne(PurgeOne(db, u).db, u) == Attempt(PurgeOne(db, u).db, false)
  {
    PurgeIsIdempotent(db, u);
    PurgeOneIs(db, u);
    OutcomeIs(db, u);
    OutcomeIs(PurgeOne(db, u).db, u);
    TablesKeepReferences(db, u);
  }

  /** What the laws of runs ask of a step. */
  lemma PurgesAreSteps()
    ensures Independent(PurgeOne) && Commuting(PurgeOne) && Removes(PurgeOne, UsersOf)
    ensures forall db, u :: !PurgeOne(db, u).ok ==>
      PurgeOne(PurgeOne(db, u).db, u) == Attempt(PurgeOne(db, u).db, false)
  {
    forall db, u, v | u != v ensures PurgeOne(PurgeOne(db, u).db, v).ok == PurgeOne(db, v).ok {
      OutcomeStays(db, u, v);
    }
    forall db, u, v ensures PurgeOne(PurgeOne(db, u).db, v).db == PurgeOne(PurgeOne(db, v).db, u).db {
      PurgesCommute(db, u, v);
    }
    forall db, u ensures UsersOf(PurgeOne(db, u).db) == if PurgeOne(db, u).ok then UsersOf(db) - {u} else UsersOf(db) {
      OutcomeIs(db, u);
    }
    forall db, u
      ensures !PurgeOne(db, u).ok ==> PurgeOne(PurgeOne(db, u).db, u) == Attempt(PurgeOne(db, u).db, false)
    {
      FailsAgain(db, u);
    }
  }

  lemma ListedOutcomes(db: Database, us: seq<Id>)
    requires Listed(db, us)
    ensures forall u :: u in us ==> PurgeOne(db, u).ok == Purgeable(db, u)
  {
    forall u | u in us ensures PurgeOne(db, u).ok == Purgeable(db, u) {
      assert u in Elements(us);
      OutcomeIs(db, u);
    }
  }

  /** A run gets past an account exactly when it got past those before it, and this one could be purged at
      the start of the run. */
  lemma OutcomeIsItsOwn(db: Database, before: seq<Id>, u: Id)
    requires u in db.users && u !in before
    ensures PurgeAll(db, before + [u]).count.Some? <==> PurgeAll(db, before).count.Some? && Purgeable(db, u)
  {
    PurgesAreSteps();
    RunIsLocal(PurgeOne, db, before, u);
    RunsCompose(PurgeOne, db, before, [u]);
    OutcomeIs(db, u);
  }

  /** A run completes exactly when every account could be purged at its start. Then it counts and removes
      them all. */
  lemma RunCompletesIff(db: Database, us: seq<Id>)
    requires Listed(db, us)
    ensures PurgeAll(db, us).count.Some? <==> forall u :: u in us ==> Purgeable(db, u)
    ensures PurgeAll(db, us).count.Some? ==>
      PurgeAll(db, us).count == Some(|us|) && PurgeAll(db, us).db.users == db.users - Elements(us)
  {
    PurgesAreSteps();
    ListedOutcomes(db, us);
    RunCounts(PurgeOne, db, us);
    RunRemoves(PurgeOne, UsersOf, db, us);
    assert us[..|us|] == us;
  }

  /** A run that does not complete ends with the first account that could not be purged: the database is that
      after a completed run over those before it and this one's failed purge, and all users from there on stay. */
  lemma RunEndsAt(db: Database, us: seq<Id>, k: nat)
    requires Listed(db, us)
    requires k < |us| && !Purgeable(db, us[k]) && forall i :: 0 <= i < k ==> Purgeable(db, us[i])
    ensures PurgeAll(db, us[..k]).count == Some(k)
    ensures PurgeAll(db, us) == Summary(PurgeOne(PurgeAll(db, us[..k]).db, us[k]).db, None)
    ensures PurgeAll(db, us).db.users == db.users - Elements(us[..k])
    ensures forall i :: k <= i < |us| ==> us[i] in PurgeAll(db, us).db.users
  {
    PurgesAreSteps();
    ListedOutcomes(db, us);
    RunStops(PurgeOne, db, us, k);
    RunRemoves(PurgeOne, UsersOf, db, us);
    forall i | k <= i < |us| ensures us[i] in PurgeAll(db, us).db.users {
      assert us[i] in Elements(us);
    }
  }

  /** A run removes the accounts that could be purged at its start, and these alone, exactly when none of
      them is listed after one that could not. */
  lemma PurgesThePurgeableIff(db: Database, us: seq<Id>)
    requires Listed(db, us)
    ensures PurgeAll(db, us).db.users == db.users - PurgeableOf(db, us)
      <==> forall i, j :: 0 <= i < j < |us| && Purgeable(db, us[j]) ==> Purgeable(db, us[i])
  {
    PurgesAreSteps();
    ListedOutcomes(db, us);
    RemovesSucceedingIff(PurgeOne, UsersOf, db, us);
    assert Succeeding(PurgeOne, db, us) == PurgeableOf(db, us);
    PurgeableFirst(db, us);
  }

  lemma PurgeableFirst(db: Database, us: seq<Id>)
    requires forall u :: u in us ==> PurgeOne(db, u).ok == Purgeable(db, u)
    ensures SuccessesFirst(PurgeOne, db, us)
      <==> forall i, j :: 0 <= i < j < |us| && Purgeable(db, us[j]) ==> Purgeable(db, us[i])
  {
    assert forall i :: 0 <= i < |us| ==> PurgeOne(db, us[i]).ok == Purgeable(db, us[i]);
  }

  /** Whether a run completes does not depend on the order, and a completed run leaves the same database and
      the same count in any order. */
  lemma OrderDoesNotMatter(db: Database, us: seq<Id>, vs: seq<Id>)
    requires Listed(db, us) && Permutes(us, vs)
    ensures PurgeAll(db, us).count.Some? <==> PurgeAll(db, vs).count.Some?
    ensures PurgeAll(db, us).count.Some? ==> PurgeAll(db, us) == PurgeAll(db, vs)
  {
    PurgesAreSteps();
    CompletedInAnyOrder(PurgeOne, db, us, vs);
  }

  /** Single purges, one after another and failures passed over, leave the same database in any order. */
  lemma PurgesInAnyOrder(db: Database, us: seq<Id>, vs: seq<Id>)
    requires Permutes(us, vs)
    ensures After(PurgeOne, db, us) == After(PurgeOne, db, vs)
  {
    PurgesAreSteps();
    AnyOrder(PurgeOne, db, us, vs);
  }

  /** Which users a run leaves depends on the order exactly when some of the accounts can be purged and some
      cannot. */
  lemma RunOrderMattersIff(db: Database, us: seq<Id>)
    requires Listed(db, us)
    ensures DependsOnOrder(PurgeOne, UsersOf, db, us)
      <==> exists u, v :: u in us && v in us && Purgeable(db, u) && !Purgeable(db, v)
  {
    PurgesAreSteps();
    ListedOutcomes(db, us);
    DependsOnOrderIff(PurgeOne, UsersOf, db, us);
  }

  /** The next run over the accounts left, in the same order, ends at the same account and changes nothing: no
      account after it is ever purged. */
  lemma NextRunChangesNothing(db: Database, us: seq<Id>, k: nat)
    requires Listed(db, us)
    requires k < |us| && !Purgeable(db, us[k]) && forall i :: 0 <= i < k ==> Purgeable(db, us[i])
    ensures PurgeAll(PurgeAll(db, us).db, us[k..]) == PurgeAll(db, us)
  {
    PurgesAreSteps();
    ListedOutcomes(db, us);
    RunStops(PurgeOne, db, us, k);
    NextRunIsStuck(PurgeOne, db, us);
  }

  /** Three users, two of whom have a thread. */
  function ThirdUser(u: Id, v: Id, w: Id): Database {
    OneThread(u, v).(users := {u, v, w})
  }

  lemma OnlyThreadOk(users: set<Id>, t: Row<ChatThread>)
    requires ThreadRowOk(users, t.data)
    ensures Consistent(Empty(users, t.id + 1).(threads := [t]))
  {
  }

  /** Tried first, one of the two ends the run and the third stays; tried last, the third is gone. */
  lemma FailureStopsRest(u: Id, v: Id, w: Id, db: Database)
    requires u < v && w != u && w != v && db == ThirdUser(u, v, w)
    ensures Consistent(db) && Purgeable(db, w)
    ensures PurgeAll(db, [u, w]).count.None? && PurgeAll(db, [u, w]).db.users == {u, v, w}
    ensures PurgeAll(db, [w, u]).count.None? && PurgeAll(db, [w, u]).db.users == {u, v}
  {
    ThirdUserIs(u, v, w);
    OneOfTwo(db, u, w);
    assert {u, v, w} - {w} == {u, v};
  }

  lemma OneOfTwo(db: Database, u: Id, w: Id)
    requires u in db.users && w in db.users && !Purgeable(db, u) && Purgeable(db, w)
    ensures PurgeAll(db, [u, w]).count.None? && PurgeAll(db, [u, w]).db.users == db.users
    ensures PurgeAll(db, [w, u]).count.None? && PurgeAll(db, [w, u]).db.users == db.users - {w}
  {
    PurgesAreSteps();
    OutcomeIs(db, u);
    OutcomeIs(db, w);
    EitherOrder(PurgeOne, UsersOf, db, u, w);
  }

  lemma ThirdUserIs(u: Id, v: Id, w: Id)
    requires u < v && w != u && w != v
    ensures var db := ThirdUser(u, v, w);
      Consistent(db) && db.users == {u, v, w} && Purgeable(db, w) && !Purgeable(db, u)
  {
    var db := ThirdUser(u, v, w);
    OnlyThreadOk({u, v, w}, db.threads[0]);
    assert db.threads[0].data.userA == u;
  }
}
