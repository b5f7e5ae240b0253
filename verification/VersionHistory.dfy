/** The version history of books, releases and contributors, attributed to audit blocks. */
module VersionHistory {
  import opened Sql
  import opened Schema

  datatype Entity = Entity(kind: EntityKind, id: Id)

  /** The three context variables: who changes what, and for which contribution. */
  datatype Context = Context(source: ChangeSource, user: Option<Id>, contribution: Option<Id>)

  const SYSTEM := Context(SystemChange, None, None)

  /** A new or modified entity the session has not flushed yet, and the block of its last write. */
  datatype Unflushed = Unflushed(entity: Entity, snapshot: string, writtenAs: Context)

  /** What runs in one session: writes through the unit of work, flushes, commits and rollbacks, exceptions,
      and audit_as blocks nested in any way. */
  datatype Program =
    | Skip
    | Write(entity: Entity, snapshot: string)
    | Flush
    | Commit
    | Rollback
    | Raise
    | Then(first: Program, second: Program)
    | AuditAs(context: Context, body: Program)
    | Try(body: Program, handler: Program)

  // ---------- The meaning of a program ----------

  /** One flushed write: what was written, the block it was flushed in and the block it was written in. */
  datatype Event = Event(entity: Entity, snapshot: string, flushedAs: Context, writtenAs: Context)

  /** The flushed writes in order, those of them that are committed, and the unflushed ones. */
  datatype Session = Session(log: seq<Event>, committed: seq<Event>, pending: seq<Unflushed>)

  datatype Outcome = Outcome(session: Session, raised: bool)

  /** A second write to an unflushed entity replaces the first. */
  function Stage(pending: seq<Unflushed>, p: Unflushed): (r: seq<Unflushed>)
    ensures forall x :: x in r ==> x in pending || x == p
  {
    if pending == [] then [p]
    else if pending[0].entity == p.entity then [p] + pending[1..]
    else [pending[0]] + Stage(pending[1..], p)
  }

  function FlushedIn(context: Context, p: Unflushed): Event {
    Event(p.entity, p.snapshot, context, p.writtenAs)
  }

  function Events(context: Context, pending: seq<Unflushed>): (r: seq<Event>)
    ensures |r| == |pending|
    ensures forall i :: 0 <= i < |r| ==> r[i] == FlushedIn(context, pending[i])
  {
    seq(|pending|, i requires 0 <= i < |pending| => FlushedIn(context, pending[i]))
  }

  function Flushed(context: Context, s: Session): Session {
    s.(log := s.log + Events(context, s.pending), pending := [])
  }

  /** The context is that of the innermost enclosing block. */
  function Exec(context: Context, s: Session, p: Program): Outcome
    decreases p
  {
    match p
    case Skip => Outcome(s, false)
    case Write(entity, snapshot) =>
      Outcome(s.(pending := Stage(s.pending, Unflushed(entity, snapshot, context))), false)
    case Flush => Outcome(Flushed(context, s), false)
    case Commit => Outcome(Flushed(context, s).(committed := Flushed(context, s).log), false)
    case Rollback => Outcome(s.(log := s.committed, pending := []), false)
    case Raise => Outcome(s, true)
    case Then(first, second) =>
      var o := Exec(context, s, first);
      if o.raised then o else Exec(context, o.session, second)
    case AuditAs(inner, body) => Exec(inner, s, body)
    case Try(body, handler) =>
      var o := Exec(context, s, body);
      if o.raised then Exec(context, o.session, handler) else o
  }

  // ---------- The versions table ----------

  predicate IsOf(v: EntityVersion, e: Entity) {
    v.kind == e.kind && v.entityId == e.id
  }

  /** SELECT coalesce(max(version_number), 0). */
  function MaxVersion(versions: seq<EntityVersion>, e: Entity): (r: int)
    ensures r >= 0
  {
    if versions == [] then 0
    else
      var front, last := MaxVersion(versions[..|versions| - 1], e), versions[|versions| - 1];
      if IsOf(last, e) && last.number > front then last.number else front
  }

  function VersionOf(x: Event, number: int): EntityVersion {
    EntityVersion(x.entity.kind, x.entity.id, number, x.snapshot,
      x.flushedAs.user, x.flushedAs.source, x.flushedAs.contribution)
  }

  function EventsOf(log: seq<Event>, e: Entity): seq<Event> {
    if log == [] then []
    else
      var last := log[|log| - 1];
      EventsOf(log[..|log| - 1], e) + if last.entity == e then [last] else []
  }

  function VersionsOf(versions: seq<EntityVersion>, e: Entity): seq<EntityVersion> {
    if versions == [] then []
    else
      var last := versions[|versions| - 1];
      VersionsOf(versions[..|versions| - 1], e) + if IsOf(last, e) then [last] else []
  }

  /** The history of a log: each write numbered by its place among its entity's. */
  function History(log: seq<Event>): (r: seq<EntityVersion>)
    ensures |r| == |log|
  {
    if log == [] then []
    else
      var front, last := log[..|log| - 1], log[|log| - 1];
      History(front) + [VersionOf(last, |EventsOf(front, last.entity)| + 1)]
  }

  lemma HistorySnoc(log: seq<Event>, x: Event)
    ensures History(log + [x]) == History(log) + [VersionOf(x, |EventsOf(log, x.entity)| + 1)]
  {
    assert (log + [x])[..|log|] == log;
  }

  /** The versions of an entity are its flushed writes in order, numbered 1, 2, ..., each with the snapshot
      and the attribution of its flush. */
  lemma {:induction false} VersionsAreGapless(log: seq<Event>, e: Entity)
    ensures var versions, events := VersionsOf(History(log), e), EventsOf(log, e);
      |versions| == |events| && forall k :: 0 <= k < |versions| ==> versions[k] == VersionOf(events[k], k + 1)
  {
    if log != [] {
      var front, last := log[..|log| - 1], log[|log| - 1];
      VersionsAreGapless(front, e);
      var v := VersionOf(last, |EventsOf(front, last.entity)| + 1);
      assert (History(front) + [v])[..|front|] == History(front);
      assert IsOf(v, e) <==> last.entity == e;
    }
  }

  /** So the greatest version number is the number of flushed writes: what the listener reads. */
  lemma {:induction false} MaxIsCount(log: seq<Event>, e: Entity)
    ensures MaxVersion(History(log), e) == |EventsOf(log, e)|
  {
    if log != [] {
      var front, last := log[..|log| - 1], log[|log| - 1];
      MaxIsCount(front, e);
      var v := VersionOf(last, |EventsOf(front, last.entity)| + 1);
      assert (History(front) + [v])[..|front|] == History(front);
      assert IsOf(v, e) <==> last.entity == e;
    }
  }

  /** The row a listener inserts. */
  function Snapshot(versions: seq<EntityVersion>, e: Entity, snapshot: string, context: Context): EntityVersion {
    EntityVersion(e.kind, e.id, MaxVersion(versions, e) + 1, snapshot,
      context.user, context.source, context.contribution)
  }

  /** The history when the first i pending entities are flushed. */
  function Recorded(s: Session, context: Context, i: nat): seq<EntityVersion>
    requires i <= |s.pending|
  {
    History(s.log + Events(context, s.pending[..i]))
  }

  lemma RecordedStart(s: Session, context: Context)
    ensures Recorded(s, context, 0) == History(s.log)
  {
    assert s.log + Events(context, s.pending[..0]) == s.log;
  }

  lemma RecordedEnd(s: Session, context: Context)
    ensures Recorded(s, context, |s.pending|) == History(Flushed(context, s).log)
  {
    assert s.pending[..|s.pending|] == s.pending;
  }

  /** One more than the greatest number is the number the history gives. */
  lemma RecordedNext(s: Session, context: Context, i: nat)
    requires i < |s.pending|
    ensures Recorded(s, context, i + 1)
      == Recorded(s, context, i)
        + [Snapshot(Recorded(s, context, i), s.pending[i].entity, s.pending[i].snapshot, context)]
  {
    var log := s.log + Events(context, s.pending[..i]);
    MaxIsCount(log, s.pending[i].entity);
    HistorySnoc(log, FlushedIn(context, s.pending[i]));
    assert s.log + Events(context, s.pending[..i + 1]) == log + [FlushedIn(context, s.pending[i])];
  }

  // ---------- Every write reaches a version ----------

  ghost predicate DistinctEntities(pending: seq<Unflushed>) {
    forall i, j :: 0 <= i < j < |pending| ==> pending[i].entity != pending[j].entity
  }

  lemma {:induction false} EventsOfConcat(a: seq<Event>, b: seq<Event>, e: Entity)
    ensures EventsOf(a + b, e) == EventsOf(a, e) + EventsOf(b, e)
  {
    if b == [] {
      assert a + b == a;
    } else {
      EventsOfConcat(a, b[..|b| - 1], e);
      assert (a + b)[..|a + b| - 1] == a + b[..|b| - 1];
    }
  }

  /** What a flush records for an entity. */
  function FlushedOf(context: Context, pending: seq<Unflushed>, e: Entity): seq<Event> {
    EventsOf(Events(context, pending), e)
  }

  lemma FlushedOfNext(context: Context, pending: seq<Unflushed>, n: nat, e: Entity)
    requires n < |pending|
    ensures FlushedOf(context, pending[..n + 1], e) == FlushedOf(context, pending[..n], e)
      + if pending[n].entity == e then [Event(e, pending[n].snapshot, context, pending[n].writtenAs)] else []
  {
    var events := Events(context, pending[..n + 1]);
    assert events[..n] == Events(context, pending[..n]);
  }

  lemma {:induction false} NoneFlushed(context: Context, pending: seq<Unflushed>, n: nat, e: Entity)
    requires n <= |pending| && forall i :: 0 <= i < n ==> pending[i].entity != e
    ensures FlushedOf(context, pending[..n], e) == []
  {
    if n > 0 {
      NoneFlushed(context, pending, n - 1, e);
      FlushedOfNext(context, pending, n - 1, e);
    }
  }

  lemma {:induction false} OneFlushed(context: Context, pending: seq<Unflushed>, n: nat, i: nat, p: Unflushed)
    requires DistinctEntities(pending) && i < n <= |pending| && pending[i] == p
    ensures FlushedOf(context, pending[..n], p.entity) == [Event(p.entity, p.snapshot, context, p.writtenAs)]
  {
    FlushedOfNext(context, pending, n - 1, p.entity);
    if i == n - 1 {
      NoneFlushed(context, pending, i, p.entity);
    } else {
      OneFlushed(context, pending, n - 1, i, p);
    }
  }

  /** Of distinct pending entities, a flush records each once, and no other. */
  lemma FlushedOnce(context: Context, pending: seq<Unflushed>, e: Entity)
    requires DistinctEntities(pending)
    ensures forall p :: p in pending && p.entity == e ==>
      FlushedOf(context, pending, e) == [Event(e, p.snapshot, context, p.writtenAs)]
    ensures (forall p :: p in pending ==> p.entity != e) ==> FlushedOf(context, pending, e) == []
  {
    assert pending[..|pending|] == pending;
    forall p | p in pending && p.entity == e
      ensures FlushedOf(context, pending, e) == [Event(e, p.snapshot, context, p.writtenAs)]
    {
      var i :| 0 <= i < |pending| && pending[i] == p;
      OneFlushed(context, pending, |pending|, i, p);
    }
    if forall p :: p in pending ==> p.entity != e {
      NoneFlushed(context, pending, |pending|, e);
    }
  }

  lemma {:induction false} StageKeepsDistinct(pending: seq<Unflushed>, p: Unflushed)
    requires DistinctEntities(pending)
    ensures DistinctEntities(Stage(pending, p))
    ensures p in Stage(pending, p)
    ensures forall x :: x in Stage(pending, p) ==> x == p || x.entity != p.entity
    ensures forall x :: x in pending && x.entity != p.entity ==> x in Stage(pending, p)
  {
    if pending != [] && pending[0].entity != p.entity {
      var rest := Stage(pending[1..], p);
      StageKeepsDistinct(pending[1..], p);
      forall j | 0 <= j < |rest| ensures pending[0].entity != rest[j].entity {
        assert rest[j] in rest;
        assert rest[j] in pending[1..] || rest[j] == p;
      }
    }
  }

  /** An entity has at most one unflushed write. */
  lemma {:induction false} PendingStaysDistinct(context: Context, s: Session, p: Program)
    requires DistinctEntities(s.pending)
    ensures DistinctEntities(Exec(context, s, p).session.pending)
    decreases p
  {
    match p
    case Write(entity, snapshot) => StageKeepsDistinct(s.pending, Unflushed(entity, snapshot, context));
    case Then(first, second) =>
      PendingStaysDistinct(context, s, first);
      var o := Exec(context, s, first);
      if !o.raised {
        PendingStaysDistinct(context, o.session, second);
      }
    case AuditAs(inner, body) => PendingStaysDistinct(inner, s, body);
    case Try(body, handler) =>
      PendingStaysDistinct(context, s, body);
      var o := Exec(context, s, body);
      if o.raised {
        PendingStaysDistinct(context, o.session, handler);
      }
    case _ =>
  }

  lemma WriteThenFlush(context: Context, s: Session, e: Entity, snapshot: string, f: Entity)
    ensures var o := Exec(context, s, Then(Write(e, snapshot), Flush));
      && !o.raised && o.session.pending == [] && o.session.committed == s.committed
      && EventsOf(o.session.log, f)
           == EventsOf(s.log, f) + FlushedOf(context, Stage(s.pending, Unflushed(e, snapshot, context)), f)
  {
    var written := s.(pending := Stage(s.pending, Unflushed(e, snapshot, context)));
    assert Exec(context, s, Write(e, snapshot)) == Outcome(written, false);
    EventsOfConcat(s.log, Events(context, written.pending), f);
  }

  /** A write that is flushed in its block gives its entity one more version, with what it wrote and its block.
      Each other entity that is pending gets one, with its own last write; no other entity gets any. */
  lemma FlushedWrites(context: Context, s: Session, e: Entity, snapshot: string)
    requires DistinctEntities(s.pending)
    ensures var log := Exec(context, s, Then(Write(e, snapshot), Flush)).session.log;
      && EventsOf(log, e) == EventsOf(s.log, e) + [Event(e, snapshot, context, context)]
      && (forall p :: p in s.pending && p.entity != e ==>
            EventsOf(log, p.entity) == EventsOf(s.log, p.entity) + [Event(p.entity, p.snapshot, context, p.writtenAs)])
      && (forall f :: f != e && (forall p :: p in s.pending ==> p.entity != f) ==>
            EventsOf(log, f) == EventsOf(s.log, f))
  {
    var log := Exec(context, s, Then(Write(e, snapshot), Flush)).session.log;
    var w := Unflushed(e, snapshot, context);
    var staged := Stage(s.pending, w);
    StageKeepsDistinct(s.pending, w);
    WriteThenFlush(context, s, e, snapshot, e);
    FlushedOnce(context, staged, e);
    forall p | p in s.pending && p.entity != e
      ensures EventsOf(log, p.entity) == EventsOf(s.log, p.entity) + [Event(p.entity, p.snapshot, context, p.writtenAs)]
    {
      WriteThenFlush(context, s, e, snapshot, p.entity);
      FlushedOnce(context, staged, p.entity);
    }
    forall f | f != e && (forall p :: p in s.pending ==> p.entity != f) ensures EventsOf(log, f) == EventsOf(s.log, f) {
      WriteThenFlush(context, s, e, snapshot, f);
      FlushedOnce(context, staged, f);
    }
  }

  /** A list of writes, as a program. */
  function Writes(ws: seq<(Entity, string)>): Program {
    if ws == [] then Skip else Then(Writes(ws[..|ws| - 1]), Write(ws[|ws| - 1].0, ws[|ws| - 1].1))
  }

  /** The last snapshot written of an entity. */
  function LastWritten(ws: seq<(Entity, string)>, e: Entity): Option<string> {
    if ws == [] then None
    else if ws[|ws| - 1].0 == e then Some(ws[|ws| - 1].1)
    else LastWritten(ws[..|ws| - 1], e)
  }

  ghost predicate HasLast(pending: seq<Unflushed>, context: Context, e: Entity, last: Option<string>) {
    if last.Some? then Unflushed(e, last.value, context) in pending else forall p :: p in pending ==> p.entity != e
  }

  lemma StagedLast(pending: seq<Unflushed>, context: Context, w: Unflushed, e: Entity, last: Option<string>)
    requires DistinctEntities(pending) && HasLast(pending, context, e, last) && w.writtenAs == context
    ensures HasLast(Stage(pending, w), context, e, if w.entity == e then Some(w.snapshot) else last)
  {
    StageKeepsDistinct(pending, w);
  }

  lemma {:induction false} WritesPending(context: Context, s: Session, ws: seq<(Entity, string)>, e: Entity)
    requires s.pending == []
    ensures var o := Exec(context, s, Writes(ws));
      && !o.raised && o.session.log == s.log && DistinctEntities(o.session.pending)
      && HasLast(o.session.pending, context, e, LastWritten(ws, e))
  {
    if ws != [] {
      var front, w := ws[..|ws| - 1], ws[|ws| - 1];
      WritesPending(context, s, front, e);
      var o := Exec(context, s, Writes(front));
      StageKeepsDistinct(o.session.pending, Unflushed(w.0, w.1, context));
      StagedLast(o.session.pending, context, Unflushed(w.0, w.1, context), e, LastWritten(front, e));
    }
  }

  /** One flush after any number of writes records one version for each entity written, with the last of its
      writes, and none for any other. */
  lemma LastWriteWins(context: Context, s: Session, ws: seq<(Entity, string)>, e: Entity)
    requires s.pending == []
    ensures var log, last := Exec(context, s, Then(Writes(ws), Flush)).session.log, LastWritten(ws, e);
      EventsOf(log, e)
        == EventsOf(s.log, e) + if last.Some? then [Event(e, last.value, context, context)] else []
  {
    WritesPending(context, s, ws, e);
    var o, last := Exec(context, s, Writes(ws)), LastWritten(ws, e);
    EventsOfConcat(s.log, Events(context, o.session.pending), e);
    FlushedOnce(context, o.session.pending, e);
  }

  /** An exception skips what follows it, leaves the blocks around it, and ends at the handler. */
  lemma RaiseReachesHandler(context: Context, inner: Context, s: Session, skipped: Program, handler: Program)
    ensures Exec(context, s, Try(AuditAs(inner, Then(Raise, skipped)), handler)) == Exec(context, s, handler)
    ensures Exec(context, s, AuditAs(inner, Then(Raise, skipped))) == Outcome(s, true)
  {
    assert Exec(inner, s, Raise) == Outcome(s, true);
    assert Exec(inner, s, Then(Raise, skipped)) == Outcome(s, true);
    assert Exec(context, s, AuditAs(inner, Then(Raise, skipped))) == Outcome(s, true);
  }

  predicate WithoutCommit(p: Program) {
    match p
    case Commit => false
    case Then(first, second) => WithoutCommit(first) && WithoutCommit(second)
    case AuditAs(_, body) => WithoutCommit(body)
    case Try(body, handler) => WithoutCommit(body) && WithoutCommit(handler)
    case _ => true
  }

  lemma {:induction false} CommittedStays(context: Context, s: Session, p: Program)
    requires WithoutCommit(p)
    ensures Exec(context, s, p).session.committed == s.committed
    decreases p
  {
    match p
    case Then(first, second) =>
      CommittedStays(context, s, first);
      var o := Exec(context, s, first);
      if !o.raised {
        CommittedStays(context, o.session, second);
      }
    case AuditAs(inner, body) => CommittedStays(inner, s, body);
    case Try(body, handler) =>
      CommittedStays(context, s, body);
      var o := Exec(context, s, body);
      if o.raised {
        CommittedStays(context, o.session, handler);
      }
    case _ =>
  }

  /** A commit keeps what was pending; whatever follows it without a commit, exceptions included, is undone by
      a rollback. */
  lemma CommitThenRollback(context: Context, s: Session, p: Program)
    requires WithoutCommit(p)
    ensures var o := Exec(context, s, Then(Commit, Then(Try(p, Skip), Rollback)));
      var flushed := Exec(context, s, Flush).session;
      && !o.raised && o.session.pending == []
      && o.session.log == o.session.committed == flushed.log
      && s.log <= flushed.log && |flushed.log| == |s.log| + |s.pending|
  {
    var c := Flushed(context, s).(committed := Flushed(context, s).log);
    var o := Exec(context, c, Try(p, Skip));
    assert Exec(context, s, Commit) == Outcome(c, false);
    CommittedStays(context, c, Try(p, Skip));
    assert Exec(context, o.session, Skip) == Outcome(o.session, false);
    assert !o.raised;
    assert Exec(context, c, Then(Try(p, Skip), Rollback)) == Exec(context, o.session, Rollback);
  }

  // ---------- Committed history is never rewritten ----------

  /** A run keeps the committed versions a prefix of the flushed ones, and never changes them. */
  lemma {:induction false} HistoryOnlyGrows(context: Context, s: Session, p: Program)
    requires s.committed <= s.log
    ensures var t := Exec(context, s, p).session; t.committed <= t.log && s.committed <= t.committed
    decreases p
  {
    match p
    case Then(first, second) =>
      HistoryOnlyGrows(context, s, first);
      var o := Exec(context, s, first);
      if !o.raised {
        HistoryOnlyGrows(context, o.session, second);
      }
    case AuditAs(inner, body) => HistoryOnlyGrows(inner, s, body);
    case Try(body, handler) =>
      HistoryOnlyGrows(context, s, body);
      var o := Exec(context, s, body);
      if o.raised {
        HistoryOnlyGrows(context, o.session, handler);
      }
    case _ =>
  }

  lemma {:induction false} HistoryPrefix(log: seq<Event>, more: seq<Event>)
    requires log <= more
    ensures History(log) <= History(more)
    decreases |more|
  {
    if |log| < |more| {
      HistoryPrefix(log, more[..|more| - 1]);
    } else {
      assert log == more;
    }
  }

  /** The committed rows of the versions table are immutable. */
  lemma VersionsAreImmutable(context: Context, s: Session, p: Program)
    requires s.committed <= s.log
    ensures History(s.committed) <= History(Exec(context, s, p).session.committed)
  {
    HistoryOnlyGrows(context, s, p);
    HistoryPrefix(s.committed, Exec(context, s, p).session.committed);
  }

  // ---------- Attribution ----------

  /** Every write of the log is attributed to the block it was written in. */
  ghost predicate Faithful(log: seq<Event>) {
    forall i :: 0 <= i < |log| ==> log[i].flushedAs == log[i].writtenAs
  }

  ghost predicate WrittenIn(pending: seq<Unflushed>, context: Context) {
    forall x :: x in pending ==> x.writtenAs == context
  }

  /** Nothing is pending where a block begins, nor where it ends. */
  predicate Settled(context: Context, s: Session, p: Program)
    decreases p
  {
    match p
    case Then(first, second) =>
      var o := Exec(context, s, first);
      Settled(context, s, first) && (!o.raised ==> Settled(context, o.session, second))
    case AuditAs(inner, body) =>
      s.pending == [] && Settled(inner, s, body) && Exec(inner, s, body).session.pending == []
    case Try(body, handler) =>
      var o := Exec(context, s, body);
      Settled(context, s, body) && (o.raised ==> Settled(context, o.session, handler))
    case _ => true
  }

  /** In a settled run every version is attributed to the innermost block its write is in. */
  lemma {:induction false} SettledRunsAreFaithful(context: Context, s: Session, p: Program)
    requires Settled(context, s, p)
    requires Faithful(s.log) && Faithful(s.committed) && WrittenIn(s.pending, context)
    ensures var t := Exec(context, s, p).session;
      Faithful(t.log) && Faithful(t.committed) && WrittenIn(t.pending, context)
    decreases p
  {
    match p
    case Then(first, second) =>
      SettledRunsAreFaithful(context, s, first);
      var o := Exec(context, s, first);
      if !o.raised {
        SettledRunsAreFaithful(context, o.session, second);
      }
    case AuditAs(inner, body) => SettledRunsAreFaithful(inner, s, body);
    case Try(body, handler) =>
      SettledRunsAreFaithful(context, s, body);
      var o := Exec(context, s, body);
      if o.raised {
        SettledRunsAreFaithful(context, o.session, handler);
      }
    case _ =>
  }

  /** Wherever the program flushes, all that is pending was written in the block that flushes. */
  ghost predicate FlushesOwn(context: Context, s: Session, p: Program)
    decreases p
  {
    match p
    case Flush => WrittenIn(s.pending, context)
    case Commit => WrittenIn(s.pending, context)
    case Then(first, second) =>
      var o := Exec(context, s, first);
      FlushesOwn(context, s, first) && (!o.raised ==> FlushesOwn(context, o.session, second))
    case AuditAs(inner, body) => FlushesOwn(inner, s, body)
    case Try(body, handler) =>
      var o := Exec(context, s, body);
      FlushesOwn(context, s, body) && (o.raised ==> FlushesOwn(context, o.session, handler))
    case _ => true
  }

  predicate WithoutRollback(p: Program) {
    match p
    case Rollback => false
    case Then(first, second) => WithoutRollback(first) && WithoutRollback(second)
    case AuditAs(_, body) => WithoutRollback(body)
    case Try(body, handler) => WithoutRollback(body) && WithoutRollback(handler)
    case _ => true
  }

  lemma FaithfulConcat(log: seq<Event>, context: Context, pending: seq<Unflushed>)
    ensures Faithful(log + Events(context, pending)) <==> Faithful(log) && WrittenIn(pending, context)
  {
    var all := log + Events(context, pending);
    if Faithful(all) {
      forall i | 0 <= i < |log| ensures log[i].flushedAs == log[i].writtenAs {
        assert all[i] == log[i];
      }
      forall x | x in pending ensures x.writtenAs == context {
        var i :| 0 <= i < |pending| && pending[i] == x;
        assert all[|log| + i] == FlushedIn(context, x);
      }
    }
  }

  lemma FaithfulPrefix(log: seq<Event>, more: seq<Event>)
    requires log <= more && Faithful(more)
    ensures Faithful(log)
  {
    assert forall i :: 0 <= i < |log| ==> log[i] == more[i];
  }

  lemma {:induction false} LogOnlyGrows(context: Context, s: Session, p: Program)
    requires WithoutRollback(p)
    ensures s.log <= Exec(context, s, p).session.log
    decreases p
  {
    match p
    case Then(first, second) =>
      LogOnlyGrows(context, s, first);
      var o := Exec(context, s, first);
      if !o.raised {
        LogOnlyGrows(context, o.session, second);
      }
    case AuditAs(inner, body) => LogOnlyGrows(inner, s, body);
    case Try(body, handler) =>
      LogOnlyGrows(context, s, body);
      var o := Exec(context, s, body);
      if o.raised {
        LogOnlyGrows(context, o.session, handler);
      }
    case _ =>
  }

  /** However blocks are nested, every version is attributed to the innermost block its write is in
      exactly when no flush finds a write of another block pending. */
  lemma {:induction false} FaithfulIff(context: Context, s: Session, p: Program)
    requires WithoutRollback(p) && Faithful(s.log)
    ensures Faithful(Exec(context, s, p).session.log) <==> FlushesOwn(context, s, p)
    decreases p, 0
  {
    match p
    case Flush => FaithfulConcat(s.log, context, s.pending);
    case Commit => FaithfulConcat(s.log, context, s.pending);
    case Then(first, second) =>
      FaithfulIff(context, s, first);
      var o := Exec(context, s, first);
      if !o.raised {
        LaterIsFaithfulIff(context, s, o, second);
      }
    case AuditAs(inner, body) => FaithfulIff(inner, s, body);
    case Try(body, handler) =>
      FaithfulIff(context, s, body);
      var o := Exec(context, s, body);
      if o.raised {
        LaterIsFaithfulIff(context, s, o, handler);
      }
    case _ =>
  }

  lemma {:induction false} LaterIsFaithfulIff(context: Context, s: Session, o: Outcome, p: Program)
    requires WithoutRollback(p)
    ensures Faithful(Exec(context, o.session, p).session.log)
      <==> Faithful(o.session.log) && FlushesOwn(context, o.session, p)
    decreases p, 1
  {
    LogOnlyGrows(context, o.session, p);
    if Faithful(o.session.log) {
      FaithfulIff(context, o.session, p);
    } else if Faithful(Exec(context, o.session, p).session.log) {
      FaithfulPrefix(o.session.log, Exec(context, o.session, p).session.log);
    }
  }

  /** Whether every version flushed so far, and every committed one, is attributed to its write's block. */
  datatype Attribution = Attribution(flushed: bool, committed: bool)

  /** The same guard at each flush, a rollback returning to what it was at the last commit. */
  ghost function Attributions(context: Context, s: Session, a: Attribution, p: Program): Attribution
    decreases p
  {
    match p
    case Flush => a.(flushed := a.flushed && WrittenIn(s.pending, context))
    case Commit => Attribution(a.flushed && WrittenIn(s.pending, context), a.flushed && WrittenIn(s.pending, context))
    case Rollback => a.(flushed := a.committed)
    case Then(first, second) =>
      var o, b := Exec(context, s, first), Attributions(context, s, a, first);
      if o.raised then b else Attributions(context, o.session, b, second)
    case AuditAs(inner, body) => Attributions(inner, s, a, body)
    case Try(body, handler) =>
      var o, b := Exec(context, s, body), Attributions(context, s, a, body);
      if o.raised then Attributions(context, o.session, b, handler) else b
    case _ => a
  }

  ghost function AttributionOf(s: Session): Attribution {
    Attribution(Faithful(s.log), Faithful(s.committed))
  }

  /** The same for every program: of the versions that a run leaves, and of those it commits, all are
      attributed to their write's block exactly when no flush that was not rolled back found a write of
      another block pending. */
  lemma {:induction false} AttributedIff(context: Context, s: Session, p: Program)
    ensures AttributionOf(Exec(context, s, p).session) == Attributions(context, s, AttributionOf(s), p)
    decreases p
  {
    match p
    case Flush => FaithfulConcat(s.log, context, s.pending);
    case Commit => FaithfulConcat(s.log, context, s.pending);
    case Then(first, second) =>
      AttributedIff(context, s, first);
      var o := Exec(context, s, first);
      if !o.raised {
        AttributedIff(context, o.session, second);
      }
    case AuditAs(inner, body) => AttributedIff(inner, s, body);
    case Try(body, handler) =>
      AttributedIff(context, s, body);
      var o := Exec(context, s, body);
      if o.raised {
        AttributedIff(context, o.session, handler);
      }
    case _ =>
  }

  /** A write, and a nested block that flushes before it does anything of its own. */
  function NestedFlush(outer: Context, inner: Context, e: Entity, snapshot: string): Program {
    AuditAs(outer, Then(Write(e, snapshot), AuditAs(inner, Flush)))
  }

  /** The write is attributed to the nested block, which it is not in. */
  lemma NestedFlushMisattributes(outer: Context, inner: Context, e: Entity, snapshot: string)
    requires inner != outer
    ensures var t := Exec(SYSTEM, Session([], [], []), NestedFlush(outer, inner, e, snapshot)).session;
      && History(t.log) == [EntityVersion(e.kind, e.id, 1, snapshot, inner.user, inner.source, inner.contribution)]
      && !Faithful(t.log)
  {
    var x := Event(e, snapshot, inner, outer);
    var s, written := Session([], [], []), Session([], [], [Unflushed(e, snapshot, outer)]);
    var t := Exec(SYSTEM, s, NestedFlush(outer, inner, e, snapshot)).session;
    assert Exec(outer, s, Write(e, snapshot)) == Outcome(written, false);
    assert Exec(outer, written, AuditAs(inner, Flush)) == Exec(inner, written, Flush);
    assert Exec(outer, s, Then(Write(e, snapshot), AuditAs(inner, Flush)))
      == Exec(outer, written, AuditAs(inner, Flush));
    assert t == Flushed(inner, written);
    assert Events(inner, [Unflushed(e, snapshot, outer)]) == [x];
    assert t.log == [] + [x];
    HistorySnoc([], x);
    assert !Faithful(t.log) by {
      assert t.log[0] == x;
    }
  }

  // ---------- What a block flushes ----------

  /** The contexts of the blocks in a program. */
  function Contexts(p: Program): set<Context> {
    match p
    case Then(first, second) => Contexts(first) + Contexts(second)
    case AuditAs(inner, body) => {inner} + Contexts(body)
    case Try(body, handler) => Contexts(body) + Contexts(handler)
    case _ => {}
  }

  /** Of the first n entries of the log, how many a program leaves: rollbacks may take some away. */
  function Left(context: Context, s: Session, n: nat, p: Program): nat
    decreases p
  {
    match p
    case Rollback => if n <= |s.committed| then n else |s.committed|
    case Then(first, second) =>
      var o := Exec(context, s, first);
      if o.raised then Left(context, s, n, first) else Left(context, o.session, Left(context, s, n, first), second)
    case AuditAs(inner, body) => Left(inner, s, n, body)
    case Try(body, handler) =>
      var o := Exec(context, s, body);
      if o.raised then Left(context, o.session, Left(context, s, n, body), handler) else Left(context, s, n, body)
    case _ => n
  }

  ghost predicate AttributedTo(log: seq<Event>, start: nat, contexts: set<Context>) {
    forall i :: start <= i < |log| ==> log[i].flushedAs in contexts
  }

  lemma AttributedConcat(log: seq<Event>, start: nat, contexts: set<Context>, context: Context, pending: seq<Unflushed>)
    requires AttributedTo(log, start, contexts) && context in contexts
    ensures AttributedTo(log + Events(context, pending), start, contexts)
  {
  }

  /** Whatever is flushed in a block is attributed to it, or to a block nested in it. */
  lemma {:induction false} FlushedInBlock(context: Context, s: Session, p: Program, start: nat, contexts: set<Context>)
    requires {context} + Contexts(p) <= contexts && start <= |s.log|
    requires AttributedTo(s.log, start, contexts) && AttributedTo(s.committed, start, contexts)
    ensures var t, left := Exec(context, s, p).session, Left(context, s, start, p);
      left <= |t.log| && AttributedTo(t.log, left, contexts) && AttributedTo(t.committed, left, contexts)
    decreases p
  {
    match p
    case Flush => AttributedConcat(s.log, start, contexts, context, s.pending);
    case Commit => AttributedConcat(s.log, start, contexts, context, s.pending);
    case Then(first, second) =>
      FlushedInBlock(context, s, first, start, contexts);
      var o := Exec(context, s, first);
      if !o.raised {
        FlushedInBlock(context, o.session, second, Left(context, s, start, first), contexts);
      }
    case AuditAs(inner, body) => FlushedInBlock(inner, s, body, start, contexts);
    case Try(body, handler) =>
      FlushedInBlock(context, s, body, start, contexts);
      var o := Exec(context, s, body);
      if o.raised {
        FlushedInBlock(context, o.session, handler, Left(context, s, start, body), contexts);
      }
    case _ =>
  }

  /** A block followed by a flush attributes all that both flush to itself and the blocks nested in it
      exactly when it leaves nothing pending, or leaves by an exception that skips the flush, or the
      block outside is none but one of those: what it leaves is attributed to the block outside. */
  lemma BlockAttributesIff(outer: Context, inner: Context, s: Session, body: Program)
    requires s.committed <= s.log
    ensures var o, inside := Exec(inner, s, body), {inner} + Contexts(body);
      AttributedTo(Exec(outer, s, Then(AuditAs(inner, body), Flush)).session.log, Left(inner, s, |s.log|, body), inside)
      <==> o.raised || o.session.pending == [] || outer in inside
  {
    var o, inside := Exec(inner, s, body), {inner} + Contexts(body);
    FlushedInBlock(inner, s, body, |s.log|, inside);
    var left := Left(inner, s, |s.log|, body);
    if !o.raised {
      var log := Flushed(outer, o.session).log;
      if o.session.pending == [] {
        assert log == o.session.log;
      } else if outer in inside {
        AttributedConcat(o.session.log, left, inside, outer, o.session.pending);
      } else {
        assert log[|o.session.log|].flushedAs == outer;
      }
    }
  }

  // ---------- The session, with its listeners and context variables ----------

  class AuditedSession {
    var source: ChangeSource
    var user: Option<Id>
    var contribution: Option<Id>
    var versions: seq<EntityVersion>
    var committed: seq<EntityVersion>
    var pending: seq<Unflushed>
    ghost var session: Session

    function Current(): Context
      reads this
    {
      Context(source, user, contribution)
    }

    /** The two tables are the histories of the session's logs. */
    ghost predicate Valid()
      reads this
    {
      versions == History(session.log) && committed == History(session.committed) && pending == session.pending
    }

    constructor ()
      ensures Valid() && Current() == SYSTEM && session == Session([], [], [])
    {
      source, user, contribution := SystemChange, None, None;
      versions, committed, pending := [], [], [];
      session := Session([], [], []);
    }

    /** _record_snapshot. */
    method RecordSnapshot(e: Entity, snapshot: string)
      modifies this`versions
      ensures versions == old(versions) + [Snapshot(old(versions), e, snapshot, Current())]
    {
      var max := MaxVersion(versions, e);
      versions := versions + [EntityVersion(e.kind, e.id, max + 1, snapshot, user, source, contribution)];
    }

    /** The listeners of one flush. */
    method RecordAll(ghost s: Session, ghost context: Context)
      requires pending == s.pending && context == Current() && versions == Recorded(s, context, 0)
      modifies this`versions
      ensures versions == Recorded(s, context, |s.pending|)
    {
      for i := 0 to |pending|
        invariant versions == Recorded(s, context, i)
      {
        RecordedNext(s, context, i);
        RecordSnapshot(pending[i].entity, pending[i].snapshot);
      }
    }

    method FlushPending()
      requires Valid()
      modifies this`versions, this`pending, this`session
      ensures Valid() && session == Flushed(Current(), old(session))
    {
      ghost var s, context := session, Current();
      RecordedStart(s, context);
      RecordAll(s, context);
      RecordedEnd(s, context);
      pending := [];
      session := Flushed(context, s);
    }

    /** Whatever the program does, the context variables are back at what they were, and the versions are
        those of the writes in the innermost block around each flush. */
    method Run(p: Program) returns (raised: bool)
      requires Valid()
      modifies this
      ensures Valid() && Current() == old(Current())
      ensures Outcome(session, raised) == Exec(old(Current()), old(session), p)
      decreases p
    {
      match p
      case Skip =>
        raised := false;
      case Write(entity, snapshot) =>
        pending := Stage(pending, Unflushed(entity, snapshot, Current()));
        session := session.(pending := pending);
        raised := false;
      case Flush =>
        FlushPending();
        raised := false;
      case Commit =>
        FlushPending();
        committed := versions;
        session := session.(committed := session.log);
        raised := false;
      case Rollback =>
        versions, pending := committed, [];
        session := session.(log := session.committed, pending := []);
        raised := false;
      case Raise =>
        raised := true;
      case Then(first, second) =>
        raised := Run(first);
        if !raised {
          raised := Run(second);
        }
      case AuditAs(context, body) =>
        var tokens := Current();
        source, user, contribution := context.source, context.user, context.contribution;
        raised := Run(body);
        source, user, contribution := tokens.source, tokens.user, tokens.contribution;
      case Try(body, handler) =>
        raised := Run(body);
        if raised {
          raised := Run(handler);
        }
    }
  }
}
