/** Account export, merge-restore and replace-restore. The userId column of an exported entry
    is not part of the export: a restore writes its own user there. */
module Backup {
  import opened Sql
  import opened Schema

  datatype Entry =
    | OfCollection(c: Collection)
    | OfStatus(s: BookStatus)
    | OfReview(r: Review)
    | OfSession(t: ReadingSession)

  datatype Export = Export(
    collections: seq<Collection>, statuses: seq<BookStatus>, reviews: seq<Review>, sessions: seq<ReadingSession>)

  function CollectionEntries(xs: seq<Collection>): seq<Entry> {
    seq(|xs|, i requires 0 <= i < |xs| => OfCollection(xs[i]))
  }

  function StatusEntries(xs: seq<BookStatus>): seq<Entry> {
    seq(|xs|, i requires 0 <= i < |xs| => OfStatus(xs[i]))
  }

  function ReviewEntries(xs: seq<Review>): seq<Entry> {
    seq(|xs|, i requires 0 <= i < |xs| => OfReview(xs[i]))
  }

  function SessionEntries(xs: seq<ReadingSession>): seq<Entry> {
    seq(|xs|, i requires 0 <= i < |xs| => OfSession(xs[i]))
  }

  /** The entries in the order in which a restore handles them. */
  function Entries(e: Export): seq<Entry> {
    CollectionEntries(e.collections) + StatusEntries(e.statuses) + ReviewEntries(e.reviews) + SessionEntries(e.sessions)
  }

  /** Which of the four tables an entry becomes a row of. */
  function Kind(e: Entry): nat {
    match e
    case OfCollection(_) => 0
    case OfStatus(_) => 1
    case OfReview(_) => 2
    case OfSession(_) => 3
  }

  /** How many rows the four tables have. */
  datatype Sizes = Sizes(collections: nat, statuses: nat, reviews: nat, sessions: nat) {
    function Plus(kind: nat, n: nat): Sizes {
      match kind
      case 0 => this.(collections := collections + n)
      case 1 => this.(statuses := statuses + n)
      case 2 => this.(reviews := reviews + n)
      case _ => this.(sessions := sessions + n)
    }
  }

  function SizesOf(db: Database): Sizes {
    Sizes(|db.collections|, |db.statuses|, |db.reviews|, |db.sessions|)
  }

  // ---------- One entry ----------

  /** The row an entry becomes. */
  function OwnReview(user: Id, r: Review): Review {
    r.(userId := Some(user))
  }

  function OwnSession(user: Id, t: ReadingSession): ReadingSession {
    t.(userId := user)
  }

  /** The natural-key lookups. A NULL argument is compared with IS NULL; a review with a book
      is looked up by its book alone. */
  predicate MatchesCollection(row: Collection, user: Id, c: Collection) {
    row.userId == user && row.name == c.name
  }

  predicate MatchesStatus(row: BookStatus, user: Id, s: BookStatus) {
    row.userId == user && row.bookId == s.bookId && row.releaseId == s.releaseId && row.status == s.status
  }

  predicate MatchesReview(row: Review, user: Id, r: Review) {
    row.userId == Some(user) && if r.bookId.Some? then row.bookId == r.bookId else row.releaseId == r.releaseId
  }

  predicate MatchesSession(row: ReadingSession, user: Id, t: ReadingSession) {
    row.userId == user && row.releaseId == t.releaseId && row.startedAt == t.startedAt
  }

  predicate Found(db: Database, user: Id, e: Entry) {
    match e
    case OfCollection(c) => exists i :: 0 <= i < |db.collections| && MatchesCollection(db.collections[i].data, user, c)
    case OfStatus(s) => exists i :: 0 <= i < |db.statuses| && MatchesStatus(db.statuses[i].data, user, s)
    case OfReview(r) => exists i :: 0 <= i < |db.reviews| && MatchesReview(db.reviews[i].data, user, r)
    case OfSession(t) => exists i :: 0 <= i < |db.sessions| && MatchesSession(db.sessions[i].data, user, t)
  }

  /** The constraints of the row but its unique keys. */
  predicate Fits(db: Database, user: Id, e: Entry) {
    match e
    case OfCollection(c) => CollectionRowOk(db.users, c.(userId := user))
    case OfStatus(s) => StatusRowOk(db.users, Keys(db.books), Keys(db.releases), s.(userId := user))
    case OfReview(r) => ReviewRowOk(db.users, Keys(db.books), Keys(db.releases), OwnReview(user, r))
    case OfSession(t) => SessionRowOk(db.users, Keys(db.releases), OwnSession(user, t))
  }

  /** The unique keys of the row against the table. */
  predicate ClashesWith(db: Database, user: Id, e: Entry) {
    match e
    case OfCollection(c) => false
    case OfStatus(s) => false
    case OfReview(r) => exists i :: 0 <= i < |db.reviews| && ReviewsClash(db.reviews[i].data, OwnReview(user, r))
    case OfSession(t) => exists i :: 0 <= i < |db.sessions| && SessionsClash(db.sessions[i].data, OwnSession(user, t))
  }

  function Insert(db: Database, user: Id, e: Entry): Database {
    var next := db.(nextId := db.nextId + 1);
    match e
    case OfCollection(c) => next.(collections := db.collections + [Row(db.nextId, c.(userId := user))])
    case OfStatus(s) => next.(statuses := db.statuses + [Row(db.nextId, s.(userId := user))])
    case OfReview(r) => next.(reviews := db.reviews + [Row(db.nextId, OwnReview(user, r))])
    case OfSession(t) => next.(sessions := db.sessions + [Row(db.nextId, OwnSession(user, t))])
  }

  /** INSERT: the new state, or nothing when a constraint refuses the row. */
  function TryInsert(db: Database, user: Id, e: Entry): Option<Database> {
    if Fits(db, user, e) && !ClashesWith(db, user, e) then Some(Insert(db, user, e)) else None
  }

  // ---------- Merge ----------

  datatype Progress = Progress(db: Database, ok: bool)

  function MergeStep(p: Progress, user: Id, e: Entry): Progress {
    if !p.ok || Found(p.db, user, e) then p
    else
      var r := TryInsert(p.db, user, e);
      if r.Some? then Progress(r.value, true) else Progress(p.db, false)
  }

  function MergeFrom(p: Progress, user: Id, es: seq<Entry>): Progress {
    if es == [] then p else MergeStep(MergeFrom(p, user, es[..|es| - 1]), user, es[|es| - 1])
  }

  /** Each insertion is committed on its own; the first that is refused ends the run. */
  function Merge(db: Database, user: Id, es: seq<Entry>): Progress {
    MergeFrom(Progress(db, true), user, es)
  }

  // ---------- Export ----------

  predicate Mine(user: Id, c: Collection) {
    c.userId == user
  }

  function CollectionsOf(db: Database, user: Id): Table<Collection> {
    Where(db.collections, c => Mine(user, c))
  }

  function StatusesOf(db: Database, user: Id): Table<BookStatus> {
    Where(db.statuses, (s: BookStatus) => s.userId == user)
  }

  function ReviewsOf(db: Database, user: Id): Table<Review> {
    Where(db.reviews, (r: Review) => r.userId == Some(user))
  }

  function SessionsOf(db: Database, user: Id): Table<ReadingSession> {
    Where(db.sessions, (t: ReadingSession) => t.userId == user)
  }

  const EXPORT_LIMIT := 10000

  /** export_account: of the collections, only the first page of 10000. */
  function ExportOf(db: Database, user: Id): Export {
    var cs := Columns(CollectionsOf(db, user));
    Export(if |cs| <= EXPORT_LIMIT then cs else cs[..EXPORT_LIMIT],
           Columns(StatusesOf(db, user)), Columns(ReviewsOf(db, user)), Columns(SessionsOf(db, user)))
  }

  // ---------- Replace ----------

  /** A chat message attaches one of the user's collections, so its deletion is refused. */
  predicate CollectionAttached(db: Database, user: Id) {
    exists i :: 0 <= i < |db.messages| && db.messages[i].data.attachedCollection.Some?
      && db.messages[i].data.attachedCollection.value in Keys(CollectionsOf(db, user))
  }

  /** The four DELETEs of purge_owned_data; the items of a deleted collection go with it. */
  function Purged(db: Database, user: Id): Database {
    var gone := Keys(CollectionsOf(db, user));
    db.(collections := DeleteWhere(db.collections, c => Mine(user, c)),
        items := DeleteWhere(db.items, (i: CollectionItem) => i.collectionId in gone),
        statuses := DeleteWhere(db.statuses, (s: BookStatus) => s.userId == user),
        reviews := DeleteWhere(db.reviews, (r: Review) => r.userId == Some(user)),
        sessions := DeleteWhere(db.sessions, (t: ReadingSession) => t.userId == user))
  }

  function InsertAll(db: Database, user: Id, es: seq<Entry>): Option<Database> {
    if es == [] then Some(db)
    else
      var before := InsertAll(db, user, es[..|es| - 1]);
      if before.None? then None else TryInsert(before.value, user, es[|es| - 1])
  }

  /** The whole replacement, or nothing. */
  function Replace(db: Database, user: Id, es: seq<Entry>): Option<Database> {
    if CollectionAttached(db, user) then None else InsertAll(Purged(db, user), user, es)
  }

  /** A user who sent a friend one of their collections. */
  function SentCollection(user: Id, friend: Id): Database {
    Empty({user, friend}, 3).(
      collections := [Row(0, Collection(user, "Favourites", None, false, None, 0))],
      threads := [Row(1, ChatThread(user, friend, None))],
      messages := [Row(2, ChatMessage(1, user, "", None, Some(0), 0, None))])
  }

  lemma ChatTablesOk(
    users: set<Id>, collections: Table<Collection>, threads: Table<ChatThread>, messages: Table<ChatMessage>, next: Id)
    requires KeysBelow(collections, next) && KeysBelow(threads, next) && KeysBelow(messages, next)
    requires CollectionsOk(users, collections) && ThreadsOk(users, threads)
    requires MessagesOk(users, {}, Keys(collections), Keys(threads), messages)
    ensures Consistent(Empty(users, next).(collections := collections, threads := threads, messages := messages))
  {
  }

  lemma SentCollectionIsAttached(user: Id, friend: Id)
    requires user < friend
    ensures Consistent(SentCollection(user, friend)) && CollectionAttached(SentCollection(user, friend), user)
  {
    var db := SentCollection(user, friend);
    assert db.collections[0] in db.collections && db.threads[0] in db.threads;
    ChatTablesOk({user, friend}, db.collections, db.threads, db.messages, 3);
    assert db.collections[0] in CollectionsOf(db, user);
    assert db.messages[0].data.attachedCollection == Some(0);
  }
}
