/** The tables, their columns, and the declared constraints: primary keys, foreign keys,
    unique keys (a NULL in the key exempts a row) and check constraints. */
module Schema {
  import opened Sql

  datatype Role = Author | CoAuthor | Translator | Illustrator | Editor | Narrator | Foreword | OtherRole

  datatype Book = Book(title: string, description: string, firstYear: Option<int>)

  datatype Release = Release(bookId: Id, format: int, publisher: string, publishedYear: Option<int>, language: string)

  datatype Isbn = Isbn(releaseId: Id, codeNormalized: string, codeOriginal: string, kind: int)

  datatype Contributor = Contributor(fullName: string, sortName: string, slug: string)

  /** A row of a link table: its primary key is the whole row. */
  datatype Link = Link(owner: Id, contributorId: Id, role: Role)

  datatype Review = Review(
    userId: Option<Id>, bookId: Option<Id>, releaseId: Option<Id>,
    rating: Option<int>, title: Option<string>, body: Option<string>, isPublic: bool, spoilers: bool)

  datatype StatusKind = Owned | Wishlist | PreOrder | LentOut | Borrowed | GiftedAway | Sold | Lost

  datatype BookStatus = BookStatus(
    userId: Id, bookId: Option<Id>, releaseId: Option<Id>, status: StatusKind, acquiredAt: Option<int>,
    notes: Option<string>, lentToUserId: Option<Id>, lentToName: Option<string>,
    lentAt: Option<int>, returnedAt: Option<int>)

  datatype Collection = Collection(
    userId: Id, name: string, description: Option<string>, isPublic: bool, cover: Option<string>, sortOrder: int)

  datatype CollectionItem = CollectionItem(
    collectionId: Id, bookId: Option<Id>, releaseId: Option<Id>, position: int, note: Option<string>)

  datatype ReadingSession = ReadingSession(
    userId: Id, releaseId: Id, startedAt: int, endedAt: Option<int>, pagesRead: Option<int>,
    positionStart: Option<int>, positionEnd: Option<int>, positionUnit: Option<int>, notes: Option<string>)

  datatype FriendshipStatus = Pending | Accepted | Declined | Blocked

  datatype Friendship = Friendship(requesterId: Id, addresseeId: Id, status: FriendshipStatus, respondedAt: Option<int>)

  datatype Contribution = Contribution(userId: Id, reviewerId: Option<Id>)

  datatype EntityKind = BookEntity | ReleaseEntity | ContributorEntity

  datatype ChangeSource = AdminChange | ContributionChange | ExternalSync | SystemChange

  datatype EntityVersion = EntityVersion(
    kind: EntityKind, entityId: Id, number: int, snapshot: string,
    changedBy: Option<Id>, source: ChangeSource, contributionId: Option<Id>)

  datatype ChatThread = ChatThread(userA: Id, userB: Id, lastMessageAt: Option<int>)

  datatype ChatMessage = ChatMessage(
    threadId: Id, senderId: Id, body: string, attachedBook: Option<Id>, attachedCollection: Option<Id>,
    createdAt: int, readAt: Option<int>)

  datatype ImportRecord = ImportRecord(userId: Id, fileHash: string)

  /** Refresh tokens, password-reset tokens, backup records and the Google integration:
      four tables whose rows go with their user (ON DELETE CASCADE). */
  datatype Attendant = Attendant(userId: Id)

  datatype Database = Database(
    users: set<Id>,
    books: Table<Book>,
    releases: Table<Release>,
    isbns: Table<Isbn>,
    contributors: Table<Contributor>,
    bookLinks: set<Link>,
    releaseLinks: set<Link>,
    reviews: Table<Review>,
    statuses: Table<BookStatus>,
    collections: Table<Collection>,
    items: Table<CollectionItem>,
    sessions: Table<ReadingSession>,
    friendships: Table<Friendship>,
    contributions: Table<Contribution>,
    versions: Table<EntityVersion>,
    threads: Table<ChatThread>,
    messages: Table<ChatMessage>,
    imports: Table<ImportRecord>,
    attendants: Table<Attendant>,
    nextId: Id)

  // ---------- Constraints ----------

  /** The primary keys of a table. */
  function Keys<D(==)>(t: Table<D>): set<Id> {
    set r | r in t :: r.id
  }

  /** A nullable foreign key: NULL, or a key of the table referred to. */
  predicate References(x: Option<Id>, keys: set<Id>) {
    x.Some? ==> x.value in keys
  }

  // The widths of columns: VARCHAR(n), and 32 bits for integers.
  const TEXT_LENGTH := 255
  const URL_LENGTH := 2048
  const INT_LIMIT := 0x8000_0000

  predicate TextFits(s: Option<string>, length: nat) {
    s.Some? ==> |s.value| <= length
  }

  predicate IntFits(x: Option<int>) {
    x.Some? ==> -INT_LIMIT <= x.value < INT_LIMIT
  }

  predicate ExactlyOneTarget(bookId: Option<Id>, releaseId: Option<Id>) {
    bookId.Some? != releaseId.Some?
  }

  ghost predicate BooksOk(books: Table<Book>) {
    forall r :: r in books ==> |r.data.title| <= TEXT_LENGTH
  }

  ghost predicate ReleasesOk(books: set<Id>, releases: Table<Release>) {
    forall r :: r in releases ==> r.data.bookId in books
  }

  ghost predicate IsbnsOk(releases: set<Id>, isbns: Table<Isbn>) {
    && (forall r :: r in isbns ==> r.data.releaseId in releases)
    && (forall r, s :: r in isbns && s in isbns && r.data.codeNormalized == s.data.codeNormalized ==> r == s)
  }

  ghost predicate ContributorsOk(contributors: Table<Contributor>) {
    forall r, s :: r in contributors && s in contributors && r.data.slug == s.data.slug ==> r == s
  }

  ghost predicate LinksOk(owners: set<Id>, contributors: set<Id>, links: set<Link>) {
    forall l :: l in links ==> l.owner in owners && l.contributorId in contributors
  }

  /** The constraints of one review but its unique keys: width, check and foreign keys. */
  predicate ReviewRowOk(users: set<Id>, books: set<Id>, releases: set<Id>, r: Review) {
    && ExactlyOneTarget(r.bookId, r.releaseId)
    && (r.rating.Some? ==> 1 <= r.rating.value <= 5)
    && TextFits(r.title, TEXT_LENGTH)
    && References(r.userId, users)
    && References(r.bookId, books)
    && References(r.releaseId, releases)
  }

  /** Two rows clash on a unique key only when no column of the key is NULL. */
  predicate ReviewsClash(r: Review, s: Review) {
    || (Holds(Equal(r.userId, s.userId)) && Holds(Equal(r.bookId, s.bookId)))
    || (Holds(Equal(r.userId, s.userId)) && Holds(Equal(r.releaseId, s.releaseId)))
  }

  ghost predicate ReviewsUnique(t: Table<Review>) {
    forall r, s :: r in t && s in t && ReviewsClash(r.data, s.data) ==> r == s
  }

  ghost predicate ReviewsOk(users: set<Id>, books: set<Id>, releases: set<Id>, reviews: Table<Review>) {
    && (forall r :: r in reviews ==> ReviewRowOk(users, books, releases, r.data))
    && ReviewsUnique(reviews)
  }

  predicate StatusRowOk(users: set<Id>, books: set<Id>, releases: set<Id>, s: BookStatus) {
    && ExactlyOneTarget(s.bookId, s.releaseId)
    && TextFits(s.lentToName, TEXT_LENGTH)
    && s.userId in users
    && References(s.lentToUserId, users)
    && References(s.bookId, books)
    && References(s.releaseId, releases)
  }

  ghost predicate StatusesOk(users: set<Id>, books: set<Id>, releases: set<Id>, statuses: Table<BookStatus>) {
    forall r :: r in statuses ==> StatusRowOk(users, books, releases, r.data)
  }

  predicate CollectionRowOk(users: set<Id>, c: Collection) {
    c.userId in users && |c.name| <= TEXT_LENGTH && TextFits(c.cover, URL_LENGTH) && IntFits(Some(c.sortOrder))
  }

  ghost predicate CollectionsOk(users: set<Id>, collections: Table<Collection>) {
    forall r :: r in collections ==> CollectionRowOk(users, r.data)
  }

  predicate ItemRowOk(books: set<Id>, releases: set<Id>, collections: set<Id>, i: CollectionItem) {
    && ExactlyOneTarget(i.bookId, i.releaseId)
    && i.collectionId in collections
    && References(i.bookId, books)
    && References(i.releaseId, releases)
  }

  ghost predicate ItemsOk(books: set<Id>, releases: set<Id>, collections: set<Id>, items: Table<CollectionItem>) {
    forall r :: r in items ==> ItemRowOk(books, releases, collections, r.data)
  }

  predicate SessionRowOk(users: set<Id>, releases: set<Id>, s: ReadingSession) {
    && s.userId in users && s.releaseId in releases
    && IntFits(s.pagesRead) && IntFits(s.positionStart) && IntFits(s.positionEnd)
  }

  /** The partial unique index: at most one session without an end per user and release. */
  predicate SessionsClash(r: ReadingSession, s: ReadingSession) {
    r.endedAt.None? && s.endedAt.None? && r.userId == s.userId && r.releaseId == s.releaseId
  }

  ghost predicate SessionsUnique(t: Table<ReadingSession>) {
    forall r, s :: r in t && s in t && SessionsClash(r.data, s.data) ==> r == s
  }

  ghost predicate SessionsOk(users: set<Id>, releases: set<Id>, sessions: Table<ReadingSession>) {
    && (forall r :: r in sessions ==> SessionRowOk(users, releases, r.data))
    && SessionsUnique(sessions)
  }

  predicate SameDirection(f: Friendship, g: Friendship) {
    f.requesterId == g.requesterId && f.addresseeId == g.addresseeId
  }

  predicate FriendshipRowOk(users: set<Id>, f: Friendship) {
    f.requesterId in users && f.addresseeId in users && f.requesterId != f.addresseeId
  }

  ghost predicate FriendshipsOk(users: set<Id>, friendships: Table<Friendship>) {
    && (forall r :: r in friendships ==> FriendshipRowOk(users, r.data))
    && (forall r, s :: r in friendships && s in friendships && SameDirection(r.data, s.data) ==> r == s)
  }

  ghost predicate ContributionsOk(users: set<Id>, contributions: Table<Contribution>) {
    forall r :: r in contributions ==> r.data.userId in users && References(r.data.reviewerId, users)
  }

  ghost predicate VersionsOk(contributions: set<Id>, versions: Table<EntityVersion>) {
    forall r :: r in versions ==> References(r.data.contributionId, contributions)
  }

  predicate SameUsers(t: ChatThread, u: ChatThread) {
    t.userA == u.userA && t.userB == u.userB
  }

  predicate ThreadRowOk(users: set<Id>, t: ChatThread) {
    t.userA in users && t.userB in users && t.userA < t.userB
  }

  ghost predicate ThreadsOk(users: set<Id>, threads: Table<ChatThread>) {
    && (forall r :: r in threads ==> ThreadRowOk(users, r.data))
    && (forall r, s :: r in threads && s in threads && SameUsers(r.data, s.data) ==> r == s)
  }

  predicate MessageRowOk(users: set<Id>, books: set<Id>, collections: set<Id>, threads: set<Id>, m: ChatMessage) {
    && m.threadId in threads
    && m.senderId in users
    && References(m.attachedBook, books)
    && References(m.attachedCollection, collections)
  }

  ghost predicate MessagesOk(
    users: set<Id>, books: set<Id>, collections: set<Id>, threads: set<Id>, messages: Table<ChatMessage>)
  {
    forall r :: r in messages ==> MessageRowOk(users, books, collections, threads, r.data)
  }

  ghost predicate ImportsOk(users: set<Id>, imports: Table<ImportRecord>) {
    forall r :: r in imports ==> r.data.userId in users
  }

  ghost predicate AttendantsOk(users: set<Id>, attendants: Table<Attendant>) {
    forall r :: r in attendants ==> r.data.userId in users
  }

  ghost predicate KeysOk(db: Database) {
    && KeysBelow(db.books, db.nextId)
    && KeysBelow(db.releases, db.nextId)
    && KeysBelow(db.isbns, db.nextId)
    && KeysBelow(db.contributors, db.nextId)
    && KeysBelow(db.reviews, db.nextId)
    && KeysBelow(db.statuses, db.nextId)
    && KeysBelow(db.collections, db.nextId)
    && KeysBelow(db.items, db.nextId)
    && KeysBelow(db.sessions, db.nextId)
    && KeysBelow(db.friendships, db.nextId)
    && KeysBelow(db.contributions, db.nextId)
    && KeysBelow(db.versions, db.nextId)
    && KeysBelow(db.threads, db.nextId)
    && KeysBelow(db.messages, db.nextId)
    && KeysBelow(db.imports, db.nextId)
    && KeysBelow(db.attendants, db.nextId)
  }

  /** Every declared constraint holds. */
  ghost predicate Consistent(db: Database) {
    && KeysOk(db)
    && BooksOk(db.books)
    && ReleasesOk(Keys(db.books), db.releases)
    && IsbnsOk(Keys(db.releases), db.isbns)
    && ContributorsOk(db.contributors)
    && LinksOk(Keys(db.books), Keys(db.contributors), db.bookLinks)
    && LinksOk(Keys(db.releases), Keys(db.contributors), db.releaseLinks)
    && ReviewsOk(db.users, Keys(db.books), Keys(db.releases), db.reviews)
    && StatusesOk(db.users, Keys(db.books), Keys(db.releases), db.statuses)
    && CollectionsOk(db.users, db.collections)
    && ItemsOk(Keys(db.books), Keys(db.releases), Keys(db.collections), db.items)
    && SessionsOk(db.users, Keys(db.releases), db.sessions)
    && FriendshipsOk(db.users, db.friendships)
    && ContributionsOk(db.users, db.contributions)
    && VersionsOk(Keys(db.contributions), db.versions)
    && ThreadsOk(db.users, db.threads)
    && MessagesOk(db.users, Keys(db.books), Keys(db.collections), Keys(db.threads), db.messages)
    && ImportsOk(db.users, db.imports)
    && AttendantsOk(db.users, db.attendants)
  }

  /** No rows but these users. */
  function Empty(users: set<Id>, next: Id): Database {
    Database(users, [], [], [], [], {}, {}, [], [], [], [], [], [], [], [], [], [], [], [], next)
  }

  lemma KeysWithout<D(!new)>(t: Table<D>, key: Id)
    ensures Keys(WithoutKey(t, key)) == Keys(t) - {key}
  {
    forall id | id in Keys(t) && id != key ensures id in Keys(WithoutKey(t, key)) {
      var r :| r in t && r.id == id;
      assert r in WithoutKey(t, key);
    }
  }

  /** Rows that are deleted leave no key behind. */
  lemma DeletedKeyGone<D(!new)>(t: Table<D>, p: D -> bool, id: Id)
    requires DistinctIds(t) && id in Keys(Where(t, p))
    ensures id !in Keys(DeleteWhere(t, p))
  {
    var r :| r in Where(t, p) && r.id == id;
    forall q | q in DeleteWhere(t, p) ensures q.id != id {
      var i :| 0 <= i < |t| && t[i] == r;
      var j :| 0 <= j < |t| && t[j] == q;
    }
  }

  lemma KeysLeft<D(!new)>(t: Table<D>, p: D -> bool)
    ensures Keys(t) - Keys(Where(t, p)) <= Keys(DeleteWhere(t, p))
  {
    forall id | id in Keys(t) && id !in Keys(Where(t, p)) ensures id in Keys(DeleteWhere(t, p)) {
      var r :| r in t && r.id == id;
      assert r !in Where(t, p);
      assert r in DeleteWhere(t, p);
    }
  }

  lemma SameKeys<D, E>(t: Table<D>, u: Table<E>)
    requires |t| == |u| && forall i :: 0 <= i < |t| ==> t[i].id == u[i].id
    ensures Keys(t) == Keys(u)
  {
    forall id ensures id in Keys(t) <==> id in Keys(u) {
      if id in Keys(t) {
        var i :| 0 <= i < |t| && t[i].id == id;
        assert u[i] in u;
      }
      if id in Keys(u) {
        var i :| 0 <= i < |u| && u[i].id == id;
        assert t[i] in t;
      }
    }
  }

  lemma KeysOfAppended<D>(t: Table<D>, r: Row<D>)
    requires KeysBelow(t, r.id)
    ensures KeysBelow(t + [r], r.id + 1) && Keys(t + [r]) == Keys(t) + {r.id}
  {
    assert forall x :: x in t + [r] <==> x in t || x == r;
  }
}
