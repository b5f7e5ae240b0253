/** Threads and messages between friends. */
module Chat {
  import opened Sql
  import opened Schema
  import opened Friendships
  import opened FriendshipRuns
  import opened ChatPaging

  /** The keys of the tables the chat tables refer to. */
  datatype World = World(users: set<Id>, books: set<Id>, collections: set<Id>)

  datatype Chats = Chats(threads: Table<ChatThread>, messages: Messages, next: Id)

  datatype Draft = Draft(body: string, book: Option<Id>, collection: Option<Id>)

  datatype ChatFailure = CannotMessageSelf | NotFriends | ThreadNotFound | DanglingAttachment

  datatype ChatStep =
    | Open(sender: Id, recipient: Id)
    | Send(sender: Id, recipient: Id, draft: Draft, now: int, created: int)
    | SendTo(thread: Id, sender: Id, draft: Draft, now: int, created: int)

  // ---------- The repository's queries ----------

  predicate IsOf(t: ChatThread, a: Id, b: Id) {
    t.userA == a && t.userB == b
  }

  function FindThread(threads: Table<ChatThread>, a: Id, b: Id): (r: Option<Row<ChatThread>>)
    ensures r.Some? ==> r.value in threads && IsOf(r.value.data, a, b)
    ensures r.None? ==> forall i :: 0 <= i < |threads| ==> !IsOf(threads[i].data, a, b)
  {
    if threads == [] then None
    else if IsOf(threads[0].data, a, b) then Some(threads[0])
    else FindThread(threads[1..], a, b)
  }

  /** get_thread_for_users: the smaller user first. */
  function ThreadOf(threads: Table<ChatThread>, a: Id, b: Id): Option<Row<ChatThread>> {
    if a > b then FindThread(threads, b, a) else FindThread(threads, a, b)
  }

  function NewThread(a: Id, b: Id): ChatThread {
    if a > b then ChatThread(b, a, None) else ChatThread(a, b, None)
  }

  /** update_thread_last_message. */
  function Touched(threads: Table<ChatThread>, key: Id, now: int): (r: Table<ChatThread>)
    ensures |r| == |threads|
    ensures forall i :: 0 <= i < |threads| ==>
      r[i] == if threads[i].id == key then Row(key, threads[i].data.(lastMessageAt := Some(now))) else threads[i]
  {
    seq(|threads|, i requires 0 <= i < |threads| =>
      if threads[i].id == key then Row(key, threads[i].data.(lastMessageAt := Some(now))) else threads[i])
  }

  // ---------- The steps ----------

  predicate AreFriends(f: Friends, a: Id, b: Id) {
    a != b && HasStatus(PairOf(f, a, b), Accepted)
  }

  predicate AttachmentsExist(w: World, d: Draft) {
    References(d.book, w.books) && References(d.collection, w.collections)
  }

  function Opened(c: Chats, a: Id, b: Id): Chats {
    if ThreadOf(c.threads, a, b).Some? then c
    else c.(threads := c.threads + [Row(c.next, NewThread(a, b))], next := c.next + 1)
  }

  function Posted(c: Chats, key: Id, sender: Id, d: Draft, now: int, created: int): Chats {
    Chats(Touched(c.threads, key, now),
          c.messages + [Row(c.next, ChatMessage(key, sender, d.body, d.book, d.collection, created, None))],
          c.next + 1)
  }

  /** A message to a friend: the thread is opened and committed before the message is inserted, so it
      stays when the message's attachments do not exist. */
  function Messaged(w: World, c: Chats, a: Id, b: Id, d: Draft, now: int, created: int): Chats {
    var o := Opened(c, a, b);
    var r := ThreadOf(o.threads, a, b);
    if r.Some? && AttachmentsExist(w, d) then Posted(o, r.value.id, a, d, now, created) else o
  }

  /** The other user of a thread, for one of the two. */
  function Recipient(threads: Table<ChatThread>, key: Id, sender: Id): Option<Id> {
    var r := Get(threads, key);
    if r.None? then None
    else if r.value.data.userA == sender then Some(r.value.data.userB)
    else if r.value.data.userB == sender then Some(r.value.data.userA)
    else None
  }

  function Addressed(c: Chats, step: ChatStep): Option<Id> {
    match step
    case Open(_, recipient) => Some(recipient)
    case Send(_, recipient, _, _, _) => Some(recipient)
    case SendTo(key, sender, _, _, _) => Recipient(c.threads, key, sender)
  }

  function Refusal(w: World, f: Friends, c: Chats, step: ChatStep): Option<ChatFailure> {
    var recipient := Addressed(c, step);
    if recipient.None? then Some(ThreadNotFound)
    else if step.sender == recipient.value then Some(CannotMessageSelf)
    else if !AreFriends(f, step.sender, recipient.value) then Some(NotFriends)
    else if !step.Open? && !AttachmentsExist(w, step.draft) then Some(DanglingAttachment)
    else None
  }

  function NextChats(w: World, f: Friends, c: Chats, step: ChatStep): Chats {
    var recipient := Addressed(c, step);
    if recipient.None? || !AreFriends(f, step.sender, recipient.value) then c
    else if step.Open? then Opened(c, step.sender, recipient.value)
    else Messaged(w, c, step.sender, recipient.value, step.draft, step.now, step.created)
  }

  // ---------- The invariant ----------

  /** One thread per pair, its smaller user first. */
  ghost predicate ThreadsWellFormed(w: World, c: Chats) {
    && KeysBelow(c.threads, c.next)
    && (forall i :: 0 <= i < |c.threads| ==> ThreadRowOk(w.users, c.threads[i].data))
    && (forall i, j :: 0 <= i < j < |c.threads| ==> !SameUsers(c.threads[i].data, c.threads[j].data))
  }

  predicate SentByMember(threads: Table<ChatThread>, m: ChatMessage) {
    var r := Get(threads, m.threadId);
    r.Some? && (m.senderId == r.value.data.userA || m.senderId == r.value.data.userB)
  }

  /** Every message is in a thread, from one of its two users, and its attachments exist. */
  ghost predicate MessagesWellFormed(w: World, c: Chats) {
    && KeysBelow(c.messages, c.next)
    && forall i :: 0 <= i < |c.messages| ==>
      SentByMember(c.threads, c.messages[i].data)
      && References(c.messages[i].data.attachedBook, w.books)
      && References(c.messages[i].data.attachedCollection, w.collections)
  }

  ghost predicate ChatsWellFormed(w: World, c: Chats) {
    ThreadsWellFormed(w, c) && MessagesWellFormed(w, c)
  }

  /** In particular the two tables' own constraints hold. */
  lemma ChatsAreConsistent(w: World, c: Chats)
    requires ChatsWellFormed(w, c)
    ensures ThreadsOk(w.users, c.threads)
    ensures MessagesOk(w.users, w.books, w.collections, Keys(c.threads), c.messages)
  {
    forall q, r | q in c.threads && r in c.threads && SameUsers(q.data, r.data) ensures q == r {
      var i :| 0 <= i < |c.threads| && c.threads[i] == q;
      var j :| 0 <= j < |c.threads| && c.threads[j] == r;
      assert i < j ==> !SameUsers(q.data, r.data);
      assert j < i ==> !SameUsers(r.data, q.data);
    }
    forall m | m in c.messages ensures MessageRowOk(w.users, w.books, w.collections, Keys(c.threads), m.data) {
      var i :| 0 <= i < |c.messages| && c.messages[i] == m;
      assert SentByMember(c.threads, c.messages[i].data);
      var r := Get(c.threads, m.data.threadId).value;
      var j :| 0 <= j < |c.threads| && c.threads[j] == r;
      assert ThreadRowOk(w.users, c.threads[j].data);
    }
  }

  lemma {:induction false} FoundAppended(threads: Table<ChatThread>, r: Row<ChatThread>, a: Id, b: Id)
    ensures FindThread(threads + [r], a, b)
      == if FindThread(threads, a, b).Some? then FindThread(threads, a, b)
        else if IsOf(r.data, a, b) then Some(r)
        else None
  {
    if threads != [] {
      assert (threads + [r])[1..] == threads[1..] + [r];
      FoundAppended(threads[1..], r, a, b);
    }
  }

  function Refreshed(r: Option<Row<ChatThread>>, key: Id, now: int): Option<Row<ChatThread>> {
    if r.Some? && r.value.id == key then Some(Row(key, r.value.data.(lastMessageAt := Some(now)))) else r
  }

  lemma {:induction false} ThreadTouched(threads: Table<ChatThread>, key: Id, now: int, k: Id)
    ensures Get(Touched(threads, key, now), k) == Refreshed(Get(threads, k), key, now)
  {
    if threads != [] {
      assert Touched(threads, key, now)[1..] == Touched(threads[1..], key, now);
      ThreadTouched(threads[1..], key, now, k);
    }
  }

  lemma {:induction false} FoundTouched(threads: Table<ChatThread>, key: Id, now: int, a: Id, b: Id)
    ensures FindThread(Touched(threads, key, now), a, b) == Refreshed(FindThread(threads, a, b), key, now)
  {
    if threads != [] {
      assert Touched(threads, key, now)[1..] == Touched(threads[1..], key, now);
      FoundTouched(threads[1..], key, now, a, b);
    }
  }

  // ---------- Opening ----------

  /** Whoever opens it, the pair has one thread; opening it again, from either side, changes nothing. */
  lemma OpenedIsFound(w: World, c: Chats, a: Id, b: Id)
    requires ThreadsWellFormed(w, c) && a != b
    ensures var o := Opened(c, a, b);
      && ThreadOf(o.threads, a, b).Some?
      && ThreadOf(o.threads, b, a) == ThreadOf(o.threads, a, b)
      && Opened(o, b, a) == o && Opened(o, a, b) == o
  {
    if ThreadOf(c.threads, a, b).None? {
      var r := Row(c.next, NewThread(a, b));
      FoundAppended(c.threads, r, r.data.userA, r.data.userB);
    }
  }

  /** Opening adds one empty thread, its smaller user first, exactly when the two have none. */
  lemma OpenedAdds(w: World, c: Chats, a: Id, b: Id)
    requires ThreadsWellFormed(w, c)
    ensures Opened(c, a, b)
      == if exists t :: t in c.threads && {t.data.userA, t.data.userB} == {a, b} then c
         else c.(threads := c.threads + [Row(c.next, ChatThread(if a > b then b else a, if a > b then a else b, None))],
                 next := c.next + 1)
  {
    forall i | 0 <= i < |c.threads| && {c.threads[i].data.userA, c.threads[i].data.userB} == {a, b}
      ensures IsOf(c.threads[i].data, if a > b then b else a, if a > b then a else b)
    {
      assert ThreadRowOk(w.users, c.threads[i].data);
      SameTwo(c.threads, c.threads[i].data.userA, c.threads[i].data.userB, a, b);
    }
    if ThreadOf(c.threads, a, b).Some? {
      assert {ThreadOf(c.threads, a, b).value.data.userA, ThreadOf(c.threads, a, b).value.data.userB} == {a, b};
    }
  }

  lemma OpenedThreads(w: World, c: Chats, a: Id, b: Id)
    requires ThreadsWellFormed(w, c) && a != b && a in w.users && b in w.users
    ensures ThreadsWellFormed(w, Opened(c, a, b))
  {
    if ThreadOf(c.threads, a, b).None? {
      var n := NewThread(a, b);
      assert forall i :: 0 <= i < |c.threads| ==> !IsOf(c.threads[i].data, n.userA, n.userB);
    }
  }

  lemma OpenedKeeps(w: World, c: Chats, a: Id, b: Id)
    requires ChatsWellFormed(w, c) && a != b && a in w.users && b in w.users
    ensures ChatsWellFormed(w, Opened(c, a, b))
  {
    OpenedThreads(w, c, a, b);
    var o := Opened(c, a, b);
    forall i | 0 <= i < |c.messages| ensures SentByMember(o.threads, c.messages[i].data) {
      assert SentByMember(c.threads, c.messages[i].data);
      GetAppended(c.threads, Row(c.next, NewThread(a, b)), c.messages[i].data.threadId);
    }
  }

  lemma TouchedThreads(w: World, c: Chats, key: Id, now: int)
    requires ThreadsWellFormed(w, c)
    ensures ThreadsWellFormed(w, c.(threads := Touched(c.threads, key, now), next := c.next + 1))
  {
    var threads := Touched(c.threads, key, now);
    forall i, j | 0 <= i < j < |threads| ensures !SameUsers(threads[i].data, threads[j].data) {
      assert !SameUsers(c.threads[i].data, c.threads[j].data);
    }
    forall i | 0 <= i < |threads| ensures ThreadRowOk(w.users, threads[i].data) {
      assert ThreadRowOk(w.users, c.threads[i].data);
    }
  }

  lemma TouchedMembers(threads: Table<ChatThread>, key: Id, now: int, m: ChatMessage)
    ensures SentByMember(Touched(threads, key, now), m) == SentByMember(threads, m)
  {
    ThreadTouched(threads, key, now, m.threadId);
  }

  lemma PostedKeeps(w: World, c: Chats, key: Id, sender: Id, d: Draft, now: int, created: int)
    requires ChatsWellFormed(w, c) && AttachmentsExist(w, d)
    requires Get(c.threads, key).Some?
    requires sender == Get(c.threads, key).value.data.userA || sender == Get(c.threads, key).value.data.userB
    ensures ChatsWellFormed(w, Posted(c, key, sender, d, now, created))
  {
    var p := Posted(c, key, sender, d, now, created);
    TouchedThreads(w, c, key, now);
    forall i | 0 <= i < |p.messages| ensures SentByMember(p.threads, p.messages[i].data) {
      TouchedMembers(c.threads, key, now, p.messages[i].data);
      assert i < |c.messages| ==> SentByMember(c.threads, c.messages[i].data);
    }
  }

  lemma FriendsAreUsers(w: World, f: Friends, a: Id, b: Id)
    requires WellFormed(w.users, f) && AreFriends(f, a, b)
    ensures a in w.users && b in w.users
  {
    var r := GetBetween(f.rows, a, b).value;
    var i :| 0 <= i < |f.rows| && f.rows[i] == r;
    assert FriendshipRowOk(w.users, f.rows[i].data);
  }

  /** The opened thread, by its key, and its two users. */
  lemma OpenedThread(w: World, c: Chats, a: Id, b: Id)
    requires ChatsWellFormed(w, c) && a != b && a in w.users && b in w.users
    ensures var o := Opened(c, a, b);
      && ThreadOf(o.threads, a, b).Some?
      && Get(o.threads, ThreadOf(o.threads, a, b).value.id) == ThreadOf(o.threads, a, b)
      && (a == ThreadOf(o.threads, a, b).value.data.userA || a == ThreadOf(o.threads, a, b).value.data.userB)
  {
    OpenedIsFound(w, c, a, b);
    OpenedKeeps(w, c, a, b);
    var o := Opened(c, a, b);
    GetRow(o.threads, ThreadOf(o.threads, a, b).value);
  }

  /** Every chat step keeps the invariant: one thread per pair with the smaller user first, every
      message from one of its thread's two users. */
  lemma ChatStepKeeps(w: World, f: Friends, c: Chats, step: ChatStep)
    requires ChatsWellFormed(w, c) && WellFormed(w.users, f)
    ensures ChatsWellFormed(w, NextChats(w, f, c, step))
  {
    var recipient := Addressed(c, step);
    if recipient.Some? && AreFriends(f, step.sender, recipient.value) {
      var a, b := step.sender, recipient.value;
      FriendsAreUsers(w, f, a, b);
      OpenedKeeps(w, c, a, b);
      OpenedThread(w, c, a, b);
      if !step.Open? && AttachmentsExist(w, step.draft) {
        var o := Opened(c, a, b);
        PostedKeeps(w, o, ThreadOf(o.threads, a, b).value.id, a, step.draft, step.now, step.created);
      }
    }
  }

  // ---------- Who can write to whom ----------

  /** All that two users ever wrote to each other. */
  function MessagesBetween(c: Chats, a: Id, b: Id): Messages {
    var r := ThreadOf(c.threads, a, b);
    if r.Some? then InThread(c.messages, r.value.id) else []
  }

  predicate AddsOne(before: Messages, after: Messages, sender: Id) {
    |after| == |before| + 1 && after[..|before|] == before && after[|before|].data.senderId == sender
  }

  lemma NoneInNewThread(w: World, c: Chats, key: Id)
    requires ChatsWellFormed(w, c) && Get(c.threads, key).None?
    ensures InThread(c.messages, key) == []
  {
    forall m | m in c.messages ensures m.data.threadId != key {
      var i :| 0 <= i < |c.messages| && c.messages[i] == m;
      assert SentByMember(c.threads, c.messages[i].data);
    }
    WhereNone(c.messages, (m: ChatMessage) => m.threadId == key);
  }

  lemma OpenedSaysNothing(w: World, c: Chats, a: Id, b: Id, x: Id, y: Id)
    requires ChatsWellFormed(w, c) && a != b
    ensures MessagesBetween(Opened(c, a, b), x, y) == MessagesBetween(c, x, y)
  {
    if ThreadOf(c.threads, a, b).None? {
      var r := Row(c.next, NewThread(a, b));
      FoundAppended(c.threads, r, if x > y then y else x, if x > y then x else y);
      GetAbsent(c.threads, c.next);
      NoneInNewThread(w, c, c.next);
    }
  }

  lemma InThreadAppended(messages: Messages, m: Row<ChatMessage>, key: Id)
    ensures InThread(messages + [m], key) == InThread(messages, key) + if m.data.threadId == key then [m] else []
  {
    WhereConcat(messages, [m], (n: ChatMessage) => n.threadId == key);
  }

  /** The threads of two different pairs are different. */
  lemma ThreadsDiffer(w: World, c: Chats, a: Id, b: Id, x: Id, y: Id)
    requires ThreadsWellFormed(w, c)
    requires ThreadOf(c.threads, a, b).Some? && ThreadOf(c.threads, x, y).Some?
    requires ThreadOf(c.threads, a, b).value.id == ThreadOf(c.threads, x, y).value.id
    ensures {a, b} == {x, y}
  {
    GetRow(c.threads, ThreadOf(c.threads, a, b).value);
    GetRow(c.threads, ThreadOf(c.threads, x, y).value);
  }

  /** A message posted in the pair's thread is the pair's last. */
  lemma PostedIsLast(c: Chats, a: Id, b: Id, d: Draft, now: int, created: int)
    requires ThreadOf(c.threads, a, b).Some?
    ensures var key := ThreadOf(c.threads, a, b).value.id;
      MessagesBetween(Posted(c, key, a, d, now, created), a, b)
      == MessagesBetween(c, a, b) + [Row(c.next, ChatMessage(key, a, d.body, d.book, d.collection, created, None))]
    ensures var r := ThreadOf(c.threads, a, b).value;
      ThreadOf(Posted(c, r.id, a, d, now, created).threads, a, b)
        == Some(Row(r.id, r.data.(lastMessageAt := Some(now))))
  {
    var key := ThreadOf(c.threads, a, b).value.id;
    FoundTouched(c.threads, key, now, if a > b then b else a, if a > b then a else b);
    InThreadAppended(c.messages, Row(c.next, ChatMessage(key, a, d.body, d.book, d.collection, created, None)), key);
  }

  lemma SameTwo(threads: Table<ChatThread>, a: Id, b: Id, x: Id, y: Id)
    requires {a, b} == {x, y}
    ensures (x == a && y == b) || (x == b && y == a)
    ensures ThreadOf(threads, a, b) == ThreadOf(threads, x, y)
  {
    assert a in {x, y} && b in {x, y} && x in {a, b} && y in {a, b};
  }

  /** A message between two users is not one between two others. */
  lemma PostedElsewhere(w: World, c: Chats, a: Id, b: Id, d: Draft, now: int, created: int, x: Id, y: Id)
    requires ChatsWellFormed(w, c) && ThreadOf(c.threads, a, b).Some? && {a, b} != {x, y}
    ensures MessagesBetween(Posted(c, ThreadOf(c.threads, a, b).value.id, a, d, now, created), x, y)
      == MessagesBetween(c, x, y)
  {
    var key := ThreadOf(c.threads, a, b).value.id;
    FoundTouched(c.threads, key, now, if x > y then y else x, if x > y then x else y);
    var r := ThreadOf(c.threads, x, y);
    if r.Some? {
      InThreadAppended(c.messages, Row(c.next, ChatMessage(key, a, d.body, d.book, d.collection, created, None)),
        r.value.id);
      if r.value.id == key {
        ThreadsDiffer(w, c, a, b, x, y);
      }
    }
  }

  lemma PostedSays(w: World, c: Chats, a: Id, b: Id, d: Draft, now: int, created: int, x: Id, y: Id)
    requires ChatsWellFormed(w, c) && ThreadOf(c.threads, a, b).Some?
    ensures var p := Posted(c, ThreadOf(c.threads, a, b).value.id, a, d, now, created);
      if {a, b} == {x, y} then AddsOne(MessagesBetween(c, x, y), MessagesBetween(p, x, y), a)
      else MessagesBetween(p, x, y) == MessagesBetween(c, x, y)
  {
    var p := Posted(c, ThreadOf(c.threads, a, b).value.id, a, d, now, created);
    if {a, b} == {x, y} {
      PostedIsLast(c, a, b, d, now, created);
      SameTwo(c.threads, a, b, x, y);
      SameTwo(p.threads, a, b, x, y);
    } else {
      PostedElsewhere(w, c, a, b, d, now, created, x, y);
    }
  }

  /** The same for a message that opens the thread it is posted in. */
  lemma MessagedSays(w: World, c: Chats, a: Id, b: Id, d: Draft, now: int, created: int, x: Id, y: Id)
    requires ChatsWellFormed(w, c) && a != b && a in w.users && b in w.users
    ensures var before, after := MessagesBetween(c, x, y), MessagesBetween(Messaged(w, c, a, b, d, now, created), x, y);
      after == before || ({a, b} == {x, y} && AddsOne(before, after, a))
  {
    OpenedSaysNothing(w, c, a, b, x, y);
    OpenedThread(w, c, a, b);
    OpenedKeeps(w, c, a, b);
    if AttachmentsExist(w, d) {
      PostedSays(w, Opened(c, a, b), a, b, d, now, created, x, y);
    }
  }

  lemma FriendsEitherWay(f: Friends, a: Id, b: Id, x: Id, y: Id)
    requires {a, b} == {x, y}
    ensures PairOf(f, a, b) == PairOf(f, x, y) && (a == x || a == y)
  {
    SameTwo([], a, b, x, y);
    BetweenSymmetric(f.rows, a, b);
  }

  /** What two users wrote to each other changes only by one message, from one of them, while they
      are friends. */
  lemma OnlyFriendsWrite(w: World, f: Friends, c: Chats, step: ChatStep, x: Id, y: Id)
    requires ChatsWellFormed(w, c) && WellFormed(w.users, f)
    ensures var before, after := MessagesBetween(c, x, y), MessagesBetween(NextChats(w, f, c, step), x, y);
      after != before ==>
        HasStatus(PairOf(f, x, y), Accepted) && (step.sender == x || step.sender == y)
          && AddsOne(before, after, step.sender)
  {
    var recipient := Addressed(c, step);
    if recipient.Some? && AreFriends(f, step.sender, recipient.value) {
      var a, b := step.sender, recipient.value;
      FriendsAreUsers(w, f, a, b);
      if step.Open? {
        OpenedSaysNothing(w, c, a, b, x, y);
      } else {
        MessagedSays(w, c, a, b, step.draft, step.now, step.created, x, y);
      }
      if {a, b} == {x, y} {
        FriendsEitherWay(f, a, b, x, y);
      }
    }
  }

  /** A refused step changes nothing, except that a message with a dangling attachment may leave the
      pair's thread behind, empty if it was not there. */
  lemma RefusedChanges(w: World, f: Friends, c: Chats, step: ChatStep)
    requires ChatsWellFormed(w, c) && WellFormed(w.users, f) && Refusal(w, f, c, step).Some?
    ensures Refusal(w, f, c, step) != Some(DanglingAttachment) ==> NextChats(w, f, c, step) == c
    ensures Refusal(w, f, c, step) == Some(DanglingAttachment) ==>
      && NextChats(w, f, c, step) == Opened(c, step.sender, Addressed(c, step).value)
      && forall x, y :: MessagesBetween(NextChats(w, f, c, step), x, y) == MessagesBetween(c, x, y)
  {
    if Refusal(w, f, c, step) == Some(DanglingAttachment) {
      forall x, y ensures MessagesBetween(NextChats(w, f, c, step), x, y) == MessagesBetween(c, x, y) {
        OpenedSaysNothing(w, c, step.sender, Addressed(c, step).value, x, y);
      }
    }
  }

  /** A step is refused for its recipient or, a message, for its attachments. */
  lemma RefusedIff(w: World, f: Friends, c: Chats, step: ChatStep)
    ensures Refusal(w, f, c, step).Some? <==>
      || Addressed(c, step).None?
      || !AreFriends(f, step.sender, Addressed(c, step).value)
      || (!step.Open? && !AttachmentsExist(w, step.draft))
  {
  }

  /** A refused step leaves the tables as they are exactly when its recipient is no friend, or the pair
      already has its thread. */
  lemma RefusedUnchangedIff(w: World, f: Friends, c: Chats, step: ChatStep)
    requires Refusal(w, f, c, step).Some?
    ensures NextChats(w, f, c, step) == c <==>
      || Addressed(c, step).None?
      || !AreFriends(f, step.sender, Addressed(c, step).value)
      || ThreadOf(c.threads, step.sender, Addressed(c, step).value).Some?
  {
    RefusedIff(w, f, c, step);
    var recipient := Addressed(c, step);
    if recipient.Some? && AreFriends(f, step.sender, recipient.value) {
      assert NextChats(w, f, c, step) == Opened(c, step.sender, recipient.value);
    }
  }

  function TwoFriends(a: Id, b: Id): Friends {
    Friends([Row(0, Friendship(a, b, Accepted, Some(0)))], 1)
  }

  /** Two friends, and a first message that attaches a book that does not exist: refused, and the thread stays. */
  lemma RefusedMessageLeavesThread(a: Id, b: Id, book: Id)
    requires a != b
    ensures var w, f, c := World({a, b}, {}, {}), TwoFriends(a, b), Chats([], [], 0);
      var step := Send(a, b, Draft("Read this", Some(book), None), 0, 0);
      && WellFormed(w.users, f) && ChatsWellFormed(w, c)
      && Refusal(w, f, c, step) == Some(DanglingAttachment)
      && NextChats(w, f, c, step).threads == [Row(0, NewThread(a, b))] != c.threads
  {
    var f := TwoFriends(a, b);
    assert GetBetween(f.rows, a, b) == Some(f.rows[0]);
    assert [] + [Row(0, NewThread(a, b))] == [Row(0, NewThread(a, b))];
  }

  // ---------- When a message is delivered ----------

  /** The friendship table has an accepted row of the two. */
  ghost predicate Befriended(rows: FriendshipTable, a: Id, b: Id) {
    exists r :: r in rows && r.data.status == Accepted && {r.data.requesterId, r.data.addresseeId} == {a, b}
  }

  lemma AreFriendsIff(users: set<Id>, f: Friends, a: Id, b: Id)
    requires WellFormed(users, f) && a != b
    ensures AreFriends(f, a, b) <==> Befriended(f.rows, a, b)
  {
    if r :| r in f.rows && r.data.status == Accepted && {r.data.requesterId, r.data.addresseeId} == {a, b} {
      SameTwo([], r.data.requesterId, r.data.addresseeId, a, b);
      PairFound(f.rows, r, a, b);
    }
    if AreFriends(f, a, b) {
      var r := GetBetween(f.rows, a, b).value;
      assert r in f.rows && {r.data.requesterId, r.data.addresseeId} == {a, b};
    }
  }

  /** Why a message is refused, if it is. */
  lemma SendRefusedFor(w: World, f: Friends, c: Chats, a: Id, b: Id, d: Draft, now: int, created: int)
    requires WellFormed(w.users, f)
    ensures Refusal(w, f, c, Send(a, b, d, now, created))
      == if a == b then Some(CannotMessageSelf)
         else if !Befriended(f.rows, a, b) then Some(NotFriends)
         else if d.book.Some? && d.book.value !in w.books then Some(DanglingAttachment)
         else if d.collection.Some? && d.collection.value !in w.collections then Some(DanglingAttachment)
         else None
    ensures Refusal(w, f, c, Open(a, b))
      == if a == b then Some(CannotMessageSelf) else if !Befriended(f.rows, a, b) then Some(NotFriends) else None
  {
    if a != b {
      AreFriendsIff(w.users, f, a, b);
    }
  }

  /** Any other message is the last of its two users afterwards, as it was sent, and their thread has its time. */
  lemma SendDelivers(w: World, f: Friends, c: Chats, a: Id, b: Id, d: Draft, now: int, created: int)
    requires ChatsWellFormed(w, c) && WellFormed(w.users, f)
    requires Refusal(w, f, c, Send(a, b, d, now, created)).None?
    ensures var after := NextChats(w, f, c, Send(a, b, d, now, created));
      && ThreadOf(after.threads, a, b).Some? && ThreadOf(after.threads, a, b).value.data.lastMessageAt == Some(now)
      && |MessagesBetween(after, a, b)| == |MessagesBetween(c, a, b)| + 1
      && MessagesBetween(after, a, b)[..|MessagesBetween(c, a, b)|] == MessagesBetween(c, a, b)
      && MessagesBetween(after, a, b)[|MessagesBetween(c, a, b)|].data
           == ChatMessage(ThreadOf(after.threads, a, b).value.id, a, d.body, d.book, d.collection, created, None)
  {
    var o := Opened(c, a, b);
    FriendsAreUsers(w, f, a, b);
    OpenedSaysNothing(w, c, a, b, a, b);
    OpenedIsFound(w, c, a, b);
    PostedIsLast(o, a, b, d, now, created);
  }

  /** Writing to a thread is writing to its other user, for one of its two; anyone else, or an unknown thread, is
      refused. */
  lemma SendToMeans(
    w: World, f: Friends, c: Chats, t: Row<ChatThread>, a: Id, d: Draft, now: int, created: int)
    requires ChatsWellFormed(w, c) && t in c.threads
    ensures var other := if t.data.userA == a then t.data.userB else t.data.userA;
      var step := SendTo(t.id, a, d, now, created);
      if a in {t.data.userA, t.data.userB} then
        && Refusal(w, f, c, step) == Refusal(w, f, c, Send(a, other, d, now, created))
        && NextChats(w, f, c, step) == NextChats(w, f, c, Send(a, other, d, now, created))
      else Refusal(w, f, c, step) == Some(ThreadNotFound) && NextChats(w, f, c, step) == c
  {
    GetRow(c.threads, t);
  }

  lemma SendToNowhere(w: World, f: Friends, c: Chats, key: Id, a: Id, d: Draft, now: int, created: int)
    requires forall t :: t in c.threads ==> t.id != key
    ensures var step := SendTo(key, a, d, now, created);
      Refusal(w, f, c, step) == Some(ThreadNotFound) && NextChats(w, f, c, step) == c
  {
  }

  // ---------- Runs of both services ----------

  datatype Social = Social(friends: Friends, chats: Chats)

  datatype SocialStep = Befriend(step: Step) | Talk(talk: ChatStep)

  function NextSocial(w: World, s: Social, step: SocialStep): Social {
    match step
    case Befriend(st) => s.(friends := Next(w.users, s.friends, st))
    case Talk(t) => s.(chats := NextChats(w, s.friends, s.chats, t))
  }

  function SocialAfter(w: World, s: Social, steps: seq<SocialStep>): Social {
    if steps == [] then s
    else NextSocial(w, SocialAfter(w, s, steps[..|steps| - 1]), steps[|steps| - 1])
  }

  /** The friendship steps of a run. */
  function FriendSteps(steps: seq<SocialStep>): seq<Step> {
    if steps == [] then []
    else
      var last := steps[|steps| - 1];
      FriendSteps(steps[..|steps| - 1]) + if last.Befriend? then [last.step] else []
  }

  ghost predicate SocialWellFormed(w: World, s: Social) {
    WellFormed(w.users, s.friends) && ChatsWellFormed(w, s.chats)
  }

  lemma {:induction false} FriendsOfRun(w: World, s: Social, steps: seq<SocialStep>)
    ensures SocialAfter(w, s, steps).friends == After(w.users, s.friends, FriendSteps(steps))
  {
    if steps != [] {
      FriendsOfRun(w, s, steps[..|steps| - 1]);
      var last := steps[|steps| - 1];
      if last.Befriend? {
        AfterSnoc(w.users, s.friends, FriendSteps(steps[..|steps| - 1]), last.step);
      } else {
        assert FriendSteps(steps) == FriendSteps(steps[..|steps| - 1]);
      }
    }
  }

  /** Every run keeps every invariant of both services. */
  lemma {:induction false} SocialRunKeeps(w: World, s: Social, steps: seq<SocialStep>)
    requires SocialWellFormed(w, s) && ByUsers(w.users, FriendSteps(steps))
    ensures SocialWellFormed(w, SocialAfter(w, s, steps))
  {
    if steps != [] {
      var front, last := steps[..|steps| - 1], steps[|steps| - 1];
      ByUsersFront(w.users, steps);
      SocialRunKeeps(w, s, front);
      var mid := SocialAfter(w, s, front);
      match last
      case Befriend(st) => NextKeeps(w.users, mid.friends, st);
      case Talk(t) => ChatStepKeeps(w, mid.friends, mid.chats, t);
    }
  }

  lemma ByUsersFront(users: set<Id>, steps: seq<SocialStep>)
    requires steps != [] && ByUsers(users, FriendSteps(steps))
    ensures ByUsers(users, FriendSteps(steps[..|steps| - 1]))
    ensures steps[|steps| - 1].Befriend? ==> steps[|steps| - 1].step.user in users
  {
    var front, all := FriendSteps(steps[..|steps| - 1]), FriendSteps(steps);
    assert forall i :: 0 <= i < |front| ==> front[i] == all[i];
    assert steps[|steps| - 1].Befriend? ==> all[|front|] == steps[|steps| - 1].step;
  }

  /** One of the two asked and the other agreed, at the end of these steps. */
  ghost predicate ConsentedBetween(users: set<Id>, f: Friends, steps: seq<Step>, a: Id, b: Id) {
    || (exists i, j :: Consented(users, f, steps, i, j, a, b))
    || (exists i, j :: Consented(users, f, steps, i, j, b, a))
  }

  /** At some point of the run the two were friends by both consents, given within the run. */
  ghost predicate ConsentedWithin(users: set<Id>, f: Friends, steps: seq<Step>, a: Id, b: Id) {
    exists n :: 0 <= n <= |steps| && ConsentedBetween(users, f, steps[..n], a, b)
  }

  lemma AcceptedIsConsented(users: set<Id>, f: Friends, steps: seq<Step>, a: Id, b: Id)
    requires WellFormed(users, f) && ByUsers(users, steps)
    requires !HasStatus(PairOf(f, a, b), Pending) && !HasStatus(PairOf(f, a, b), Accepted)
    requires HasStatus(PairOf(After(users, f, steps), a, b), Accepted)
    ensures ConsentedBetween(users, f, steps, a, b)
  {
    BetweenSymmetric(f.rows, a, b);
    BetweenSymmetric(After(users, f, steps).rows, a, b);
    EveryRowIsExplained(users, f, steps, a, b);
    EveryRowIsExplained(users, f, steps, b, a);
  }

  lemma WithinLonger(users: set<Id>, f: Friends, front: seq<Step>, more: seq<Step>, a: Id, b: Id)
    requires ConsentedWithin(users, f, front, a, b)
    ensures ConsentedWithin(users, f, front + more, a, b)
  {
    var n :| 0 <= n <= |front| && ConsentedBetween(users, f, front[..n], a, b);
    assert (front + more)[..n] == front[..n];
  }

  /** Two users who are not friends and have no request between them, because one blocked the other,
      say, write nothing to each other until one has asked and the other has agreed anew. */
  lemma {:induction false} SilentUntilConsent(w: World, s: Social, steps: seq<SocialStep>, a: Id, b: Id)
    requires SocialWellFormed(w, s) && ByUsers(w.users, FriendSteps(steps))
    requires !HasStatus(PairOf(s.friends, a, b), Pending) && !HasStatus(PairOf(s.friends, a, b), Accepted)
    ensures MessagesBetween(SocialAfter(w, s, steps).chats, a, b) == MessagesBetween(s.chats, a, b)
      || ConsentedWithin(w.users, s.friends, FriendSteps(steps), a, b)
  {
    if steps != [] {
      var front, last := steps[..|steps| - 1], steps[|steps| - 1];
      ByUsersFront(w.users, steps);
      SilentUntilConsent(w, s, front, a, b);
      SocialRunKeeps(w, s, front);
      FriendsOfRun(w, s, front);
      var mid, asked := SocialAfter(w, s, front), FriendSteps(front);
      if HasStatus(PairOf(mid.friends, a, b), Accepted) {
        AcceptedIsConsented(w.users, s.friends, asked, a, b);
        assert asked[..|asked|] == asked;
      }
      if ConsentedWithin(w.users, s.friends, asked, a, b) {
        WithinLonger(w.users, s.friends, asked, if last.Befriend? then [last.step] else [], a, b);
      } else if last.Talk? {
        OnlyFriendsWrite(w, mid.friends, mid.chats, last.talk, a, b);
      }
    }
  }
}
