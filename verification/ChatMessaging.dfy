/** The chat service, on top of the friendship service's table. */
module ChatMessaging {
  import opened Sql
  import opened Schema
  import opened Friendships
  import opened ChatPaging
  import opened Chat

  /** The messages mark_messages_as_read selects. */
  predicate Unread(m: ChatMessage, thread: Id, reader: Id) {
    m.threadId == thread && m.senderId != reader && m.readAt.None?
  }

  function UnreadOf(messages: Messages, thread: Id, reader: Id): Messages {
    Where(messages, (m: ChatMessage) => Unread(m, thread, reader))
  }

  /** The i-th row after marking, the clock being read once for each row marked. */
  function Marked(messages: Messages, i: nat, thread: Id, reader: Id, clock: nat -> int): Row<ChatMessage>
    requires i < |messages|
  {
    var m := messages[i];
    if Unread(m.data, thread, reader)
    then Row(m.id, m.data.(readAt := Some(clock(|UnreadOf(messages[..i], thread, reader)|))))
    else m
  }

  lemma UnreadSnoc(messages: Messages, i: nat, thread: Id, reader: Id)
    requires i < |messages|
    ensures |UnreadOf(messages[..i + 1], thread, reader)|
      == |UnreadOf(messages[..i], thread, reader)| + if Unread(messages[i].data, thread, reader) then 1 else 0
  {
    assert messages[..i + 1] == messages[..i] + [messages[i]];
    WhereConcat(messages[..i], [messages[i]], (m: ChatMessage) => Unread(m, thread, reader));
  }

  ghost predicate AllMarked(c: Chats, messages: Messages, thread: Id, reader: Id, clock: nat -> int) {
    && |messages| == |c.messages|
    && forall i :: 0 <= i < |messages| ==> messages[i] == Marked(c.messages, i, thread, reader, clock)
  }

  lemma MarkedKeeps(w: World, c: Chats, messages: Messages, thread: Id, reader: Id, clock: nat -> int)
    requires ChatsWellFormed(w, c) && AllMarked(c, messages, thread, reader, clock)
    ensures ChatsWellFormed(w, c.(messages := messages))
  {
    forall i | 0 <= i < |messages| ensures messages[i].id == c.messages[i].id
      && messages[i].data == c.messages[i].data.(readAt := messages[i].data.readAt)
    {
      assert messages[i] == Marked(c.messages, i, thread, reader, clock);
    }
    SameSenders(w, c, messages);
  }

  lemma SameSenders(w: World, c: Chats, messages: Messages)
    requires ChatsWellFormed(w, c) && |messages| == |c.messages|
    requires forall i :: 0 <= i < |messages| ==> messages[i].id == c.messages[i].id
    requires forall i :: 0 <= i < |messages| ==>
      messages[i].data == c.messages[i].data.(readAt := messages[i].data.readAt)
    ensures ChatsWellFormed(w, c.(messages := messages))
  {
    forall i | 0 <= i < |messages| ensures SentByMember(c.threads, messages[i].data) {
      assert SentByMember(c.threads, c.messages[i].data);
    }
  }

  lemma NothingUnread(c: Chats, messages: Messages, thread: Id, reader: Id, clock: nat -> int)
    requires AllMarked(c, messages, thread, reader, clock)
    ensures UnreadOf(messages, thread, reader) == []
  {
    forall m | m in messages ensures !Unread(m.data, thread, reader) {
      var i :| 0 <= i < |messages| && messages[i] == m;
      assert m == Marked(c.messages, i, thread, reader, clock);
    }
    WhereNone(messages, (m: ChatMessage) => Unread(m, thread, reader));
  }

  /** A message is refused for the reasons its thread is, or for its attachments. */
  lemma SendRefused(w: World, f: Friends, c: Chats, a: Id, b: Id, d: Draft, now: int, created: int)
    requires Refusal(w, f, c, Open(a, b)).Some? || !AttachmentsExist(w, d)
    ensures NextChats(w, f, c, Send(a, b, d, now, created)) == NextChats(w, f, c, Open(a, b))
    ensures Refusal(w, f, c, Send(a, b, d, now, created))
      == if Refusal(w, f, c, Open(a, b)).Some? then Refusal(w, f, c, Open(a, b)) else Some(DanglingAttachment)
  {
  }

  /** Otherwise sending it is opening the thread, then posting in it. */
  lemma SendPosted(w: World, f: Friends, c: Chats, a: Id, b: Id, d: Draft, now: int, created: int, o: Chats, key: Id)
    requires ChatsWellFormed(w, c) && Refusal(w, f, c, Open(a, b)).None? && AttachmentsExist(w, d)
    requires o == NextChats(w, f, c, Open(a, b))
    requires ThreadOf(o.threads, a, b).Some? && ThreadOf(o.threads, a, b).value.id == key
    ensures Refusal(w, f, c, Send(a, b, d, now, created)) == None
    ensures NextChats(w, f, c, Send(a, b, d, now, created)) == Posted(o, key, a, d, now, created)
    ensures MessagesBetween(Posted(o, key, a, d, now, created), a, b)
      == MessagesBetween(c, a, b) + [Row(o.next, ChatMessage(key, a, d.body, d.book, d.collection, created, None))]
  {
    OpenedSaysNothing(w, c, a, b, a, b);
    PostedIsLast(o, a, b, d, now, created);
  }

  /** Writing to a thread is writing to its other user. */
  lemma SendToSends(w: World, f: Friends, c: Chats, key: Id, a: Id, b: Id, d: Draft, now: int, created: int)
    requires Recipient(c.threads, key, a) == Some(b)
    ensures NextChats(w, f, c, SendTo(key, a, d, now, created)) == NextChats(w, f, c, Send(a, b, d, now, created))
    ensures Refusal(w, f, c, SendTo(key, a, d, now, created)) == Refusal(w, f, c, Send(a, b, d, now, created))
  {
  }

  lemma SendToNobody(w: World, f: Friends, c: Chats, key: Id, a: Id, d: Draft, now: int, created: int)
    requires Recipient(c.threads, key, a) == None
    ensures NextChats(w, f, c, SendTo(key, a, d, now, created)) == c
    ensures Refusal(w, f, c, SendTo(key, a, d, now, created)) == Some(ThreadNotFound)
  {
  }

  class ChatService {
    const friendships: FriendshipService
    const world: World
    var threads: Table<ChatThread>
    var messages: Messages
    var next: Id

    function State(): Chats
      reads this
    {
      Chats(threads, messages, next)
    }

    ghost predicate Valid()
      reads this, friendships
    {
      friendships.Valid() && friendships.users == world.users && ChatsWellFormed(world, State())
    }

    constructor (friendships: FriendshipService, world: World)
      requires friendships.Valid() && friendships.users == world.users
      ensures Valid() && this.friendships == friendships && this.world == world && State() == Chats([], [], 0)
    {
      this.friendships, this.world := friendships, world;
      threads, messages, next := [], [], 0;
    }

    /** _verify_friendship. */
    method VerifyFriendship(a: Id, b: Id) returns (r: Option<ChatFailure>)
      ensures r == if a == b then Some(CannotMessageSelf)
                   else if !AreFriends(friendships.State(), a, b) then Some(NotFriends) else None
    {
      if a == b {
        return Some(CannotMessageSelf);
      }
      var f := GetBetween(friendships.rows, a, b);
      if f.None? || f.value.data.status != Accepted {
        return Some(NotFriends);
      }
      r := None;
    }

    method GetOrCreateThread(sender: Id, recipient: Id) returns (r: Result<Row<ChatThread>, ChatFailure>)
      requires Valid()
      modifies this
      ensures Valid()
      ensures State() == NextChats(world, friendships.State(), old(State()), Open(sender, recipient))
      ensures r.Err? ==> Some(r.error) == Refusal(world, friendships.State(), old(State()), Open(sender, recipient))
      ensures r.Ok? ==> Refusal(world, friendships.State(), old(State()), Open(sender, recipient)).None?
      ensures r.Ok? ==> ThreadOf(threads, sender, recipient) == Some(r.value) == ThreadOf(threads, recipient, sender)
    {
      ghost var before := State();
      ChatStepKeeps(world, friendships.State(), State(), Open(sender, recipient));
      var refused := VerifyFriendship(sender, recipient);
      if refused.Some? {
        return Err(refused.value);
      }
      OpenedIsFound(world, before, sender, recipient);
      var thread := ThreadOf(threads, sender, recipient);
      if thread.Some? {
        return Ok(thread.value);
      }
      var row := Row(next, NewThread(sender, recipient));
      threads, next := threads + [row], next + 1;
      FoundAppended(before.threads, row, row.data.userA, row.data.userB);
      r := Ok(row);
    }

    method SendMessage(sender: Id, recipient: Id, draft: Draft, now: int, created: int)
      returns (r: Result<Row<ChatMessage>, ChatFailure>)
      requires Valid()
      modifies this
      ensures Valid()
      ensures State()
        == NextChats(world, friendships.State(), old(State()), Send(sender, recipient, draft, now, created))
      ensures r.Err? ==>
        Some(r.error) == Refusal(world, friendships.State(), old(State()), Send(sender, recipient, draft, now, created))
      ensures r.Ok?
        ==> Refusal(world, friendships.State(), old(State()), Send(sender, recipient, draft, now, created)).None?
      ensures r.Ok? ==>
        var key := r.value.data.threadId;
        r.value.data == ChatMessage(key, sender, draft.body, draft.book, draft.collection, created, None)
      ensures r.Ok? ==>
        MessagesBetween(State(), sender, recipient) == MessagesBetween(old(State()), sender, recipient) + [r.value]
    {
      ghost var f, before, step := friendships.State(), State(), Send(sender, recipient, draft, now, created);
      ChatStepKeeps(world, f, before, step);
      var thread := GetOrCreateThread(sender, recipient);
      ghost var ready := State();
      if thread.Err? {
        SendRefused(world, f, before, sender, recipient, draft, now, created);
        return Err(thread.error);
      }
      if !(References(draft.book, world.books) && References(draft.collection, world.collections)) {
        SendRefused(world, f, before, sender, recipient, draft, now, created);
        return Err(DanglingAttachment);
      }
      var key := thread.value.id;
      SendPosted(world, f, before, sender, recipient, draft, now, created, ready, key);
      var message := ChatMessage(key, sender, draft.body, draft.book, draft.collection, created, None);
      r := Ok(Row(next, message));
      messages, next := messages + [r.value], next + 1;
      threads := Touched(threads, key, now);
      assert State() == NextChats(world, f, before, step);
    }

    method SendMessageToThread(key: Id, sender: Id, draft: Draft, now: int, created: int)
      returns (r: Result<Row<ChatMessage>, ChatFailure>)
      requires Valid()
      modifies this
      ensures Valid()
      ensures State() == NextChats(world, friendships.State(), old(State()), SendTo(key, sender, draft, now, created))
      ensures r.Err? ==>
        Some(r.error) == Refusal(world, friendships.State(), old(State()), SendTo(key, sender, draft, now, created))
      ensures r.Ok?
        ==> Refusal(world, friendships.State(), old(State()), SendTo(key, sender, draft, now, created)).None?
    {
      ghost var f, before := friendships.State(), State();
      var thread := Get(threads, key);
      if thread.None? {
        SendToNobody(world, f, before, key, sender, draft, now, created);
        return Err(ThreadNotFound);
      }
      var recipient;
      if thread.value.data.userA == sender {
        recipient := thread.value.data.userB;
      } else if thread.value.data.userB == sender {
        recipient := thread.value.data.userA;
      } else {
        SendToNobody(world, f, before, key, sender, draft, now, created);
        return Err(ThreadNotFound);
      }
      SendToSends(world, f, before, key, sender, recipient, draft, now, created);
      r := SendMessage(sender, recipient, draft, now, created);
    }

    method MarkMessagesAsRead(thread: Id, reader: Id, clock: nat -> int) returns (count: nat)
      requires Valid()
      modifies this`messages
      ensures Valid()
      ensures count == |UnreadOf(old(messages), thread, reader)|
      ensures |messages| == |old(messages)|
      ensures forall i :: 0 <= i < |messages| ==> messages[i] == Marked(old(messages), i, thread, reader, clock)
      ensures forall i :: 0 <= i < |messages| ==>
        var m, n := old(messages)[i], messages[i];
        if m.data.threadId == thread && m.data.senderId != reader && m.data.readAt.None?
        then n.data.readAt.Some? && n == Row(m.id, m.data.(readAt := n.data.readAt)) else n == m
      ensures UnreadOf(messages, thread, reader) == []
    {
      count := 0;
      ghost var start, before := State(), messages;
      for i := 0 to |messages|
        invariant |messages| == |before|
        invariant count == |UnreadOf(before[..i], thread, reader)|
        invariant forall k :: 0 <= k < i ==> messages[k] == Marked(before, k, thread, reader, clock)
        invariant forall k :: i <= k < |before| ==> messages[k] == before[k]
      {
        var m := messages[i];
        UnreadSnoc(before, i, thread, reader);
        if Unread(m.data, thread, reader) {
          messages := messages[i := Row(m.id, m.data.(readAt := Some(clock(count))))];
          count := count + 1;
        }
      }
      assert before[..|before|] == before;
      MarkedKeeps(world, start, messages, thread, reader, clock);
      NothingUnread(start, messages, thread, reader, clock);
    }
  }
}
