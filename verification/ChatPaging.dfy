/** Paging backwards through a chat thread with the last message as the cursor. */
module ChatPaging {
  import opened Sql
  import opened Schema

  type Messages = Table<ChatMessage>

  // ---------- get_messages_before ----------

  function InThread(messages: Messages, thread: Id): Messages {
    Where(messages, (m: ChatMessage) => m.threadId == thread)
  }

  /** ORDER BY created_at DESC; messages of the same instant in scan order. */
  function InsertNewest(list: Messages, r: Row<ChatMessage>): Messages {
    if list == [] then [r]
    else if list[|list| - 1].data.createdAt >= r.data.createdAt then list + [r]
    else InsertNewest(list[..|list| - 1], r) + [list[|list| - 1]]
  }

  function NewestFirst(t: Messages): Messages {
    if t == [] then [] else InsertNewest(NewestFirst(t[..|t| - 1]), t[|t| - 1])
  }

  predicate Before(m: ChatMessage, t: int) {
    m.createdAt < t
  }

  /** WHERE created_at < t. */
  function Older(list: Messages, t: int): Messages {
    if list == [] then []
    else Older(list[..|list| - 1], t) + if Before(list[|list| - 1].data, t) then [list[|list| - 1]] else []
  }

  /** The rows a cursor leaves; an unknown cursor leaves all of the thread. */
  function Selected(messages: Messages, thread: Id, before: Option<Id>): Messages {
    var rows := InThread(messages, thread);
    var cursor := if before.Some? then Get(messages, before.value) else None;
    if cursor.Some? then Older(rows, cursor.value.data.createdAt) else rows
  }

  function Take(list: Messages, limit: nat): Messages {
    if |list| <= limit then list else list[..limit]
  }

  function GetMessagesBefore(messages: Messages, thread: Id, before: Option<Id>, limit: nat): Messages {
    Take(NewestFirst(Selected(messages, thread, before)), limit)
  }

  // ---------- The order ----------

  ghost predicate Newest(list: Messages) {
    forall i, j :: 0 <= i < j < |list| ==> list[i].data.createdAt >= list[j].data.createdAt
  }

  lemma {:induction false} InsertKeepsRows(list: Messages, r: Row<ChatMessage>)
    ensures multiset(InsertNewest(list, r)) == multiset(list) + multiset{r}
    ensures forall x :: x in InsertNewest(list, r) <==> x in list || x == r
  {
    if list != [] && list[|list| - 1].data.createdAt < r.data.createdAt {
      InsertKeepsRows(list[..|list| - 1], r);
      assert list == list[..|list| - 1] + [list[|list| - 1]];
    }
  }

  lemma LastIsOldest(list: Messages)
    requires Newest(list) && list != []
    ensures forall x :: x in list ==> x.data.createdAt >= list[|list| - 1].data.createdAt
  {
  }

  lemma {:induction false} InsertStaysNewest(list: Messages, r: Row<ChatMessage>)
    requires Newest(list)
    ensures Newest(InsertNewest(list, r))
  {
    if list != [] {
      LastIsOldest(list);
      var front, last := list[..|list| - 1], list[|list| - 1];
      if last.data.createdAt < r.data.createdAt {
        assert list == front + [last];
        InsertStaysNewest(front, r);
        InsertKeepsRows(front, r);
        var g := InsertNewest(front, r);
        forall i | 0 <= i < |g| ensures g[i].data.createdAt >= last.data.createdAt {
          assert g[i] in g;
        }
      }
    }
  }

  lemma NewestSnoc(t: Messages, r: Row<ChatMessage>)
    ensures NewestFirst(t + [r]) == InsertNewest(NewestFirst(t), r)
    ensures multiset(t + [r]) == multiset(t) + multiset{r}
  {
    assert (t + [r])[..|t|] == t;
  }

  /** The listing has exactly the given rows, newest first. */
  lemma {:induction false} NewestFirstFacts(t: Messages)
    ensures Newest(NewestFirst(t)) && multiset(NewestFirst(t)) == multiset(t)
    ensures |NewestFirst(t)| == |t|
  {
    if t != [] {
      var front, last := t[..|t| - 1], t[|t| - 1];
      assert t == front + [last];
      NewestFirstFacts(front);
      NewestSnoc(front, last);
      InsertStaysNewest(NewestFirst(front), last);
      InsertKeepsRows(NewestFirst(front), last);
    }
    SameLength(t, NewestFirst(t));
  }

  lemma SameLength<T>(a: seq<T>, b: seq<T>)
    requires multiset(a) == multiset(b)
    ensures |a| == |b|
  {
    assert |multiset(a)| == |a| && |multiset(b)| == |b|;
  }

  lemma OlderSnoc(list: Messages, r: Row<ChatMessage>, t: int)
    ensures Older(list + [r], t) == Older(list, t) + if Before(r.data, t) then [r] else []
  {
    assert (list + [r])[..|list|] == list;
  }

  lemma {:induction false} OlderMembers(list: Messages, t: int)
    ensures forall x :: x in Older(list, t) <==> x in list && Before(x.data, t)
  {
    if list != [] {
      OlderMembers(list[..|list| - 1], t);
      assert list == list[..|list| - 1] + [list[|list| - 1]];
    }
  }

  lemma {:induction false} OlderConcat(a: Messages, b: Messages, t: int)
    ensures Older(a + b, t) == Older(a, t) + Older(b, t)
  {
    if b == [] {
      assert a + b == a;
    } else {
      var front, last := b[..|b| - 1], b[|b| - 1];
      OlderConcat(a, front, t);
      assert a + b == (a + front) + [last];
      OlderSnoc(a + front, last, t);
    }
  }

  /** Either every row is older, or some are dropped. */
  lemma {:induction false} OlderLength(list: Messages, t: int)
    ensures |Older(list, t)| <= |list|
    ensures (forall i :: 0 <= i < |list| ==> Before(list[i].data, t)) ==> Older(list, t) == list
    ensures (forall i :: 0 <= i < |list| ==> !Before(list[i].data, t)) ==> Older(list, t) == []
    ensures (exists i :: 0 <= i < |list| && !Before(list[i].data, t)) ==> |Older(list, t)| < |list|
  {
    if list != [] {
      OlderLength(list[..|list| - 1], t);
    }
  }

  /** A row no newer than the last goes to the end. */
  lemma InsertAtEnd(list: Messages, r: Row<ChatMessage>)
    requires forall x :: x in list ==> x.data.createdAt >= r.data.createdAt
    ensures InsertNewest(list, r) == list + [r]
  {
    if list != [] {
      assert list[|list| - 1] in list;
    }
  }

  lemma InsertBeforeLast(front: Messages, last: Row<ChatMessage>, r: Row<ChatMessage>)
    requires last.data.createdAt < r.data.createdAt
    ensures InsertNewest(front + [last], r) == InsertNewest(front, r) + [last]
  {
    assert (front + [last])[..|front|] == front;
  }

  lemma {:induction false} InsertOlder(list: Messages, r: Row<ChatMessage>, t: int)
    requires Newest(list)
    ensures Older(InsertNewest(list, r), t)
      == if Before(r.data, t) then InsertNewest(Older(list, t), r) else Older(list, t)
  {
    if list == [] || list[|list| - 1].data.createdAt >= r.data.createdAt {
      if list != [] { LastIsOldest(list); }
      OlderSnoc(list, r, t);
      OlderMembers(list, t);
      InsertAtEnd(list, r);
      InsertAtEnd(Older(list, t), r);
    } else {
      var front, last := list[..|list| - 1], list[|list| - 1];
      assert list == front + [last];
      InsertOlder(front, r, t);
      OlderSnoc(front, last, t);
      OlderSnoc(InsertNewest(front, r), last, t);
      InsertBeforeLast(front, last, r);
      if Before(r.data, t) {
        InsertBeforeLast(Older(front, t), last, r);
      }
    }
  }

  /** Selecting the older rows before or after ordering is the same. */
  lemma {:induction false} NewestFirstOlder(t: Messages, c: int)
    ensures NewestFirst(Older(t, c)) == Older(NewestFirst(t), c)
  {
    if t != [] {
      var front, last := t[..|t| - 1], t[|t| - 1];
      assert t == front + [last];
      NewestFirstOlder(front, c);
      NewestFirstFacts(front);
      OlderSnoc(front, last, c);
      InsertOlder(NewestFirst(front), last, c);
      if Before(last.data, c) {
        assert (Older(front, c) + [last])[..|Older(front, c)|] == Older(front, c);
      } else {
        assert Older(front, c) + [] == Older(front, c);
      }
    }
  }

  // ---------- The walk over a list ----------

  /** The first index from m on whose message is older than t. */
  function SkipTies(list: Messages, m: nat, t: int): (r: nat)
    requires m <= |list|
    ensures m <= r <= |list|
    ensures forall k :: m <= k < r ==> list[k].data.createdAt >= t
    ensures r < |list| ==> list[r].data.createdAt < t
    decreases |list| - m
  {
    if m < |list| && list[m].data.createdAt >= t then SkipTies(list, m + 1, t) else m
  }

  function PageEnd(list: Messages, start: nat, limit: nat): nat {
    if start + limit <= |list| then start + limit else |list|
  }

  /** The walk from an index on: a page, then on behind the messages of its last one's instant. */
  function WalkFrom(list: Messages, start: nat, limit: nat): Messages
    requires limit > 0
    decreases |list| - start
  {
    if start >= |list| then []
    else
      var end := PageEnd(list, start, limit);
      list[start..end] + WalkFrom(list, SkipTies(list, end, list[end - 1].data.createdAt), limit)
  }

  /** Cut into pages of this size, no page ends between two messages of the same instant. */
  ghost predicate NoTieAtBoundary(list: Messages, start: nat, limit: nat)
    requires limit > 0
    decreases |list| - start
  {
    start + limit < |list| ==>
      && list[start + limit - 1].data.createdAt > list[start + limit].data.createdAt
      && NoTieAtBoundary(list, start + limit, limit)
  }

  lemma WalkFromNext(
    list: Messages, start: nat, limit: nat, end: nat, last: Row<ChatMessage>, next: nat, rest: Messages)
    requires limit > 0 && start < |list| && end == PageEnd(list, start, limit) && last == list[end - 1]
    requires next == SkipTies(list, end, last.data.createdAt) && rest == WalkFrom(list, next, limit)
    ensures WalkFrom(list, start, limit) == list[start..end] + rest
  {
  }

  lemma {:induction false} WalkAtMost(list: Messages, start: nat, limit: nat)
    requires limit > 0 && start <= |list|
    ensures |WalkFrom(list, start, limit)| <= |list| - start
    decreases |list| - start
  {
    if start < |list| {
      var end := PageEnd(list, start, limit);
      var next := SkipTies(list, end, list[end - 1].data.createdAt);
      WalkAtMost(list, next, limit);
      WalkFromNext(list, start, limit, end, list[end - 1], next, WalkFrom(list, next, limit));
    }
  }

  lemma SamePrefix<T>(a: seq<T>, b: seq<T>, c: seq<T>)
    ensures a + b == a + c <==> b == c
  {
    assert (a + b)[|a|..] == b && (a + c)[|a|..] == c;
  }

  lemma SplitAt<T>(list: seq<T>, start: nat, end: nat)
    requires start <= end <= |list|
    ensures list[start..] == list[start..end] + list[end..]
  {
  }

  lemma WalkLosesTie(list: Messages, start: nat, limit: nat)
    requires limit > 0 && start + limit < |list|
    requires list[start + limit - 1].data.createdAt <= list[start + limit].data.createdAt
    ensures |WalkFrom(list, start, limit)| < |list| - start
  {
    WalkAtMost(list, SkipTies(list, start + limit, list[start + limit - 1].data.createdAt), limit);
  }

  /** The walk returns the rest of the list exactly when no page ends inside a tie. */
  lemma {:induction false} WalkFromCompleteIff(list: Messages, start: nat, limit: nat)
    requires limit > 0 && start <= |list| && Newest(list)
    ensures WalkFrom(list, start, limit) == list[start..] <==> NoTieAtBoundary(list, start, limit)
    decreases |list| - start
  {
    if start + limit < |list| && list[start + limit - 1].data.createdAt <= list[start + limit].data.createdAt {
      WalkLosesTie(list, start, limit);
    } else if start < |list| {
      var end := PageEnd(list, start, limit);
      assert SkipTies(list, end, list[end - 1].data.createdAt) == end;
      WalkFromCompleteIff(list, end, limit);
      SplitAt(list, start, end);
      SamePrefix(list[start..end], WalkFrom(list, end, limit), list[end..]);
    }
  }

  lemma {:induction false} DistinctHasNoTies(list: Messages, start: nat, limit: nat)
    requires limit > 0 && Newest(list)
    requires forall i, j :: 0 <= i < j < |list| ==> list[i].data.createdAt != list[j].data.createdAt
    ensures NoTieAtBoundary(list, start, limit)
    decreases |list| - start
  {
    if start + limit < |list| {
      DistinctHasNoTies(list, start + limit, limit);
    }
  }

  /** The rows older than the cursor are those from the next start on. */
  lemma OlderIsSuffix(list: Messages, start: nat, end: nat)
    requires Newest(list) && start < end <= |list|
    ensures var t := list[end - 1].data.createdAt;
      Older(list[start..], t) == list[SkipTies(list, end, t)..]
  {
    var t := list[end - 1].data.createdAt;
    var next := SkipTies(list, end, t);
    SplitAt(list, start, next);
    var ties, rest := list[start..next], list[next..];
    OlderConcat(ties, rest, t);
    assert forall k :: 0 <= k < |ties| ==> !Before(ties[k].data, t);
    OlderLength(ties, t);
    assert forall k :: 0 <= k < |rest| ==> Before(rest[k].data, t);
    OlderLength(rest, t);
  }

  // ---------- The walk over pages ----------

  lemma TakenIsListed(rows: Messages, limit: nat, r: Row<ChatMessage>)
    requires r in Take(NewestFirst(rows), limit)
    ensures r in rows
  {
    NewestFirstFacts(rows);
    assert r in multiset(NewestFirst(rows));
    assert r in multiset(rows);
  }

  lemma SelectedIsStored(messages: Messages, thread: Id, before: Option<Id>, r: Row<ChatMessage>)
    requires r in Selected(messages, thread, before)
    ensures r in messages
  {
    if before.Some? && Get(messages, before.value).Some? {
      OlderMembers(InThread(messages, thread), Get(messages, before.value).value.data.createdAt);
    }
  }

  lemma OlderOfSelected(messages: Messages, thread: Id, before: Option<Id>, last: Row<ChatMessage>)
    requires last in Selected(messages, thread, before) && Get(messages, last.id) == Some(last)
    ensures Selected(messages, thread, Some(last.id)) == Older(Selected(messages, thread, before), last.data.createdAt)
  {
    var rows := InThread(messages, thread);
    var cursor := if before.Some? then Get(messages, before.value) else None;
    if cursor.Some? {
      OlderMembers(rows, cursor.value.data.createdAt);
      OlderOlder(rows, cursor.value.data.createdAt, last.data.createdAt);
    }
  }

  lemma {:induction false} OlderOlder(list: Messages, t: int, u: int)
    requires u <= t
    ensures Older(Older(list, t), u) == Older(list, u)
  {
    if list != [] {
      var front, last := list[..|list| - 1], list[|list| - 1];
      OlderOlder(front, t, u);
      if Before(last.data, t) {
        OlderSnoc(Older(front, t), last, u);
      } else {
        assert Older(list, t) == Older(front, t);
        assert Older(list, u) == Older(front, u);
      }
    }
  }

  lemma SliceLast<T>(list: seq<T>, start: nat, end: nat, page: seq<T>)
    requires start < end <= |list| && page == list[start..end]
    ensures page != [] && page[|page| - 1] == list[end - 1] && list[end - 1] in list[start..]
  {
    assert list[start..][end - 1 - start] == list[end - 1];
  }

  lemma {:induction false} OlderDistinct(list: Messages, t: int)
    requires DistinctIds(list)
    ensures DistinctIds(Older(list, t))
  {
    if list != [] {
      var front, last := list[..|list| - 1], list[|list| - 1];
      OlderDistinct(front, t);
      OlderMembers(front, t);
      var rest := Older(front, t);
      forall i | 0 <= i < |rest| ensures rest[i].id != last.id {
        assert rest[i] in front;
      }
    }
  }

  /** The messages of a thread that a request may return: those older than its cursor, if that is a message. */
  ghost predicate Eligible(messages: Messages, thread: Id, before: Option<Id>, r: Row<ChatMessage>) {
    && r in messages && r.data.threadId == thread
    && forall cursor :: cursor in messages && before == Some(cursor.id) ==> r.data.createdAt < cursor.data.createdAt
  }

  lemma SelectedAre(messages: Messages, thread: Id, before: Option<Id>)
    requires DistinctIds(messages)
    ensures DistinctIds(Selected(messages, thread, before))
    ensures forall r :: r in Selected(messages, thread, before) <==> Eligible(messages, thread, before, r)
  {
    var rows := InThread(messages, thread);
    var cursor := if before.Some? then Get(messages, before.value) else None;
    WhereKeys(messages, (m: ChatMessage) => m.threadId == thread);
    if cursor.Some? {
      OlderDistinct(rows, cursor.value.data.createdAt);
      OlderMembers(rows, cursor.value.data.createdAt);
    }
    forall c | c in messages && before == Some(c.id) ensures cursor == Some(c) {
      GetRow(messages, c);
    }
  }

  ghost predicate NoneOlder(page: Messages, r: Row<ChatMessage>) {
    forall q :: q in page ==> q.data.createdAt >= r.data.createdAt
  }

  lemma NotTaken(list: Messages, limit: nat, r: Row<ChatMessage>)
    requires Newest(list) && r in list && r !in Take(list, limit)
    ensures |Take(list, limit)| == limit && NoneOlder(Take(list, limit), r)
  {
    var page := Take(list, limit);
    assert forall i :: 0 <= i < |page| ==> page[i] == list[i] && page[i] in page;
    var k :| 0 <= k < |list| && list[k] == r;
  }

  /** A page has the newest of them, newest first, each once, and as many as the limit allows. */
  lemma PageIsNewest(messages: Messages, thread: Id, before: Option<Id>, limit: nat, page: Messages)
    requires DistinctIds(messages) && page == GetMessagesBefore(messages, thread, before, limit)
    ensures |page| <= limit
    ensures Newest(page) && forall i, j :: 0 <= i < j < |page| ==> page[i] != page[j]
    ensures forall r :: r in page ==> Eligible(messages, thread, before, r)
    ensures forall r :: Eligible(messages, thread, before, r) && r !in page ==> |page| == limit && NoneOlder(page, r)
  {
    var rows := Selected(messages, thread, before);
    var list := NewestFirst(rows);
    SelectedAre(messages, thread, before);
    NewestFirstFacts(rows);
    forall i, j | 0 <= i < j < |page| ensures page[i] != page[j] {
      PermutedRowsDiffer(rows, list, i, j);
    }
    forall r ensures r in list <==> r in rows {
      assert r in multiset(list) <==> r in multiset(rows);
    }
    forall r | r in rows && r !in page ensures |page| == limit && NoneOlder(page, r) {
      NotTaken(list, limit, r);
    }
  }

  /** What each cursor's query lists. */
  type Listings = Option<Id> -> Messages

  /** The cursor of a listed message lists what is older. */
  ghost predicate IsCursor(listing: Listings, before: Option<Id>, r: Row<ChatMessage>) {
    r in listing(before) ==> listing(Some(r.id)) == Older(listing(before), r.data.createdAt)
  }

  ghost predicate Cursors(listing: Listings) {
    forall before, r :: IsCursor(listing, before, r)
  }

  lemma CursorShrinks(listing: Listings, before: Option<Id>, r: Row<ChatMessage>)
    requires Cursors(listing) && r in listing(before)
    ensures |listing(Some(r.id))| < |listing(before)|
    ensures listing(Some(r.id)) == Older(listing(before), r.data.createdAt)
  {
    assert IsCursor(listing, before, r);
    var list := listing(before);
    var i :| 0 <= i < |list| && list[i] == r;
    assert !Before(list[i].data, r.data.createdAt);
    OlderLength(list, r.data.createdAt);
  }

  /** A page, then those before its last message, until a page is empty. */
  function WalkBy(listing: Listings, before: Option<Id>, limit: nat): Messages
    requires Cursors(listing) && limit > 0
    decreases |listing(before)|
  {
    var page := Take(listing(before), limit);
    if page == [] then []
    else
      CursorShrinks(listing, before, page[|page| - 1]);
      page + WalkBy(listing, Some(page[|page| - 1].id), limit)
  }

  lemma WalkByNext(listing: Listings, before: Option<Id>, limit: nat, page: Messages)
    requires Cursors(listing) && limit > 0 && page == Take(listing(before), limit)
    ensures WalkBy(listing, before, limit)
      == if page == [] then [] else page + WalkBy(listing, Some(page[|page| - 1].id), limit)
  {
  }

  lemma TakeOfSlice(list: Messages, start: nat, limit: nat)
    requires start <= |list|
    ensures Take(list[start..], limit) == list[start..PageEnd(list, start, limit)]
  {
  }

  lemma ListingNext(listing: Listings, before: Option<Id>, list: Messages, start: nat, end: nat)
    requires Cursors(listing) && Newest(list) && start < end <= |list| && listing(before) == list[start..]
    ensures var last := list[end - 1];
      && listing(Some(last.id)) == list[SkipTies(list, end, last.data.createdAt)..]
      && |listing(Some(last.id))| < |listing(before)|
  {
    SliceLast(list, start, end, list[start..end]);
    OlderIsSuffix(list, start, end);
    CursorShrinks(listing, before, list[end - 1]);
  }

  lemma WalkByLast(listing: Listings, before: Option<Id>, limit: nat, page: Messages, last: Row<ChatMessage>)
    requires Cursors(listing) && limit > 0 && page == Take(listing(before), limit)
    requires page != [] && page[|page| - 1] == last
    ensures WalkBy(listing, before, limit) == page + WalkBy(listing, Some(last.id), limit)
  {
    WalkByNext(listing, before, limit, page);
  }

  lemma PageIsSlice(listing: Listings, before: Option<Id>, limit: nat, list: Messages, start: nat, end: nat)
    requires limit > 0 && start < |list| && listing(before) == list[start..] && end == PageEnd(list, start, limit)
    ensures Take(listing(before), limit) == list[start..end]
    ensures list[start..end] != [] && list[start..end][end - start - 1] == list[end - 1]
  {
    TakeOfSlice(list, start, limit);
  }

  /** The pages of a walk go through the listing one after the other. */
  lemma {:induction false} WalkByIsWalkFrom(
    listing: Listings, before: Option<Id>, limit: nat, list: Messages, start: nat)
    requires Cursors(listing) && limit > 0 && Newest(list) && start <= |list| && listing(before) == list[start..]
    ensures WalkBy(listing, before, limit) == WalkFrom(list, start, limit)
    decreases |listing(before)|
  {
    if start < |list| {
      var end := PageEnd(list, start, limit);
      var last := list[end - 1];
      var next := SkipTies(list, end, last.data.createdAt);
      ListingNext(listing, before, list, start, end);
      WalkByIsWalkFrom(listing, Some(last.id), limit, list, next);
      PageIsSlice(listing, before, limit, list, start, end);
      WalkByLast(listing, before, limit, list[start..end], last);
      WalkFromNext(list, start, limit, end, last, next, WalkFrom(list, next, limit));
    } else {
      WalkByNext(listing, before, limit, []);
    }
  }

  /** The query of get_messages_before without its limit, for each cursor. */
  function ListingOf(messages: Messages, thread: Id): Listings {
    before => NewestFirst(Selected(messages, thread, before))
  }

  lemma ListingCursor(messages: Messages, thread: Id, before: Option<Id>, r: Row<ChatMessage>)
    requires DistinctIds(messages) && r in NewestFirst(Selected(messages, thread, before))
    ensures NewestFirst(Selected(messages, thread, Some(r.id)))
      == Older(NewestFirst(Selected(messages, thread, before)), r.data.createdAt)
  {
    var rows := Selected(messages, thread, before);
    TakenIsListed(rows, |NewestFirst(rows)|, r);
    SelectedIsStored(messages, thread, before, r);
    GetRow(messages, r);
    OlderOfSelected(messages, thread, before, r);
    NewestFirstOlder(rows, r.data.createdAt);
  }

  lemma ListingHasCursors(messages: Messages, thread: Id)
    requires DistinctIds(messages)
    ensures Cursors(ListingOf(messages, thread))
  {
    var listing := ListingOf(messages, thread);
    forall before, r ensures IsCursor(listing, before, r) {
      if r in listing(before) {
        ListingCursor(messages, thread, before, r);
      }
    }
  }

  /** Asking for the page before the last message received, until a page is empty. */
  function Walk(messages: Messages, thread: Id, before: Option<Id>, limit: nat): Messages
    requires DistinctIds(messages) && limit > 0
  {
    ListingHasCursors(messages, thread);
    WalkBy(ListingOf(messages, thread), before, limit)
  }

  lemma PageIs(messages: Messages, thread: Id, before: Option<Id>, limit: nat)
    ensures GetMessagesBefore(messages, thread, before, limit) == Take(ListingOf(messages, thread)(before), limit)
  {
  }

  /** Each of its requests is get_messages_before with the last identifier received. */
  lemma WalkNext(messages: Messages, thread: Id, before: Option<Id>, limit: nat, page: Messages)
    requires DistinctIds(messages) && limit > 0 && page == GetMessagesBefore(messages, thread, before, limit)
    ensures Walk(messages, thread, before, limit)
      == if page == [] then [] else page + Walk(messages, thread, Some(page[|page| - 1].id), limit)
  {
    PageIs(messages, thread, before, limit);
    ListingHasCursors(messages, thread);
    WalkByNext(ListingOf(messages, thread), before, limit, page);
  }

  /** The requests of a walk go through the listing page by page. */
  lemma WalkIsWalkFrom(messages: Messages, thread: Id, before: Option<Id>, limit: nat, list: Messages, start: nat)
    requires DistinctIds(messages) && limit > 0 && Newest(list) && start <= |list|
    requires NewestFirst(Selected(messages, thread, before)) == list[start..]
    ensures Walk(messages, thread, before, limit) == WalkFrom(list, start, limit)
  {
    ListingHasCursors(messages, thread);
    WalkByIsWalkFrom(ListingOf(messages, thread), before, limit, list, start);
  }

  /** The thread, newest first. */
  function ThreadListing(messages: Messages, thread: Id): Messages {
    NewestFirst(InThread(messages, thread))
  }

  /** The walk enumerates the thread, newest first, each message once, exactly when no page
      ends between two messages of the same instant. */
  lemma WalkCompleteIff(messages: Messages, thread: Id, limit: nat)
    requires DistinctIds(messages) && limit > 0
    ensures Walk(messages, thread, None, limit) == ThreadListing(messages, thread)
      <==> NoTieAtBoundary(ThreadListing(messages, thread), 0, limit)
  {
    var list := ThreadListing(messages, thread);
    NewestFirstFacts(InThread(messages, thread));
    assert list[0..] == list;
    WalkIsWalkFrom(messages, thread, None, limit, list, 0);
    WalkFromCompleteIff(list, 0, limit);
  }

  /** Two messages of the same instant. */
  function Twins(thread: Id, sender: Id): Messages {
    var m := ChatMessage(thread, sender, "", None, None, 0, None);
    [Row(0, m), Row(1, m)]
  }

  /** Page by page of one message, the walk misses one of them. */
  lemma WalkMissesTwin(thread: Id, sender: Id)
    ensures var messages := Twins(thread, sender);
      DistinctIds(messages) && Walk(messages, thread, None, 1) != ThreadListing(messages, thread)
  {
    var messages := Twins(thread, sender);
    var list := ThreadListing(messages, thread);
    var inThread := (m: ChatMessage) => m.threadId == thread;
    WhereAll(messages, inThread);
    NewestFirstFacts(messages);
    forall i | 0 <= i < |list| ensures list[i].data.createdAt == 0 {
      assert list[i] in multiset(list);
      assert list[i] in multiset(messages);
    }
    assert !NoTieAtBoundary(list, 0, 1);
    WalkCompleteIff(messages, thread, 1);
  }

  predicate SameInstant(m: ChatMessage, n: ChatMessage, thread: Id) {
    m.threadId == n.threadId == thread && m.createdAt == n.createdAt
  }

  /** In particular whenever the thread's messages have pairwise distinct times. */
  lemma WalkCompleteWhenDistinct(messages: Messages, thread: Id, limit: nat)
    requires DistinctIds(messages) && limit > 0
    requires forall q, r :: q in messages && r in messages && SameInstant(q.data, r.data, thread) ==> q == r
    ensures Walk(messages, thread, None, limit) == ThreadListing(messages, thread)
    ensures multiset(Walk(messages, thread, None, limit)) == multiset(InThread(messages, thread))
  {
    var rows := InThread(messages, thread);
    var list := ThreadListing(messages, thread);
    WhereKeys(messages, (m: ChatMessage) => m.threadId == thread);
    NewestFirstFacts(rows);
    forall i, j | 0 <= i < j < |list| ensures list[i].data.createdAt != list[j].data.createdAt {
      PermutedRowsDiffer(rows, list, i, j);
      assert list[i] in multiset(list) && list[j] in multiset(list);
      assert list[i] in multiset(rows) && list[j] in multiset(rows);
      assert list[i] in messages && list[j] in messages;
    }
    DistinctHasNoTies(list, 0, limit);
    WalkCompleteIff(messages, thread, limit);
  }

  // ---------- Messages that arrive during the walk ----------

  /** More messages, none in the thread older than one that was there. */
  ghost predicate Grows(messages: Messages, more: Messages, thread: Id) {
    && messages <= more
    && forall q, r :: q in messages && r in more[|messages|..] && q.data.threadId == r.data.threadId == thread
         ==> !Before(r.data, q.data.createdAt)
  }

  lemma GrownSelection(messages: Messages, more: Messages, thread: Id, r: Row<ChatMessage>)
    requires DistinctIds(more) && Grows(messages, more, thread) && r in messages && r.data.threadId == thread
    ensures Selected(more, thread, Some(r.id)) == Selected(messages, thread, Some(r.id))
  {
    var added := more[|messages|..];
    assert more == messages + added;
    GetRow(messages, r);
    GetRow(more, r);
    WhereConcat(messages, added, (m: ChatMessage) => m.threadId == thread);
    var rows := InThread(added, thread);
    OlderConcat(InThread(messages, thread), rows, r.data.createdAt);
    forall i | 0 <= i < |rows| ensures !Before(rows[i].data, r.data.createdAt) {
      assert rows[i] in rows;
    }
    OlderLength(rows, r.data.createdAt);
  }

  lemma ListedInThread(messages: Messages, thread: Id, before: Option<Id>, r: Row<ChatMessage>)
    requires r in ListingOf(messages, thread)(before)
    ensures r in messages && r.data.threadId == thread
  {
    var rows := Selected(messages, thread, before);
    TakenIsListed(rows, |NewestFirst(rows)|, r);
    SelectedIsStored(messages, thread, before, r);
    if before.Some? && Get(messages, before.value).Some? {
      OlderMembers(InThread(messages, thread), Get(messages, before.value).value.data.createdAt);
    }
  }

  predicate InThreadOf(messages: Messages, thread: Id, r: Row<ChatMessage>) {
    r in messages && r.data.threadId == thread
  }

  /** The listing holds messages of the thread, and the other lists the same for each of them as a cursor. */
  ghost predicate SameListings(one: Listings, two: Listings, messages: Messages, thread: Id) {
    && (forall before, q :: q in one(before) ==> InThreadOf(messages, thread, q))
    && (forall q :: InThreadOf(messages, thread, q) ==> one(Some(q.id)) == two(Some(q.id)))
  }

  lemma {:induction false} SameWalk(
    one: Listings, two: Listings, limit: nat, messages: Messages, thread: Id, r: Row<ChatMessage>)
    requires Cursors(one) && Cursors(two) && limit > 0
    requires SameListings(one, two, messages, thread) && InThreadOf(messages, thread, r)
    ensures WalkBy(one, Some(r.id), limit) == WalkBy(two, Some(r.id), limit)
    decreases |one(Some(r.id))|
  {
    var page := Take(one(Some(r.id)), limit);
    if page != [] {
      var last := page[|page| - 1];
      assert last in one(Some(r.id));
      CursorShrinks(one, Some(r.id), last);
      SameWalk(one, two, limit, messages, thread, last);
    }
  }

  lemma GrownListings(messages: Messages, more: Messages, thread: Id)
    requires DistinctIds(more) && Grows(messages, more, thread)
    ensures SameListings(ListingOf(messages, thread), ListingOf(more, thread), messages, thread)
  {
    var one, two := ListingOf(messages, thread), ListingOf(more, thread);
    forall before, q | q in one(before) ensures InThreadOf(messages, thread, q) {
      ListedInThread(messages, thread, before, q);
    }
    forall q | InThreadOf(messages, thread, q) ensures one(Some(q.id)) == two(Some(q.id)) {
      GrownSelection(messages, more, thread, q);
    }
  }

  /** Messages that are not older leave the rest of a walk as it was. */
  lemma WalkIgnoresNewer(messages: Messages, more: Messages, thread: Id, r: Row<ChatMessage>, limit: nat)
    requires DistinctIds(messages) && DistinctIds(more) && Grows(messages, more, thread) && limit > 0
    requires InThreadOf(messages, thread, r)
    ensures Walk(more, thread, Some(r.id), limit) == Walk(messages, thread, Some(r.id), limit)
  {
    GrownListings(messages, more, thread);
    ListingHasCursors(messages, thread);
    ListingHasCursors(more, thread);
    SameWalk(ListingOf(messages, thread), ListingOf(more, thread), limit, messages, thread, r);
  }

  /** The table at each of several requests. */
  ghost predicate Keyed(tables: seq<Messages>) {
    tables != [] && forall i :: 0 <= i < |tables| ==> DistinctIds(tables[i])
  }

  ghost predicate Growing(tables: seq<Messages>, thread: Id) {
    forall i :: 0 < i < |tables| ==> Grows(tables[i - 1], tables[i], thread)
  }

  /** The walk whose n-th request meets the n-th table, and whose later ones meet the last. */
  function LiveWalk(tables: seq<Messages>, thread: Id, before: Option<Id>, limit: nat): Messages
    requires Keyed(tables) && limit > 0
  {
    if |tables| == 1 then Walk(tables[0], thread, before, limit)
    else
      var page := GetMessagesBefore(tables[0], thread, before, limit);
      if page == [] then [] else page + LiveWalk(tables[1..], thread, Some(page[|page| - 1].id), limit)
  }

  lemma PageInThread(messages: Messages, thread: Id, before: Option<Id>, limit: nat, page: Messages)
    requires page == GetMessagesBefore(messages, thread, before, limit) && page != []
    ensures InThreadOf(messages, thread, page[|page| - 1])
  {
    PageIs(messages, thread, before, limit);
    ListedInThread(messages, thread, before, page[|page| - 1]);
  }

  lemma LiveWalkNext(
    tables: seq<Messages>, thread: Id, before: Option<Id>, limit: nat, page: Messages, rest: seq<Messages>)
    requires Keyed(tables) && limit > 0 && |tables| > 1 && rest == tables[1..] && Keyed(rest)
    requires page == GetMessagesBefore(tables[0], thread, before, limit)
    ensures LiveWalk(tables, thread, before, limit)
      == if page == [] then [] else page + LiveWalk(rest, thread, Some(page[|page| - 1].id), limit)
  {
  }

  lemma RestGrows(tables: seq<Messages>, thread: Id, rest: seq<Messages>)
    requires Keyed(tables) && Growing(tables, thread) && |tables| > 1 && rest == tables[1..]
    ensures Keyed(rest) && Growing(rest, thread) && rest[0] == tables[1] && DistinctIds(tables[0])
  {
  }

  lemma NextIgnoresNewer(tables: seq<Messages>, thread: Id, r: Row<ChatMessage>, limit: nat)
    requires Keyed(tables) && Growing(tables, thread) && |tables| > 1 && limit > 0 && InThreadOf(tables[0], thread, r)
    ensures Walk(tables[1], thread, Some(r.id), limit) == Walk(tables[0], thread, Some(r.id), limit)
  {
    WalkIgnoresNewer(tables[0], tables[1], thread, r, limit);
  }

  /** Messages that arrive between its requests do not change what a walk returns. */
  lemma {:induction false} LiveWalkIsWalk(tables: seq<Messages>, thread: Id, before: Option<Id>, limit: nat)
    requires Keyed(tables) && Growing(tables, thread) && limit > 0
    ensures LiveWalk(tables, thread, before, limit) == Walk(tables[0], thread, before, limit)
  {
    if |tables| > 1 {
      var page, rest := GetMessagesBefore(tables[0], thread, before, limit), tables[1..];
      RestGrows(tables, thread, rest);
      LiveWalkNext(tables, thread, before, limit, page, rest);
      WalkNext(tables[0], thread, before, limit, page);
      if page != [] {
        var last := page[|page| - 1];
        PageInThread(tables[0], thread, before, limit, page);
        NextIgnoresNewer(tables, thread, last, limit);
        LiveWalkIsWalk(rest, thread, Some(last.id), limit);
      }
    }
  }
}
