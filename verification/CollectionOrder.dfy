/** The ordering of a collection's items: integer positions in rows stand for a list. */
module CollectionOrder {
  import opened Sql
  import opened Schema

  type Items = Table<CollectionItem>

  // ---------- The repository's statements ----------

  function OfCollection(items: Items, c: Id): Items {
    Where(items, (i: CollectionItem) => i.collectionId == c)
  }

  function InsertByPosition(list: Items, r: Row<CollectionItem>): Items {
    if list == [] then [r]
    else if list[|list| - 1].data.position <= r.data.position then list + [r]
    else InsertByPosition(list[..|list| - 1], r) + [list[|list| - 1]]
  }

  function SortByPosition(t: Items): Items {
    if t == [] then [] else InsertByPosition(SortByPosition(t[..|t| - 1]), t[|t| - 1])
  }

  /** get_items without its page: ORDER BY position. */
  function Listing(items: Items, c: Id): Items {
    SortByPosition(OfCollection(items, c))
  }

  function Ids(t: Items): (r: seq<Id>)
    ensures |r| == |t| && forall i :: 0 <= i < |t| ==> r[i] == t[i].id
  {
    seq(|t|, i requires 0 <= i < |t| => t[i].id)
  }

  /** get_next_position: COALESCE(MAX(position) + 1, 0). */
  function NextPosition(items: Items, c: Id): int {
    var rows := OfCollection(items, c);
    if rows == [] then 0 else MaxPosition(rows) + 1
  }

  function MaxPosition(rows: Items): int
    requires rows != []
  {
    if |rows| == 1 then rows[0].data.position
    else
      var rest := MaxPosition(rows[1..]);
      if rows[0].data.position > rest then rows[0].data.position else rest
  }

  function Added(items: Items, id: Id, item: CollectionItem): Items {
    items + [Row(id, item.(position := NextPosition(items, item.collectionId)))]
  }

  /** items_by_id[id].position = position. */
  function WithPosition(items: Items, id: Id, position: int): (r: Items)
    ensures |r| == |items|
    ensures forall i :: 0 <= i < |items| ==>
      r[i] == if items[i].id == id then Row(id, items[i].data.(position := position)) else items[i]
  {
    seq(|items|, i requires 0 <= i < |items| =>
      if items[i].id == id then Row(id, items[i].data.(position := position)) else items[i])
  }

  /** The loop of reorder_items over the first k identifiers. */
  function Reordered(items: Items, ids: seq<Id>): (r: Items)
    ensures |r| == |items|
  {
    if ids == [] then items
    else WithPosition(Reordered(items, ids[..|ids| - 1]), ids[|ids| - 1], |ids| - 1)
  }

  /** The check of the service: no duplicates, and the same identifiers. */
  predicate Accepted(items: Items, c: Id, ids: seq<Id>) {
    |ids| == |IdSet(ids)| && IdSet(ids) == Keys(OfCollection(items, c))
  }

  // ---------- The list that the positions stand for ----------

  predicate SamePlace(i: CollectionItem, j: CollectionItem, c: Id) {
    i.collectionId == j.collectionId == c && i.position == j.position
  }

  /** The collection's positions are pairwise distinct. */
  ghost predicate PositionedIn(items: Items, c: Id) {
    forall r, s :: r in items && s in items && SamePlace(r.data, s.data, c) ==> r == s
  }

  ghost predicate Ascending(list: Items) {
    forall i, j :: 0 <= i < j < |list| ==> list[i].data.position < list[j].data.position
  }

  /** list has exactly the collection's rows, in ascending order of position. */
  ghost predicate Lists(list: Items, items: Items, c: Id) {
    Ascending(list) && forall r :: r in list <==> r in items && r.data.collectionId == c
  }

  lemma {:induction false} InsertKeepsRows(list: Items, r: Row<CollectionItem>)
    ensures forall x :: x in InsertByPosition(list, r) <==> x in list || x == r
  {
    if list != [] && list[|list| - 1].data.position > r.data.position {
      InsertKeepsRows(list[..|list| - 1], r);
      assert list == list[..|list| - 1] + [list[|list| - 1]];
    }
  }

  lemma {:induction false} InsertAscending(list: Items, r: Row<CollectionItem>)
    requires Ascending(list)
    requires forall x :: x in list ==> x.data.position != r.data.position
    ensures Ascending(InsertByPosition(list, r))
  {
    if list != [] && list[|list| - 1].data.position > r.data.position {
      var front, last := list[..|list| - 1], list[|list| - 1];
      InsertAscending(front, r);
      InsertKeepsRows(front, r);
      var g := InsertByPosition(front, r);
      forall i | 0 <= i < |g| ensures g[i].data.position < last.data.position {
        assert g[i] in g;
      }
    } else if list != [] {
      assert list[|list| - 1] in list;
    }
  }

  lemma {:induction false} SortAscending(t: Items)
    requires forall i, j :: 0 <= i < j < |t| ==> t[i].data.position != t[j].data.position
    ensures Ascending(SortByPosition(t))
    ensures forall x :: x in SortByPosition(t) <==> x in t
  {
    if t != [] {
      var front, last := t[..|t| - 1], t[|t| - 1];
      SortAscending(front);
      InsertKeepsRows(SortByPosition(front), last);
      assert t == front + [last];
      InsertAscending(SortByPosition(front), last);
    }
  }

  /** With distinct positions the query has one answer, whatever order the rows are scanned in. */
  lemma ListingUnique(a: Items, b: Items, items: Items, c: Id)
    requires Lists(a, items, c) && Lists(b, items, c)
    ensures a == b
  {
    assert RowSet(a) == RowSet(b);
    SameAscending(a, b);
  }

  ghost function RowSet(a: Items): set<Row<CollectionItem>> {
    set r | r in a
  }

  /** The last row of an ascending list is the one above all its others. */
  lemma LastIsGreatest(a: Items, r: Row<CollectionItem>)
    requires Ascending(a) && r in RowSet(a) && forall x :: x in RowSet(a) ==> x.data.position <= r.data.position
    ensures a == a[..|a| - 1] + [r] && Ascending(a[..|a| - 1])
    ensures RowSet(a[..|a| - 1]) == RowSet(a) - {r}
    ensures forall x :: x in RowSet(a) - {r} ==> x.data.position < r.data.position
  {
    var i :| 0 <= i < |a| && a[i] == r;
    var front := a[..|a| - 1];
    assert a[|a| - 1] in RowSet(a);
    assert a == front + [r];
    forall x ensures x in RowSet(front) <==> x in RowSet(a) && x != r {
      if x in front {
        var k :| 0 <= k < |front| && front[k] == x;
        assert a[k] == x;
      }
    }
    forall x | x in RowSet(a) - {r} ensures x.data.position < r.data.position {
      var k :| 0 <= k < |a| && a[k] == x;
    }
  }

  lemma GreatestExists(a: Items) returns (r: Row<CollectionItem>)
    requires Ascending(a) && a != []
    ensures r in RowSet(a) && forall x :: x in RowSet(a) ==> x.data.position <= r.data.position
  {
    r := a[|a| - 1];
  }

  lemma {:induction false} SameAscending(a: Items, b: Items)
    requires Ascending(a) && Ascending(b) && RowSet(a) == RowSet(b)
    ensures a == b
  {
    if a == [] {
      EmptyMeans(b);
      assert forall x :: x in b ==> x in RowSet(b);
    } else {
      var r := GreatestExists(a);
      LastIsGreatest(a, r);
      LastIsGreatest(b, r);
      SameAscending(a[..|a| - 1], b[..|b| - 1]);
    }
  }

  lemma ListingLists(items: Items, c: Id)
    requires DistinctIds(items) && PositionedIn(items, c)
    ensures Lists(Listing(items, c), items, c)
  {
    var t := OfCollection(items, c);
    WhereKeys(items, (i: CollectionItem) => i.collectionId == c);
    forall i, j | 0 <= i < j < |t| ensures t[i].data.position != t[j].data.position {
      assert t[i] in t && t[j] in t && t[i] != t[j];
    }
    SortAscending(t);
  }

  lemma ListingIs(list: Items, items: Items, c: Id)
    requires DistinctIds(items) && PositionedIn(items, c) && Lists(list, items, c)
    ensures Listing(items, c) == list
  {
    ListingLists(items, c);
    ListingUnique(Listing(items, c), list, items, c);
  }

  function ListIds(items: Items, c: Id): seq<Id> {
    Ids(Listing(items, c))
  }

  // ---------- Adding appends ----------

  lemma {:induction false} MaxPositionBounds(rows: Items)
    requires rows != []
    ensures forall r :: r in rows ==> r.data.position <= MaxPosition(rows)
  {
    if |rows| > 1 {
      MaxPositionBounds(rows[1..]);
      assert rows == [rows[0]] + rows[1..];
    }
  }

  lemma NextPositionIsAbove(items: Items, c: Id)
    ensures forall r :: r in items && r.data.collectionId == c ==> r.data.position < NextPosition(items, c)
  {
    var rows := OfCollection(items, c);
    if rows != [] {
      MaxPositionBounds(rows);
    }
    forall r | r in items && r.data.collectionId == c ensures r.data.position < NextPosition(items, c) {
      assert r in rows;
    }
  }

  lemma AddedStaysPositioned(items: Items, id: Id, item: CollectionItem, c: Id)
    requires KeysBelow(items, id) && PositionedIn(items, c)
    ensures KeysBelow(Added(items, id, item), id + 1) && PositionedIn(Added(items, id, item), c)
  {
    NextPositionIsAbove(items, item.collectionId);
    var after := Added(items, id, item);
    assert forall r :: r in after <==> r in items || r == after[|items|];
  }

  lemma IdsConcat(a: Items, b: Items)
    ensures Ids(a + b) == Ids(a) + Ids(b)
  {
  }

  lemma {:induction false} MaxPositionOccurs(rows: Items)
    requires rows != []
    ensures exists r :: r in rows && r.data.position == MaxPosition(rows)
  {
    if |rows| == 1 || rows[0].data.position > MaxPosition(rows[1..]) {
      assert rows[0] in rows;
    } else {
      MaxPositionOccurs(rows[1..]);
    }
  }

  /** The next position is one above the greatest of the collection, and 0 when it has no item. */
  lemma NextPositionIs(items: Items, c: Id)
    ensures (forall r :: r in items ==> r.data.collectionId != c) ==> NextPosition(items, c) == 0
    ensures (exists r :: r in items && r.data.collectionId == c) ==>
      && (exists r :: r in items && r.data.collectionId == c && r.data.position + 1 == NextPosition(items, c))
      && (forall r :: r in items && r.data.collectionId == c ==> r.data.position < NextPosition(items, c))
  {
    var rows := OfCollection(items, c);
    EmptyMeans(rows);
    NextPositionIsAbove(items, c);
    if rows != [] {
      MaxPositionOccurs(rows);
    }
  }

  /** add_item appends the new item to its collection's list and leaves every other list. */
  lemma AddAppends(items: Items, id: Id, item: CollectionItem, c: Id)
    requires KeysBelow(items, id) && PositionedIn(items, c)
    ensures ListIds(Added(items, id, item), c)
      == if c == item.collectionId then ListIds(items, c) + [id] else ListIds(items, c)
  {
    AddedStaysPositioned(items, id, item, c);
    ListingLists(items, c);
    var after := Added(items, id, item);
    var list := Listing(items, c);
    var more := if c == item.collectionId then [after[|items|]] else [];
    AddedLists(items, id, item, c, list);
    IdsOfListing(list + more, after, c);
    IdsConcat(list, more);
    assert Ids(more) == if c == item.collectionId then [id] else [];
  }

  lemma IdsOfListing(list: Items, items: Items, c: Id)
    requires DistinctIds(items) && PositionedIn(items, c) && Lists(list, items, c)
    ensures ListIds(items, c) == Ids(list)
  {
    ListingIs(list, items, c);
  }

  lemma AddedLists(items: Items, id: Id, item: CollectionItem, c: Id, list: Items)
    requires Lists(list, items, c)
    ensures var after := Added(items, id, item);
      Lists(list + if c == item.collectionId then [after[|items|]] else [], after, c)
  {
    var after := Added(items, id, item);
    NextPositionIsAbove(items, item.collectionId);
    assert forall r :: r in after <==> r in items || r == after[|items|];
    assert forall i :: 0 <= i < |list| ==> list[i] in list;
  }

  // ---------- Removing deletes ----------

  /** The list without one identifier. */
  function Without(ids: seq<Id>, id: Id): seq<Id> {
    if ids == [] then [] else (if ids[0] == id then [] else [ids[0]]) + Without(ids[1..], id)
  }

  lemma {:induction false} IdsWithout(t: Items, id: Id)
    ensures Ids(WithoutKey(t, id)) == Without(Ids(t), id)
  {
    if t != [] {
      IdsWithout(t[1..], id);
      assert Ids(t)[1..] == Ids(t[1..]);
      var head := if t[0].id == id then [] else [t[0]];
      assert WithoutKey(t, id) == head + WithoutKey(t[1..], id);
      IdsConcat(head, WithoutKey(t[1..], id));
      assert Ids(head) == if t[0].id == id then [] else [t[0].id];
    }
  }

  lemma {:induction false} AscendingWithout(t: Items, id: Id)
    requires Ascending(t)
    ensures Ascending(WithoutKey(t, id))
  {
    if t != [] {
      var rest := WithoutKey(t[1..], id);
      AscendingWithout(t[1..], id);
      forall i | 0 <= i < |rest| ensures t[0].data.position < rest[i].data.position {
        assert rest[i] in t[1..];
      }
    }
  }

  /** delete_item deletes the item from its list and leaves every other list. */
  lemma RemoveDeletes(items: Items, id: Id, next: Id, c: Id)
    requires KeysBelow(items, next) && PositionedIn(items, c)
    ensures var after := WithoutKey(items, id);
      KeysBelow(after, next) && PositionedIn(after, c) && ListIds(after, c) == Without(ListIds(items, c), id)
  {
    WithoutKeyBelow(items, id, next);
    ListingLists(items, c);
    IdsWithout(Listing(items, c), id);
    AscendingWithout(Listing(items, c), id);
    ListingIs(WithoutKey(Listing(items, c), id), WithoutKey(items, id), c);
  }

  // ---------- Reordering becomes the request ----------

  ghost predicate NoDuplicates(ids: seq<Id>) {
    forall i, j :: 0 <= i < j < |ids| ==> ids[i] != ids[j]
  }

  /** What the loop has done to one row: its position is the last index at which it is listed. */
  lemma {:induction false} ReorderedRow(items: Items, ids: seq<Id>, i: nat)
    requires i < |items| && NoDuplicates(ids)
    ensures var r := Reordered(items, ids)[i];
      && r.id == items[i].id && r.data == items[i].data.(position := r.data.position)
      && (items[i].id !in ids ==> r == items[i])
      && (forall k :: 0 <= k < |ids| && ids[k] == items[i].id ==> r.data.position == k)
  {
    if ids != [] {
      ReorderedRow(items, ids[..|ids| - 1], i);
    }
  }

  function IdSet(ids: seq<Id>): set<Id> {
    set i | i in ids
  }

  lemma {:induction false} CardinalityAtMost(ids: seq<Id>)
    ensures |IdSet(ids)| <= |ids|
    ensures NoDuplicates(ids) ==> |IdSet(ids)| == |ids|
  {
    if ids != [] {
      var front, last := ids[..|ids| - 1], ids[|ids| - 1];
      CardinalityAtMost(front);
      assert ids == front + [last];
      assert IdSet(ids) == IdSet(front) + {last};
    }
  }

  /** len(ids) == len(set(ids)) tests for duplicates. */
  lemma CardinalityOfSeq(ids: seq<Id>)
    ensures |ids| == |IdSet(ids)| <==> NoDuplicates(ids)
  {
    CardinalityAtMost(ids);
    if i, j :| 0 <= i < j < |ids| && ids[i] == ids[j] {
      var rest := ids[..j] + ids[j + 1..];
      CardinalityAtMost(rest);
      forall x | x in ids ensures x in rest {
        var k :| 0 <= k < |ids| && ids[k] == x;
        assert k < j ==> rest[k] == x;
        assert k > j ==> rest[k - 1] == x;
        assert k == j ==> rest[i] == x;
      }
      assert IdSet(ids) == IdSet(rest);
    }
  }

  lemma AcceptedMeans(items: Items, c: Id, ids: seq<Id>)
    ensures Accepted(items, c, ids) <==> NoDuplicates(ids) && IdSet(ids) == Keys(OfCollection(items, c))
  {
    CardinalityOfSeq(ids);
  }

  /** An accepted request numbers its collection's rows by their index in it, and touches no other row. */
  lemma ReorderedRowOf(items: Items, c: Id, ids: seq<Id>, i: nat)
    requires i < |items| && Accepted(items, c, ids) && DistinctIds(items)
    ensures var r := Reordered(items, ids)[i];
      && r.id == items[i].id && r.data == items[i].data.(position := r.data.position)
      && (r.data.collectionId != c ==> r == items[i])
      && (r.data.collectionId == c ==> 0 <= r.data.position < |ids| && ids[r.data.position] == r.id)
  {
    AcceptedMeans(items, c, ids);
    ReorderedRow(items, ids, i);
    if items[i].data.collectionId == c {
      assert items[i] in OfCollection(items, c);
      assert items[i].id in IdSet(ids);
    } else if items[i].id in ids {
      assert items[i].id in IdSet(ids);
      var q :| q in OfCollection(items, c) && q.id == items[i].id;
      var j :| 0 <= j < |items| && items[j] == q;
      assert items[j].id == items[i].id;
    }
  }

  lemma ReorderedHas(items: Items, c: Id, ids: seq<Id>, k: nat) returns (r: Row<CollectionItem>)
    requires k < |ids| && Accepted(items, c, ids) && DistinctIds(items)
    ensures r in Reordered(items, ids) && r.data.collectionId == c && r.id == ids[k] && r.data.position == k
  {
    AcceptedMeans(items, c, ids);
    assert ids[k] in IdSet(ids);
    var q :| q in OfCollection(items, c) && q.id == ids[k];
    var i :| 0 <= i < |items| && items[i] == q;
    ReorderedRow(items, ids, i);
    r := Reordered(items, ids)[i];
  }

  lemma ReorderedMember(items: Items, c: Id, ids: seq<Id>, r: Row<CollectionItem>)
    requires Accepted(items, c, ids) && DistinctIds(items) && r in Reordered(items, ids) && r.data.collectionId == c
    ensures 0 <= r.data.position < |ids| && ids[r.data.position] == r.id
  {
    var i :| 0 <= i < |items| && Reordered(items, ids)[i] == r;
    ReorderedRowOf(items, c, ids, i);
  }

  lemma ReorderedSame(items: Items, c: Id, ids: seq<Id>, d: Id, i: nat, j: nat)
    requires Accepted(items, c, ids) && DistinctIds(items) && (c == d || PositionedIn(items, d))
    requires i < |items| && j < |items|
    requires SamePlace(Reordered(items, ids)[i].data, Reordered(items, ids)[j].data, d)
    ensures i == j
  {
    ReorderedRowOf(items, c, ids, i);
    ReorderedRowOf(items, c, ids, j);
    assert items[i] in items && items[j] in items;
    assert c == d ==> items[i].id == items[j].id;
  }

  lemma ReorderedPositioned(items: Items, c: Id, ids: seq<Id>, d: Id, next: Id)
    requires Accepted(items, c, ids) && KeysBelow(items, next) && (c == d || PositionedIn(items, d))
    ensures KeysBelow(Reordered(items, ids), next) && PositionedIn(Reordered(items, ids), d)
  {
    var after := Reordered(items, ids);
    forall i | 0 <= i < |items| ensures after[i].id == items[i].id {
      ReorderedRowOf(items, c, ids, i);
    }
    forall q, r | q in after && r in after && SamePlace(q.data, r.data, d) ensures q == r {
      var i :| 0 <= i < |after| && after[i] == q;
      var j :| 0 <= j < |after| && after[j] == r;
      ReorderedSame(items, c, ids, d, i, j);
    }
  }

  ghost predicate HasPosition(list: Items, k: int) {
    exists r :: r in RowSet(list) && r.data.position == k
  }

  /** Ascending numbers below n, all of which occur, are 0, 1, ..., n-1. */
  lemma {:induction false} FullRange(list: Items, n: nat)
    requires Ascending(list)
    requires forall r :: r in RowSet(list) ==> 0 <= r.data.position < n
    requires forall k :: 0 <= k < n ==> HasPosition(list, k)
    ensures |list| == n && forall k :: 0 <= k < n ==> list[k].data.position == k
  {
    if n == 0 {
      EmptyMeans(list);
      assert forall x :: x in list ==> x in RowSet(list);
    } else {
      assert HasPosition(list, n - 1);
      var r :| r in RowSet(list) && r.data.position == n - 1;
      LastIsGreatest(list, r);
      var front := list[..|list| - 1];
      forall k | 0 <= k < n - 1 ensures HasPosition(front, k) {
        assert HasPosition(list, k);
        var q :| q in RowSet(list) && q.data.position == k;
        assert q in RowSet(front);
      }
      FullRange(front, n - 1);
    }
  }

  /** An accepted reorder makes the list exactly the request, at positions 0, ..., n-1, even
      where positions were tied; it leaves every other list. */
  lemma ReorderBecomes(items: Items, c: Id, ids: seq<Id>, next: Id)
    requires Accepted(items, c, ids) && KeysBelow(items, next)
    ensures ListIds(Reordered(items, ids), c) == ids
    ensures forall k :: 0 <= k < |ids| ==> Listing(Reordered(items, ids), c)[k].data.position == k
  {
    var after := Reordered(items, ids);
    ReorderedPositioned(items, c, ids, c, next);
    ListingLists(after, c);
    var list := Listing(after, c);
    forall r | r in list ensures 0 <= r.data.position < |ids| && ids[r.data.position] == r.id {
      ReorderedMember(items, c, ids, r);
    }
    forall k | 0 <= k < |ids| ensures HasPosition(list, k) {
      var r := ReorderedHas(items, c, ids, k);
      assert r in RowSet(list);
    }
    FullRange(list, |ids|);
    forall k | 0 <= k < |ids| ensures Ids(list)[k] == ids[k] {
      assert list[k] in list;
    }
  }

  lemma ReorderLeavesOthers(items: Items, c: Id, ids: seq<Id>, d: Id, next: Id)
    requires Accepted(items, c, ids) && KeysBelow(items, next) && d != c && PositionedIn(items, d)
    ensures ListIds(Reordered(items, ids), d) == ListIds(items, d)
  {
    var after := Reordered(items, ids);
    ReorderedPositioned(items, c, ids, d, next);
    ListingLists(items, d);
    forall r ensures r in after && r.data.collectionId == d <==> r in items && r.data.collectionId == d {
      if r in after && r.data.collectionId == d {
        var i :| 0 <= i < |after| && after[i] == r;
        ReorderedRowOf(items, c, ids, i);
        assert items[i] in items;
      }
      if r in items && r.data.collectionId == d {
        var i :| 0 <= i < |items| && items[i] == r;
        ReorderedRowOf(items, c, ids, i);
        assert after[i] in after;
      }
    }
    ListingIs(Listing(items, d), after, d);
  }

  // ---------- Patching a position may tie ----------

  /** update_item with a position p keeps the collection's positions distinct exactly when no
      other of its items is at p. */
  lemma PatchKeepsPositionsIff(items: Items, row: Row<CollectionItem>, c: Id, p: int)
    requires DistinctIds(items) && PositionedIn(items, c) && row in items && row.data.collectionId == c
    ensures PositionedIn(WithPosition(items, row.id, p), c)
      <==> forall r :: r in items && r.data.collectionId == c && r.id != row.id ==> r.data.position != p
  {
    var after := WithPosition(items, row.id, p);
    var i :| 0 <= i < |items| && items[i] == row;
    assert forall k :: 0 <= k < |items| && k != i ==> after[k] == items[k];
    if r :| r in items && r.data.collectionId == c && r.id != row.id && r.data.position == p {
      var j :| 0 <= j < |items| && items[j] == r;
      assert after[i] in after && after[j] in after && SamePlace(after[i].data, after[j].data, c);
    } else {
      forall q, r | q in after && r in after && SamePlace(q.data, r.data, c) ensures q == r {
        var k :| 0 <= k < |after| && after[k] == q;
        var l :| 0 <= l < |after| && after[l] == r;
        assert items[k] in items && items[l] in items;
        assert k != i ==> items[k].id != row.id;
        assert l != i ==> items[l].id != row.id;
      }
    }
  }

  /** Two items at positions 0 and 1. */
  function TwoItems(c: Id, book: Id): Items {
    [Row(0, CollectionItem(c, Some(book), None, 0, None)), Row(1, CollectionItem(c, Some(book), None, 1, None))]
  }

  /** Patching the second to position 0 makes a tie. */
  lemma PatchTies(c: Id, book: Id)
    ensures var items := TwoItems(c, book);
      DistinctIds(items) && PositionedIn(items, c) && !PositionedIn(WithPosition(items, 1, 0), c)
  {
    var items := TwoItems(c, book);
    assert items[0] in items && items[1] in items;
    PatchKeepsPositionsIff(items, items[1], c, 0);
  }

  // ---------- Pages ----------

  /** OFFSET skip LIMIT limit. */
  function Page<T>(list: seq<T>, skip: nat, limit: nat): seq<T> {
    if skip >= |list| then []
    else if skip + limit >= |list| then list[skip..]
    else list[skip..skip + limit]
  }

  /** A possible answer of the query, ORDER BY position without its page: tied items in any order. */
  ghost predicate Answers(list: Items, items: Items, c: Id) {
    && multiset(list) == multiset(OfCollection(items, c))
    && forall i, j :: 0 <= i < j < |list| ==> list[i].data.position <= list[j].data.position
  }

  /** Reading pages of a positive size until one is empty. Each request sorts anew: the one that skips k rows
      cuts its page from the k-th answer. */
  function PagesFrom<T>(answers: nat -> seq<T>, length: nat, skip: nat, limit: nat): seq<T>
    requires limit > 0 && forall k :: |answers(k)| == length
    decreases length - skip
  {
    var page := Page(answers(skip), skip, limit);
    if page == [] then [] else page + PagesFrom(answers, length, skip + limit, limit)
  }

  lemma {:induction false} PagesSuffix<T(!new)>(answers: nat -> seq<T>, list: seq<T>, skip: nat, limit: nat)
    requires limit > 0 && forall k :: answers(k) == list
    ensures PagesFrom(answers, |list|, skip, limit) == if skip <= |list| then list[skip..] else []
    decreases |list| - skip
  {
    if skip < |list| {
      PagesSuffix(answers, list, skip + limit, limit);
    }
  }

  lemma AnswerIsListing(list: Items, items: Items, c: Id)
    requires DistinctIds(items) && PositionedIn(items, c) && Answers(list, items, c)
    ensures list == Listing(items, c)
  {
    var rows := OfCollection(items, c);
    WhereKeys(items, (i: CollectionItem) => i.collectionId == c);
    forall r ensures r in list <==> r in items && r.data.collectionId == c {
      assert r in multiset(list) <==> r in multiset(rows);
    }
    forall i, j | 0 <= i < j < |list| ensures list[i].data.position < list[j].data.position {
      PermutedRowsDiffer(rows, list, i, j);
      assert list[i] in list && list[j] in list;
      assert !SamePlace(list[i].data, list[j].data, c);
    }
    ListingIs(list, items, c);
  }

  /** With distinct positions the pages of get_items concatenate to the whole list, each item once. */
  lemma PagesEnumerate(items: Items, c: Id, answers: nat -> Items, limit: nat)
    requires DistinctIds(items) && PositionedIn(items, c) && limit > 0
    requires forall k :: Answers(answers(k), items, c)
    ensures forall k :: |answers(k)| == |Listing(items, c)|
    ensures PagesFrom(answers, |Listing(items, c)|, 0, limit) == Listing(items, c)
  {
    forall k ensures answers(k) == Listing(items, c) {
      AnswerIsListing(answers(k), items, c);
    }
    PagesSuffix(answers, Listing(items, c), 0, limit);
  }

  /** Two items, the second patched to the position of the first. */
  function TiedItems(c: Id, book: Id): Items {
    WithPosition(TwoItems(c, book), 1, 0)
  }

  /** The second request sorts the tie the other way. */
  function TurnedAnswer(items: Items, k: nat): Items
    requires |items| == 2
  {
    if k == 1 then [items[1], items[0]] else items
  }

  /** Then pages of one item can list the first twice and the second never. */
  lemma TiedPagesRepeat(c: Id, book: Id)
    ensures var items := TiedItems(c, book);
      && (forall k :: Answers(TurnedAnswer(items, k), items, c))
      && PagesFrom(k => TurnedAnswer(items, k), 2, 0, 1) == [items[0], items[0]]
  {
    var items := TiedItems(c, book);
    forall k ensures Answers(TurnedAnswer(items, k), items, c) {
      Turned(items);
      TiedAnswer(TurnedAnswer(items, k), items, c, 0);
    }
    TwoPages(k => TurnedAnswer(items, k));
  }

  lemma TiedAnswer(list: Items, items: Items, c: Id, p: int)
    requires multiset(list) == multiset(items)
    requires forall r :: r in items ==> r.data.collectionId == c && r.data.position == p
    ensures Answers(list, items, c)
  {
    WhereAll(items, (i: CollectionItem) => i.collectionId == c);
    forall i | 0 <= i < |list| ensures list[i].data.position == p {
      assert list[i] in multiset(items);
    }
  }

  lemma Turned<T>(list: seq<T>)
    requires |list| == 2
    ensures multiset([list[1], list[0]]) == multiset(list)
  {
    assert list == [list[0], list[1]];
  }

  lemma TwoPages<T>(answers: nat -> seq<T>)
    requires forall k :: |answers(k)| == 2
    ensures PagesFrom(answers, 2, 0, 1) == [answers(0)[0], answers(1)[1]]
  {
    assert PagesFrom(answers, 2, 2, 1) == [];
    assert PagesFrom(answers, 2, 1, 1) == [answers(1)[1]];
  }

  // ---------- Every run refines a list ----------

  datatype Op = Add(item: CollectionItem) | Remove(id: Id) | Reorder(collection: Id, ids: seq<Id>)

  datatype State = State(items: Items, next: Id)

  function Step(s: State, op: Op): State {
    match op
    case Add(item) => State(Added(s.items, s.next, item), s.next + 1)
    case Remove(id) => s.(items := WithoutKey(s.items, id))
    case Reorder(c, ids) => if Accepted(s.items, c, ids) then s.(items := Reordered(s.items, ids)) else s
  }

  function Run(s: State, ops: seq<Op>): State {
    if ops == [] then s else Step(Run(s, ops[..|ops| - 1]), ops[|ops| - 1])
  }

  /** The same operation on the list of one collection. */
  function ListStep(list: seq<Id>, c: Id, op: Op, freshId: Id): seq<Id> {
    match op
    case Add(item) => if item.collectionId == c then list + [freshId] else list
    case Remove(id) => Without(list, id)
    case Reorder(d, ids) => if d == c && |ids| == |IdSet(ids)| && IdSet(ids) == IdSet(list) then ids else list
  }

  function ListRun(list: seq<Id>, c: Id, ops: seq<Op>, s: State): seq<Id> {
    if ops == [] then list
    else ListStep(ListRun(list, c, ops[..|ops| - 1], s), c, ops[|ops| - 1], Run(s, ops[..|ops| - 1]).next)
  }

  ghost predicate Valid(s: State, c: Id) {
    KeysBelow(s.items, s.next) && PositionedIn(s.items, c)
  }

  lemma ListedIds(items: Items, c: Id)
    requires DistinctIds(items) && PositionedIn(items, c)
    ensures IdSet(ListIds(items, c)) == Keys(OfCollection(items, c))
  {
    ListingLists(items, c);
    var list := Listing(items, c);
    forall id ensures id in IdSet(Ids(list)) <==> id in Keys(OfCollection(items, c)) {
      if id in IdSet(Ids(list)) {
        var k :| 0 <= k < |list| && Ids(list)[k] == id;
        assert list[k] in list;
      }
      if id in Keys(OfCollection(items, c)) {
        var r :| r in OfCollection(items, c) && r.id == id;
        assert r in list;
        var k :| 0 <= k < |list| && list[k] == r;
        assert Ids(list)[k] == id;
      }
    }
  }

  lemma StepRefinesList(s: State, op: Op, c: Id)
    requires Valid(s, c)
    ensures Valid(Step(s, op), c)
    ensures ListIds(Step(s, op).items, c) == ListStep(ListIds(s.items, c), c, op, s.next)
  {
    match op
    case Add(item) =>
      AddedStaysPositioned(s.items, s.next, item, c);
      AddAppends(s.items, s.next, item, c);
    case Remove(id) =>
      RemoveDeletes(s.items, id, s.next, c);
    case Reorder(d, ids) =>
      ListedIds(s.items, c);
      if Accepted(s.items, d, ids) {
        ReorderedPositioned(s.items, d, ids, c, s.next);
        if c == d {
          ReorderBecomes(s.items, c, ids, s.next);
        } else {
          ReorderLeavesOthers(s.items, d, ids, c, s.next);
        }
      }
  }

  /** Over every run of add, remove and reorder: the positions of a collection stay distinct,
      and its items by position are the list that appending, deleting and replacing give. */
  lemma {:induction false} RunRefinesList(s: State, ops: seq<Op>, c: Id)
    requires Valid(s, c)
    ensures Valid(Run(s, ops), c)
    ensures ListIds(Run(s, ops).items, c) == ListRun(ListIds(s.items, c), c, ops, s)
  {
    if ops != [] {
      RunRefinesList(s, ops[..|ops| - 1], c);
      StepRefinesList(Run(s, ops[..|ops| - 1]), ops[|ops| - 1], c);
    }
  }

  ghost predicate AllValid(items: Items, next: Id) {
    KeysBelow(items, next) && forall c :: PositionedIn(items, c)
  }

  lemma AddEverywhere(items: Items, id: Id, item: CollectionItem)
    requires AllValid(items, id)
    ensures AllValid(Added(items, id, item), id + 1)
    ensures forall c ::
      ListIds(Added(items, id, item), c)
        == if c == item.collectionId then ListIds(items, c) + [id] else ListIds(items, c)
  {
    AddedStaysPositioned(items, id, item, item.collectionId);
    forall c ensures PositionedIn(Added(items, id, item), c) {
      AddedStaysPositioned(items, id, item, c);
    }
    forall c
      ensures ListIds(Added(items, id, item), c)
        == if c == item.collectionId then ListIds(items, c) + [id] else ListIds(items, c)
    {
      AddAppends(items, id, item, c);
    }
  }

  lemma RemoveEverywhere(items: Items, id: Id, next: Id)
    requires AllValid(items, next)
    ensures AllValid(WithoutKey(items, id), next)
    ensures forall c :: ListIds(WithoutKey(items, id), c) == Without(ListIds(items, c), id)
  {
    WithoutKeyBelow(items, id, next);
    forall c
      ensures PositionedIn(WithoutKey(items, id), c)
      ensures ListIds(WithoutKey(items, id), c) == Without(ListIds(items, c), id)
    {
      RemoveDeletes(items, id, next, c);
    }
  }

  lemma ReorderEverywhere(items: Items, c: Id, ids: seq<Id>, next: Id)
    requires AllValid(items, next) && Accepted(items, c, ids)
    ensures AllValid(Reordered(items, ids), next)
    ensures forall d :: ListIds(Reordered(items, ids), d) == if d == c then ids else ListIds(items, d)
  {
    ReorderedPositioned(items, c, ids, c, next);
    forall d ensures PositionedIn(Reordered(items, ids), d) {
      ReorderedPositioned(items, c, ids, d, next);
    }
    forall d ensures ListIds(Reordered(items, ids), d) == if d == c then ids else ListIds(items, d) {
      if d == c {
        ReorderBecomes(items, c, ids, next);
      } else {
        ReorderLeavesOthers(items, c, ids, d, next);
      }
    }
  }

  // ---------- The service ----------

  datatype Error = CollectionNotFound | ItemNotFound | InvalidItemIds | IntegrityError

  /** _get_owned. */
  predicate Owns(collections: Table<Collection>, user: Id, c: Id) {
    exists i :: 0 <= i < |collections| && collections[i].id == c && collections[i].data.userId == user
  }

  /** The item exists and is the collection's. */
  predicate HasItem(items: Items, c: Id, id: Id) {
    exists i :: 0 <= i < |items| && items[i].id == id && items[i].data.collectionId == c
  }

  class CollectionService {
    var collections: Table<Collection>
    var items: Items
    var books: set<Id>
    var releases: set<Id>
    var nextId: Id

    ghost predicate Valid()
      reads this
    {
      AllValid(items, nextId)
    }

    method AddItem(user: Id, c: Id, bookId: Option<Id>, releaseId: Option<Id>, note: Option<string>)
      returns (r: Result<Id, Error>)
      requires Valid() && ExactlyOneTarget(bookId, releaseId)  // the request schema
      modifies this`items, this`nextId
      ensures Valid()
      ensures r == Err(CollectionNotFound) <==> forall q :: q in collections && q.id == c ==> q.data.userId != user
      ensures r == Err(IntegrityError) <==>
        r != Err(CollectionNotFound)
        && ((bookId.Some? && bookId.value !in books) || (releaseId.Some? && releaseId.value !in releases))
      ensures r.Err? ==> items == old(items) && nextId == old(nextId)
                         && (r.error == CollectionNotFound || r.error == IntegrityError)
      ensures r.Ok? ==> r.value == old(nextId)
      ensures r.Ok? ==> items == old(items) + [Row(r.value,
        CollectionItem(c, bookId, releaseId, NextPosition(old(items), c), note))]
      ensures r.Ok? && (forall q :: q in old(items) ==> q.data.collectionId != c) ==>
        items[|old(items)|].data.position == 0
      ensures r.Ok? && (exists q :: q in old(items) && q.data.collectionId == c) ==>
        && (exists q :: q in old(items) && q.data.collectionId == c
                        && q.data.position + 1 == items[|old(items)|].data.position)
        && (forall q :: q in old(items) && q.data.collectionId == c ==>
              q.data.position < items[|old(items)|].data.position)
      ensures r.Ok? ==> ListIds(items, c) == old(ListIds(items, c)) + [r.value]
      ensures forall d :: d != c ==> ListIds(items, d) == old(ListIds(items, d))
    {
      if !Owns(collections, user, c) {
        return Err(CollectionNotFound);
      }
      if !(References(bookId, books) && References(releaseId, releases)) {
        return Err(IntegrityError);
      }
      var id := nextId;
      var position := NextPosition(items, c);
      AddEverywhere(items, id, CollectionItem(c, bookId, releaseId, 0, note));
      NextPositionIs(items, c);
      items := items + [Row(id, CollectionItem(c, bookId, releaseId, position, note))];
      nextId := nextId + 1;
      r := Ok(id);
    }

    method RemoveItem(user: Id, c: Id, id: Id) returns (r: Result<(), Error>)
      requires Valid()
      modifies this`items
      ensures Valid()
      ensures r == Err(CollectionNotFound) <==> forall q :: q in collections && q.id == c ==> q.data.userId != user
      ensures r == Err(ItemNotFound) <==>
        r != Err(CollectionNotFound) && forall q :: q in old(items) && q.id == id ==> q.data.collectionId != c
      ensures r.Err? ==> items == old(items) && (r.error == CollectionNotFound || r.error == ItemNotFound)
      ensures r.Ok? ==> forall d :: ListIds(items, d) == Without(old(ListIds(items, d)), id)
    {
      if !Owns(collections, user, c) {
        return Err(CollectionNotFound);
      }
      if !HasItem(items, c, id) {
        return Err(ItemNotFound);
      }
      RemoveEverywhere(items, id, nextId);
      items := WithoutKey(items, id);
      r := Ok(());
    }

    method ReorderItems(user: Id, c: Id, ids: seq<Id>) returns (r: Result<(), Error>)
      requires Valid()
      modifies this`items
      ensures Valid()
      ensures r == Err(CollectionNotFound) <==> forall q :: q in collections && q.id == c ==> q.data.userId != user
      ensures r == Err(InvalidItemIds) <==>
        r != Err(CollectionNotFound) && !(NoDuplicates(ids) && IdSet(ids) == IdSet(old(ListIds(items, c))))
      ensures r.Err? ==> items == old(items) && (r.error == CollectionNotFound || r.error == InvalidItemIds)
      ensures r.Ok? ==> ListIds(items, c) == ids
      ensures forall d :: d != c ==> ListIds(items, d) == old(ListIds(items, d))
    {
      ListedIds(items, c);
      AcceptedMeans(items, c, ids);
      if !Owns(collections, user, c) {
        return Err(CollectionNotFound);
      }
      var existing := Keys(OfCollection(items, c));
      if |ids| != |IdSet(ids)| || IdSet(ids) != existing {
        return Err(InvalidItemIds);
      }
      ghost var before := items;
      for position := 0 to |ids|
        invariant items == Reordered(before, ids[..position])
      {
        items := WithPosition(items, ids[position], position);
        assert ids[..position + 1][..position] == ids[..position];
      }
      assert ids[..|ids|] == ids;
      ReorderEverywhere(before, c, ids, nextId);
      r := Ok(());
    }
  }
}
