/** The fragment of SQL the repositories use: nullable values and three-valued logic,
    tables as sequences of rows in scan order, SELECT, UPDATE and DELETE with a WHERE
    clause, and SUM over a projection. */
module Sql {
  datatype Option<+T> = None | Some(value: T)

  datatype Result<+T, +E> = Ok(value: T) | Err(error: E)

  type Id = nat

  /** A row: its primary key and its columns. */
  datatype Row<+D> = Row(id: Id, data: D)

  type Table<D> = seq<Row<D>>

  // ---------- Three-valued logic: None is SQL's UNKNOWN ----------

  function Equal<T(==)>(a: Option<T>, b: Option<T>): Option<bool> {
    if a.None? || b.None? then None else Some(a.value == b.value)
  }

  function Not(a: Option<bool>): Option<bool> {
    if a.None? then None else Some(!a.value)
  }

  function And(a: Option<bool>, b: Option<bool>): Option<bool> {
    if a == Some(false) || b == Some(false) then Some(false)
    else if a.None? || b.None? then None
    else Some(true)
  }

  function Or(a: Option<bool>, b: Option<bool>): Option<bool> {
    Not(And(Not(a), Not(b)))
  }

  /** `x IN (SELECT ...)`: a disjunction of equalities. */
  function In<T(==)>(x: Option<T>, xs: seq<Option<T>>): Option<bool> {
    if xs == [] then Some(false) else Or(Equal(x, xs[0]), In(x, xs[1..]))
  }

  /** A WHERE clause keeps a row only when its condition is true, not when it is UNKNOWN. */
  predicate Holds(a: Option<bool>) {
    a == Some(true)
  }

  /** `IN` is true exactly for a value that is not NULL and is listed; NULLs in the list never match. */
  lemma {:induction false} InHolds<T>(x: Option<T>, xs: seq<Option<T>>)
    ensures Holds(In(x, xs)) <==> x.Some? && x in xs
  {
    if xs != [] {
      InHolds(x, xs[1..]);
    }
  }

  // ---------- Tables ----------

  function Where<D(!new)>(t: Table<D>, p: D -> bool): (r: Table<D>)
    ensures forall x :: x in r <==> x in t && p(x.data)
    ensures |r| <= |t|
  {
    if t == [] then [] else (if p(t[0].data) then [t[0]] else []) + Where(t[1..], p)
  }

  function DeleteWhere<D(!new)>(t: Table<D>, p: D -> bool): (r: Table<D>)
    ensures forall x :: x in r <==> x in t && !p(x.data)
  {
    Where(t, d => !p(d))
  }

  function UpdateRow<D>(r: Row<D>, p: D -> bool, f: D -> D): Row<D> {
    if p(r.data) then Row(r.id, f(r.data)) else r
  }

  /** UPDATE t SET f WHERE p. */
  function UpdateWhere<D(!new)>(t: Table<D>, p: D -> bool, f: D -> D): (r: Table<D>)
    ensures |r| == |t|
    ensures forall i :: 0 <= i < |t| ==> r[i] == UpdateRow(t[i], p, f)
  {
    seq(|t|, i requires 0 <= i < |t| => UpdateRow(t[i], p, f))
  }

  function Columns<D>(t: Table<D>): (r: seq<D>)
    ensures |r| == |t|
    ensures forall i :: 0 <= i < |t| ==> r[i] == t[i].data
  {
    seq(|t|, i requires 0 <= i < |t| => t[i].data)
  }

  /** DELETE FROM t WHERE id = key. */
  function WithoutKey<D(!new)>(t: Table<D>, key: Id): (r: Table<D>)
    ensures forall x :: x in r <==> x in t && x.id != key
  {
    if t == [] then [] else (if t[0].id == key then [] else [t[0]]) + WithoutKey(t[1..], key)
  }

  /** SELECT ... WHERE id = key. */
  function Get<D>(t: Table<D>, key: Id): (r: Option<Row<D>>)
    ensures r.Some? ==> r.value in t && r.value.id == key
    ensures r.None? ==> forall i :: 0 <= i < |t| ==> t[i].id != key
  {
    if t == [] then None
    else if t[0].id == key then Some(t[0])
    else Get(t[1..], key)
  }

  ghost predicate DistinctIds<D>(t: Table<D>) {
    forall i, j :: 0 <= i < j < |t| ==> t[i].id != t[j].id
  }

  /** Primary keys are distinct, and smaller than every key still to be given out. */
  ghost predicate KeysBelow<D>(t: Table<D>, next: Id) {
    DistinctIds(t) && forall i :: 0 <= i < |t| ==> t[i].id < next
  }

  function SumOf<D>(t: Table<D>, f: D -> int): int {
    if t == [] then 0 else f(t[0].data) + SumOf(t[1..], f)
  }

  // ---------- Laws ----------

  /** The rows of an updated table are the updated rows. */
  lemma UpdatedRows<D(!new)>(t: Table<D>, p: D -> bool, f: D -> D)
    ensures forall x :: x in t ==> UpdateRow(x, p, f) in UpdateWhere(t, p, f)
    ensures forall y :: y in UpdateWhere(t, p, f) ==> exists x :: x in t && y == UpdateRow(x, p, f)
  {
    var u := UpdateWhere(t, p, f);
    forall x | x in t ensures UpdateRow(x, p, f) in u {
      var i :| 0 <= i < |t| && t[i] == x;
      assert u[i] == UpdateRow(x, p, f);
    }
    forall y | y in u ensures exists x :: x in t && y == UpdateRow(x, p, f) {
      var i :| 0 <= i < |u| && u[i] == y;
      assert t[i] in t;
    }
  }

  lemma {:induction false} WhereKeys<D(!new)>(t: Table<D>, p: D -> bool)
    requires DistinctIds(t)
    ensures DistinctIds(Where(t, p))
  {
    if t != [] {
      WhereKeys(t[1..], p);
      var rest := Where(t[1..], p);
      forall j | 0 <= j < |rest| ensures rest[j].id != t[0].id {
        assert rest[j] in t[1..];
      }
    }
  }

  lemma WhereKeysBelow<D(!new)>(t: Table<D>, p: D -> bool, next: Id)
    requires KeysBelow(t, next)
    ensures KeysBelow(Where(t, p), next)
  {
    WhereKeys(t, p);
    var r := Where(t, p);
    forall i | 0 <= i < |r| ensures r[i].id < next {
      assert r[i] in t;
    }
  }

  lemma DeleteKeysBelow<D(!new)>(t: Table<D>, p: D -> bool, next: Id)
    requires KeysBelow(t, next)
    ensures KeysBelow(DeleteWhere(t, p), next)
  {
    WhereKeysBelow(t, d => !p(d), next);
  }

  lemma DeleteNone<D(!new)>(t: Table<D>, p: D -> bool)
    requires forall r :: r in t ==> !p(r.data)
    ensures DeleteWhere(t, p) == t
  {
    WhereAll(t, d => !p(d));
  }

  lemma {:induction false} WithoutKeyBelow<D(!new)>(t: Table<D>, key: Id, next: Id)
    requires KeysBelow(t, next)
    ensures KeysBelow(WithoutKey(t, key), next)
  {
    if t != [] {
      var rest := WithoutKey(t[1..], key);
      WithoutKeyBelow(t[1..], key, next);
      forall j | 0 <= j < |rest| ensures rest[j].id != t[0].id {
        assert rest[j] in t[1..];
      }
    }
  }

  lemma EmptyMeans<T(!new)>(a: seq<T>)
    ensures a == [] <==> forall x :: x !in a
  {
    if a != [] { assert a[0] in a; }
  }

  lemma {:induction false} SubsetSize<T>(a: set<T>, b: set<T>)
    requires a <= b
    ensures |a| <= |b|
  {
    if a != {} {
      var x :| x in a;
      SubsetSize(a - {x}, b - {x});
    }
  }

  lemma WithoutHead<D(!new)>(t: Table<D>, key: Id)
    requires t != []
    ensures WithoutKey(t, key) == if t[0].id == key then WithoutKey(t[1..], key) else [t[0]] + WithoutKey(t[1..], key)
  {
  }

  lemma {:induction false} WithoutAbsent<D(!new)>(t: Table<D>, key: Id)
    requires forall i :: 0 <= i < |t| ==> t[i].id != key
    ensures WithoutKey(t, key) == t
  {
    if t != [] {
      WithoutAbsent(t[1..], key);
    }
  }

  lemma {:induction false} GetRow<D>(t: Table<D>, r: Row<D>)
    requires DistinctIds(t) && r in t
    ensures Get(t, r.id) == Some(r)
  {
    if t[0] != r {
      var i :| 0 <= i < |t| && t[i] == r;
      assert t[1..][i - 1] == r;
      GetRow(t[1..], r);
    }
  }

  lemma {:induction false} GetAbsent<D>(t: Table<D>, key: Id)
    requires forall i :: 0 <= i < |t| ==> t[i].id != key
    ensures Get(t, key).None?
  {
    if t != [] {
      GetAbsent(t[1..], key);
    }
  }

  lemma {:induction false} GetAppended<D>(t: Table<D>, r: Row<D>, key: Id)
    ensures Get(t + [r], key) == if Get(t, key).Some? then Get(t, key) else if r.id == key then Some(r) else None
  {
    if t != [] {
      assert (t + [r])[1..] == t[1..] + [r];
      GetAppended(t[1..], r, key);
    }
  }

  lemma {:induction false} OnceEach<D(!new)>(t: Table<D>, x: Row<D>)
    requires DistinctIds(t)
    ensures multiset(t)[x] <= 1
  {
    if t != [] {
      var front, last := t[..|t| - 1], t[|t| - 1];
      OnceEach(front, x);
      assert t == front + [last];
      assert forall i :: 0 <= i < |front| ==> front[i] != last;
      assert multiset(front)[last] == 0;
    }
  }

  lemma RepeatCounts<T>(list: seq<T>, i: nat, j: nat)
    requires i < j < |list| && list[i] == list[j]
    ensures multiset(list)[list[i]] >= 2
  {
    assert list == list[..i] + [list[i]] + list[i + 1..j] + [list[j]] + list[j + 1..];
  }

  lemma PermutedRowsDiffer<D(!new)>(rows: Table<D>, list: Table<D>, i: nat, j: nat)
    requires DistinctIds(rows) && multiset(list) == multiset(rows) && i < j < |list|
    ensures list[i] != list[j]
  {
    OnceEach(rows, list[i]);
    if list[i] == list[j] {
      RepeatCounts(list, i, j);
    }
  }

  lemma {:induction false} WhereWhere<D(!new)>(t: Table<D>, p: D -> bool, q: D -> bool, both: D -> bool)
    requires forall r :: r in t ==> both(r.data) == (p(r.data) && q(r.data))
    ensures Where(Where(t, p), q) == Where(t, both)
  {
    if t != [] {
      assert t[0] in t;
      WhereWhere(t[1..], p, q, both);
      if p(t[0].data) {
        WhereHead(t[0], Where(t[1..], p), q);
      } else {
        assert Where(t, p) == Where(t[1..], p);
        assert Where(t, both) == Where(t[1..], both);
      }
    }
  }

  lemma WhereHead<D(!new)>(r: Row<D>, t: Table<D>, p: D -> bool)
    ensures Where([r] + t, p) == (if p(r.data) then [r] else []) + Where(t, p)
  {
    assert ([r] + t)[1..] == t;
  }

  lemma {:induction false} WhereConcat<D(!new)>(a: Table<D>, b: Table<D>, p: D -> bool)
    ensures Where(a + b, p) == Where(a, p) + Where(b, p)
  {
    if a == [] {
      assert a + b == b;
    } else {
      var t := a + b;
      assert t[0] == a[0] && t[1..] == a[1..] + b;
      WhereConcat(a[1..], b, p);
      if p(a[0].data) {
        AppendHead(a[0], Where(a[1..], p), Where(b, p));
      }
    }
  }

  lemma AppendHead<T>(x: T, u: seq<T>, v: seq<T>)
    ensures [x] + (u + v) == ([x] + u) + v
  {
  }

  lemma {:induction false} WhereSame<D(!new)>(t: Table<D>, p: D -> bool, q: D -> bool)
    requires forall r :: r in t ==> p(r.data) == q(r.data)
    ensures Where(t, p) == Where(t, q)
  {
    if t != [] {
      assert t[0] in t;
      WhereSame(t[1..], p, q);
    }
  }

  lemma {:induction false} WhereAll<D(!new)>(t: Table<D>, p: D -> bool)
    requires forall r :: r in t ==> p(r.data)
    ensures Where(t, p) == t
  {
    if t != [] {
      assert t[0] in t;
      WhereAll(t[1..], p);
    }
  }

  lemma {:induction false} WhereNone<D(!new)>(t: Table<D>, p: D -> bool)
    requires forall r :: r in t ==> !p(r.data)
    ensures Where(t, p) == []
  {
    if t != [] {
      assert t[0] in t;
      WhereNone(t[1..], p);
    }
  }

  /** A filter splits a sum in two. */
  lemma {:induction false} SumSplit<D(!new)>(t: Table<D>, p: D -> bool, q: D -> bool, both: D -> bool, f: D -> int)
    requires forall r :: r in t ==> !(p(r.data) && q(r.data))
    requires forall r :: r in t ==> both(r.data) == (p(r.data) || q(r.data))
    ensures SumOf(Where(t, both), f) == SumOf(Where(t, p), f) + SumOf(Where(t, q), f)
    ensures |Where(t, both)| == |Where(t, p)| + |Where(t, q)|
  {
    if t != [] {
      assert t[0] in t;
      SumSplit(t[1..], p, q, both, f);
      assert forall w: D -> bool :: Where(t, w) == (if w(t[0].data) then [t[0]] else []) + Where(t[1..], w);
      SumHead(t[0], Where(t[1..], p), f);
      SumHead(t[0], Where(t[1..], q), f);
      SumHead(t[0], Where(t[1..], both), f);
    }
  }

  lemma SumHead<D>(r: Row<D>, t: Table<D>, f: D -> int)
    ensures SumOf([r] + t, f) == f(r.data) + SumOf(t, f)
    ensures [] + t == t
  {
    assert ([r] + t)[1..] == t;
  }

  /** Filtering an updated table by q sums to the same as filtering the original by p. */
  lemma {:induction false} SumUpdated<D(!new)>(
    t: Table<D>, w: D -> bool, f: D -> D, p: D -> bool, q: D -> bool, g: D -> int)
    requires forall r :: r in t ==> q(UpdateRow(r, w, f).data) == p(r.data)
    requires forall r :: r in t && p(r.data) ==> g(UpdateRow(r, w, f).data) == g(r.data)
    ensures SumOf(Where(UpdateWhere(t, w, f), q), g) == SumOf(Where(t, p), g)
    ensures |Where(UpdateWhere(t, w, f), q)| == |Where(t, p)|
  {
    if t != [] {
      assert t[0] in t;
      SumUpdated(t[1..], w, f, p, q, g);
      assert UpdateWhere(t, w, f)[1..] == UpdateWhere(t[1..], w, f);
      SumHead(t[0], Where(t[1..], p), g);
      SumHead(UpdateRow(t[0], w, f), Where(UpdateWhere(t[1..], w, f), q), g);
    }
  }

  /** The same after a DELETE and an UPDATE. */
  lemma SumDeletedUpdated<D(!new)>(
    t: Table<D>, dropped: D -> bool, w: D -> bool, f: D -> D, p: D -> bool, q: D -> bool, g: D -> int)
    requires forall r :: r in t ==> (p(r.data) <==> !dropped(r.data) && q(UpdateRow(r, w, f).data))
    requires forall r :: r in t && p(r.data) ==> g(UpdateRow(r, w, f).data) == g(r.data)
    ensures SumOf(Where(UpdateWhere(DeleteWhere(t, dropped), w, f), q), g) == SumOf(Where(t, p), g)
    ensures |Where(UpdateWhere(DeleteWhere(t, dropped), w, f), q)| == |Where(t, p)|
  {
    SumUpdated(DeleteWhere(t, dropped), w, f, p, q, g);
    WhereWhere(t, d => !dropped(d), p, p);
  }
}
