/** Runs that try a step on one key after another, where a step can fail: what a run comes to when it ends at
    the first failure. */
module Runs {
  import opened Sql

  /** The state after one step, and whether it succeeded. */
  datatype Attempt<S> = Attempt(db: S, ok: bool)

  /** The state after a run and the number of its steps, or no number when a failure ended it. */
  datatype Summary<S> = Summary(db: S, count: Option<nat>) {
    function Plus(more: nat): Summary<S> {
      Summary(db, if count.None? then None else Some(count.value + more))
    }
  }

  /** The run that ends at the first step that fails. */
  function Run<S>(step: (S, Id) -> Attempt<S>, s: S, us: seq<Id>): Summary<S>
    decreases |us|
  {
    if us == [] then Summary(s, Some(0))
    else
      var a := step(s, us[0]);
      if !a.ok then Summary(a.db, None) else Run(step, a.db, us[1..]).Plus(1)
  }

  /** What is left of a run after its first step. */
  lemma Tried<S>(step: (S, Id) -> Attempt<S>, s: S, us: seq<Id>, a: Attempt<S>, rest: seq<Id>, count: nat)
    requires us != [] && a == step(s, us[0]) && rest == us[1..]
    ensures Run(step, s, us).Plus(count)
      == if a.ok then Run(step, a.db, rest).Plus(count + 1) else Summary(a.db, None)
  {
  }

  /** The state after all of the steps, failures passed over. */
  function After<S>(step: (S, Id) -> Attempt<S>, s: S, us: seq<Id>): S
    decreases |us|
  {
    if us == [] then s else After(step, step(s, us[0]).db, us[1..])
  }

  /** How many keys come before the first whose step would fail. */
  function Leading<S>(step: (S, Id) -> Attempt<S>, s: S, us: seq<Id>): (n: nat)
    ensures n <= |us|
    ensures forall i :: 0 <= i < n ==> step(s, us[i]).ok
    ensures n < |us| ==> !step(s, us[n]).ok
  {
    if us == [] || !step(s, us[0]).ok then 0 else 1 + Leading(step, s, us[1..])
  }

  function Elements(us: seq<Id>): set<Id> {
    set u | u in us
  }

  ghost predicate Distinct(us: seq<Id>) {
    forall i, j :: 0 <= i < j < |us| ==> us[i] != us[j]
  }

  ghost predicate Permutes(us: seq<Id>, vs: seq<Id>) {
    multiset(us) == multiset(vs)
  }

  // ---------- Steps that do not affect each other ----------

  /** A step on one key does not decide the outcome for another. */
  ghost predicate Independent<S(!new)>(step: (S, Id) -> Attempt<S>) {
    forall s, u, v :: u != v ==> step(step(s, u).db, v).ok == step(s, v).ok
  }

  ghost predicate Commuting<S(!new)>(step: (S, Id) -> Attempt<S>) {
    forall s, u, v :: step(step(s, u).db, v).db == step(step(s, v).db, u).db
  }

  /** A step that succeeds removes its key, and one that fails removes none. */
  ghost predicate Removes<S(!new)>(step: (S, Id) -> Attempt<S>, keys: S -> set<Id>) {
    forall s, u :: keys(step(s, u).db) == if step(s, u).ok then keys(s) - {u} else keys(s)
  }

  lemma {:induction false} RunIsLocal<S(!new)>(step: (S, Id) -> Attempt<S>, s: S, us: seq<Id>, v: Id)
    requires Independent(step) && v !in us
    ensures step(Run(step, s, us).db, v).ok == step(s, v).ok
    decreases |us|
  {
    if us != [] && step(s, us[0]).ok {
      RunIsLocal(step, step(s, us[0]).db, us[1..], v);
    }
  }

  /** A run goes on with further keys from where it is, unless it has ended. */
  lemma {:induction false} RunsCompose<S>(step: (S, Id) -> Attempt<S>, s: S, us: seq<Id>, vs: seq<Id>)
    ensures var run := Run(step, s, us);
      Run(step, s, us + vs) == if run.count.None? then run else Run(step, run.db, vs).Plus(run.count.value)
    decreases |us|
  {
    if us == [] {
      assert us + vs == vs;
    } else {
      assert (us + vs)[1..] == us[1..] + vs;
      RunsCompose(step, step(s, us[0]).db, us[1..], vs);
    }
  }

  lemma {:induction false} LeadingIsLocal<S(!new)>(step: (S, Id) -> Attempt<S>, s: S, u: Id, us: seq<Id>)
    requires Independent(step) && u !in us
    ensures Leading(step, step(s, u).db, us) == Leading(step, s, us)
  {
    if us != [] {
      LeadingIsLocal(step, s, u, us[1..]);
    }
  }

  lemma {:induction false} RunCounts<S(!new)>(step: (S, Id) -> Attempt<S>, s: S, us: seq<Id>)
    requires Independent(step) && Distinct(us)
    ensures Run(step, s, us).count == if Leading(step, s, us) == |us| then Some(|us|) else None
    decreases |us|
  {
    if us != [] {
      LeadingIsLocal(step, s, us[0], us[1..]);
      RunCounts(step, step(s, us[0]).db, us[1..]);
    }
  }

  lemma {:induction false} RunTriesAll<S>(step: (S, Id) -> Attempt<S>, s: S, us: seq<Id>)
    requires Run(step, s, us).count.Some?
    ensures Run(step, s, us).db == After(step, s, us)
    decreases |us|
  {
    if us != [] {
      RunTriesAll(step, step(s, us[0]).db, us[1..]);
    }
  }

  lemma {:induction false} RunRemoves<S(!new)>(
    step: (S, Id) -> Attempt<S>, keys: S -> set<Id>, s: S, us: seq<Id>)
    requires Independent(step) && Removes(step, keys) && Distinct(us)
    ensures keys(Run(step, s, us).db) == keys(s) - Elements(us[..Leading(step, s, us)])
    decreases |us|
  {
    if us != [] && step(s, us[0]).ok {
      var n, rest := Leading(step, s, us), us[1..];
      LeadingIsLocal(step, s, us[0], rest);
      RunRemoves(step, keys, step(s, us[0]).db, rest);
      assert us[..n] == [us[0]] + rest[..n - 1];
    }
  }

  /** The keys whose steps would succeed at the start. */
  function Succeeding<S>(step: (S, Id) -> Attempt<S>, s: S, us: seq<Id>): set<Id> {
    set u | u in us && step(s, u).ok
  }

  /** No step that would succeed comes after one that would fail. */
  ghost predicate SuccessesFirst<S>(step: (S, Id) -> Attempt<S>, s: S, us: seq<Id>) {
    forall i, j :: 0 <= i < j < |us| && step(s, us[j]).ok ==> step(s, us[i]).ok
  }

  lemma RemovesSucceedingIff<S(!new)>(step: (S, Id) -> Attempt<S>, keys: S -> set<Id>, s: S, us: seq<Id>)
    requires Independent(step) && Removes(step, keys) && Distinct(us) && Elements(us) <= keys(s)
    ensures keys(Run(step, s, us).db) == keys(s) - Succeeding(step, s, us) <==> SuccessesFirst(step, s, us)
  {
    RunRemoves(step, keys, s, us);
    var n := Leading(step, s, us);
    var removed := Elements(us[..n]);
    assert removed <= Succeeding(step, s, us) <= keys(s) by {
      assert Succeeding(step, s, us) <= Elements(us);
    }
    if keys(s) - removed == keys(s) - Succeeding(step, s, us) {
      forall i, j | 0 <= i < j < |us| && step(s, us[j]).ok ensures step(s, us[i]).ok {
        assert us[j] in Succeeding(step, s, us);
        assert us[j] in removed;
      }
    } else {
      var u :| u in Succeeding(step, s, us) && u !in removed;
      forall k | 0 <= k < n ensures us[k] in removed {
        assert us[..n][k] == us[k];
      }
      assert n < IndexOf(us, u);
    }
  }

  /** A run ends with the first key whose step would have failed at its start. */
  lemma RunStops<S(!new)>(step: (S, Id) -> Attempt<S>, s: S, us: seq<Id>, k: nat)
    requires Independent(step) && Distinct(us)
    requires k < |us| && !step(s, us[k]).ok && forall i :: 0 <= i < k ==> step(s, us[i]).ok
    ensures Run(step, s, us) == Summary(step(After(step, s, us[..k]), us[k]).db, None)
    ensures Run(step, s, us[..k]) == Summary(After(step, s, us[..k]), Some(k))
    ensures Leading(step, s, us) == k
  {
    var before := us[..k];
    RunCounts(step, s, before);
    assert Leading(step, s, before) == k;
    RunTriesAll(step, s, before);
    RunIsLocal(step, s, before, us[k]);
    assert us == before + us[k..];
    RunsCompose(step, s, before, us[k..]);
  }

  /** After a run that failed, the next one over the keys left fails at once, if failing a second time changes
      nothing. */
  lemma NextRunIsStuck<S(!new)>(step: (S, Id) -> Attempt<S>, s: S, us: seq<Id>)
    requires Independent(step) && Distinct(us) && Leading(step, s, us) < |us|
    requires forall t, u :: !step(t, u).ok ==> step(step(t, u).db, u) == Attempt(step(t, u).db, false)
    ensures Run(step, Run(step, s, us).db, us[Leading(step, s, us)..]) == Run(step, s, us)
  {
    var k := Leading(step, s, us);
    RunStops(step, s, us, k);
    RunIsLocal(step, s, us[..k], us[k]);
  }

  // ---------- The order of the steps ----------

  lemma {:induction false} MoveToFront<S(!new)>(
    step: (S, Id) -> Attempt<S>, s: S, before: seq<Id>, u: Id, after: seq<Id>)
    requires Commuting(step)
    ensures After(step, s, before + [u] + after) == After(step, step(s, u).db, before + after)
    decreases |before|
  {
    if before == [] {
      assert before + [u] + after == [u] + after && before + after == after;
    } else {
      assert (before + [u] + after)[1..] == before[1..] + [u] + after;
      assert (before + after)[1..] == before[1..] + after;
      MoveToFront(step, step(s, before[0]).db, before[1..], u, after);
    }
  }

  lemma Cancel(a: multiset<Id>, b: multiset<Id>, c: multiset<Id>, x: Id)
    ensures multiset{x} + a == b + multiset{x} + c ==> a == b + c
  {
    if multiset{x} + a == b + multiset{x} + c {
      assert a == multiset{x} + a - multiset{x};
      assert b + c == b + multiset{x} + c - multiset{x};
    }
  }

  lemma OccursIn(us: seq<Id>, vs: seq<Id>) returns (k: nat)
    requires us != [] && Permutes(us, vs)
    ensures k < |vs| && vs[k] == us[0]
    ensures vs == vs[..k] + [vs[k]] + vs[k + 1..]
    ensures Permutes(us[1..], vs[..k] + vs[k + 1..])
  {
    assert us == [us[0]] + us[1..];
    assert us[0] in multiset(vs);
    k :| 0 <= k < |vs| && vs[k] == us[0];
    assert vs == vs[..k] + [vs[k]] + vs[k + 1..];
    Cancel(multiset(us[1..]), multiset(vs[..k]), multiset(vs[k + 1..]), us[0]);
  }

  /** With failures passed over, steps that commute lead to the same state in any order. */
  lemma {:induction false} AnyOrder<S(!new)>(step: (S, Id) -> Attempt<S>, s: S, us: seq<Id>, vs: seq<Id>)
    requires Commuting(step) && Permutes(us, vs)
    ensures After(step, s, us) == After(step, s, vs)
    decreases |us|
  {
    if us == [] {
      assert |vs| == |multiset(vs)| == 0;
    } else {
      var k := OccursIn(us, vs);
      MoveToFront(step, s, vs[..k], us[0], vs[k + 1..]);
      AnyOrder(step, step(s, us[0]).db, us[1..], vs[..k] + vs[k + 1..]);
    }
  }

  lemma SameElements(us: seq<Id>, vs: seq<Id>)
    requires Permutes(us, vs)
    ensures Elements(us) == Elements(vs) && |us| == |vs|
  {
    assert |multiset(us)| == |multiset(vs)|;
    forall u ensures u in us <==> u in vs {
      assert u in us <==> u in multiset(us);
      assert u in vs <==> u in multiset(vs);
    }
  }

  lemma Twice(us: seq<Id>, i: nat, j: nat)
    requires i < j < |us| && us[i] == us[j]
    ensures multiset(us)[us[i]] >= 2
  {
    assert us == us[..j] + [us[j]] + us[j + 1..];
    assert us[i] in us[..j];
  }

  lemma {:induction false} Once(us: seq<Id>, u: Id)
    requires Distinct(us)
    ensures multiset(us)[u] <= 1
  {
    if us != [] {
      assert us == [us[0]] + us[1..];
      Once(us[1..], u);
      assert us[0] !in us[1..];
    }
  }

  lemma PermutedDistinct(us: seq<Id>, vs: seq<Id>)
    requires Distinct(us) && Permutes(us, vs)
    ensures Distinct(vs)
  {
    forall i, j | 0 <= i < j < |vs| ensures vs[i] != vs[j] {
      Once(us, vs[i]);
      if vs[i] == vs[j] {
        Twice(vs, i, j);
        assert false;
      }
    }
  }

  /** Whether a run completes does not depend on the order, nor does what a completed run comes to. */
  lemma CompletedInAnyOrder<S(!new)>(step: (S, Id) -> Attempt<S>, s: S, us: seq<Id>, vs: seq<Id>)
    requires Independent(step) && Commuting(step) && Distinct(us) && Permutes(us, vs)
    ensures Run(step, s, us).count.Some? <==> Run(step, s, vs).count.Some?
    ensures Run(step, s, us).count.Some? ==> Run(step, s, us) == Run(step, s, vs)
  {
    PermutedDistinct(us, vs);
    SameElements(us, vs);
    assert forall i :: 0 <= i < |us| ==> us[i] in Elements(vs);
    assert forall i :: 0 <= i < |vs| ==> vs[i] in Elements(us);
    RunCounts(step, s, us);
    RunCounts(step, s, vs);
    if Run(step, s, us).count.Some? {
      RunTriesAll(step, s, us);
      RunTriesAll(step, s, vs);
      AnyOrder(step, s, us, vs);
    }
  }

  /** The keys with the k-th first. */
  function First(us: seq<Id>, k: nat): (vs: seq<Id>)
    requires k < |us|
    ensures Permutes(us, vs) && vs != [] && vs[0] == us[k]
  {
    assert us == us[..k] + [us[k]] + us[k + 1..];
    [us[k]] + us[..k] + us[k + 1..]
  }

  /** A key that is tried first is removed, or nothing is. */
  lemma FirstIsDecisive<S(!new)>(step: (S, Id) -> Attempt<S>, keys: S -> set<Id>, s: S, us: seq<Id>)
    requires Independent(step) && Removes(step, keys) && Distinct(us) && us != []
    ensures if step(s, us[0]).ok then us[0] !in keys(Run(step, s, us).db) else keys(Run(step, s, us).db) == keys(s)
  {
    RunRemoves(step, keys, s, us);
    if step(s, us[0]).ok {
      assert us[..Leading(step, s, us)][0] == us[0];
    }
  }

  /** All of the steps would succeed, or none. */
  ghost predicate Alike<S>(step: (S, Id) -> Attempt<S>, s: S, us: seq<Id>) {
    forall u, v :: u in us && v in us ==> step(s, u).ok == step(s, v).ok
  }

  lemma AlikeRemoves<S(!new)>(step: (S, Id) -> Attempt<S>, keys: S -> set<Id>, s: S, us: seq<Id>, u: Id)
    requires Independent(step) && Removes(step, keys) && Distinct(us) && Alike(step, s, us) && u in us
    ensures keys(Run(step, s, us).db) == if step(s, u).ok then keys(s) - Elements(us) else keys(s)
  {
    RunRemoves(step, keys, s, us);
    assert us[..|us|] == us;
  }

  /** Some order of a run leaves other keys than this one. */
  ghost predicate DependsOnOrder<S(!new)>(step: (S, Id) -> Attempt<S>, keys: S -> set<Id>, s: S, us: seq<Id>) {
    exists vs :: Permutes(us, vs) && keys(Run(step, s, vs).db) != keys(Run(step, s, us).db)
  }

  /** Which keys are left depends on the order exactly when some steps would succeed and some would fail. */
  lemma DependsOnOrderIff<S(!new)>(step: (S, Id) -> Attempt<S>, keys: S -> set<Id>, s: S, us: seq<Id>)
    requires Independent(step) && Removes(step, keys) && Distinct(us) && Elements(us) <= keys(s)
    ensures DependsOnOrder(step, keys, s, us) <==> !Alike(step, s, us)
  {
    if Alike(step, s, us) {
      forall vs | Permutes(us, vs) ensures keys(Run(step, s, vs).db) == keys(Run(step, s, us).db) {
        SameElements(us, vs);
        if us != [] {
          var u := us[0];
          assert u in Elements(vs);
          assert forall v :: v in vs ==> v in Elements(us);
          PermutedDistinct(us, vs);
          AlikeRemoves(step, keys, s, us, u);
          AlikeRemoves(step, keys, s, vs, u);
        } else {
          assert vs == [];
        }
      }
    } else {
      var u, v :| u in us && v in us && step(s, u).ok && !step(s, v).ok;
      var k := if step(s, us[0]).ok then IndexOf(us, v) else IndexOf(us, u);
      PermutedDistinct(us, First(us, k));
      FirstIsDecisive(step, keys, s, us);
      FirstIsDecisive(step, keys, s, First(us, k));
      assert us[0] in keys(s) && u in keys(s) by {
        assert us[0] in Elements(us) && u in Elements(us);
      }
    }
  }

  lemma EitherOrder<S(!new)>(step: (S, Id) -> Attempt<S>, keys: S -> set<Id>, s: S, u: Id, v: Id)
    requires Independent(step) && Removes(step, keys) && u != v && !step(s, u).ok && step(s, v).ok
    ensures Run(step, s, [u, v]).count.None? && keys(Run(step, s, [u, v]).db) == keys(s)
    ensures Run(step, s, [v, u]).count.None? && keys(Run(step, s, [v, u]).db) == keys(s) - {v}
  {
  }

  function IndexOf(us: seq<Id>, u: Id): (k: nat)
    requires u in us
    ensures k < |us| && us[k] == u
  {
    if us[0] == u then 0 else 1 + IndexOf(us[1..], u)
  }
}
