/**
 The pool-rotation engine in place: a linked list in the active pool, a lookup table into it, and a
 background flusher. Each method is a step, or a series of steps, of the protocol in PoolLog.
 */
module PoolEngine {
  import opened Recovery
  import opened PoolLog
  import opened PersistentList

  ghost predicate Finds(lookup: map<Key, ListNode>, place: map<Key, nat>, spine: seq<ListNode>, k: Key) {
    && (k in lookup <==> k in place)
    && (k in lookup ==> place[k] < |spine| && lookup[k] == spine[place[k]])
  }

  lemma FindsMore(lookup: map<Key, ListNode>, place: map<Key, nat>, spine: seq<ListNode>, key: Key, node: ListNode)
    requires forall k {:trigger Finds(lookup, place, spine, k)} :: Finds(lookup, place, spine, k)
    ensures
      var lookup', place', spine' := lookup[key := node], place[key := |spine|], spine + [node];
      forall k {:trigger Finds(lookup', place', spine', k)} :: Finds(lookup', place', spine', k)
  {
    var lookup', place', spine' := lookup[key := node], place[key := |spine|], spine + [node];
    forall k ensures Finds(lookup', place', spine', k) {
      assert Finds(lookup, place, spine, k);
    }
  }

  class Engine {
    var pool: List
    var lookup: map<Key, ListNode>
    var poolCounter: nat
    var disk: seq<Tuple>
    var synced: nat
    var sealed: List?          // the pool handed to the flusher, until it is unlinked
    var sealedNumber: nat
    var current: ListNode?     // the node the flusher writes next
    var inSync: bool           // the copy has been synced
    ghost var cursor: nat      // how many nodes of the sealed pool have been written
    ghost var place: map<Key, nat>     // where in the active pool the node of a key is
    ghost var epochs: seq<seq<Tuple>>
    ghost var history: seq<Tuple>

    ghost function Flushing(): Flush
      reads this`sealed, this`cursor, this`inSync, sealed
    {
      if sealed == null then Idle else Busy(Reversed(sealed.contents), cursor, inSync)
    }

    ghost function View(): State
      reads this, pool, sealed
    {
      State(disk, synced, Flushing(), pool.contents, epochs, history)
    }

    /** The lookup table holds, for each key of the active pool, the one node that carries it. */
    ghost predicate Indexed()
      reads this`pool, this`lookup, this`place, pool
    {
      && |pool.spine| == |pool.contents|
      && Places(pool.contents, place)
      && forall k {:trigger Finds(lookup, place, pool.spine, k)} :: Finds(lookup, place, pool.spine, k)
    }

    /** The flusher follows the links of a list that the writer cannot reach. */
    ghost predicate Detached()
      reads this`pool, this`sealed, this`sealedNumber, this`poolCounter, this`current, this`cursor
      reads pool, sealed, if sealed == null then [] else sealed.spine
    {
      sealed != null ==>
        && sealed != pool && sealed.Valid() && sealedNumber < poolCounter
        && cursor <= |sealed.spine| && current == NodeAt(sealed.spine, |sealed.spine| - 1 - cursor)
        && forall n :: n in sealed.spine ==> n !in pool.spine
    }

    ghost predicate Valid()
      reads this, pool, pool.spine, sealed, if sealed == null then [] else sealed.spine
    {
      pool.Valid() && Indexed() && Detached()
    }

    constructor ()
      ensures Valid() && View() == FRESH && fresh(pool) && pool.spine == []
    {
      pool := new List();
      lookup, place, poolCounter, disk, synced := map[], map[], 0, [], 0;
      sealed, sealedNumber, current, inSync, cursor := null, 0, null, false, 0;
      epochs, history := [], [];
    }

    /** One step of the background flusher. The pool it unlinks is never the active one. */
    method FlusherStep()
      requires Valid()
      modifies this`disk, this`synced, this`sealed, this`current, this`inSync, this`cursor, this`epochs
      ensures Valid() && View() == old(View()).DoTick()
      ensures sealed == old(sealed) || (sealed == null && sealedNumber != poolCounter)
    {
      if sealed == null {
        return;
      }
      if current != null {
        assert sealed.Placed(sealed.spine[|sealed.spine| - 1 - cursor], |sealed.spine| - 1 - cursor);
        disk := disk + [current.obj];
        current := current.next;
        cursor := cursor + 1;
      } else if !inSync {
        synced := |disk|;
        inSync := true;
      } else {
        epochs := epochs + [Reversed(sealed.contents)];
        sealed := null;
      }
    }

    /** Waits for the flush in flight, if there is one. */
    method Await() returns (ghost ticks: nat)
      requires Valid()
      modifies this`disk, this`synced, this`sealed, this`current, this`inSync, this`cursor, this`epochs
      ensures Valid() && sealed == null && View() == Ticked(old(View()), ticks)
    {
      ticks := 0;
      while sealed != null
        invariant Valid() && View() == Ticked(old(View()), ticks)
        decreases sealed != null, if sealed != null then |sealed.spine| - cursor else 0, !inSync
      {
        FlusherStep();
        ticks := ticks + 1;
      }
    }

    /** Hands the active pool to the flusher and starts a fresh one with the next number. */
    method Seal()
      requires Valid() && sealed == null
      modifies this
      ensures Valid() && View() == old(View()).DoSeal()
      ensures fresh(pool) && pool.spine == [] && lookup == map[] && poolCounter == old(poolCounter) + 1
    {
      var empty := new List();
      HandOver(empty);
    }

    method HandOver(empty: List)
      requires pool.Valid() && sealed == null
      requires empty.Valid() && empty != pool && empty.spine == [] && empty.contents == []
      modifies this
      ensures sealed == old(pool) && pool == empty && lookup == map[] && place == map[]
      ensures poolCounter == old(poolCounter) + 1
      ensures View() == old(View()).DoSeal() && Detached()
    {
      ghost var active := pool.contents;
      assert NodeAt(pool.spine, |pool.spine| - 1) == pool.head;
      sealed, current, inSync, cursor := pool, pool.head, false, 0;
      sealedNumber, poolCounter := poolCounter, poolCounter + 1;
      pool, lookup, place := empty, map[], map[];
      assert sealed.contents == active && pool.contents == [];
    }

    method Overwrite(value: Tuple)
      requires Valid() && value.key in lookup
      modifies pool, pool.spine
      ensures Valid() && pool.contents == Update(old(pool.contents), value) && pool.spine == old(pool.spine)
    {
      assert Finds(lookup, place, pool.spine, value.key);
      var node := lookup[value.key];
      ghost var i := place[value.key];
      assert pool.Placed(pool.spine[i], i) && node in pool.spine;
      pool.Replace(node, value, i);
      assert sealed != null ==> sealed.Valid();
    }

    /** The new node goes to the active pool; the sealed one does not notice. */
    method NewHead(value: Tuple) returns (node: ListNode)
      requires pool.Valid() && Detached()
      modifies pool, pool.spine
      ensures pool.Valid() && Detached() && fresh(node)
      ensures pool.spine == old(pool.spine) + [node] && pool.contents == old(pool.contents) + [value]
      ensures View() == old(View()).(active := pool.contents)
    {
      ghost var older, was := if sealed == null then [] else sealed.spine, pool.spine;
      node := pool.Insert(value);
      if sealed != null {
        assert sealed.spine == older;
        assert forall i :: 0 <= i < |older| ==> older[i] !in was;
        assert forall i :: 0 <= i < |older| ==> unchanged(older[i]);
        assert sealed.Valid();
      }
    }

    method InsertNew(value: Tuple)
      requires Valid() && value.key !in lookup
      modifies this`lookup, this`place, pool, pool.spine
      ensures Valid() && pool.contents == Update(old(pool.contents), value)
      ensures old(pool.spine) <= pool.spine && fresh(pool.spine[|old(pool.spine)|..])
    {
      assert Finds(lookup, place, pool.spine, value.key);
      ghost var n := |pool.contents|;
      var node := NewHead(value);
      FindsMore(lookup, place, old(pool.spine), value.key, node);
      lookup, place := lookup[value.key := node], place[value.key := n];
    }

    /** The transaction: a new head node for a new key, or an overwritten tuple. */
    method Put(value: Tuple)
      requires Valid()
      modifies this`lookup, this`place, this`history, pool, pool.spine
      ensures Valid() && View() == old(View()).DoPut(value)
      ensures old(pool.spine) <= pool.spine && fresh(pool.spine[|old(pool.spine)|..])
    {
      if value.key in lookup {
        Overwrite(value);
      } else {
        InsertNew(value);
      }
      history := history + [value];
    }

    /** The transaction ran out of space: waits for the flush in flight, seals the pool and starts the next. */
    method Rotate() returns (ghost steps: seq<Op>)
      requires Valid()
      modifies this
      ensures Valid() && View() == Steps(old(View()), steps) && Persisted(steps) == []
      ensures fresh(pool) && pool.spine == [] && lookup == map[] && poolCounter == old(poolCounter) + 1
    {
      ghost var ticks := Await();
      Seal();
      steps := Ticks(ticks) + [PoolLog.Seal];
      RotationSteps(old(View()), ticks);
    }

    /**
     Persists a tuple. Whether the transaction runs out of space may depend on how many nodes the pool has
     and on the tuple; since a fresh pool has room for one, the retry after a rotation is the last.
     */
    method PersistRaw(value: Tuple, full: (nat, Tuple) -> bool) returns (ghost steps: seq<Op>)
      requires Valid() && !full(0, value)
      modifies this, pool, pool.spine
      ensures Valid() && View() == Steps(old(View()), steps) && Persisted(steps) == [value]
      ensures poolCounter == old(poolCounter) + (if full(old(|lookup|), value) then 1 else 0)
      ensures if full(old(|lookup|), value) then fresh(pool) && fresh(pool.spine)
              else pool == old(pool) && old(pool.spine) <= pool.spine && fresh(pool.spine[|old(pool.spine)|..])
      decreases |lookup|
    {
      if full(|lookup|, value) {
        ghost var turn := Rotate();
        ghost var rest := PersistRaw(value, full);
        assert pool.spine[0..] == pool.spine;
        steps := turn + rest;
        StepsConcat(old(View()), turn, rest);
      } else {
        Put(value);
        steps := [PoolLog.Put(value)];
      }
    }
  }

  ghost function Ticked(s: State, n: nat): State {
    if n == 0 then s else Ticked(s, n - 1).DoTick()
  }

  ghost function Ticks(n: nat): seq<Op> {
    seq(n, _ => Tick)
  }

  /** The state a run of the protocol leads to from s. */
  ghost function Steps(s: State, ops: seq<Op>): State {
    if ops == [] then s else Steps(s, ops[..|ops| - 1]).Do(ops[|ops| - 1])
  }

  lemma {:induction false} StepsConcat(s: State, a: seq<Op>, b: seq<Op>)
    ensures Steps(s, a + b) == Steps(Steps(s, a), b) && Persisted(a + b) == Persisted(a) + Persisted(b)
    decreases |b|
  {
    if b == [] {
      assert a + b == a;
    } else {
      assert (a + b)[..|a + b| - 1] == a + b[..|b| - 1];
      StepsConcat(s, a, b[..|b| - 1]);
    }
  }

  lemma {:induction false} TicksAreSteps(s: State, n: nat)
    ensures Steps(s, Ticks(n)) == Ticked(s, n) && Persisted(Ticks(n)) == []
  {
    if n == 0 {
    } else {
      assert Ticks(n)[..n - 1] == Ticks(n - 1);
      TicksAreSteps(s, n - 1);
    }
  }

  lemma RotationSteps(s: State, ticks: nat)
    ensures Steps(s, Ticks(ticks) + [PoolLog.Seal]) == Ticked(s, ticks).DoSeal()
    ensures Persisted(Ticks(ticks) + [PoolLog.Seal]) == []
  {
    StepsConcat(s, Ticks(ticks), [PoolLog.Seal]);
    TicksAreSteps(s, ticks);
  }

  /**
   A request, when its transaction runs out of space, how often it fails for other reasons before that,
   and how far the flusher gets before the next request.
   */
  datatype Load = Load(t: Tuple, setbacks: nat, full: (nat, Tuple) -> bool, ticks: nat)

  predicate Feasible(loads: seq<Load>) {
    forall i :: 0 <= i < |loads| ==> !loads[i].full(0, loads[i].t)
  }

  function Tuples(loads: seq<Load>): seq<Tuple> {
    if loads == [] then [] else Tuples(loads[..|loads| - 1]) + [loads[|loads| - 1].t]
  }

  /** One tuple per request, in order. */
  lemma {:induction false} TuplesExactly(loads: seq<Load>, i: nat)
    requires i < |loads|
    ensures |Tuples(loads)| == |loads| && Tuples(loads)[i] == loads[i].t
  {
    var n := |loads| - 1;
    if n == 0 {
      assert loads[..n] == [];
    } else {
      TuplesExactly(loads[..n], if i < n then i else 0);
    }
  }

  lemma {:induction false} FromFresh(ops: seq<Op>)
    ensures Steps(FRESH, ops) == After(ops)
  {
    if ops == [] {
    } else {
      FromFresh(ops[..|ops| - 1]);
    }
  }

  /** Lets the flusher take n steps. */
  method Schedule(e: Engine, n: nat, ghost ops: seq<Op>) returns (ghost ops': seq<Op>)
    requires e.Valid() && e.View() == Steps(FRESH, ops)
    modifies e`disk, e`synced, e`sealed, e`current, e`inSync, e`cursor, e`epochs
    ensures e.Valid() && e.View() == Steps(FRESH, ops') && Persisted(ops') == Persisted(ops)
  {
    ops' := ops;
    for j := 0 to n
      invariant e.Valid() && e.View() == Steps(FRESH, ops') && Persisted(ops') == Persisted(ops)
    {
      e.FlusherStep();
      StepsConcat(FRESH, ops', [Tick]);
      ops' := ops' + [Tick];
    }
  }

  /** Failed attempts: each rotates the pools, and the flusher goes on for a while. */
  method Fail(e: Engine, ticks: seq<nat>, ghost ops: seq<Op>) returns (ghost ops': seq<Op>)
    requires e.Valid() && e.View() == Steps(FRESH, ops)
    modifies e
    ensures e.Valid() && e.View() == Steps(FRESH, ops') && Persisted(ops') == Persisted(ops)
    ensures if ticks == [] then e.pool == old(e.pool) else fresh(e.pool) && e.pool.spine == []
  {
    ops' := ops;
    for i := 0 to |ticks|
      invariant e.Valid() && e.View() == Steps(FRESH, ops') && Persisted(ops') == Persisted(ops)
      invariant if i == 0 then e.pool == old(e.pool) else fresh(e.pool) && e.pool.spine == []
    {
      ghost var turn := e.Rotate();
      StepsConcat(FRESH, ops', turn);
      ops' := Schedule(e, ticks[i], ops' + turn);
    }
  }

  /** The machine goes down: up to `lost` tuples of the disk log are gone unless they were synced. */
  method Crash(e: Engine, lost: nat, ghost ops: seq<Op>) returns (recovered: Table)
    requires e.Valid() && e.View() == Steps(FRESH, ops)
    ensures recovered == Replay(Persisted(ops))
  {
    FromFresh(ops);
    EveryRunIsSafe(ops);
    var keep := Kept(|e.disk|, e.synced, lost);
    var walk := e.pool.Forward();
    var older := [];
    if e.sealed != null {
      older := e.sealed.Forward();
    }
    recovered := Replay(e.disk[..keep] + older + walk);
    assert recovered == e.View().Recovered(keep);
  }

  /** One request. */
  method Request(e: Engine, load: Load, ghost ops: seq<Op>) returns (ghost ops': seq<Op>)
    requires e.Valid() && e.View() == Steps(FRESH, ops) && !load.full(0, load.t)
    modifies e, e.pool, e.pool.spine
    ensures e.Valid() && e.View() == Steps(FRESH, ops') && Persisted(ops') == Persisted(ops) + [load.t]
    ensures if e.pool == old(e.pool)
            then old(e.pool.spine) <= e.pool.spine && fresh(e.pool.spine[|old(e.pool.spine)|..])
            else fresh(e.pool) && fresh(e.pool.spine)
  {
    ops' := Fail(e, seq(load.setbacks, _ => 0), ops);
    ghost var steps := e.PersistRaw(load.t, load.full);
    assert load.setbacks > 0 ==> e.pool.spine[0..] == e.pool.spine;
    StepsConcat(FRESH, ops', steps);
    ops' := Schedule(e, load.ticks, ops' + steps);
  }

  /** Serves a list of requests, the flusher working in between. */
  method Serve(e: Engine, loads: seq<Load>) returns (ghost ops: seq<Op>)
    requires e.Valid() && e.View() == FRESH && e.pool.spine == [] && Feasible(loads)
    modifies e, e.pool
    ensures e.Valid() && e.View() == Steps(FRESH, ops) && Persisted(ops) == Tuples(loads)
    ensures (e.pool == old(e.pool) || fresh(e.pool)) && fresh(e.pool.spine)
  {
    ops := [];
    for i := 0 to |loads|
      invariant e.Valid() && (e.pool == old(e.pool) || fresh(e.pool)) && fresh(e.pool.spine)
      invariant e.View() == Steps(FRESH, ops) && Persisted(ops) == Tuples(loads[..i])
    {
      assert loads[..i + 1][..i] == loads[..i];
      ghost var before := e.pool.spine;
      ops := Request(e, loads[i], ops);
      assert before <= e.pool.spine ==> e.pool.spine == before + e.pool.spine[|before|..];
    }
    assert loads[..|loads|] == loads;
  }

  /**
   A run of the engine that ends in a crash recovers the last tuple persisted for each key. The crash
   may hit in the middle of a further request: after any number of its rotations, at any step of the flusher.
   */
  method Run(loads: seq<Load>, rotations: seq<nat>, lost: nat) returns (recovered: Table)
    requires Feasible(loads)
    ensures recovered == Replay(Tuples(loads))
  {
    var e := new Engine();
    ghost var ops := Serve(e, loads);
    ops := Fail(e, rotations, ops);
    recovered := Crash(e, lost, ops);
  }
}
