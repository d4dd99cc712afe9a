/**
 The pool-rotation protocol as a state machine over values: persisting a tuple, sealing the active
 pool, and the background flusher's steps, in any order the engine allows. Every reachable state
 survives a crash.
 */
module PoolLog {
  import opened Recovery

  function Reversed<T>(s: seq<T>): seq<T> {
    seq(|s|, i requires 0 <= i < |s| => s[|s| - 1 - i])
  }

  function Flatten(epochs: seq<seq<Tuple>>): seq<Tuple> {
    if epochs == [] then [] else Flatten(epochs[..|epochs| - 1]) + epochs[|epochs| - 1]
  }

  /** Walking a list of distinct keys from the head instead of from the tail replays to the same table. */
  lemma WalkOrderIrrelevant(base: seq<Tuple>, e: seq<Tuple>)
    requires DistinctKeys(e)
    ensures DistinctKeys(Reversed(e)) && Replay(base + Reversed(e)) == Replay(base + e)
  {
    var r := Reversed(e);
    forall t | t in e ensures t in r {
      var i :| 0 <= i < |e| && e[i] == t;
      assert r[|e| - 1 - i] == t;
    }
    OrderIrrelevant(e, r);
    ReplayConcat(base, r);
    ReplayConcat(base, e);
  }

  lemma MergeUpdate(m: Table, a: Table, t: Tuple)
    ensures m + a[t.key := t] == (m + a)[t.key := t]
  {
  }

  /** Position of the tuple with key k, or -1. */
  function IndexOf(log: seq<Tuple>, k: Key): (i: int)
    ensures -1 <= i < |log|
    ensures i >= 0 ==> log[i].key == k
    ensures i < 0 ==> forall j :: 0 <= j < |log| ==> log[j].key != k
  {
    if log == [] then -1
    else if log[|log| - 1].key == k then |log| - 1
    else IndexOf(log[..|log| - 1], k)
  }

  /** A pool's tuples after persisting t: one per key, in the order the keys first came. */
  function Update(pool: seq<Tuple>, t: Tuple): seq<Tuple> {
    var i := IndexOf(pool, t.key);
    if i < 0 then pool + [t] else pool[i := t]
  }

  lemma UpdateReplays(pool: seq<Tuple>, t: Tuple)
    requires DistinctKeys(pool)
    ensures DistinctKeys(Update(pool, t)) && Replay(Update(pool, t)) == Replay(pool)[t.key := t]
  {
    var i := IndexOf(pool, t.key);
    if i < 0 {
    } else {
      ReplaceInPlace(pool, i, t);
    }
  }

  datatype Op = Put(t: Tuple) | Seal | Tick

  /** The background flusher: at rest, or at work on a sealed pool whose file is not yet unlinked. */
  datatype Flush =
    | Idle
    | Busy(sealed: seq<Tuple>,  // that pool, in the order in which the flusher reads it
           cursor: nat,         // how much of it has been copied
           inSync: bool)        // the copy has been synced
  {
    function Sealed(): seq<Tuple> {
      if Idle? then [] else sealed
    }

    function Copied(): seq<Tuple> {
      if Idle? || cursor > |sealed| then [] else sealed[..cursor]
    }
  }

  datatype State = State(
    disk: seq<Tuple>,
    synced: nat,               // how much of the disk log survives a crash for sure
    flush: Flush,
    active: seq<Tuple>,        // the active pool, oldest node first
    epochs: seq<seq<Tuple>>,   // the pools flushed so far, in the order they were sealed
    history: seq<Tuple>)       // every tuple persisted so far
  {
    function DoPut(t: Tuple): State {
      this.(active := Update(active, t), history := history + [t])
    }

    /** Sealing waits for the flush in flight, so it cannot happen during one. */
    function DoSeal(): State {
      if flush.Busy? then this else this.(flush := Busy(Reversed(active), 0, false), active := [])
    }

    /** The flusher copies one tuple, or syncs the log, or unlinks the pool. */
    function DoTick(): State {
      match flush
      case Idle => this
      case Busy(sealed, cursor, inSync) =>
        if cursor < |sealed| then this.(disk := disk + [sealed[cursor]], flush := Busy(sealed, cursor + 1, inSync))
        else if !inSync then this.(synced := |disk|, flush := Busy(sealed, cursor, true))
        else this.(flush := Idle, epochs := epochs + [sealed])
    }

    function Do(op: Op): State {
      match op
      case Put(t) => DoPut(t)
      case Seal => DoSeal()
      case Tick => DoTick()
    }

    /** The disk log is whole epochs in sealing order and the copied part of the sealed pool, keys distinct in each. */
    ghost predicate Ordered() {
      && (flush.Busy? ==> flush.cursor <= |flush.sealed| && (flush.inSync ==> flush.cursor == |flush.sealed|))
      && disk == Flatten(epochs) + flush.Copied()
      && synced == (if flush.Busy? && flush.inSync then |disk| else |Flatten(epochs)|)
      && DistinctKeys(flush.Sealed()) && DistinctKeys(active)
      && (forall e :: e in epochs ==> DistinctKeys(e))
    }

    ghost predicate Complete() {
      Replay(Flatten(epochs) + flush.Sealed() + active) == Replay(history)
    }

    /** What recovery finds after a crash that leaves `keep` tuples of the disk log, reading each pool from its head. */
    function Recovered(keep: nat): Table
      requires keep <= |disk|
    {
      Replay(disk[..keep] + flush.Sealed() + Reversed(active))
    }

    /** Whatever unsynced part of the disk log is lost, nothing persisted is. */
    lemma CrashSafe(keep: nat)
      requires Ordered() && Complete() && synced <= keep <= |disk|
      ensures Recovered(keep) == Replay(history)
    {
      var base, sealed := Flatten(epochs), flush.Sealed();
      assert (base + sealed)[..keep] == disk[..keep];
      CrashHarmless(base, sealed, active, keep);
      WalkOrderIrrelevant(disk[..keep] + sealed, active);
    }

    lemma PutKeeps(t: Tuple)
      requires Ordered() && Complete()
      ensures DoPut(t).Ordered() && DoPut(t).Complete()
    {
      var base, active' := Flatten(epochs) + flush.Sealed(), Update(active, t);
      UpdateReplays(active, t);
      ReplayConcat(base, active);
      ReplayConcat(base, active');
      MergeUpdate(Replay(base), Replay(active), t);
    }

    lemma SealKeeps()
      requires Ordered() && Complete()
      ensures DoSeal().Ordered() && DoSeal().Complete()
    {
      if flush.Idle? {
        var base, s' := Flatten(epochs), DoSeal();
        WalkOrderIrrelevant(base, active);
        assert disk == base by { assert base + [] == base; }
        assert s'.flush.Copied() == [] && s'.disk == base + s'.flush.Copied();
        assert base + [] + active == base + active;
        assert base + Reversed(active) + [] == base + Reversed(active);
      }
    }

    /** A pool that is on disk as a whole can go. */
    lemma UnlinkKeeps()
      requires Ordered() && Complete() && flush.Busy? && flush.inSync
      ensures DoTick().Ordered() && DoTick().Complete()
    {
      assert flush.sealed[..flush.cursor] == flush.sealed;
      assert Flatten(DoTick().epochs) + [] == Flatten(epochs) + flush.sealed;
    }

    lemma TickKeeps()
      requires Ordered() && Complete()
      ensures DoTick().Ordered() && DoTick().Complete()
    {
      if flush.Busy? {
        if flush.cursor < |flush.sealed| {
        } else if flush.inSync {
          UnlinkKeeps();
        }
      }
    }

    lemma DoKeeps(op: Op)
      requires Ordered() && Complete()
      ensures Do(op).Ordered() && Do(op).Complete()
      ensures Do(op).history == history + (if op.Put? then [op.t] else [])
    {
      match op
      case Put(t) => PutKeeps(t);
      case Seal => SealKeeps();
      case Tick => TickKeeps();
    }
  }

  const FRESH := State([], 0, Idle, [], [], [])

  function After(ops: seq<Op>): State {
    if ops == [] then FRESH else After(ops[..|ops| - 1]).Do(ops[|ops| - 1])
  }

  function Persisted(ops: seq<Op>): seq<Tuple> {
    if ops == [] then []
    else Persisted(ops[..|ops| - 1]) + (var op := ops[|ops| - 1]; if op.Put? then [op.t] else [])
  }

  /**
   After any run, with any part of the unsynced disk log lost, replaying the disk log, the sealed pool
   and the active pool gives the last tuple persisted for each key; and the disk log is a
   concatenation of whole pools, each key at most once in each.
   */
  lemma {:induction false} EveryRunIsSafe(ops: seq<Op>)
    ensures
      var s := After(ops);
      && s.history == Persisted(ops) && s.Ordered() && s.Complete()
      && forall keep: nat :: s.synced <= keep <= |s.disk| ==> s.Recovered(keep) == Replay(Persisted(ops))
  {
    if ops == [] {
    } else {
      var front, op := ops[..|ops| - 1], ops[|ops| - 1];
      EveryRunIsSafe(front);
      After(front).DoKeeps(op);
    }
    forall keep: nat | After(ops).synced <= keep <= |After(ops).disk|
      ensures After(ops).Recovered(keep) == Replay(After(ops).history)
    {
      After(ops).CrashSafe(keep);
    }
  }
}
