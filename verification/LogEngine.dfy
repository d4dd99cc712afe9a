/** The log engine: tuples are appended to a persistent log, which is moved to the disk log when it is full. */
module LogEngine {
  import opened Recovery

  const TUPLE_SIZE: nat := 1009  // a flag, an eight-byte key and ten fields of a hundred bytes

  class Engine {
    var log: seq<Tuple>
    var currentLength: nat
    const availableBytes: nat
    var disk: seq<Tuple>
    var synced: nat
    ghost var base: seq<Tuple>      // the disk log before the flush in progress
    ghost var history: seq<Tuple>

    /** The byte count is that of the log and fits, and what was on disk before the log is the history. */
    ghost predicate Valid()
      reads this
    {
      && currentLength == TUPLE_SIZE * |log| <= availableBytes
      && base + log == history
    }

    /** No flush is in progress: the disk log and the log are the history, in order. */
    ghost predicate Running()
      reads this
    {
      Valid() && disk == base && synced == |disk|
    }

    /** A prefix of the log has been copied. */
    ghost predicate Durable()
      reads this
    {
      Valid() && disk <= base + log && |base| <= synced <= |disk|
    }

    constructor (bytes: nat)
      ensures Running() && history == [] && availableBytes == bytes
    {
      availableBytes := bytes;
      log, currentLength, disk, synced := [], 0, [], 0;
      base, history := [], [];
    }

    /** Whatever unsynced part of the disk log a crash loses, replaying it and then the log loses nothing. */
    method Crash(lost: nat) returns (recovered: Table)
      requires Durable()
      ensures recovered == Replay(history)
    {
      var keep := Kept(|disk|, synced, lost);
      assert disk[..keep] == (base + log)[..keep];
      CrashHarmless(base, log, [], keep);
      assert (base + log)[..keep] + log + [] == disk[..keep] + log && base + log + [] == base + log;
      recovered := Replay(disk[..keep] + log);
    }

    /** Copies the log tuple by tuple, syncs the disk log and rewinds; the machine may stop after `life` steps. */
    method FlushToDisk(life: nat) returns (alive: bool)
      requires Running()
      modifies this
      ensures Durable() && history == old(history)
      ensures alive ==> Running() && log == [] && disk == old(disk + log)
      ensures alive == (life > |old(log)| + 1)
    {
      var n := 0;
      while n < |log|
        invariant 0 <= n <= |log| && n <= life && Durable() && disk == base + log[..n] && synced == |base|
        invariant log == old(log) && history == old(history) && base == old(base)
        decreases |log| - n
      {
        if n == life {
          return false;
        }
        assert log[..n + 1] == log[..n] + [log[n]];
        disk := disk + [log[n]];
        n := n + 1;
      }
      assert log[..n] == log;
      if life == n {
        return false;
      }
      synced := |disk|;
      if life == n + 1 {
        return false;
      }
      base := disk;
      log, currentLength := [], 0;
      return true;
    }

    /** Appends a tuple, flushing first when there is no room for it. */
    method UpdateOnLog(tuple: Tuple, appends: bool, life: nat) returns (status: Status)
      requires Running()
      modifies this
      ensures Durable() && (status != Crashed ==> Running())
      ensures history == old(history) + (if status == Success then [tuple] else [])
      ensures status == Crashed <==> old(currentLength) + TUPLE_SIZE > availableBytes && life <= old(|log|) + 1
      ensures status == Success ==> appends && availableBytes >= TUPLE_SIZE
      ensures status == Fail ==> !appends || availableBytes < TUPLE_SIZE
    {
      if currentLength + TUPLE_SIZE > availableBytes {
        var alive := FlushToDisk(life);
        if !alive {
          return Crashed;
        }
      }
      if !appends || TUPLE_SIZE * (|log| + 1) > availableBytes {
        return Fail;
      }
      log := log + [tuple];
      history := history + [tuple];
      currentLength := currentLength + TUPLE_SIZE;
      return Success;
    }
  }

  /** Whether the device accepts each append, and how long the machine lives if it has to flush. */
  datatype Fate = Fate(appends: bool, life: nat)

  /** Accepted appends succeed and refused ones fail; only a flush that outlasts the machine ends the run early. */
  ghost predicate Explained(bytes: nat, fates: seq<Fate>, outcome: seq<Status>) {
    && |outcome| <= |fates|
    && (|outcome| < |fates| ==> outcome != [] && outcome[|outcome| - 1] == Crashed)
    && forall i :: 0 <= i < |outcome| ==> Explains(bytes, fates[i], outcome[i], i == |outcome| - 1)
  }

  /** The same for a run that has not ended. */
  ghost predicate SoFar(bytes: nat, fates: seq<Fate>, outcome: seq<Status>) {
    |outcome| <= |fates| && forall i :: 0 <= i < |outcome| ==> Explains(bytes, fates[i], outcome[i], false)
  }

  lemma OneMore(bytes: nat, fates: seq<Fate>, outcome: seq<Status>, s: Status)
    requires SoFar(bytes, fates, outcome) && |outcome| < |fates| && Explains(bytes, fates[|outcome|], s, s == Crashed)
    ensures if s == Crashed then Explained(bytes, fates, outcome + [s]) else SoFar(bytes, fates, outcome + [s])
  {
  }

  ghost predicate Explains(bytes: nat, fate: Fate, status: Status, last: bool) {
    match status
    case Success => fate.appends && bytes >= TUPLE_SIZE
    case Fail => !fate.appends || bytes < TUPLE_SIZE
    case Crashed => last && TUPLE_SIZE * (fate.life - 1) <= bytes
  }

  /** With a device that accepts every append and a machine that outlives every flush, all appends succeed. */
  lemma NothingRefused(bytes: nat, ts: seq<Tuple>, fates: seq<Fate>, outcome: seq<Status>)
    requires |fates| == |ts| && bytes >= TUPLE_SIZE && Explained(bytes, fates, outcome)
    requires forall i :: 0 <= i < |fates| ==> fates[i].appends && TUPLE_SIZE * (fates[i].life - 1) > bytes
    ensures Succeeded(ts, outcome) == ts
  {
    assert forall i :: 0 <= i < |outcome| ==> Explains(bytes, fates[i], outcome[i], i == |outcome| - 1);
    AllSucceeded(ts, outcome);
    assert ts[..|ts|] == ts;
  }

  /** A run that ends in a crash, possibly in the middle of a flush, recovers every successful append. */
  method Run(bytes: nat, ts: seq<Tuple>, fates: seq<Fate>, lost: nat) returns (recovered: Table, outcome: seq<Status>)
    requires |fates| == |ts|
    ensures |outcome| <= |ts| && recovered == Replay(Succeeded(ts, outcome))
    ensures Explained(bytes, fates, outcome)
  {
    var e := new Engine(bytes);
    outcome := [];
    var alive := true;
    while |outcome| < |ts| && alive
      invariant |outcome| <= |ts| && fresh(e) && e.availableBytes == bytes
      invariant e.Durable() && (alive ==> e.Running()) && e.history == Succeeded(ts, outcome)
      invariant if alive then SoFar(bytes, fates, outcome) else Explained(bytes, fates, outcome)
      decreases alive, |ts| - |outcome|
    {
      var i := |outcome|;
      var s := e.UpdateOnLog(ts[i], fates[i].appends, fates[i].life);
      OneMore(bytes, fates, outcome, s);
      SucceededMore(ts, outcome, s);
      outcome := outcome + [s];
      alive := s != Crashed;
    }
    recovered := e.Crash(lost);
  }

  lemma TupleSize()
    ensures TUPLE_SIZE == 1 + 8 + 10 * 100
  {
  }
}
