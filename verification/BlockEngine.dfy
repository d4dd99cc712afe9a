/**
 The block engine: one device block per live key, found through an index and overwritten in place.
 When every block is live the blocks are copied to the disk log and all become free again.
 */
module BlockEngine {
  import opened Recovery
  import opened BlockDevice

  /** Whether the device accepts each write, and how long the machine lives if the write has to flush. */
  datatype Fate = Fate(writes: bool, life: nat)

  /** Accepted writes succeed and refused ones fail; only a flush that outlasts the machine ends the run early. */
  ghost predicate Explained(maxNumBlocks: nat, fates: seq<Fate>, outcome: seq<Status>) {
    && |outcome| <= |fates|
    && (|outcome| < |fates| ==> outcome != [] && outcome[|outcome| - 1] == Crashed)
    && forall i :: 0 <= i < |outcome| ==> Explains(maxNumBlocks, fates[i], outcome[i], i == |outcome| - 1)
  }

  /** The same for a run that has not ended. */
  ghost predicate SoFar(maxNumBlocks: nat, fates: seq<Fate>, outcome: seq<Status>) {
    |outcome| <= |fates| && forall i :: 0 <= i < |outcome| ==> Explains(maxNumBlocks, fates[i], outcome[i], false)
  }

  lemma OneMore(maxNumBlocks: nat, fates: seq<Fate>, outcome: seq<Status>, s: Status)
    requires SoFar(maxNumBlocks, fates, outcome) && |outcome| < |fates|
    requires Explains(maxNumBlocks, fates[|outcome|], s, s == Crashed)
    ensures if s == Crashed then Explained(maxNumBlocks, fates, outcome + [s])
            else SoFar(maxNumBlocks, fates, outcome + [s])
  {
  }

  ghost predicate Explains(maxNumBlocks: nat, fate: Fate, status: Status, last: bool) {
    match status
    case Success => fate.writes && maxNumBlocks > 0
    case Fail => !fate.writes || maxNumBlocks == 0
    case Crashed => last && fate.life <= maxNumBlocks + 1
  }

  /** With a device that accepts every write and a machine that outlives every flush, all updates succeed. */
  lemma NothingRefused(maxNumBlocks: nat, ts: seq<Tuple>, fates: seq<Fate>, outcome: seq<Status>)
    requires |fates| == |ts| && maxNumBlocks > 0 && Explained(maxNumBlocks, fates, outcome)
    requires forall i :: 0 <= i < |fates| ==> fates[i].writes && fates[i].life > maxNumBlocks + 1
    ensures Succeeded(ts, outcome) == ts
  {
    assert forall i :: 0 <= i < |outcome| ==> Explains(maxNumBlocks, fates[i], outcome[i], i == |outcome| - 1);
    AllSucceeded(ts, outcome);
    assert ts[..|ts|] == ts;
  }

  class Engine {
    var lookup: map<Key, nat>
    const blocks: array<Tuple>
    var nextBlock: nat
    var disk: seq<Tuple>
    var synced: nat
    ghost var base: seq<Tuple>      // the disk log before the flush in progress
    ghost var flushed: bool
    ghost var epoch: seq<Tuple>     // the device as it was at the last flush, or at first
    ghost var history: seq<Tuple>

    ghost function View(): Device
      reads this`lookup, this`nextBlock, this`base, this`flushed, this`epoch, this`history, blocks
    {
      Device(blocks[..], nextBlock, lookup, base, flushed, epoch, history)
    }

    /** No flush is in progress. */
    ghost predicate Running()
      reads this, blocks
    {
      View().Good() && disk == base && synced == |disk|
    }

    /** Between two steps of a flush, which copies when all blocks are live. */
    ghost predicate Flushing()
      reads this, blocks
    {
      && View().Good() && nextBlock == blocks.Length
      && disk <= base + blocks[..] && |base| <= synced <= |disk|
    }

    ghost predicate Durable()
      reads this, blocks
    {
      Running() || Flushing()
    }

    /**
     Whatever unsynced part of the disk log a crash loses, replaying it and then the live blocks loses nothing.
     Which blocks are live is known to the running engine only.
     */
    method ReplayLive(lost: nat) returns (recovered: Table)
      requires Durable()
      ensures recovered == Replay(history)
    {
      var keep := Kept(|disk|, synced, lost);
      KeepsEnough(keep);
      recovered := Replay(disk[..keep] + blocks[..nextBlock]);
    }

    lemma KeepsEnough(keep: nat)
      requires Durable() && synced <= keep <= |disk|
      ensures Replay(disk[..keep] + blocks[..nextBlock]) == Replay(history)
      ensures Flushing() || disk[..keep] == base
    {
      if Running() {
        assert disk[..keep] == base;
      } else {
        var all := base + blocks[..];
        assert blocks[..nextBlock] == blocks[..] && disk[..keep] == all[..keep];
        CrashHarmless(base, blocks[..], [], keep);
        assert all[..keep] + blocks[..] + [] == all[..keep] + blocks[..] && all + [] == all;
      }
    }

    /**
     What survives a crash is the disk log and the whole device. Replaying these loses nothing exactly when
     every block that is not live holds the latest tuple of its key.
     */
    method ReplayDevice(lost: nat) returns (recovered: Table)
      requires Durable()
      ensures recovered == Replay(history) <==> View().Clean()
    {
      var keep := Kept(|disk|, synced, lost);
      KeepsEnough(keep);
      View().WholeDeviceReplay();
      if nextBlock == blocks.Length {
        assert blocks[..nextBlock] == blocks[..];
      }
      recovered := Replay(disk[..keep] + blocks[..]);
    }

    constructor (maxNumBlocks: nat)
      ensures Running() && View() == Fresh(maxNumBlocks) && blocks.Length == maxNumBlocks && fresh(blocks)
    {
      blocks := new Tuple[maxNumBlocks](_ => BLANK);
      lookup, nextBlock, disk, synced := map[], 0, [], 0;
      base, flushed, epoch, history := [], false, seq(maxNumBlocks, _ => BLANK), [];
      new;
      assert blocks[..] == seq(maxNumBlocks, _ => BLANK);
    }

    /** Appends the blocks to the disk log one by one; stops short when the machine does. */
    method CopyBlocks(life: nat) returns (n: nat)
      modifies this`disk
      ensures n == (if life < blocks.Length then life else blocks.Length) && disk == old(disk) + blocks[..n]
    {
      n := 0;
      while n < blocks.Length
        invariant 0 <= n <= blocks.Length && n <= life && disk == old(disk) + blocks[..n]
      {
        if n == life {
          return;
        }
        disk := disk + [blocks[n]];
        n := n + 1;
      }
    }

    /** Copies every block to the disk log, syncs it, and frees the blocks; the machine may stop after `life` steps. */
    method FlushToDisk(life: nat) returns (alive: bool)
      requires Running() && nextBlock == blocks.Length
      modifies this
      ensures alive == (life > blocks.Length + 1) && history == old(history)
      ensures if alive then Running() && View() == old(View()).Freed() else Flushing() && View() == old(View())
    {
      var n := CopyBlocks(life);
      assert blocks[..n] <= blocks[..];
      if n < blocks.Length || life == n {
        return false;
      }
      assert blocks[..n] == blocks[..];
      synced := |disk|;
      if life == n + 1 {
        return false;
      }
      Free();
      return true;
    }

    /** All blocks are on the disk log, so they are free again. */
    method Free()
      requires View().Good() && nextBlock == blocks.Length && disk == base + blocks[..] && synced == |disk|
      modifies this`lookup, this`nextBlock, this`base, this`flushed, this`epoch
      ensures Running() && View() == old(View()).Freed()
    {
      View().FreedKeeps();
      Reset(View().Freed());
    }

    method Reset(ghost d: Device)
      requires d.Good() && d == Device(blocks[..], 0, map[], disk, true, blocks[..], history) && synced == |disk|
      modifies this`lookup, this`nextBlock, this`base, this`flushed, this`epoch
      ensures Running() && View() == d
    {
      lookup, nextBlock, base, flushed, epoch := map[], 0, disk, true, blocks[..];
    }

    /** One device block is overwritten as a whole. */
    method WriteBlock(i: nat, tuple: Tuple)
      requires i < blocks.Length
      modifies blocks
      ensures blocks[..] == old(blocks[..])[i := tuple]
    {
      blocks[i] := tuple;
    }

    /** The index follows the device. */
    method Enter(index: map<Key, nat>, next: nat, ghost d: Device)
      requires d.Good() && disk == base && synced == |disk|
      requires d == Device(blocks[..], next, index, base, flushed, epoch, d.history)
      modifies this`lookup, this`nextBlock, this`history
      ensures Running() && View() == d
    {
      lookup, nextBlock, history := index, next, d.history;
    }

    /** A key that has no block gets the next one, after a flush if none is free. */
    method UpdateOnNewBlk(tuple: Tuple, writes: bool, life: nat) returns (status: Status)
      requires Running() && tuple.key !in lookup
      modifies this, blocks
      ensures Durable() && (status != Crashed ==> Running())
      ensures View() == old(View()).After(tuple, status)
      ensures history == old(history) + (if status == Success then [tuple] else [])
      ensures Explains(blocks.Length, Fate(writes, life), status, status == Crashed)
    {
      if nextBlock == blocks.Length {
        var alive := FlushToDisk(life);
        if !alive {
          return Crashed;
        }
      }
      if !writes || nextBlock == blocks.Length {
        return Fail;
      }
      Take(tuple);
      return Success;
    }

    /** Writes the next free block and enters it into the index. */
    method Take(tuple: Tuple)
      requires Running() && tuple.key !in lookup && nextBlock < blocks.Length
      modifies this`lookup, this`nextBlock, this`history, blocks
      ensures Running() && View() == old(View()).Written(tuple) && history == old(history) + [tuple]
    {
      ghost var d := View().Written(tuple);
      View().WrittenKeeps(tuple);
      WriteBlock(nextBlock, tuple);
      Enter(lookup[tuple.key := nextBlock], nextBlock + 1, d);
    }

    /** A key that has a block gets its tuple overwritten there. */
    method UpdateOnBlkPosition(tuple: Tuple, position: nat, writes: bool) returns (status: Status)
      requires Running() && tuple.key in lookup && lookup[tuple.key] == position
      modifies this`lookup, this`nextBlock, this`history, blocks
      ensures Running() && status == (if writes then Success else Fail) && blocks.Length > 0
      ensures View() == old(View()).After(tuple, status)
      ensures history == old(history) + (if writes then [tuple] else [])
    {
      ghost var d := View().Written(tuple);
      View().WrittenKeeps(tuple);
      if !writes {
        return Fail;
      }
      WriteBlock(position, tuple);
      Enter(lookup, nextBlock, d);
      return Success;
    }

    /** Persists a tuple: over the block of its key, or in a fresh one. */
    method UpdateTuple(tuple: Tuple, writes: bool, life: nat) returns (status: Status)
      requires Running()
      modifies this, blocks
      ensures Durable() && (status != Crashed ==> Running())
      ensures View() == old(View()).After(tuple, status)
      ensures history == old(history) + (if status == Success then [tuple] else [])
      ensures Explains(blocks.Length, Fate(writes, life), status, status == Crashed)
    {
      if tuple.key in lookup {
        status := UpdateOnBlkPosition(tuple, lookup[tuple.key], writes);
      } else {
        status := UpdateOnNewBlk(tuple, writes, life);
      }
    }
  }

  /** Serves updates until they are all done or the machine stops in the middle of a flush. */
  method Serve(e: Engine, ts: seq<Tuple>, fates: seq<Fate>) returns (outcome: seq<Status>)
    requires e.Running() && e.View() == Fresh(e.blocks.Length) && |fates| == |ts|
    modifies e, e.blocks
    ensures e.Durable() && |outcome| <= |ts| && e.history == Succeeded(ts, outcome)
    ensures e.View() == Served(e.blocks.Length, ts, outcome)
    ensures Explained(e.blocks.Length, fates, outcome)
  {
    outcome := [];
    var alive := true;
    while |outcome| < |ts| && alive
      invariant |outcome| <= |ts|
      invariant e.Durable() && (alive ==> e.Running()) && e.history == Succeeded(ts, outcome)
      invariant e.View() == Served(e.blocks.Length, ts, outcome)
      invariant if alive then SoFar(e.blocks.Length, fates, outcome) else Explained(e.blocks.Length, fates, outcome)
      decreases alive, |ts| - |outcome|
    {
      var i := |outcome|;
      var s := e.UpdateTuple(ts[i], fates[i].writes, fates[i].life);
      OneMore(e.blocks.Length, fates, outcome, s);
      SucceededMore(ts, outcome, s);
      ServedMore(e.blocks.Length, ts, outcome, s);
      outcome := outcome + [s];
      alive := s != Crashed;
    }
  }

  /**
   A run that ends in a crash, possibly in the middle of a flush. Replaying the disk log and the live blocks
   gives every successful update. Replaying the disk log and the whole device, which is all that is left
   when the index is lost, gives the same exactly when every other block holds its key's latest tuple.
   */
  method Run(maxNumBlocks: nat, ts: seq<Tuple>, fates: seq<Fate>, lost: nat)
    returns (live: Table, device: Table, outcome: seq<Status>)
    requires |fates| == |ts|
    ensures |outcome| <= |ts| && live == Replay(Succeeded(ts, outcome)) && Explained(maxNumBlocks, fates, outcome)
    ensures device == live <==> Served(maxNumBlocks, ts, outcome).Clean()
  {
    var e := new Engine(maxNumBlocks);
    outcome := Serve(e, ts, fates);
    live := e.ReplayLive(lost);
    device := e.ReplayDevice(lost);
  }

  /** The engine itself reaches a state in which the whole device brings an overwritten tuple back. */
  method Relapse(a1: Tuple, b1: Tuple, c1: Tuple, d1: Tuple, c2: Tuple) returns (live: Table, device: Table)
    requires a1.key != b1.key && a1.key != c1.key && b1.key != c1.key
    requires d1.key !in {a1.key, b1.key, c1.key} && c2.key == c1.key && c2 != c1
    ensures live == Replay([a1, b1, c1, d1, c2]) && device != live
  {
    var e := new Engine(3);
    var s := e.UpdateTuple(a1, true, 5);
    s := e.UpdateTuple(b1, true, 5);
    s := e.UpdateTuple(c1, true, 5);
    s := e.UpdateTuple(d1, true, 5);
    s := e.UpdateTuple(c2, true, 5);
    StaleTupleWins(a1, b1, c1, d1, c2);
    live := e.ReplayLive(0);
    device := e.ReplayDevice(0);
  }
}
