/**
 A device of blocks on values: live blocks found through an index, and behind them blocks that were
 written before the last flush. What replay makes of the live blocks, and of the whole device.
 */
module BlockDevice {
  import opened Recovery

  /** What a block holds before it is first written. */
  const BLANK := Tuple(0, false, [])

  /** An index into the live blocks, which hold what the disk log in front of them lacks of the history. */
  ghost predicate Sound(base: seq<Tuple>, live: seq<Tuple>, lookup: map<Key, nat>, history: seq<Tuple>) {
    Places(live, lookup) && Replay(base + live) == Replay(history)
  }

  lemma TakeKeeps(base: seq<Tuple>, live: seq<Tuple>, lookup: map<Key, nat>, history: seq<Tuple>, t: Tuple)
    requires Sound(base, live, lookup, history) && t.key !in lookup
    ensures Sound(base, live + [t], lookup[t.key := |live|], history + [t])
  {
    StoreReplays(base, live, live + [t], history, t);
  }

  lemma OverwriteKeeps(base: seq<Tuple>, live: seq<Tuple>, lookup: map<Key, nat>, history: seq<Tuple>, t: Tuple)
    requires Sound(base, live, lookup, history) && t.key in lookup
    ensures lookup[t.key] < |live| && Sound(base, live[lookup[t.key] := t], lookup, history + [t])
  {
    var i := lookup[t.key];
    ReplaceInPlace(live, i, t);
    StoreReplays(base, live, live[i := t], history, t);
  }

  /** The epoch ends the disk log, one tuple per key; before the first flush all is blank. */
  ghost predicate Origin(base: seq<Tuple>, flushed: bool, epoch: seq<Tuple>) {
    if flushed then |epoch| <= |base| && base[|base| - |epoch|..] == epoch && DistinctKeys(epoch)
    else base == [] && forall i :: 0 <= i < |epoch| ==> epoch[i] == BLANK
  }

  lemma ExtendFront(blocks: seq<Tuple>, n: nat, t: Tuple)
    requires n < |blocks|
    ensures blocks[n := t][..n + 1] == blocks[..n] + [t] && blocks[n := t][n + 1..] == blocks[n + 1..]
  {
  }

  lemma InEpoch(base: seq<Tuple>, epoch: seq<Tuple>, i: nat)
    requires Origin(base, true, epoch) && i < |epoch|
    ensures epoch[i].key in Replay(base) && Replay(base)[epoch[i].key] == epoch[i]
  {
    var n := |base| - |epoch|;
    assert base == base[..n] + epoch;
    ReplayConcat(base[..n], epoch);
    assert LastAt(epoch, epoch[i].key, i);
    ReplayIsLast(epoch, epoch[i].key);
  }

  /** Tuples with the same key are equal. */
  ghost predicate Uniform(log: seq<Tuple>) {
    forall a, b :: 0 <= a < b < |log| && log[a].key == log[b].key ==> log[a] == log[b]
  }

  lemma Overrides(all: Table, more: Table)
    ensures all + more == all <==> forall k :: k in more ==> k in all && all[k] == more[k]
  {
    if all + more == all {
      forall k | k in more ensures k in all && all[k] == more[k] {
        assert (all + more)[k] == more[k];
      }
    }
  }

  /** Once all live blocks are on disk they can be freed. */
  lemma FreeSound(base: seq<Tuple>, live: seq<Tuple>, lookup: map<Key, nat>, history: seq<Tuple>)
    requires Sound(base, live, lookup, history)
    ensures Sound(base + live, [], map[], history)
  {
    assert base + live + [] == base + live;
  }

  datatype Device = Device(
    blocks: seq<Tuple>,
    next: nat,                 // the first block that is not live
    lookup: map<Key, nat>,
    base: seq<Tuple>,          // the disk log before the flush in progress
    flushed: bool,             // whether there has been a flush
    epoch: seq<Tuple>,         // the device as it was at the last flush, or at first
    history: seq<Tuple>)
  {
    function Live(): seq<Tuple>
      requires next <= |blocks|
    {
      blocks[..next]
    }

    /** Blocks that are not live hold the tail of the pool flushed last, or have never been written. */
    ghost predicate Leftover() {
      && |epoch| == |blocks| && next <= |blocks| && blocks[next..] == epoch[next..]
      && Origin(base, flushed, epoch)
    }

    /** The index is a bijection between live keys and live blocks, each holding its key's latest tuple. */
    ghost predicate Good() {
      next <= |blocks| && Sound(base, Live(), lookup, history) && Leftover()
    }

    /** A tuple goes over the block of its key, or into the next one. */
    function Written(t: Tuple): Device {
      if t.key in lookup then
        if lookup[t.key] < |blocks| then this.(blocks := blocks[lookup[t.key] := t], history := history + [t]) else this
      else if next < |blocks| then
        this.(blocks := blocks[next := t], next := next + 1, lookup := lookup[t.key := next], history := history + [t])
      else this
    }

    /** All blocks are on the disk log and free again. */
    function Freed(): Device {
      this.(next := 0, lookup := map[], base := base + blocks, flushed := true, epoch := blocks)
    }

    /** Writing a tuple, after a flush if it needs a new block and there is none. */
    function Update(t: Tuple): Device {
      if t.key !in lookup && next == |blocks| then Freed().Written(t) else Written(t)
    }

    /** What an attempt leaves: a refused write may have flushed, a flush cut short has freed nothing. */
    function After(t: Tuple, status: Status): Device {
      match status
      case Success => Update(t)
      case Fail => if t.key !in lookup && next == |blocks| then Freed() else this
      case Crashed => this
    }

    lemma WrittenKeeps(t: Tuple)
      requires Good()
      ensures Written(t).Good()
      ensures t.key in lookup ==> lookup[t.key] < next
    {
      if t.key in lookup {
        OverwriteKeeps(base, Live(), lookup, history, t);
      } else if next < |blocks| {
        TakeKeeps(base, Live(), lookup, history, t);
        ExtendFront(blocks, next, t);
      }
    }

    lemma FreedKeeps()
      requires Good() && next == |blocks|
      ensures Freed().Good()
    {
      assert Live() == blocks;
      FreeSound(base, blocks, lookup, history);
      assert blocks[..0] == [];
    }

    /** Block i, which is not live, holds the latest tuple of its key: the key is not live again, or unchanged. */
    predicate Latest(i: nat)
      requires i < |blocks|
    {
      var t := blocks[i];
      if t.key in lookup then lookup[t.key] < |blocks| && blocks[lookup[t.key]] == t else flushed
    }

    predicate Clean() {
      forall i :: next <= i < |blocks| ==> Latest(i)
    }

    lemma LatestMeans(i: nat)
      requires Good() && next <= i < |blocks|
      ensures
        var all := Replay(history);
        Latest(i) <==> blocks[i].key in all && all[blocks[i].key] == blocks[i]
    {
      ReplayConcat(base, Live());
      ReplayOfPlaced(Live(), lookup, blocks[i].key);
      if flushed { InEpoch(base, epoch, i); }
    }

    /** Among the blocks that are not live, those with the same key are the same. */
    lemma StaleTuple(i: nat)
      requires Good() && next <= i < |blocks|
      ensures blocks[i].key in Replay(blocks[next..]) && Replay(blocks[next..])[blocks[i].key] == blocks[i]
    {
      ReplayOfUniform(blocks[next..], i - next);
    }

    lemma StaleOnly(k: Key) returns (i: nat)
      requires next <= |blocks| && k in Replay(blocks[next..])
      ensures next <= i < |blocks| && blocks[i].key == k
    {
      var stale := blocks[next..];
      ReplayKeys(stale, k);
      var j :| 0 <= j < |stale| && stale[j].key == k;
      i := next + j;
    }

    lemma StaleAgrees(k: Key)
      requires Good() && Clean() && k in Replay(blocks[next..])
      ensures k in Replay(history) && Replay(history)[k] == Replay(blocks[next..])[k]
    {
      var i := StaleOnly(k);
      StaleTuple(i);
      LatestMeans(i);
    }

    lemma AgreeingIsClean()
      requires Good()
      requires forall k :: k in Replay(blocks[next..]) ==>
                 k in Replay(history) && Replay(history)[k] == Replay(blocks[next..])[k]
      ensures Clean()
    {
      forall i | next <= i < |blocks| ensures Latest(i) {
        StaleTuple(i);
        LatestMeans(i);
      }
    }

    /**
     Replaying the disk log and then the whole device, without knowing which blocks are live, recovers the
     last tuple of each key exactly when every block that is not live holds its key's latest tuple.
     */
    lemma WholeDeviceReplay()
      requires Good()
      ensures Replay(base + blocks) == Replay(history) <==> Clean()
    {
      StaleOnTop();
      Overrides(Replay(history), Replay(blocks[next..]));
      if Clean() {
        forall k | k in Replay(blocks[next..])
          ensures k in Replay(history) && Replay(history)[k] == Replay(blocks[next..])[k]
        {
          StaleAgrees(k);
        }
      } else if Replay(base + blocks) == Replay(history) {
        AgreeingIsClean();
      }
    }

    lemma StaleOnTop()
      requires Good()
      ensures Replay(base + blocks) == Replay(history) + Replay(blocks[next..])
    {
      assert base + blocks == base + Live() + blocks[next..];
      ReplayConcat(base + Live(), blocks[next..]);
    }
  }

  lemma ReplayOfPlaced(log: seq<Tuple>, place: map<Key, nat>, k: Key)
    requires Places(log, place)
    ensures k in Replay(log) <==> k in place
    ensures k in place ==> place[k] < |log| && Replay(log)[k] == log[place[k]]
  {
    ReplayIsLast(log, k);
    if k in place {
      assert LastAt(log, k, place[k]);
    }
  }

  /** Then replay finds each of them. */
  lemma {:induction false} ReplayOfUniform(log: seq<Tuple>, i: nat)
    requires i < |log| && Uniform(log)
    ensures log[i].key in Replay(log) && Replay(log)[log[i].key] == log[i]
  {
    var n := |log| - 1;
    if i == n {
    } else {
      ReplayOfUniform(log[..n], i);
    }
  }

  /** The device after a series of attempts. */
  function Served(n: nat, ts: seq<Tuple>, outcome: seq<Status>): Device
    requires |outcome| <= |ts|
  {
    if outcome == [] then Fresh(n)
    else var k := |outcome| - 1; Served(n, ts, outcome[..k]).After(ts[k], outcome[k])
  }

  lemma ServedMore(n: nat, ts: seq<Tuple>, outcome: seq<Status>, s: Status)
    requires |outcome| < |ts|
    ensures Served(n, ts, outcome + [s]) == Served(n, ts, outcome).After(ts[|outcome|], s)
  {
    assert (outcome + [s])[..|outcome|] == outcome;
  }

  function Fresh(n: nat): Device {
    Device(seq(n, _ => BLANK), 0, map[], [], false, seq(n, _ => BLANK), [])
  }

  /**
   Three blocks and the updates A1 B1 C1 D1 C2: the fourth flushes, the fifth leaves the old C1 behind the
   live blocks, and replaying the whole device brings it back.
   */
  lemma StaleTupleWins(a1: Tuple, b1: Tuple, c1: Tuple, d1: Tuple, c2: Tuple)
    requires a1.key != b1.key && a1.key != c1.key && b1.key != c1.key
    requires d1.key !in {a1.key, b1.key, c1.key} && c2.key == c1.key && c2 != c1
    ensures
      var d := Fresh(3).Update(a1).Update(b1).Update(c1).Update(d1).Update(c2);
      && d.history == [a1, b1, c1, d1, c2] && d.base == [a1, b1, c1] && d.blocks == [d1, c2, c1] && !d.Clean()
      && Replay(d.base + d.blocks) != Replay(d.history)
  {
    FillThree(a1, b1, c1);
    var d3, three := Fresh(3).Update(a1).Update(b1).Update(c1), [a1, b1, c1];
    StartOver(d3, three, d1, c2);
    assert three + [d1] + [c2] == [a1, b1, c1, d1, c2];
    UpdatesKeep(a1, b1, c1, d1, c2);
    NotClean(d3.Update(d1).Update(c2), c1);
  }

  lemma NotClean(d: Device, c1: Tuple)
    requires |d.blocks| == 3 && d.next == 2 && d.blocks[2] == c1 && d.blocks[1] != c1
    requires c1.key in d.lookup && d.lookup[c1.key] == 1 && d.Good()
    ensures !d.Clean() && Replay(d.base + d.blocks) != Replay(d.history)
  {
    assert !d.Latest(2);
    d.WholeDeviceReplay();
  }

  lemma FillThree(a1: Tuple, b1: Tuple, c1: Tuple)
    requires a1.key != b1.key && a1.key != c1.key && b1.key != c1.key
    ensures
      var d := Fresh(3).Update(a1).Update(b1).Update(c1);
      d.blocks == d.history == [a1, b1, c1] && d.next == 3 && d.base == [] && d.lookup.Keys == {a1.key, b1.key, c1.key}
  {
    var d1 := Fresh(3).Update(a1);
    assert d1.blocks == [a1, BLANK, BLANK] && d1.next == 1 && d1.lookup == map[a1.key := 0] && d1.history == [a1];
    var d2 := d1.Update(b1);
    assert d2.blocks == [a1, b1, BLANK] && d2.next == 2 && d2.history == [a1, b1];
  }

  lemma StartOver(d: Device, old_: seq<Tuple>, d1: Tuple, c2: Tuple)
    requires |old_| == 3 && d.blocks == d.history == old_ && d.next == 3 && d.base == [] && d1.key !in d.lookup
    requires d1.key != c2.key
    ensures
      var d' := d.Update(d1).Update(c2);
      && d'.history == old_ + [d1] + [c2] && d'.base == old_ && d'.blocks == [d1, c2, old_[2]]
      && d'.next == 2 && d'.lookup == map[d1.key := 0, c2.key := 1]
  {
    assert [] + old_ == old_;
    var one := d.Update(d1);
    assert one.blocks == [d1, old_[1], old_[2]] && one.next == 1 && one.lookup == map[d1.key := 0];
  }

  lemma UpdateKeeps(d: Device, t: Tuple)
    requires d.Good()
    ensures d.Update(t).Good()
  {
    if t.key !in d.lookup && d.next == |d.blocks| {
      d.FreedKeeps();
      d.Freed().WrittenKeeps(t);
    } else {
      d.WrittenKeeps(t);
    }
  }

  lemma UpdatesKeep(a1: Tuple, b1: Tuple, c1: Tuple, d1: Tuple, c2: Tuple)
    ensures Fresh(3).Update(a1).Update(b1).Update(c1).Update(d1).Update(c2).Good()
  {
    UpdateKeeps(Fresh(3), a1);
    UpdateKeeps(Fresh(3).Update(a1), b1);
    UpdateKeeps(Fresh(3).Update(a1).Update(b1), c1);
    UpdateKeeps(Fresh(3).Update(a1).Update(b1).Update(c1), d1);
    UpdateKeeps(Fresh(3).Update(a1).Update(b1).Update(c1).Update(d1), c2);
  }
}
