/** The three engines side by side. */
module Engines {
  import opened Recovery
  import PoolEngine
  import BlockDevice
  import BlockEngine
  import LogEngine

  /** Both devices have room for a tuple and accept every write, and no flush is cut short. */
  predicate Unhindered(maxNumBlocks: nat, blockFates: seq<BlockEngine.Fate>,
                       bytes: nat, logFates: seq<LogEngine.Fate>) {
    && maxNumBlocks > 0 && bytes >= LogEngine.TUPLE_SIZE
    && (forall i :: 0 <= i < |blockFates| ==> blockFates[i].writes && blockFates[i].life > maxNumBlocks + 1)
    && (forall i :: 0 <= i < |logFates| ==>
          logFates[i].appends && LogEngine.TUPLE_SIZE * (logFates[i].life - 1) > bytes)
  }

  /**
   Three different write paths, each crashing at its own moment, recover the same table whenever the
   same updates succeeded on them, and so whenever the devices accept every write and no flush is cut short.
   For the block engine this needs to know which blocks are live; without that, its device agrees with the
   others exactly when its stale blocks hold the latest tuples of their keys.
   */
  method Compare(loads: seq<PoolEngine.Load>, rotations: seq<nat>,
                 maxNumBlocks: nat, blockFates: seq<BlockEngine.Fate>,
                 bytes: nat, logFates: seq<LogEngine.Fate>, lost: nat)
    returns (pool: Table, block: Table, device: Table, log: Table, onBlocks: seq<Status>, onLog: seq<Status>)
    requires |blockFates| == |logFates| == |PoolEngine.Tuples(loads)| && PoolEngine.Feasible(loads)
    ensures
      var ts := PoolEngine.Tuples(loads);
      && |onBlocks| <= |ts| && |onLog| <= |ts|
      && (Succeeded(ts, onBlocks) == ts ==> block == pool)
      && (Succeeded(ts, onLog) == ts ==> log == pool)
      && (Succeeded(ts, onBlocks) == Succeeded(ts, onLog) ==> block == log)
      && (Unhindered(maxNumBlocks, blockFates, bytes, logFates) ==> pool == block == log)
      && (device == block <==> BlockDevice.Served(maxNumBlocks, ts, onBlocks).Clean())
  {
    var ts := PoolEngine.Tuples(loads);
    pool := PoolEngine.Run(loads, rotations, lost);
    block, device, onBlocks := BlockEngine.Run(maxNumBlocks, ts, blockFates, lost);
    log, onLog := LogEngine.Run(bytes, ts, logFates, lost);
    if Unhindered(maxNumBlocks, blockFates, bytes, logFates) {
      BlockEngine.NothingRefused(maxNumBlocks, ts, blockFates, onBlocks);
      LogEngine.NothingRefused(bytes, ts, logFates, onLog);
    }
  }
}
