/** Tuples and what replaying a log of them recovers: the last tuple written for each key. */
module Recovery {
  import opened Bytes

  type Key = nat

  datatype Tuple = Tuple(key: Key, deleted: bool, fields: bytes)

  type Table = map<Key, Tuple>

  /** Last writer wins. */
  function Replay(log: seq<Tuple>): Table {
    if log == [] then map[] else var t := log[|log| - 1]; Replay(log[..|log| - 1])[t.key := t]
  }

  ghost predicate LastAt(log: seq<Tuple>, k: Key, i: nat) {
    i < |log| && log[i].key == k && forall j :: i < j < |log| ==> log[j].key != k
  }

  predicate Occurs(log: seq<Tuple>, k: Key) {
    exists i :: 0 <= i < |log| && log[i].key == k
  }

  lemma {:induction false} ReplayKeys(log: seq<Tuple>, k: Key)
    ensures k in Replay(log) <==> Occurs(log, k)
  {
    if log == [] {
    } else {
      var front := log[..|log| - 1];
      ReplayKeys(front, k);
      if i :| 0 <= i < |log| && log[i].key == k && i < |front| {
        assert front[i].key == k;
      }
      if i :| 0 <= i < |front| && front[i].key == k {
        assert log[i].key == k;
      }
    }
  }

  /** Replay holds exactly the keys that occur, each with its last occurrence. */
  lemma {:induction false} ReplayIsLast(log: seq<Tuple>, k: Key)
    ensures k in Replay(log) <==> Occurs(log, k)
    ensures forall i: nat :: LastAt(log, k, i) ==> k in Replay(log) && Replay(log)[k] == log[i]
  {
    ReplayKeys(log, k);
    if log == [] {
    } else {
      var front := log[..|log| - 1];
      ReplayIsLast(front, k);
      forall i: nat | LastAt(log, k, i)
        ensures k in Replay(log) && Replay(log)[k] == log[i]
      {
        if i < |front| { assert LastAt(front, k, i); }
      }
    }
  }

  lemma {:induction false} ReplayConcat(a: seq<Tuple>, b: seq<Tuple>)
    ensures Replay(a + b) == Replay(a) + Replay(b)
    decreases |b|
  {
    if b == [] {
      assert a + b == a;
    } else {
      var front := b[..|b| - 1];
      assert (a + b)[..|a + b| - 1] == a + front;
      ReplayConcat(a, front);
    }
  }

  lemma {:induction false} PrefixKeys(e: seq<Tuple>, k: nat)
    requires k <= |e|
    ensures Replay(e[..k]).Keys <= Replay(e).Keys
  {
    if k == |e| {
      assert e[..k] == e;
    } else {
      var front := e[..|e| - 1];
      assert front[..k] == e[..k];
      PrefixKeys(front, k);
    }
  }

  /** Having written part of an epoch before writing all of it makes no difference. */
  lemma RewriteHarmless(d: seq<Tuple>, e: seq<Tuple>, k: nat)
    requires k <= |e|
    ensures Replay(d + e[..k] + e) == Replay(d + e)
  {
    ReplayConcat(d + e[..k], e);
    ReplayConcat(d, e[..k]);
    ReplayConcat(d, e);
    PrefixKeys(e, k);
  }

  /** What a crash leaves: some prefix of an epoch behind d, and the epoch and everything newer still elsewhere. */
  lemma CrashHarmless(d: seq<Tuple>, e: seq<Tuple>, newer: seq<Tuple>, keep: nat)
    requires |d| <= keep <= |d + e|
    ensures Replay((d + e)[..keep] + e + newer) == Replay(d + e + newer)
  {
    assert (d + e)[..keep] == d + e[..keep - |d|];
    RewriteHarmless(d, e, keep - |d|);
    ReplayConcat((d + e)[..keep] + e, newer);
    ReplayConcat(d + e, newer);
  }

  predicate DistinctKeys(log: seq<Tuple>) {
    forall i, j :: 0 <= i < j < |log| ==> log[i].key != log[j].key
  }

  /** With distinct keys the order of a log does not matter. */
  lemma OrderIrrelevant(a: seq<Tuple>, b: seq<Tuple>)
    requires DistinctKeys(a) && DistinctKeys(b) && (forall t :: t in a <==> t in b)
    ensures Replay(a) == Replay(b)
  {
    forall k: Key
      ensures k in Replay(a) <==> k in Replay(b)
      ensures k in Replay(a) && k in Replay(b) ==> Replay(a)[k] == Replay(b)[k]
    {
      SameAt(a, b, k);
    }
  }

  lemma SameAt(a: seq<Tuple>, b: seq<Tuple>, k: Key)
    requires DistinctKeys(a) && DistinctKeys(b) && (forall t :: t in a <==> t in b)
    ensures k in Replay(a) <==> k in Replay(b)
    ensures k in Replay(a) && k in Replay(b) ==> Replay(a)[k] == Replay(b)[k]
  {
    ReplayIsLast(a, k);
    ReplayIsLast(b, k);
    assert Occurs(b, k) ==> Occurs(a, k) by {
      if j :| 0 <= j < |b| && b[j].key == k {
        assert b[j] in a;
        var i :| 0 <= i < |a| && a[i] == b[j];
        assert a[i].key == k;
      }
    }
    if i :| 0 <= i < |a| && a[i].key == k {
      assert a[i] in b;
      var j :| 0 <= j < |b| && b[j] == a[i];
      assert LastAt(a, k, i) && LastAt(b, k, j);
    }
  }

  /** Replacing the tuple of a key in place. */
  lemma {:induction false} ReplaceInPlace(log: seq<Tuple>, i: nat, t: Tuple)
    requires DistinctKeys(log) && i < |log| && log[i].key == t.key
    ensures DistinctKeys(log[i := t]) && Replay(log[i := t]) == Replay(log)[t.key := t]
  {
    var log', n := log[i := t], |log| - 1;
    if i == n {
      assert log'[..n] == log[..n];
    } else {
      ReplaceInPlace(log[..n], i, t);
      assert log'[..n] == log[..n][i := t];
      assert log'[n] == log[n] && log[n].key != t.key;
    }
  }

  /** place is the inverse of reading off the keys. */
  ghost predicate Places(log: seq<Tuple>, place: map<Key, nat>) {
    && (forall k :: k in place ==> place[k] < |log| && log[place[k]].key == k)
    && (forall i :: 0 <= i < |log| ==> log[i].key in place && place[log[i].key] == i)
  }

  /** A store that keeps one tuple per key behind d takes one more tuple. */
  lemma StoreReplays(d: seq<Tuple>, e: seq<Tuple>, e': seq<Tuple>, history: seq<Tuple>, t: Tuple)
    requires Replay(d + e) == Replay(history) && Replay(e') == Replay(e)[t.key := t]
    ensures Replay(d + e') == Replay(history + [t])
  {
    ReplayConcat(d, e);
    ReplayConcat(d, e');
  }

  /** How an attempt to persist a tuple ended. */
  datatype Status = Success | Fail | Crashed

  /** The tuples of the attempts that succeeded. */
  function Succeeded(ts: seq<Tuple>, outcome: seq<Status>): seq<Tuple>
    requires |outcome| <= |ts|
  {
    if outcome == [] then []
    else
      var n := |outcome| - 1;
      Succeeded(ts, outcome[..n]) + (if outcome[n] == Success then [ts[n]] else [])
  }

  lemma SucceededMore(ts: seq<Tuple>, outcome: seq<Status>, s: Status)
    requires |outcome| < |ts|
    ensures Succeeded(ts, outcome + [s]) == Succeeded(ts, outcome) + (if s == Success then [ts[|outcome|]] else [])
  {
    assert (outcome + [s])[..|outcome|] == outcome;
  }

  lemma {:induction false} AllSucceeded(ts: seq<Tuple>, outcome: seq<Status>)
    requires |outcome| <= |ts| && forall i :: 0 <= i < |outcome| ==> outcome[i] == Success
    ensures Succeeded(ts, outcome) == ts[..|outcome|]
  {
    if outcome == [] {
    } else {
      var n := |outcome| - 1;
      AllSucceeded(ts, outcome[..n]);
      assert ts[..n + 1] == ts[..n] + [ts[n]];
    }
  }

  /** How much of a disk log of n tuples is left when up to `lost` of those not synced are gone. */
  function Kept(n: nat, synced: nat, lost: nat): (keep: nat)
    requires synced <= n
    ensures synced <= keep <= n
  {
    if n - lost < synced then synced else n - lost
  }

  /** Any part may be left that holds what was synced. */
  lemma KeptAny(n: nat, synced: nat, keep: nat)
    requires synced <= keep <= n
    ensures Kept(n, synced, n - keep) == keep
  {
  }
}
