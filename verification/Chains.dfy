/**
 Hash chains on values: entries, the links between them as a map, and the heads of the chains.
 The dictionary's pointer updates are shown here to keep the chains and the entries they hold.
 */
module Chains {
  import opened Masks

  class Entry<K, V> {
    const key: K
    var val: V
    var next: Entry?<K, V>

    constructor (key: K, val: V, next: Entry?<K, V>)
      ensures this.key == key && this.val == val && this.next == next
    {
      this.key, this.val, this.next := key, val, next;
    }
  }

  type Chain<K, V> = seq<Entry<K, V>>

  type Links<K, V> = map<Entry<K, V>, Entry?<K, V>>

  // ---- one chain ----

  ghost function First<K, V>(chain: Chain<K, V>): Entry?<K, V> {
    if chain == [] then null else chain[0]
  }

  /** Following the links from `head` passes through exactly the entries of the chain. */
  ghost predicate Linked<K, V>(link: Links<K, V>, head: Entry?<K, V>, chain: Chain<K, V>) {
    if chain == [] then head == null
    else head == chain[0] && chain[0] in link && Linked(link, link[chain[0]], chain[1..])
  }

  ghost predicate Distinct<K, V>(chain: Chain<K, V>) {
    forall i, j :: 0 <= i < j < |chain| ==> chain[i] != chain[j]
  }

  lemma {:induction false} LinkedElsewhere<K, V>(link: Links<K, V>, e: Entry<K, V>, x: Entry?<K, V>,
                                                 head: Entry?<K, V>, chain: Chain<K, V>)
    requires Linked(link, head, chain) && e !in chain
    ensures Linked(link[e := x], head, chain)
  {
    if chain == [] {
    } else {
      LinkedElsewhere(link, e, x, link[chain[0]], chain[1..]);
    }
  }

  lemma {:induction false} LinkedFrom<K, V>(link: Links<K, V>, head: Entry?<K, V>, chain: Chain<K, V>, i: nat)
    requires Linked(link, head, chain) && i <= |chain|
    ensures i < |chain| ==> chain[i] in link && link[chain[i]] == First(chain[i + 1..])
    ensures Linked(link, First(chain[i..]), chain[i..])
  {
    if i == 0 {
      assert chain[0..] == chain;
    } else {
      LinkedFrom(link, link[chain[0]], chain[1..], i - 1);
      assert chain[1..][i - 1..] == chain[i..];
      if i < |chain| { assert chain[1..][i..] == chain[i + 1..]; }
    }
  }

  /** Taking an entry out behind another one. */
  lemma {:induction false} LinkedCut<K, V>(link: Links<K, V>, head: Entry?<K, V>, chain: Chain<K, V>, i: nat)
    requires Linked(link, head, chain) && Distinct(chain) && 0 < i < |chain|
    ensures chain[i] in link
    ensures Linked(link[chain[i - 1] := link[chain[i]]], head, chain[..i] + chain[i + 1..])
  {
    var prev, later := chain[i - 1], chain[1..];
    LinkedFrom(link, head, chain, i);
    if i == 1 {
      assert chain[..1] + chain[2..] == [chain[0]] + chain[2..];
      assert later[1..] == chain[2..];
      LinkedElsewhere(link, prev, link[chain[1]], link[chain[1]], chain[2..]);
    } else {
      LinkedCut(link, link[chain[0]], later, i - 1);
      assert later[i - 2] == prev && later[i - 1] == chain[i];
      var cut := chain[..i] + chain[i + 1..];
      assert cut[1..] == later[..i - 1] + later[i..];
    }
  }

  // ---- the entries of several chains ----

  ghost function Bag<E>(chains: seq<seq<E>>): multiset<E> {
    if chains == [] then multiset{} else Bag(chains[..|chains| - 1]) + multiset(chains[|chains| - 1])
  }

  lemma {:induction false} BagUpdate<E>(chains: seq<seq<E>>, b: nat, c: seq<E>)
    requires b < |chains|
    ensures multiset(chains[b]) <= Bag(chains)
    ensures Bag(chains[b := c]) == Bag(chains) - multiset(chains[b]) + multiset(c)
  {
    var n, chains' := |chains| - 1, chains[b := c];
    if b == n {
      assert chains'[..n] == chains[..n];
    } else {
      assert chains'[..n] == chains[..n][b := c];
      BagUpdate(chains[..n], b, c);
    }
  }

  lemma {:induction false} BagHolds<E>(chains: seq<seq<E>>, e: E) returns (b: nat)
    requires e in Bag(chains)
    ensures b < |chains| && e in chains[b]
  {
    var n := |chains| - 1;
    if e in multiset(chains[n]) {
      b := n;
    } else {
      b := BagHolds(chains[..n], e);
    }
  }

  lemma {:induction false} EmptyBag<E>(chains: seq<seq<E>>)
    requires forall b :: 0 <= b < |chains| ==> chains[b] == []
    ensures Bag(chains) == multiset{}
  {
    if chains == [] {
    } else {
      EmptyBag(chains[..|chains| - 1]);
    }
  }

  lemma {:induction false} BagFront<E>(chains: seq<seq<E>>)
    requires chains != []
    ensures Bag(chains) == multiset(chains[0]) + Bag(chains[1..])
  {
    var n := |chains| - 1;
    if n == 0 {
      assert chains[..n] == [] && chains[1..] == [];
    } else {
      assert chains[..n][1..] == chains[1..][..n - 1];
      BagFront(chains[..n]);
    }
  }

  lemma InBag<E>(chains: seq<seq<E>>, b: nat, e: E)
    requires b < |chains| && e in chains[b]
    ensures e in Bag(chains)
  {
    BagUpdate(chains, b, chains[b]);
    assert e in multiset(chains[b]);
  }

  lemma ConsBag<E>(e: E, chain: seq<E>)
    ensures multiset([e] + chain) == multiset{e} + multiset(chain)
  {
  }

  lemma CutFromChain<E>(chain: seq<E>, i: nat)
    requires i < |chain|
    ensures multiset(chain[..i] + chain[i + 1..]) == multiset(chain) - multiset{chain[i]}
  {
    assert chain == chain[..i] + [chain[i]] + chain[i + 1..];
  }

  /** Putting an entry in front of a chain. */
  lemma BagPush<E>(chains: seq<seq<E>>, h: nat, e: E)
    requires h < |chains|
    ensures Bag(chains[h := [e] + chains[h]]) == Bag(chains) + multiset{e}
  {
    ConsBag(e, chains[h]);
    BagUpdate(chains, h, [e] + chains[h]);
  }

  lemma BagCut<E>(chains: seq<seq<E>>, h: nat, i: nat)
    requires h < |chains| && i < |chains[h]|
    ensures chains[h][i] in Bag(chains)
    ensures Bag(chains[h := chains[h][..i] + chains[h][i + 1..]]) == Bag(chains) - multiset{chains[h][i]}
  {
    CutFromChain(chains[h], i);
    BagUpdate(chains, h, chains[h][..i] + chains[h][i + 1..]);
    InBag(chains, h, chains[h][i]);
  }

  // ---- several chains ----

  ghost predicate LinkedAt<K, V>(link: Links<K, V>, heads: seq<Entry?<K, V>>, chains: seq<Chain<K, V>>, b: int) {
    0 <= b < |heads| && b < |chains| ==> Linked(link, heads[b], chains[b])
  }

  ghost predicate AllLinked<K, V>(link: Links<K, V>, heads: seq<Entry?<K, V>>, chains: seq<Chain<K, V>>) {
    && |heads| == |chains|
    && forall b: int {:trigger LinkedAt(link, heads, chains, b)} :: LinkedAt(link, heads, chains, b)
  }

  lemma AllLinkedElsewhere<K, V>(link: Links<K, V>, e: Entry<K, V>, x: Entry?<K, V>,
                                 heads: seq<Entry?<K, V>>, chains: seq<Chain<K, V>>)
    requires AllLinked(link, heads, chains) && e !in Bag(chains)
    ensures AllLinked(link[e := x], heads, chains)
  {
    var link' := link[e := x];
    forall b: int ensures LinkedAt(link', heads, chains, b) {
      assert LinkedAt(link, heads, chains, b);
      if 0 <= b < |chains| {
        if e in chains[b] { InBag(chains, b, e); }
        LinkedElsewhere(link, e, x, heads[b], chains[b]);
      }
    }
  }

  /** A new head in front of a chain, linked to the old one. */
  lemma AllLinkedPush<K, V>(link: Links<K, V>, heads: seq<Entry?<K, V>>, chains: seq<Chain<K, V>>,
                            h: nat, e: Entry<K, V>)
    requires AllLinked(link, heads, chains) && e !in Bag(chains) && h < |chains|
    ensures AllLinked(link[e := heads[h]], heads[h := e], chains[h := [e] + chains[h]])
  {
    var link', heads', chains' := link[e := heads[h]], heads[h := e], chains[h := [e] + chains[h]];
    AllLinkedElsewhere(link, e, heads[h], heads, chains);
    assert ([e] + chains[h])[1..] == chains[h];
    forall b: int ensures LinkedAt(link', heads', chains', b) {
      assert LinkedAt(link', heads, chains, b);
    }
  }

  /** Every entry of a chain hashes to bucket b. */
  ghost predicate Housed<K, V>(hash: K -> nat, mask: nat, chain: Chain<K, V>, b: int) {
    forall i :: 0 <= i < |chain| ==> And(hash(chain[i].key), mask) == b
  }

  ghost predicate HousedAt<K, V>(hash: K -> nat, mask: nat, chains: seq<Chain<K, V>>, b: int) {
    0 <= b < |chains| ==> Housed(hash, mask, chains[b], b)
  }

  /** Every entry sits in the bucket of its hash. */
  ghost predicate Located<K, V>(hash: K -> nat, mask: nat, chains: seq<Chain<K, V>>) {
    forall b: int {:trigger HousedAt(hash, mask, chains, b)} :: HousedAt(hash, mask, chains, b)
  }

  lemma LocatedUpdate<K, V>(hash: K -> nat, mask: nat, chains: seq<Chain<K, V>>, h: nat, chain: Chain<K, V>)
    requires Located(hash, mask, chains) && h < |chains| && Housed(hash, mask, chain, h)
    ensures Located(hash, mask, chains[h := chain])
  {
    var chains' := chains[h := chain];
    forall b: int ensures HousedAt(hash, mask, chains', b) {
      assert HousedAt(hash, mask, chains, b);
    }
  }

  lemma LocatedPush<K, V>(hash: K -> nat, mask: nat, chains: seq<Chain<K, V>>, h: nat, e: Entry<K, V>)
    requires Located(hash, mask, chains) && h < |chains| && And(hash(e.key), mask) == h
    ensures Located(hash, mask, chains[h := [e] + chains[h]])
  {
    assert HousedAt(hash, mask, chains, h);
    LocatedUpdate(hash, mask, chains, h, [e] + chains[h]);
  }

  // ---- entries by key ----

  ghost predicate Known<K, V>(nodes: map<K, Entry<K, V>>, e: Entry<K, V>) {
    e.key in nodes && nodes[e.key] == e
  }

  ghost predicate Once<K, V>(bag: multiset<Entry<K, V>>, nodes: map<K, Entry<K, V>>, k: K) {
    k in nodes ==> nodes[k].key == k && bag[nodes[k]] == 1
  }

  /** The bag holds exactly the entries of the map, each once and under its own key. */
  ghost predicate Lists<K(!new), V>(bag: multiset<Entry<K, V>>, nodes: map<K, Entry<K, V>>) {
    && (forall e {:trigger Known(nodes, e)} :: e in bag ==> Known(nodes, e))
    && (forall k {:trigger Once(bag, nodes, k)} :: Once(bag, nodes, k))
  }

  lemma ListedOnce<K(!new), V>(bag: multiset<Entry<K, V>>, nodes: map<K, Entry<K, V>>, e: Entry<K, V>)
    requires Lists(bag, nodes) && e in bag
    ensures bag[e] == 1 && Known(nodes, e)
  {
    assert Known(nodes, e);
    assert Once(bag, nodes, e.key);
  }

  lemma ListsAdded<K(!new), V>(bag: multiset<Entry<K, V>>, nodes: map<K, Entry<K, V>>, e: Entry<K, V>)
    requires Lists(bag, nodes) && e.key !in nodes
    ensures Lists(bag + multiset{e}, nodes[e.key := e]) && |nodes[e.key := e]| == |nodes| + 1 && e !in bag
  {
    var bag', nodes' := bag + multiset{e}, nodes[e.key := e];
    assert e !in bag by { assert !Known(nodes, e); }
    forall x | x in bag' ensures Known(nodes', x) {
      if x in bag { assert Known(nodes, x); }
    }
    forall k ensures Once(bag', nodes', k) {
      assert Once(bag, nodes, k);
    }
  }

  lemma ListsRemoved<K(!new), V>(bag: multiset<Entry<K, V>>, nodes: map<K, Entry<K, V>>, e: Entry<K, V>)
    requires Lists(bag, nodes) && e in bag
    ensures e.key in nodes && Lists(bag - multiset{e}, nodes - {e.key}) && |nodes - {e.key}| == |nodes| - 1
  {
    var bag', nodes' := bag - multiset{e}, nodes - {e.key};
    ListedOnce(bag, nodes, e);
    forall x | x in bag' ensures Known(nodes', x) {
      assert Known(nodes, x) && x != e;
    }
    forall k ensures Once(bag', nodes', k) {
      assert Once(bag, nodes, k);
    }
    assert nodes'.Keys == nodes.Keys - {e.key};
  }

  // ---- a whole table ----

  datatype Table<K, V> = Table(
    heads: seq<Entry?<K, V>>,
    chains: seq<Chain<K, V>>,       // the entries of each bucket
    link: Links<K, V>,              // where each entry's `next` leads
    nodes: map<K, Entry<K, V>>)     // the entry of each key
  {
    /** A new entry in front of chain h. */
    ghost function Added(h: nat, e: Entry<K, V>): Table<K, V>
      requires h < |heads| == |chains|
    {
      Table(heads[h := e], chains[h := [e] + chains[h]], link[e := heads[h]], nodes[e.key := e])
    }

    /** Entry i of chain h unlinked: past its predecessor, or at the head. */
    ghost function Cut(h: nat, i: nat): Table<K, V>
      requires h < |heads| == |chains| && i < |chains[h]| && chains[h][i] in link
    {
      Table(heads[h := CutHead(link, heads[h], chains[h], i)], chains[h := Without(chains[h], chains[h][i])],
            CutLink(link, chains[h], i), nodes - {chains[h][i].key})
    }
  }

  /** The chains behind the heads hold the known entries, each once and in the bucket of its hash. */
  ghost predicate Agrees<K(!new), V>(hash: K -> nat, mask: nat, t: Table<K, V>) {
    && AllLinked(t.link, t.heads, t.chains) && Located(hash, mask, t.chains)
    && Lists(Bag(t.chains), t.nodes) && |Bag(t.chains)| == |t.nodes|
  }

  lemma AddKeeps<K(!new), V>(hash: K -> nat, mask: nat, t: Table<K, V>, h: nat, e: Entry<K, V>)
    requires Agrees(hash, mask, t) && e.key !in t.nodes && h < |t.chains| && And(hash(e.key), mask) == h
    ensures Agrees(hash, mask, t.Added(h, e)) && |t.Added(h, e).nodes| == |t.nodes| + 1
  {
    ListsAdded(Bag(t.chains), t.nodes, e);
    AllLinkedPush(t.link, t.heads, t.chains, h, e);
    BagPush(t.chains, h, e);
    LocatedPush(hash, mask, t.chains, h, e);
  }

  /** No entry occurs twice in a chain. */
  lemma ChainDistinct<K(!new), V>(chains: seq<Chain<K, V>>, nodes: map<K, Entry<K, V>>, h: nat)
    requires Lists(Bag(chains), nodes) && h < |chains|
    ensures Distinct(chains[h])
  {
    var chain := chains[h];
    BagUpdate(chains, h, chain);
    forall i, j | 0 <= i < j < |chain| && chain[i] == chain[j] ensures false {
      TwiceInChain(chain, i, j);
      ListedOnce(Bag(chains), nodes, chain[i]);
    }
  }

  lemma TwiceInChain<E>(chain: seq<E>, i: nat, j: nat)
    requires i < j < |chain| && chain[i] == chain[j]
    ensures multiset(chain)[chain[i]] >= 2
  {
    assert chain == chain[..i] + [chain[i]] + chain[i + 1..j] + [chain[j]] + chain[j + 1..];
  }

  /** What unlinking entry i of a chain makes of the links and of the head. */
  ghost function CutLink<K, V>(link: Links<K, V>, chain: Chain<K, V>, i: nat): Links<K, V>
    requires i < |chain| && chain[i] in link
  {
    if i == 0 then link else link[chain[i - 1] := link[chain[i]]]
  }

  ghost function CutHead<K, V>(link: Links<K, V>, head: Entry?<K, V>, chain: Chain<K, V>, i: nat): Entry?<K, V>
    requires i < |chain| && chain[i] in link
  {
    if i == 0 then link[chain[0]] else head
  }

  lemma ChainCut<K, V>(link: Links<K, V>, head: Entry?<K, V>, chain: Chain<K, V>, i: nat)
    requires Linked(link, head, chain) && Distinct(chain) && i < |chain|
    ensures chain[i] in link
    ensures Linked(CutLink(link, chain, i), CutHead(link, head, chain, i), chain[..i] + chain[i + 1..])
  {
    if i == 0 {
      assert chain[..0] + chain[1..] == chain[1..];
    } else {
      LinkedCut(link, head, chain, i);
    }
  }

  lemma TableCut<K(!new), V>(hash: K -> nat, mask: nat, heads: seq<Entry?<K, V>>, chains: seq<Chain<K, V>>,
                             link: Links<K, V>, h: nat, i: nat)
    requires AllLinked(link, heads, chains) && Located(hash, mask, chains)
    requires h < |chains| && i < |chains[h]| && Distinct(chains[h])
    ensures chains[h][i] in link
    ensures AllLinked(CutLink(link, chains[h], i), heads[h := CutHead(link, heads[h], chains[h], i)],
                      chains[h := chains[h][..i] + chains[h][i + 1..]])
  {
    var chain := chains[h];
    assert LinkedAt(link, heads, chains, h);
    ChainCut(link, heads[h], chain, i);
    var link' := CutLink(link, chain, i);
    var heads', chains' := heads[h := CutHead(link, heads[h], chain, i)], chains[h := chain[..i] + chain[i + 1..]];
    forall b: int ensures LinkedAt(link', heads', chains', b) {
      assert LinkedAt(link, heads, chains, b);
      if 0 <= b < |chains| && b != h && i > 0 {
        InOneChain(hash, mask, chains, h, chain[i - 1], b);
        LinkedElsewhere(link, chain[i - 1], link[chain[i]], heads[b], chains[b]);
      }
    }
  }

  lemma DeleteKeeps<K(!new), V>(hash: K -> nat, mask: nat, t: Table<K, V>, h: nat, i: nat)
    requires Agrees(hash, mask, t) && h < |t.chains| && i < |t.chains[h]|
    ensures t.chains[h][i] in t.link && t.chains[h][i].key in t.nodes && Distinct(t.chains[h])
    ensures Agrees(hash, mask, t.Cut(h, i)) && |t.Cut(h, i).nodes| == |t.nodes| - 1
  {
    var chain := t.chains[h];
    var chain' := chain[..i] + chain[i + 1..];
    ChainDistinct(t.chains, t.nodes, h);
    TableCut(hash, mask, t.heads, t.chains, t.link, h, i);
    BagCut(t.chains, h, i);
    ListsRemoved(Bag(t.chains), t.nodes, chain[i]);
    WithoutAt(chain, i);
    assert HousedAt(hash, mask, t.chains, h);
    forall j | 0 <= j < |chain'| ensures And(hash(chain'[j].key), mask) == h {
      assert chain'[j] == chain[if j < i then j else j + 1];
    }
    LocatedUpdate(hash, mask, t.chains, h, chain');
  }

  // ---- moving the entries to another table ----

  /** A table under construction, what is left of the bucket being moved, and the buckets behind it. */
  datatype Move<K, V> = Move(heads: seq<Entry?<K, V>>, chains: seq<Chain<K, V>>, link: Links<K, V>,
                             rest: Chain<K, V>, laterHeads: seq<Entry?<K, V>>, later: seq<Chain<K, V>>)
  {
    /** Entries not moved yet. */
    ghost function Left(): nat {
      |rest| + |Bag(later)|
    }

    ghost function All(): multiset<Entry<K, V>> {
      Bag(chains) + multiset(rest) + Bag(later)
    }

    /** The first entry of the rest goes in front of chain h. */
    ghost function Step(h: nat): Move<K, V>
      requires h < |heads| == |chains| && rest != []
    {
      this.(heads := heads[h := rest[0]], chains := chains[h := [rest[0]] + chains[h]],
            link := link[rest[0] := heads[h]], rest := rest[1..])
    }

    ghost function NextBucket(): Move<K, V>
      requires later != [] && laterHeads != []
    {
      this.(rest := later[0], laterHeads := laterHeads[1..], later := later[1..])
    }
  }

  /** Everything is linked, and nothing known is missing or there twice. */
  ghost predicate Moving<K(!new), V>(hash: K -> nat, mask: nat, nodes: map<K, Entry<K, V>>, mv: Move<K, V>) {
    && |mv.chains| == mask + 1
    && AllLinked(mv.link, mv.heads, mv.chains) && Located(hash, mask, mv.chains)
    && Linked(mv.link, First(mv.rest), mv.rest)
    && AllLinked(mv.link, mv.laterHeads, mv.later)
    && Lists(mv.All(), nodes)
  }

  /** An entry yet to be moved is at no other place. */
  lemma AtOnePlace<K(!new), V>(mv: Move<K, V>, nodes: map<K, Entry<K, V>>)
    requires Lists(mv.All(), nodes) && mv.rest != []
    ensures mv.rest[0] !in Bag(mv.chains) && mv.rest[0] !in mv.rest[1..] && mv.rest[0] !in Bag(mv.later)
  {
    var e := mv.rest[0];
    assert mv.rest == [e] + mv.rest[1..];
    ConsBag(e, mv.rest[1..]);
    assert e in mv.All();
    ListedOnce(mv.All(), nodes, e);
    assert e !in multiset(mv.rest[1..]);
  }

  lemma IsKnown<K(!new), V>(mv: Move<K, V>, nodes: map<K, Entry<K, V>>)
    requires Lists(mv.All(), nodes) && mv.rest != []
    ensures mv.rest[0] in nodes.Values
  {
    assert mv.rest[0] in multiset(mv.rest);
    ListedOnce(mv.All(), nodes, mv.rest[0]);
  }

  /** Before anything is moved, all entries are in the buckets to come. */
  lemma NothingMoved<K(!new), V>(hash: K -> nat, mask: nat, nodes: map<K, Entry<K, V>>, mv: Move<K, V>)
    requires |mv.heads| == |mv.chains| == mask + 1 && mv.rest == []
    requires forall b :: 0 <= b <= mask ==> mv.heads[b] == null && mv.chains[b] == []
    requires AllLinked(mv.link, mv.laterHeads, mv.later) && Lists(Bag(mv.later), nodes)
    ensures Moving(hash, mask, nodes, mv) && mv.All() == Bag(mv.later) && mv.Left() == |Bag(mv.later)|
  {
    EmptyBag(mv.chains);
    forall b: int ensures LinkedAt(mv.link, mv.heads, mv.chains, b) && HousedAt(hash, mask, mv.chains, b) {
    }
    assert mv.All() == Bag(mv.later);
  }

  lemma StepKeeps<K(!new), V>(hash: K -> nat, mask: nat, nodes: map<K, Entry<K, V>>, mv: Move<K, V>, h: nat)
    requires Moving(hash, mask, nodes, mv) && mv.rest != []
    requires h < |mv.chains| && h == And(hash(mv.rest[0].key), mask)
    ensures Moving(hash, mask, nodes, mv.Step(h)) && mv.Step(h).Left() == mv.Left() - 1
  {
    var e, x := mv.rest[0], mv.heads[h];
    AtOnePlace(mv, nodes);
    AllLinkedPush(mv.link, mv.heads, mv.chains, h, e);
    LocatedPush(hash, mask, mv.chains, h, e);
    LinkedFrom(mv.link, First(mv.rest), mv.rest, 1);
    LinkedElsewhere(mv.link, e, x, First(mv.rest[1..]), mv.rest[1..]);
    AllLinkedElsewhere(mv.link, e, x, mv.laterHeads, mv.later);
    StepBag(mv, h);
  }

  lemma StepBag<K, V>(mv: Move<K, V>, h: nat)
    requires h < |mv.heads| == |mv.chains| && mv.rest != []
    ensures mv.Step(h).All() == mv.All()
  {
    BagPush(mv.chains, h, mv.rest[0]);
    assert mv.rest == [mv.rest[0]] + mv.rest[1..];
    ConsBag(mv.rest[0], mv.rest[1..]);
  }

  lemma NextBucketKeeps<K(!new), V>(hash: K -> nat, mask: nat, nodes: map<K, Entry<K, V>>, mv: Move<K, V>)
    requires Moving(hash, mask, nodes, mv) && mv.rest == [] && mv.later != []
    ensures Moving(hash, mask, nodes, mv.NextBucket()) && mv.NextBucket().Left() == mv.Left()
    ensures mv.NextBucket().All() == mv.All()
    ensures mv.laterHeads[0] == First(mv.later[0])
  {
    BagFront(mv.later);
    assert mv.NextBucket().All() == mv.All();
    assert LinkedAt(mv.link, mv.laterHeads, mv.later, 0);
    forall b: int ensures LinkedAt(mv.link, mv.laterHeads[1..], mv.later[1..], b) {
      assert LinkedAt(mv.link, mv.laterHeads, mv.later, b + 1);
    }
  }

  /** When nothing is left, the new table holds all entries. */
  lemma Moved<K(!new), V>(hash: K -> nat, mask: nat, nodes: map<K, Entry<K, V>>, mv: Move<K, V>)
    requires Moving(hash, mask, nodes, mv) && mv.Left() == 0 && |mv.All()| == |nodes|
    ensures Agrees(hash, mask, Table(mv.heads, mv.chains, mv.link, nodes))
  {
    assert mv.rest == [] && Bag(mv.later) == multiset{};
    assert mv.All() == Bag(mv.chains);
  }

  // ---- what a walk has still ahead ----

  /** A chain without one of its entries. */
  ghost function Without<K, V>(chain: Chain<K, V>, e: Entry<K, V>): Chain<K, V> {
    if chain == [] then []
    else if chain[0] == e then chain[1..]
    else [chain[0]] + Without(chain[1..], e)
  }

  lemma {:induction false} WithoutAt<K, V>(chain: Chain<K, V>, i: nat)
    requires Distinct(chain) && i < |chain|
    ensures Without(chain, chain[i]) == chain[..i] + chain[i + 1..]
  {
    if i == 0 {
    } else {
      WithoutAt(chain[1..], i - 1);
      assert chain[1..][i - 1] == chain[i];
      assert chain[..i] + chain[i + 1..] == [chain[0]] + (chain[1..][..i - 1] + chain[1..][i..]);
    }
  }

  lemma {:induction false} WithoutBag<K, V>(chain: Chain<K, V>, e: Entry<K, V>)
    ensures multiset(Without(chain, e)) == multiset(chain) - multiset{e}
  {
    if chain == [] {
    } else {
      assert chain == [chain[0]] + chain[1..];
      WithoutBag(chain[1..], e);
    }
  }

  /** The chain from an entry on; nothing when there is no such entry. */
  ghost function From<K, V>(chain: Chain<K, V>, n: Entry?<K, V>): Chain<K, V> {
    if chain == [] || chain[0] == n then chain else From(chain[1..], n)
  }

  lemma {:induction false} FromAt<K, V>(chain: Chain<K, V>, i: nat)
    requires Distinct(chain) && i <= |chain|
    ensures From(chain, First(chain[i..])) == chain[i..]
    decreases i
  {
    if i == 0 {
      assert chain[0..] == chain;
    } else {
      assert chain[1..][i - 1..] == chain[i..];
      FromAt(chain[1..], i - 1);
    }
  }

  lemma {:induction false} FromIsPart<K, V>(chain: Chain<K, V>, n: Entry?<K, V>)
    ensures multiset(From(chain, n)) <= multiset(chain)
    ensures n != null && n in chain ==> From(chain, n) != [] && From(chain, n)[0] == n
    ensures n == null || n !in chain ==> From(chain, n) == []
  {
    if chain == [] || chain[0] == n {
    } else {
      assert chain == [chain[0]] + chain[1..];
      FromIsPart(chain[1..], n);
    }
  }

  /** Taking out any entry but the one the walk goes on with leaves the rest of the walk, less that entry. */
  lemma {:induction false} FromWithout<K, V>(chain: Chain<K, V>, n: Entry?<K, V>, e: Entry<K, V>)
    requires Distinct(chain) && n != e
    ensures multiset(From(Without(chain, e), n)) == multiset(From(chain, n)) - multiset{e}
  {
    if chain == [] {
    } else if chain[0] == n {
      WithoutBag(chain, e);
    } else if chain[0] == e {
      FromIsPart(chain[1..], n);
      NotInTail(chain);
    } else {
      FromWithout(chain[1..], n, e);
      SkipFirst(chain, n, e);
    }
  }

  lemma NotInTail<K, V>(chain: Chain<K, V>)
    requires Distinct(chain) && chain != []
    ensures chain[0] !in multiset(chain[1..])
  {
  }

  lemma SkipFirst<K, V>(chain: Chain<K, V>, n: Entry?<K, V>, e: Entry<K, V>)
    requires chain != [] && chain[0] != n && chain[0] != e
    ensures From(Without(chain, e), n) == From(Without(chain[1..], e), n)
  {
    assert Without(chain, e)[1..] == Without(chain[1..], e);
  }

  lemma {:induction false} StillThere<K, V>(chain: Chain<K, V>, n: Entry<K, V>, e: Entry<K, V>)
    requires Distinct(chain)
    ensures n in Without(chain, e) <==> n in chain && n != e
  {
    if chain == [] {
    } else {
      StillThere(chain[1..], n, e);
    }
  }

  /** The buckets behind bucket i. */
  ghost function Later<E>(chains: seq<seq<E>>, i: int): multiset<E>
    requires -1 <= i
  {
    if i >= |chains| then multiset{} else Bag(chains[i + 1..])
  }

  lemma LaterSplits<E>(chains: seq<seq<E>>, i: int)
    requires -1 <= i
    ensures Later(chains, i) ==
            (if i + 1 < |chains| then multiset(chains[i + 1]) else multiset{}) + Later(chains, i + 1)
  {
    if i + 1 < |chains| {
      var rest := chains[i + 1..];
      BagFront(rest);
      assert rest[0] == chains[i + 1] && rest[1..] == chains[i + 2..];
    } else if i + 1 == |chains| {
      assert chains[i + 1..] == [];
    }
  }

  lemma LaterUpdate<E>(chains: seq<seq<E>>, i: int, h: nat, c: seq<E>)
    requires -1 <= i && h < |chains|
    ensures i < h ==> multiset(chains[h]) <= Later(chains, i)
    ensures Later(chains[h := c], i) ==
            if i < h then Later(chains, i) - multiset(chains[h]) + multiset(c) else Later(chains, i)
  {
    var chains' := chains[h := c];
    if i < h {
      assert chains'[i + 1..] == chains[i + 1..][h - i - 1 := c];
      BagUpdate(chains[i + 1..], h - i - 1, c);
    } else if i < |chains| {
      assert chains'[i + 1..] == chains[i + 1..];
    }
  }

  /** The present bucket from the saved entry on. */
  ghost function Now<K, V>(chains: seq<Chain<K, V>>, index: int, entry: Entry?<K, V>, next: Entry?<K, V>)
    : Chain<K, V>
  {
    if entry != null && 0 <= index < |chains| then From(chains[index], next) else []
  }

  /** What a walk that is in bucket `index`, has returned `entry` and saved `next` has not returned yet. */
  ghost function Ahead<K, V>(chains: seq<Chain<K, V>>, index: int, entry: Entry?<K, V>, next: Entry?<K, V>)
    : multiset<Entry<K, V>>
    requires -1 <= index
  {
    multiset(Now(chains, index, entry, next)) + Later(chains, index)
  }

  /** The walk can go on: the saved entry, if it matters, is in the present bucket. */
  ghost predicate Saved<K, V>(chains: seq<Chain<K, V>>, index: int, entry: Entry?<K, V>, next: Entry?<K, V>) {
    -1 <= index && (entry != null ==> 0 <= index < |chains| && (next != null ==> next in chains[index]))
  }

  /** The same once the walk has moved on to `entry` but not returned it. */
  ghost function Pending<K, V>(chains: seq<Chain<K, V>>, index: int, entry: Entry?<K, V>): multiset<Entry<K, V>>
    requires 0 <= index < |chains|
  {
    multiset(From(chains[index], entry)) + Later(chains, index)
  }

  /** From the end of a bucket the walk goes to the head of the next, if there is one. */
  lemma EnterBucket<K, V>(chains: seq<Chain<K, V>>, index: int, next: Entry?<K, V>)
    requires -1 <= index
    ensures index + 1 < |chains| ==>
              Ahead(chains, index, null, next) == Pending(chains, index + 1, First(chains[index + 1]))
    ensures index + 1 >= |chains| ==> Ahead(chains, index, null, next) == multiset{}
  {
    LaterSplits(chains, index);
  }

  /** Going to the saved entry. */
  lemma ResumeSaved<K, V>(chains: seq<Chain<K, V>>, index: int, entry: Entry?<K, V>, next: Entry?<K, V>)
    requires 0 <= index < |chains| && entry != null
    ensures Ahead(chains, index, entry, next) == Pending(chains, index, next)
  {
  }

  /** At the end of a bucket only later ones are left. */
  lemma BucketDone<K, V>(chains: seq<Chain<K, V>>, index: int, next: Entry?<K, V>)
    requires 0 <= index < |chains|
    ensures Ahead(chains, index, null, next) == Pending(chains, index, null)
  {
    FromIsPart(chains[index], null);
  }

  lemma NothingSeen<K, V>(chains: seq<Chain<K, V>>)
    ensures Ahead(chains, -1, null, null) == Bag(chains)
  {
    assert chains[0..] == chains;
  }

  lemma {:induction false} TailBag<E>(chains: seq<seq<E>>, i: nat)
    requires i <= |chains|
    ensures Bag(chains[i..]) <= Bag(chains)
    decreases i
  {
    if i == 0 {
      assert chains[0..] == chains;
    } else {
      BagFront(chains);
      assert chains[1..][i - 1..] == chains[i..];
      TailBag(chains[1..], i - 1);
    }
  }

  lemma AheadInBag<K, V>(chains: seq<Chain<K, V>>, index: int, entry: Entry?<K, V>, next: Entry?<K, V>)
    requires -1 <= index
    ensures Ahead(chains, index, entry, next) <= Bag(chains)
  {
    if 0 <= index < |chains| {
      TailBag(chains, index);
      BagFront(chains[index..]);
      assert chains[index..][1..] == chains[index + 1..];
      FromIsPart(chains[index], next);
    } else if index < 0 {
      NothingSeen(chains);
    }
  }

  lemma NotLater<K, V>(hash: K -> nat, mask: nat, chains: seq<Chain<K, V>>, h: nat, e: Entry<K, V>, i: int)
    requires Located(hash, mask, chains) && h < |chains| && e in chains[h] && h <= i
    ensures e !in Later(chains, i)
  {
    if e in Later(chains, i) {
      var b := BagHolds(chains[i + 1..], e);
      InOneChain(hash, mask, chains, h, e, i + 1 + b);
    }
  }

  lemma InOneChain<K, V>(hash: K -> nat, mask: nat, chains: seq<Chain<K, V>>, h: nat, e: Entry<K, V>, b: nat)
    requires Located(hash, mask, chains) && h < |chains| && e in chains[h] && b < |chains| && b != h
    ensures e !in chains[b]
  {
    assert HousedAt(hash, mask, chains, h) && HousedAt(hash, mask, chains, b);
  }

  lemma SubtractPart<E>(whole: multiset<E>, chain: multiset<E>, e: E)
    requires chain <= whole && e in chain
    ensures whole - chain + (chain - multiset{e}) == whole - multiset{e}
  {
  }

  lemma LaterWithout<K, V>(hash: K -> nat, mask: nat, chains: seq<Chain<K, V>>, h: nat, e: Entry<K, V>, i: int)
    requires Located(hash, mask, chains) && h < |chains| && e in chains[h] && -1 <= i
    ensures Later(chains[h := Without(chains[h], e)], i) == Later(chains, i) - multiset{e}
  {
    WithoutBag(chains[h], e);
    LaterUpdate(chains, i, h, Without(chains[h], e));
    if i < h {
      SubtractPart(Later(chains, i), multiset(chains[h]), e);
    } else {
      NotLater(hash, mask, chains, h, e, i);
    }
  }

  lemma NowWithout<K, V>(hash: K -> nat, mask: nat, chains: seq<Chain<K, V>>, h: nat, e: Entry<K, V>,
                         index: int, entry: Entry?<K, V>, next: Entry?<K, V>)
    requires Located(hash, mask, chains) && h < |chains| && e in chains[h] && Distinct(chains[h])
    requires entry != null ==> next != e
    ensures multiset(Now(chains[h := Without(chains[h], e)], index, entry, next)) ==
            multiset(Now(chains, index, entry, next)) - multiset{e}
    ensures h != index ==> e !in multiset(Now(chains, index, entry, next))
  {
    if entry != null && 0 <= index < |chains| {
      if h == index {
        FromWithout(chains[h], next, e);
      } else {
        InOneChain(hash, mask, chains, h, e, index);
        FromIsPart(chains[index], next);
      }
    }
  }

  lemma RemovedOnce<E>(a: multiset<E>, b: multiset<E>, e: E)
    requires e !in a || e !in b
    ensures (a - multiset{e}) + (b - multiset{e}) == a + b - multiset{e}
  {
  }

  /** Taking an entry out of its chain takes it, and nothing else, from what is ahead. */
  lemma AheadWithout<K, V>(hash: K -> nat, mask: nat, chains: seq<Chain<K, V>>, h: nat, e: Entry<K, V>,
                           index: int, entry: Entry?<K, V>, next: Entry?<K, V>)
    requires Located(hash, mask, chains) && h < |chains| && e in chains[h] && Distinct(chains[h]) && -1 <= index
    requires entry != null ==> next != e
    ensures Ahead(chains[h := Without(chains[h], e)], index, entry, next) ==
            Ahead(chains, index, entry, next) - multiset{e}
  {
    LaterWithout(hash, mask, chains, h, e, index);
    NowWithout(hash, mask, chains, h, e, index, entry, next);
    if h == index {
      NotLater(hash, mask, chains, h, e, index);
    }
    RemovedOnce(multiset(Now(chains, index, entry, next)), Later(chains, index), e);
  }

  /** The saved entry is still in its bucket, unless it is the one taken out. */
  lemma DropKeeps<K(!new), V>(hash: K -> nat, mask: nat, t: Table<K, V>, h: nat, e: Entry<K, V>,
                              index: int, entry: Entry?<K, V>, next: Entry?<K, V>)
    requires Agrees(hash, mask, t) && h < |t.chains| && e in t.chains[h] && Saved(t.chains, index, entry, next)
    ensures
      var chains' := t.chains[h := Without(t.chains[h], e)];
      && (Saved(chains', index, entry, next) <==> !(entry != null && next == e))
      && (!(entry != null && next == e) ==>
            Ahead(chains', index, entry, next) == Ahead(t.chains, index, entry, next) - multiset{e})
  {
    ChainDistinct(t.chains, t.nodes, h);
    if entry != null && next != null {
      StillThere(t.chains[h], next, e);
      if h != index {
        InOneChain(hash, mask, t.chains, h, e, index);
      }
    }
    if !(entry != null && next == e) {
      AheadWithout(hash, mask, t.chains, h, e, index, entry, next);
    }
  }

  /** An entry that has been returned is not ahead. */
  lemma ReturnedOnce<K(!new), V>(t: Table<K, V>, r: Entry<K, V>, rest: multiset<Entry<K, V>>)
    requires Lists(Bag(t.chains), t.nodes) && multiset{r} + rest <= Bag(t.chains)
    ensures r !in rest
  {
    assert r in multiset{r} + rest;
    ListedOnce(Bag(t.chains), t.nodes, r);
  }

  lemma RemovedNothing<E>(bag: multiset<E>, e: E)
    requires e !in bag
    ensures bag - multiset{e} == bag
  {
  }

  // ---- what a walk has returned ----

  /** The pairs are those of the map, each key once. */
  ghost predicate Enumerates<K, V>(visited: seq<(K, V)>, m: map<K, V>) {
    && |visited| == |m|
    && (forall i :: 0 <= i < |visited| ==> visited[i].0 in m && m[visited[i].0] == visited[i].1)
    && (forall i, j :: 0 <= i < j < |visited| ==> visited[i].0 != visited[j].0)
  }

  /** The pairs a walk over these entries reports. */
  ghost predicate Reports<K, V>(visited: seq<(K, V)>, seen: Chain<K, V>, m: map<K, V>) {
    && |visited| == |seen|
    && forall i :: 0 <= i < |seen| ==> seen[i].key in m && visited[i] == (seen[i].key, m[seen[i].key])
  }

  lemma ReportsAll<K(!new), V>(visited: seq<(K, V)>, seen: Chain<K, V>, nodes: map<K, Entry<K, V>>, m: map<K, V>)
    requires Reports(visited, seen, m) && Lists(multiset(seen), nodes) && |seen| == |nodes| && m.Keys == nodes.Keys
    ensures Enumerates(visited, m)
  {
    forall i, j | 0 <= i < j < |seen| ensures seen[i].key != seen[j].key {
      assert seen[i] in multiset(seen) && seen[j] in multiset(seen);
      ListedOnce(multiset(seen), nodes, seen[i]);
      ListedOnce(multiset(seen), nodes, seen[j]);
      if seen[i] == seen[j] { TwiceInChain(seen, i, j); }
    }
    assert |m.Keys| == |m| && |nodes.Keys| == |nodes|;
  }

  ghost function Doomed<K, V>(seen: Chain<K, V>, doomed: K -> bool): set<K> {
    set i | 0 <= i < |seen| && doomed(seen[i].key) :: seen[i].key
  }

  /** The entries of a map whose keys are not doomed. */
  ghost function Spared<K, V>(m: map<K, V>, doomed: K -> bool): map<K, V> {
    map k | k in m && !doomed(k) :: m[k]
  }

  lemma SparedByWalk<K(!new), V>(seen: Chain<K, V>, nodes: map<K, Entry<K, V>>, m: map<K, V>, doomed: K -> bool)
    requires Lists(multiset(seen), nodes) && m.Keys == nodes.Keys
    ensures m - Doomed(seen, doomed) == Spared(m, doomed)
  {
    forall k | k in m && doomed(k) ensures k in Doomed(seen, doomed) {
      assert Once(multiset(seen), nodes, k);
      var i :| 0 <= i < |seen| && seen[i] == nodes[k];
      assert seen[i].key == k;
    }
  }

  /** One more entry seen, and deleted if it is doomed. */
  lemma SeeOne<K, V>(seen: Chain<K, V>, e: Entry<K, V>, was: multiset<Entry<K, V>>, ahead: multiset<Entry<K, V>>,
                     m: map<K, V>, doomed: K -> bool)
    requires was == multiset{e} + ahead
    ensures multiset(seen + [e]) + ahead == multiset(seen) + was && |ahead| < |was|
    ensures
      var left := m - Doomed(seen, doomed);
      m - Doomed(seen + [e], doomed) == if doomed(e.key) then left - {e.key} else left
  {
    var more := seen + [e];
    assert Doomed(more, doomed) == Doomed(seen, doomed) + if doomed(e.key) then {e.key} else {} by {
      assert forall i :: 0 <= i < |seen| ==> more[i] == seen[i];
      assert more[|seen|] == e;
    }
  }

  /** A walk over t that has seen and reported some entries, has others ahead, and has left m of the map. */
  ghost predicate Walking<K, V>(t: Table<K, V>, m0: map<K, V>, doomed: K -> bool, seen: Chain<K, V>,
                                visited: seq<(K, V)>, ahead: multiset<Entry<K, V>>, m: map<K, V>) {
    multiset(seen) + ahead == Bag(t.chains) && m == m0 - Doomed(seen, doomed) && Reports(visited, seen, m0)
  }

  lemma WalkStarts<K, V>(t: Table<K, V>, m0: map<K, V>, doomed: K -> bool)
    ensures Walking(t, m0, doomed, [], [], Bag(t.chains), m0)
  {
    assert m0 - {} == m0;
  }

  lemma WalkStep<K, V>(t: Table<K, V>, m0: map<K, V>, doomed: K -> bool, seen: Chain<K, V>, visited: seq<(K, V)>,
                       was: multiset<Entry<K, V>>, m: map<K, V>, e: Entry<K, V>, ahead: multiset<Entry<K, V>>)
    requires Walking(t, m0, doomed, seen, visited, was, m) && was == multiset{e} + ahead && e.key in m
    ensures |ahead| < |was|
    ensures Walking(t, m0, doomed, seen + [e], visited + [(e.key, m[e.key])], ahead,
                    if doomed(e.key) then m - {e.key} else m)
  {
    SeeOne(seen, e, was, ahead, m0, doomed);
  }

  lemma WalkEnds<K(!new), V>(t: Table<K, V>, m0: map<K, V>, doomed: K -> bool, seen: Chain<K, V>,
                             visited: seq<(K, V)>, m: map<K, V>)
    requires Walking(t, m0, doomed, seen, visited, multiset{}, m)
    requires Lists(Bag(t.chains), t.nodes) && |Bag(t.chains)| == |t.nodes| && m0.Keys == t.nodes.Keys
    ensures Enumerates(visited, m0) && m == Spared(m0, doomed)
  {
    assert multiset(seen) == Bag(t.chains) && |multiset(seen)| == |seen|;
    ReportsAll(visited, seen, t.nodes, m0);
    SparedByWalk(seen, t.nodes, m0, doomed);
  }
}
