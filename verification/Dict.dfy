/** The chained hash table: an array of linked chains of entries, doubled when full. */
module Dict {
  import opened Masks
  import opened Chains

  /** The links the proofs speak of are those in the entries. */
  ghost predicate Mirrors<K, V>(entries: set<Entry<K, V>>, link: Links<K, V>)
    reads entries`next
  {
    forall e :: e in entries ==> e in link && link[e] == e.next
  }

  ghost predicate Carries<K, V(!new)>(nodes: map<K, Entry<K, V>>, m: map<K, V>, k: K)
    reads nodes.Values`val
  {
    (k in nodes <==> k in m) && (k in nodes ==> nodes[k].val == m[k])
  }

  /** The entries carry the values of the map. */
  ghost predicate Stores<K(!new), V(!new)>(nodes: map<K, Entry<K, V>>, m: map<K, V>)
    reads nodes.Values`val
  {
    forall k {:trigger Carries(nodes, m, k)} :: Carries(nodes, m, k)
  }

  lemma SameKeys<K(!new), V(!new)>(nodes: map<K, Entry<K, V>>, m: map<K, V>)
    requires Stores(nodes, m)
    ensures m.Keys == nodes.Keys
  {
    forall k ensures k in m <==> k in nodes {
      assert Carries(nodes, m, k);
    }
  }

  lemma StoresAdded<K(!new), V(!new)>(nodes: map<K, Entry<K, V>>, m: map<K, V>, e: Entry<K, V>)
    requires Stores(nodes, m)
    ensures Stores(nodes[e.key := e], m[e.key := e.val])
  {
    var nodes', m' := nodes[e.key := e], m[e.key := e.val];
    forall k ensures Carries(nodes', m', k) {
      assert Carries(nodes, m, k);
    }
  }

  lemma StoresRemoved<K(!new), V(!new)>(nodes: map<K, Entry<K, V>>, m: map<K, V>, key: K)
    requires Stores(nodes, m)
    ensures Stores(nodes - {key}, m - {key})
  {
    var nodes', m' := nodes - {key}, m - {key};
    forall k ensures Carries(nodes', m', k) {
      assert Carries(nodes, m, k);
    }
  }

  lemma FirstOf<T>(s: seq<T>, i: nat)
    requires i < |s|
    ensures s[i..] == [s[i]] + s[i + 1..]
  {
  }

  class Dict<K(==, !new), V(!new)> {
    const hash: K -> nat
    var table: array<Entry?<K, V>>
    var size: nat
    var sizemask: nat
    var used: nat
    ghost var bits: nat
    ghost var t: Table<K, V>
    ghost var m: map<K, V>

    /** The size is zero or a power of two of at least four. */
    ghost predicate Shaped()
      reads this`table, this`size, this`sizemask, this`bits
    {
      && table.Length == size
      && (size > 0 ==> bits >= 2 && size == Pow2(bits) && sizemask == size - 1)
    }

    /** The linked chains agree with the map: no entry is lost, repeated or misplaced, and all fit. */
    ghost predicate Valid()
      reads this, table, t.nodes.Values
    {
      && Shaped() && used == |t.nodes| <= size
      && table[..] == t.heads && Agrees(hash, sizemask, t)
      && Mirrors(t.nodes.Values, t.link) && Stores(t.nodes, m)
    }

    constructor (hash: K -> nat)
      ensures Valid() && m == map[] && this.hash == hash && fresh(table) && t.nodes == map[]
    {
      this.hash := hash;
      table := new Entry?<K, V>[0];
      size, sizemask, used, bits, t, m := 0, 0, 0, 0, Table([], [], map[], map[]), map[];
    }

    /** What the source reads when it follows a chain. */
    lemma Follow(h: nat, i: nat)
      requires Valid() && h < size && i < |t.chains[h]|
      ensures Known(t.nodes, t.chains[h][i]) && t.chains[h][i] in t.nodes.Values
      ensures t.chains[h][i].next == First(t.chains[h][i + 1..])
    {
      assert LinkedAt(t.link, t.heads, t.chains, h);
      LinkedFrom(t.link, t.heads[h], t.chains[h], i);
      InBag(t.chains, h, t.chains[h][i]);
      ListedOnce(Bag(t.chains), t.nodes, t.chains[h][i]);
    }

    /** The chain from an entry on is that entry and the chain from its successor on. */
    lemma Successor(h: nat, e: Entry<K, V>)
      requires Valid() && h < size && e in t.chains[h]
      ensures Known(t.nodes, e) && e in t.nodes.Values && e.next != e && (e.next != null ==> e.next in t.chains[h])
      ensures multiset(From(t.chains[h], e)) == multiset{e} + multiset(From(t.chains[h], e.next))
    {
      var chain := t.chains[h];
      var i :| 0 <= i < |chain| && chain[i] == e;
      Follow(h, i);
      ChainDistinct(t.chains, t.nodes, h);
      FromAt(chain, i);
      FromAt(chain, i + 1);
      FirstOf(chain, i);
    }

    lemma HeadOf(b: nat)
      requires Valid() && b < size
      ensures |t.chains| == size && table[b] == First(t.chains[b])
    {
      assert LinkedAt(t.link, t.heads, t.chains, b);
    }

    lemma ValueOf(e: Entry<K, V>)
      requires Valid() && Known(t.nodes, e)
      ensures e.key in m && e.val == m[e.key]
    {
      assert Carries(t.nodes, m, e.key);
    }

    lemma BucketOf(key: K) returns (i: nat)
      requires Valid() && size > 0 && key in t.nodes
      ensures And(hash(key), sizemask) < size
      ensures i < |t.chains[And(hash(key), sizemask)]| && t.chains[And(hash(key), sizemask)][i] == t.nodes[key]
    {
      assert Once(Bag(t.chains), t.nodes, key);
      var b := BagHolds(t.chains, t.nodes[key]);
      assert HousedAt(hash, sizemask, t.chains, b);
      i :| 0 <= i < |t.chains[b]| && t.chains[b][i] == t.nodes[key];
    }

    /** A key that is not in its bucket is nowhere. */
    lemma Absent(key: K, h: nat)
      requires Valid() && h == And(hash(key), sizemask) < size
      requires forall j :: 0 <= j < |t.chains[h]| ==> t.chains[h][j].key != key
      ensures key !in t.nodes
    {
      if key in t.nodes {
        assert Once(Bag(t.chains), t.nodes, key);
        var i := BucketOf(key);
      }
    }

    /** Walks along the bucket of a key, keeping the entry before the present one. */
    method Search(key: K) returns (h: nat, he: Entry?<K, V>, prev: Entry?<K, V>, ghost i: nat)
      requires Valid() && size > 0
      ensures h == And(hash(key), sizemask) < size
      ensures he == null <==> key !in t.nodes
      ensures he == null <==> key !in m
      ensures he != null ==> he == t.nodes[key] && he.key == key && i < |t.chains[h]| && t.chains[h][i] == he
      ensures he != null ==> prev == if i == 0 then null else t.chains[h][i - 1]
    {
      assert Carries(t.nodes, m, key);
      ghost var q := AndMask(hash(key), bits);
      h := And(hash(key), sizemask);
      he, prev, i := table[h], null, 0;
      assert LinkedAt(t.link, t.heads, t.chains, h);
      LinkedFrom(t.link, t.heads[h], t.chains[h], 0);
      assert t.chains[h][0..] == t.chains[h];
      while he != null
        invariant i <= |t.chains[h]| && he == First(t.chains[h][i..])
        invariant prev == if i == 0 then null else t.chains[h][i - 1]
        invariant forall j :: 0 <= j < i ==> t.chains[h][j].key != key
        decreases |t.chains[h]| - i
      {
        Follow(h, i);
        if he.key == key {
          return;
        }
        prev, he, i := he, he.next, i + 1;
      }
      Absent(key, h);
    }

    /** The value stored under a key, if any. */
    method Find(key: K) returns (r: seq<V>)
      requires Valid()
      ensures r == if key in m then [m[key]] else []
    {
      if size == 0 {
        Unaffected(key);
        return [];
      }
      assert Carries(t.nodes, m, key);
      var h, he, prev, _ := Search(key);
      return if he != null then [he.val] else [];
    }

    /** Relinks one chain of the old table into the new one, entry by entry. */
    method MoveChain(n: array<Entry?<K, V>>, first: Entry?<K, V>, count: nat,
                     ghost known: map<K, Entry<K, V>>, ghost from: Move<K, V>)
      returns (left: nat, ghost mv: Move<K, V>)
      requires n.Length > 0 && n[..] == from.heads && Moving(hash, n.Length - 1, known, from)
      requires first == First(from.rest) && count == from.Left() && Mirrors(known.Values, from.link)
      modifies n, known.Values`next
      ensures n[..] == mv.heads && Moving(hash, n.Length - 1, known, mv) && Mirrors(known.Values, mv.link)
      ensures mv.rest == [] && mv.later == from.later && mv.laterHeads == from.laterHeads
      ensures left == mv.Left() && mv.All() == from.All()
    {
      var he := first;
      left, mv := count, from;
      while he != null
        invariant n[..] == mv.heads && Moving(hash, n.Length - 1, known, mv) && Mirrors(known.Values, mv.link)
        invariant he == First(mv.rest) && mv.later == from.later && mv.laterHeads == from.laterHeads
        invariant left == mv.Left() && mv.All() == from.All()
        decreases |mv.rest|
      {
        he, left, mv := MoveEntry(n, he, left, known, mv);
      }
    }

    /** One entry becomes the head of its new chain. */
    method MoveEntry(n: array<Entry?<K, V>>, he: Entry<K, V>, count: nat,
                     ghost known: map<K, Entry<K, V>>, ghost from: Move<K, V>)
      returns (nextHe: Entry?<K, V>, left: nat, ghost mv: Move<K, V>)
      requires n.Length > 0 && n[..] == from.heads && Moving(hash, n.Length - 1, known, from)
      requires he == First(from.rest) && count == from.Left() && Mirrors(known.Values, from.link)
      modifies n, known.Values`next
      ensures n[..] == mv.heads && Moving(hash, n.Length - 1, known, mv) && Mirrors(known.Values, mv.link)
      ensures nextHe == First(mv.rest) && mv.later == from.later && mv.laterHeads == from.laterHeads
      ensures left == mv.Left() && mv.All() == from.All() && |mv.rest| == |from.rest| - 1
    {
      LinkedFrom(from.link, First(from.rest), from.rest, 0);
      IsKnown(from, known);
      nextHe := he.next;
      var h := And(hash(he.key), n.Length - 1);
      AndAtMost(hash(he.key), n.Length - 1);
      StepKeeps(hash, n.Length - 1, known, from, h);
      StepBag(from, h);
      Relink(n, h, he, known.Values, from.link);
      left, mv := count - 1, from.Step(h);
    }

    method Relink(n: array<Entry?<K, V>>, h: nat, he: Entry<K, V>,
                  ghost entries: set<Entry<K, V>>, ghost link: Links<K, V>)
      requires h < n.Length && he in entries && Mirrors(entries, link)
      modifies n, he`next
      ensures n[..] == old(n[..])[h := he] && Mirrors(entries, link[he := old(n[h])])
    {
      he.next := n[h];
      n[h] := he;
    }

    /** The bucket at the front of those to come is moved. */
    method MoveBucket(n: array<Entry?<K, V>>, he: Entry?<K, V>, count: nat,
                      ghost known: map<K, Entry<K, V>>, ghost from: Move<K, V>)
      returns (left: nat, ghost mv: Move<K, V>)
      requires n.Length > 0 && n[..] == from.heads && Moving(hash, n.Length - 1, known, from)
      requires from.rest == [] && from.later != [] && he == from.laterHeads[0]
      requires count == from.Left() && Mirrors(known.Values, from.link)
      modifies n, known.Values`next
      ensures n[..] == mv.heads && Moving(hash, n.Length - 1, known, mv) && Mirrors(known.Values, mv.link)
      ensures mv.rest == [] && mv.later == from.later[1..] && mv.laterHeads == from.laterHeads[1..]
      ensures left == mv.Left() && mv.All() == from.All()
    {
      NextBucketKeeps(hash, n.Length - 1, known, from);
      left, mv := MoveChain(n, he, count, known, from.NextBucket());
    }

    /** Moves every entry to a new table; the walk stops as soon as the entry count says that all have been seen. */
    method Rehash(n: array<Entry?<K, V>>, ghost known: map<K, Entry<K, V>>, ghost from: Move<K, V>)
      returns (ghost mv: Move<K, V>)
      requires n.Length > 0 && n != table && n[..] == from.heads && Moving(hash, n.Length - 1, known, from)
      requires Mirrors(known.Values, from.link) && from.rest == []
      requires table.Length == size == |from.later| && table[..] == from.laterHeads && used == from.Left()
      modifies n, known.Values`next
      ensures n[..] == mv.heads && Moving(hash, n.Length - 1, known, mv) && Mirrors(known.Values, mv.link)
      ensures mv.Left() == 0 && mv.All() == from.All()
    {
      var left, i := used, 0;
      mv := from;
      ghost var heads := from.laterHeads;
      while i < size && left > 0
        invariant 0 <= i <= size && n[..] == mv.heads
        invariant Moving(hash, n.Length - 1, known, mv) && Mirrors(known.Values, mv.link)
        invariant mv.rest == [] && mv.laterHeads == heads[i..] && |mv.later| == size - i
        invariant left == mv.Left() && mv.All() == from.All()
      {
        assert table[i] == heads[i];
        left, mv := MoveBucket(n, table[i], left, known, mv);
        assert heads[i..][1..] == heads[i + 1..];
        i := i + 1;
      }
    }

    /** A new table with the entries of the present one; the old table is no longer usable. */
    method Rebuilt(realsize: nat) returns (n: array<Entry?<K, V>>, ghost t': Table<K, V>)
      requires Valid() && realsize > 0
      modifies t.nodes.Values`next
      ensures fresh(n) && n.Length == realsize && n[..] == t'.heads && t'.nodes == t.nodes
      ensures Agrees(hash, realsize - 1, t') && Mirrors(t.nodes.Values, t'.link)
    {
      n := new Entry?<K, V>[realsize](_ => null);
      ghost var from := Move(n[..], seq(realsize, _ => []), t.link, [], table[..], t.chains);
      NothingMoved(hash, realsize - 1, t.nodes, from);
      ghost var mv := Rehash(n, t.nodes, from);
      Moved(hash, realsize - 1, t.nodes, mv);
      t' := Table(mv.heads, mv.chains, mv.link, t.nodes);
    }

    /** Gives the table at least the requested size; refused when the entries would not fit. */
    method Expand(newsize: nat) returns (ok: bool)
      requires Valid() && newsize > 0
      modifies this, t.nodes.Values`next
      ensures Valid() && m == old(m) && t.nodes == old(t.nodes) && used == old(used)
      ensures ok == (used <= newsize) && (ok ==> size >= newsize && fresh(table)) && (!ok ==> table == old(table))
      ensures ok ==> size == Pow2(bits) && bits >= 2 && (bits > 2 ==> Pow2(bits - 1) < newsize)
    {
      var realsize;
      ghost var k;
      realsize, k := NextPower(newsize);
      if used > newsize {
        return false;
      }
      Grow(realsize, k);
      return true;
    }

    method Grow(realsize: nat, ghost k: nat)
      requires Valid() && k >= 2 && realsize == Pow2(k) && used <= realsize
      modifies this`table, this`size, this`sizemask, this`bits, this`t, t.nodes.Values`next
      ensures Valid() && t.nodes == old(t.nodes) && size == realsize && bits == k && fresh(table)
    {
      var n;
      ghost var t';
      n, t' := Rebuilt(realsize);
      Install(n, k, t');
    }

    /** Remaps the dictionary to the new table. */
    method Install(n: array<Entry?<K, V>>, ghost k: nat, ghost t': Table<K, V>)
      requires k >= 2 && n.Length == Pow2(k) && used == |t.nodes| <= n.Length && Stores(t.nodes, m)
      requires n[..] == t'.heads && t'.nodes == t.nodes
      requires Agrees(hash, n.Length - 1, t') && Mirrors(t.nodes.Values, t'.link)
      modifies this`table, this`size, this`sizemask, this`bits, this`t
      ensures Valid() && table == n && t == t' && bits == k
    {
      table, size, sizemask, bits := n, n.Length, n.Length - 1, k;
      t := t';
    }

    /** Creates the table on first use and doubles it when it is full. */
    method ExpandIfNeeded()
      requires Valid()
      modifies this, t.nodes.Values`next
      ensures Valid() && m == old(m) && t.nodes == old(t.nodes) && used == old(used) && used < size
      ensures size == if old(size) == 0 then 4 else if used == old(size) then 2 * old(size) else old(size)
      ensures table == old(table) || fresh(table)
    {
      ghost var k := bits;
      if size == 0 {
        var ok := Expand(INITIAL_SIZE);
        assert Pow2(2) == 4;
        SamePower(bits, 2);
      } else if used == size {
        var ok := Expand(size * 2);
        SamePower(bits, k + 1);
      }
    }

    /** Adds an entry in front of its chain; refused when the key is there already. */
    method Add(key: K, val: V) returns (ok: bool)
      requires Valid()
      modifies this, table, t.nodes.Values`next
      ensures Valid() && ok == (key !in old(m)) && m == if ok then old(m)[key := val] else old(m)
      ensures size > 0 && (table == old(table) || fresh(table)) && fresh(t.nodes.Values - old(t.nodes.Values))
    {
      ExpandIfNeeded();
      var h, he, prev, _ := Search(key);
      if he != null {
        return false;
      }
      Push(h, key, val);
      return true;
    }

    lemma AddReady(h: nat, e: Entry<K, V>)
      requires Valid() && h < size && e.key !in t.nodes && And(hash(e.key), sizemask) == h && e.next == table[h]
      ensures |t.chains| == |t.heads| == size
      ensures Agrees(hash, sizemask, t.Added(h, e)) && |t.Added(h, e).nodes| == used + 1
      ensures Stores(t.Added(h, e).nodes, m[e.key := e.val]) && Mirrors(t.Added(h, e).nodes.Values, t.Added(h, e).link)
    {
      AddKeeps(hash, sizemask, t, h, e);
      StoresAdded(t.nodes, m, e);
    }

    /** The new entry becomes the head of its chain. */
    method Push(h: nat, key: K, val: V)
      requires Valid() && used < size && key !in t.nodes && h == And(hash(key), sizemask) < size
      modifies this`used, this`t, this`m, table
      ensures Valid() && m == old(m)[key := val] && fresh(t.nodes.Values - old(t.nodes.Values))
    {
      var e := new Entry(key, val, table[h]);
      PushEntry(h, e);
    }

    method PushEntry(h: nat, e: Entry<K, V>)
      requires Valid() && used < size && e.key !in t.nodes
      requires h == And(hash(e.key), sizemask) < size && e.next == table[h]
      modifies this`used, this`t, this`m, table
      ensures Valid() && m == old(m)[e.key := e.val] && t.nodes == old(t.nodes)[e.key := e]
    {
      AddReady(h, e);
      SetHead(h, e);
      Adopt(used + 1, t.Added(h, e), m[e.key := e.val]);
    }

    /** The table in memory now stands for t' and m', with so many entries. */
    method Adopt(count: nat, ghost t': Table<K, V>, ghost m': map<K, V>)
      requires Shaped() && count == |t'.nodes| <= size && table[..] == t'.heads && Agrees(hash, sizemask, t')
      requires Mirrors(t'.nodes.Values, t'.link) && Stores(t'.nodes, m')
      modifies this`used, this`t, this`m
      ensures Valid() && t == t' && m == m'
    {
      used, t, m := count, t', m';
    }

    method SetHead(h: nat, e: Entry?<K, V>)
      requires h < table.Length
      modifies table
      ensures table[..] == old(table[..])[h := e]
    {
      table[h] := e;
    }

    /** Sets the value of a key; tells whether the key is new. */
    method Replace(key: K, val: V) returns (added: bool)
      requires Valid()
      modifies this, table, t.nodes.Values
      ensures Valid() && added == (key !in old(m)) && m == old(m)[key := val]
      ensures (table == old(table) || fresh(table)) && fresh(t.nodes.Values - old(t.nodes.Values))
    {
      added := Add(key, val);
      if !added {
        Update(key, val);
      }
    }

    /** Sets the value of a key that is there. */
    method Update(key: K, val: V)
      requires Valid() && key in m
      modifies this`m, t.nodes.Values`val
      ensures Valid() && m == old(m)[key := val]
    {
      if size == 0 { Unaffected(key); }
      var h, he, prev, _ := Search(key);
      SetVal(he, key, val);
    }

    method SetVal(he: Entry<K, V>, ghost key: K, val: V)
      requires Valid() && key in t.nodes && t.nodes[key] == he
      modifies this`m, he`val
      ensures Valid() && m == old(m)[key := val]
    {
      he.val := val;
      m := m[key := val];
      forall k ensures Carries(t.nodes, m, k) {
        assert old(Carries(t.nodes, m, k)) && Once(Bag(t.chains), t.nodes, k) && Once(Bag(t.chains), t.nodes, key);
      }
    }

    /** Removes a key by unlinking its entry from its chain; every other entry stays where it is. */
    method Delete(key: K) returns (ok: bool)
      requires Valid()
      modifies this`used, this`t, this`m, table, t.nodes.Values`next
      ensures Valid() && ok == (key in old(m)) == (key in old(t.nodes))
      ensures m == old(m) - {key} && t.nodes == old(t.nodes) - {key}
      ensures !ok ==> t.chains == old(t.chains)
      ensures ok ==>
        var h := And(hash(key), sizemask);
        && h < size && old(t.nodes)[key] in old(t.chains)[h]
        && t.chains == old(t.chains)[h := Without(old(t.chains)[h], old(t.nodes)[key])]
    {
      if size == 0 {
        Unaffected(key);
        return false;
      }
      var h, de, prevde;
      ghost var i;
      h, de, prevde, i := Search(key);
      if de == null {
        Unaffected(key);
        return false;
      }
      Unlink(h, de, prevde, i);
      return true;
    }

    lemma Unaffected(key: K)
      requires Valid() && (size == 0 || key !in t.nodes)
      ensures key !in m && m - {key} == m && t.nodes - {key} == t.nodes
    {
      assert size == 0 ==> t.nodes == map[];
      assert Carries(t.nodes, m, key);
    }

    /** The predecessor, or the head, is made to skip the entry. */
    method Bypass(h: nat, de: Entry<K, V>, prevde: Entry?<K, V>, ghost i: nat)
      requires h < table.Length == |t.chains| == |t.heads| && table[..] == t.heads
      requires i < |t.chains[h]| && t.chains[h][i] == de
      requires prevde == if i == 0 then null else t.chains[h][i - 1]
      requires Mirrors(t.nodes.Values, t.link) && de in t.nodes.Values && (prevde != null ==> prevde in t.nodes.Values)
      modifies table, t.nodes.Values`next
      ensures table[..] == t.Cut(h, i).heads && Mirrors(t.nodes.Values, t.Cut(h, i).link)
    {
      if prevde != null {
        prevde.next := de.next;
        assert t.heads[h := t.heads[h]] == t.heads;
      } else {
        SetHead(h, de.next);
      }
    }

    lemma CutReady(h: nat, i: nat)
      requires Valid() && h < size && i < |t.chains[h]|
      ensures |t.chains| == |t.heads| == size && t.chains[h][i] in t.link && t.chains[h][i] in t.nodes.Values
      ensures i > 0 ==> t.chains[h][i - 1] in t.nodes.Values
      ensures Agrees(hash, sizemask, t.Cut(h, i)) && |t.Cut(h, i).nodes| == used - 1
      ensures Stores(t.Cut(h, i).nodes, m - {t.chains[h][i].key}) && t.Cut(h, i).nodes.Values <= t.nodes.Values
    {
      DeleteKeeps(hash, sizemask, t, h, i);
      Follow(h, i);
      if i > 0 { Follow(h, i - 1); }
      StoresRemoved(t.nodes, m, t.chains[h][i].key);
    }

    method Unlink(h: nat, de: Entry<K, V>, prevde: Entry?<K, V>, ghost i: nat)
      requires Valid() && h < size && i < |t.chains[h]| && t.chains[h][i] == de
      requires prevde == if i == 0 then null else t.chains[h][i - 1]
      modifies this`used, this`t, this`m, table, t.nodes.Values`next
      ensures Valid() && m == old(m) - {de.key} && t.nodes == old(t.nodes) - {de.key}
      ensures t.chains == old(t.chains)[h := Without(old(t.chains)[h], de)]
    {
      CutReady(h, i);
      Bypass(h, de, prevde, i);
      Adopt(used - 1, t.Cut(h, i), m - {de.key});
    }
  }

  /** Walks over all entries. It saves the successor of the entry it returns, so that this entry may be deleted. */
  class Iterator<K(==, !new), V(!new)> {
    const ht: Dict<K, V>
    var index: int
    var entry: Entry?<K, V>
    var nextEntry: Entry?<K, V>

    constructor (ht: Dict<K, V>)
      requires ht.Valid()
      ensures this.ht == ht && Valid() && Rest() == Bag(ht.t.chains)
    {
      this.ht, index, entry, nextEntry := ht, -1, null, null;
      new;
      NothingSeen(ht.t.chains);
    }

    /** The walk may go on: the saved entry, if it matters, is still in the present bucket. */
    ghost predicate Valid()
      reads this, ht, ht.table, ht.t.nodes.Values
    {
      ht.Valid() && Saved(ht.t.chains, index, entry, nextEntry)
    }

    /** What the walk has not returned yet. */
    ghost function Rest(): multiset<Entry<K, V>>
      requires -1 <= index
      reads this`index, this`entry, this`nextEntry, ht`t
    {
      Ahead(ht.t.chains, index, entry, nextEntry)
    }

    /** Goes to the saved entry, or to the first one of the next bucket. */
    method Advance(ghost t: Table<K, V>, ghost rest: multiset<Entry<K, V>>) returns (done: bool)
      requires ht.Valid() && ht.t == t && Saved(t.chains, index, entry, nextEntry)
      requires Ahead(t.chains, index, entry, nextEntry) == rest
      modifies this`index, this`entry
      ensures ht.Valid() && ht.t == t
      ensures if old(entry) == null then index == old(index) + 1 else index == old(index)
      ensures done == (old(entry) == null && index >= |t.chains|) && (done ==> entry == null)
      ensures !done ==> 0 <= index < |t.chains| && (entry != null ==> entry in t.chains[index])
      ensures rest == if done then multiset{} else Pending(t.chains, index, entry)
    {
      if entry == null {
        EnterBucket(t.chains, index, nextEntry);
        done := EnterNext(t);
      } else {
        ResumeSaved(t.chains, index, entry, nextEntry);
        entry := nextEntry;
        done := false;
      }
    }

    method EnterNext(ghost t: Table<K, V>) returns (done: bool)
      requires ht.Valid() && ht.t == t && entry == null && -1 <= index
      modifies this`index, this`entry
      ensures ht.Valid() && ht.t == t && index == old(index) + 1 && done == (index >= |t.chains|)
      ensures entry == if done then null else First(t.chains[index])
    {
      index := index + 1;
      if index >= ht.size {
        return true;
      }
      ht.HeadOf(index);
      entry := ht.table[index];
      return false;
    }

    /** Moves on until there is an entry to return. */
    method Seek(ghost t: Table<K, V>, ghost rest: multiset<Entry<K, V>>) returns (done: bool)
      requires ht.Valid() && ht.t == t && Saved(t.chains, index, entry, nextEntry)
      requires Ahead(t.chains, index, entry, nextEntry) == rest
      modifies this`index, this`entry
      ensures ht.Valid() && ht.t == t && -1 <= index && done == (entry == null)
      ensures done ==> |t.chains| <= index
      ensures !done ==> 0 <= index < |t.chains| && entry in t.chains[index]
      ensures rest == if done then multiset{} else Pending(t.chains, index, entry)
    {
      done := Advance(t, rest);
      while !done && entry == null
        invariant ht.Valid() && ht.t == t && -1 <= index
        invariant done ==> entry == null && |t.chains| <= index
        invariant !done ==> 0 <= index < |t.chains| && (entry != null ==> entry in t.chains[index])
        invariant rest == if done then multiset{} else Pending(t.chains, index, entry)
        decreases !done, |t.chains| - index
      {
        BucketDone(t.chains, index, nextEntry);
        done := Advance(t, rest);
      }
    }

    /** Saves the successor of the present entry. */
    method Save(ghost t: Table<K, V>)
      requires ht.Valid() && ht.t == t && entry != null && 0 <= index < |t.chains| && entry in t.chains[index]
      modifies this`nextEntry
      ensures ht.Valid() && ht.t == t && Saved(t.chains, index, entry, nextEntry)
      ensures nextEntry != entry && Known(t.nodes, entry)
      ensures Pending(t.chains, index, entry) == multiset{entry} + Ahead(t.chains, index, entry, nextEntry)
    {
      ht.Successor(index, entry);
      nextEntry := entry.next;
    }

    /** The next entry, or null when everything has been returned. */
    method Next() returns (r: Entry?<K, V>)
      requires Valid()
      modifies this
      ensures Valid() && r == entry && ht.t == old(ht.t)
      ensures r == null ==> old(Rest()) == Rest() == multiset{}
      ensures r != null ==> old(Rest()) == multiset{r} + Rest() && Known(ht.t.nodes, r) && nextEntry != r
    {
      ghost var t := ht.t;
      var done := Seek(t, Rest());
      if done {
        return null;
      }
      Save(t);
      return entry;
    }

    /**
     Deletes a key in the middle of a walk. The walk can go on exactly when the deleted entry is not the
     saved one; then what is ahead is what was ahead before, less the deleted entry.
     */
    method Drop(key: K) returns (ok: bool)
      requires Valid()
      modifies ht`used, ht`t, ht`m, ht.table, ht.t.nodes.Values`next
      ensures ht.Valid() && ok == (key in old(ht.m)) == (key in old(ht.t.nodes))
      ensures ht.m == old(ht.m) - {key} && ht.t.nodes == old(ht.t.nodes) - {key}
      ensures Valid() <==> !(ok && entry != null && old(ht.t.nodes)[key] == nextEntry)
      ensures Valid() ==> Rest() == if ok then old(Rest()) - multiset{old(ht.t.nodes)[key]} else old(Rest())
    {
      ghost var was, h := ht.t, And(ht.hash(key), ht.sizemask);
      ok := ht.Delete(key);
      if ok {
        DropKeeps(ht.hash, ht.sizemask, was, h, was.nodes[key], index, entry, nextEntry);
      }
    }

    /** Fetches the next entry, and deletes it if it is doomed. */
    method Visit(doomed: K -> bool, ghost was: multiset<Entry<K, V>>, ghost m: map<K, V>)
      returns (r: Entry?<K, V>, val: seq<V>, ghost ahead: multiset<Entry<K, V>>, ghost m': map<K, V>)
      requires Valid() && Rest() == was && ht.m == m
      modifies this, ht`used, ht`t, ht`m, ht.table, ht.t.nodes.Values`next
      ensures Valid() && Rest() == ahead && ht.m == m' && ht.t.nodes.Values <= old(ht.t.nodes.Values)
      ensures r == null ==> was == ahead == multiset{} && m' == m
      ensures r != null ==> was == multiset{r} + ahead && r.key in m && val == [m[r.key]]
      ensures r != null ==> m' == if doomed(r.key) then m - {r.key} else m
    {
      r, val, ahead := Fetch(was);
      if r == null {
        m' := m;
        return;
      }
      m' := DropReturned(doomed(r.key), ahead, m);
    }

    /** Fetches the next entry and its value; it is not among those ahead. */
    method Fetch(ghost was: multiset<Entry<K, V>>)
      returns (r: Entry?<K, V>, val: seq<V>, ghost ahead: multiset<Entry<K, V>>)
      requires Valid() && Rest() == was
      modifies this
      ensures Valid() && Rest() == ahead && r == entry
      ensures r == null ==> was == ahead == multiset{}
      ensures r != null ==> was == multiset{r} + ahead && r !in ahead && nextEntry != r
      ensures r != null ==> Known(ht.t.nodes, r) && r.key in ht.m && val == [ht.m[r.key]]
    {
      AheadInBag(ht.t.chains, index, entry, nextEntry);
      r := Next();
      ahead, val := Rest(), [];
      if r != null {
        ht.ValueOf(r);
        val := [r.val];
        ReturnedOnce(ht.t, r, ahead);
      }
    }

    /** Deletes the entry returned last, if asked to; what is ahead is not disturbed. */
    method DropReturned(wanted: bool, ghost ahead: multiset<Entry<K, V>>, ghost m: map<K, V>)
      returns (ghost m': map<K, V>)
      requires Valid() && entry != null && Known(ht.t.nodes, entry) && nextEntry != entry
      requires Rest() == ahead && entry !in ahead && ht.m == m
      modifies ht`used, ht`t, ht`m, ht.table, ht.t.nodes.Values`next
      ensures Valid() && Rest() == ahead && ht.m == m' && m' == if wanted then m - {entry.key} else m
      ensures ht.t.nodes.Values <= old(ht.t.nodes.Values)
    {
      m' := m;
      if wanted {
        RemovedNothing(ahead, entry);
        var ok := Drop(entry.key);
        m' := m - {entry.key};
      }
    }
  }

  /** Visits every entry once; entries are deleted, as the visitor wishes, right after they are returned. */
  method Iterate<K(==, !new), V(!new)>(ht: Dict<K, V>, doomed: K -> bool) returns (visited: seq<(K, V)>)
    requires ht.Valid()
    modifies ht`used, ht`t, ht`m, ht.table, ht.t.nodes.Values`next
    ensures ht.Valid() && ht.m == Spared(old(ht.m), doomed) && Enumerates(visited, old(ht.m))
    ensures ht.t.nodes.Values <= old(ht.t.nodes.Values)
  {
    var it := new Iterator(ht);
    ghost var t, m := ht.t, ht.m;
    SameKeys(t.nodes, m);
    WalkStarts(t, m, doomed);
    ghost var seen;
    visited, seen := WalkOn(it, doomed, t, m);
    WalkEnds(t, m, doomed, seen, visited, ht.m);
  }

  /** The loop over an iterator that has just been made. */
  method WalkOn<K(==, !new), V(!new)>(it: Iterator<K, V>, doomed: K -> bool, ghost t: Table<K, V>, ghost m: map<K, V>)
    returns (visited: seq<(K, V)>, ghost seen: Chain<K, V>)
    requires it.Valid() && it.Rest() == Bag(t.chains) && Walking(t, m, doomed, [], [], Bag(t.chains), it.ht.m)
    modifies it, it.ht`used, it.ht`t, it.ht`m, it.ht.table, it.ht.t.nodes.Values`next
    ensures it.Valid() && Walking(t, m, doomed, seen, visited, multiset{}, it.ht.m)
    ensures it.ht.t.nodes.Values <= old(it.ht.t.nodes.Values)
  {
    visited, seen := [], [];
    ghost var ahead := it.Rest();
    var more := true;
    while more
      invariant it.Valid() && it.Rest() == ahead && Walking(t, m, doomed, seen, visited, ahead, it.ht.m)
      invariant it.ht.t.nodes.Values <= old(it.ht.t.nodes.Values)
      invariant !more ==> ahead == multiset{}
      decreases more, |ahead|
    {
      more, visited, seen, ahead := ReportNext(it, doomed, visited, t, m, seen, ahead);
    }
  }

  method ReportNext<K(==, !new), V(!new)>(it: Iterator<K, V>, doomed: K -> bool, visited: seq<(K, V)>,
                                          ghost t: Table<K, V>, ghost m: map<K, V>, ghost seen: Chain<K, V>,
                                          ghost ahead: multiset<Entry<K, V>>)
    returns (more: bool, visited': seq<(K, V)>, ghost seen': Chain<K, V>, ghost ahead': multiset<Entry<K, V>>)
    requires it.Valid() && it.Rest() == ahead && Walking(t, m, doomed, seen, visited, ahead, it.ht.m)
    modifies it, it.ht`used, it.ht`t, it.ht`m, it.ht.table, it.ht.t.nodes.Values`next
    ensures it.Valid() && it.Rest() == ahead' && Walking(t, m, doomed, seen', visited', ahead', it.ht.m)
    ensures it.ht.t.nodes.Values <= old(it.ht.t.nodes.Values)
    ensures if more then |ahead'| < |ahead| else ahead' == multiset{}
  {
    ghost var m1, m2 := it.ht.m, it.ht.m;
    var r, val;
    r, val, ahead', m2 := it.Visit(doomed, ahead, m1);
    if r == null {
      return false, visited, seen, ahead';
    }
    WalkStep(t, m, doomed, seen, visited, ahead, m1, r, ahead');
    more, visited', seen' := true, visited + [(r.key, val[0])], seen + [r];
  }

  // ---- whole runs ----

  datatype Op<K, V> = Adding(key: K, val: V) | Replacing(key: K, val: V) | Deleting(key: K) | Finding(key: K)

  datatype Answer<V> = Did(ok: bool) | Found(val: V) | Missing

  /** What an operation does to a finite map, and what it answers. */
  function Apply<K, V>(m: map<K, V>, op: Op<K, V>): (map<K, V>, Answer<V>) {
    match op
    case Adding(k, v) => (if k in m then m else m[k := v], Did(k !in m))
    case Replacing(k, v) => (m[k := v], Did(k !in m))
    case Deleting(k) => (m - {k}, Did(k in m))
    case Finding(k) => (m, if k in m then Found(m[k]) else Missing)
  }

  function ApplyAll<K, V>(ops: seq<Op<K, V>>): (map<K, V>, seq<Answer<V>>) {
    if ops == [] then (map[], [])
    else
      var (m, answers) := ApplyAll(ops[..|ops| - 1]);
      var (m', a) := Apply(m, ops[|ops| - 1]);
      (m', answers + [a])
  }

  method Perform<K(==, !new), V(!new)>(d: Dict<K, V>, op: Op<K, V>) returns (a: Answer<V>)
    requires d.Valid()
    modifies d, d.table, d.t.nodes.Values
    ensures d.Valid() && (d.m, a) == Apply(old(d.m), op)
    ensures (d.table == old(d.table) || fresh(d.table)) && fresh(d.t.nodes.Values - old(d.t.nodes.Values))
  {
    match op
    case Adding(k, v) =>
      var ok := d.Add(k, v);
      a := Did(ok);
    case Replacing(k, v) =>
      var added := d.Replace(k, v);
      a := Did(added);
    case Deleting(k) =>
      var ok := d.Delete(k);
      a := Did(ok);
    case Finding(k) =>
      var r := d.Find(k);
      a := if r == [] then Missing else Found(r[0]);
  }

  /**
   Every run answers as a finite map would; a walk over the result then visits each entry of that map
   once and leaves the entries that it does not delete on its way.
   */
  method Run<K(==, !new), V(!new)>(hash: K -> nat, ops: seq<Op<K, V>>, doomed: K -> bool)
    returns (answers: seq<Answer<V>>, visited: seq<(K, V)>, left: seq<(K, V)>)
    ensures answers == ApplyAll(ops).1
    ensures Enumerates(visited, ApplyAll(ops).0) && Enumerates(left, Spared(ApplyAll(ops).0, doomed))
  {
    var d := new Dict<K, V>(hash);
    answers := [];
    for i := 0 to |ops|
      invariant d.Valid() && fresh(d) && fresh(d.table) && fresh(d.t.nodes.Values)
      invariant (d.m, answers) == ApplyAll(ops[..i])
    {
      assert ops[..i + 1][..i] == ops[..i];
      var a := Perform(d, ops[i]);
      answers := answers + [a];
    }
    assert ops[..|ops|] == ops;
    visited := Iterate(d, doomed);
    left := Iterate(d, _ => false);
  }
}
