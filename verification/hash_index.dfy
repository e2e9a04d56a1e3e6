/** The memory-bounded hashed index of N-digit windows (g_set, g_nodes and
    g_num_nodes in pi_repeat.c): a table of chain heads indexed by key, and an
    arena of singly linked nodes in which slot 0 means "no node". Each node
    records where its window starts in the digit buffer; each chain holds the
    windows of one key in strictly increasing order of their first N-K
    digits. */
module HashIndex {
  import opened DigitStream
  import opened RollingKey
  import opened LexOrder

  /** An arena slot (NODE_T): the next node of its chain, 0 for none, and the
      buffer offset of the window it records. */
  datatype Node = Node(next: nat, pos: nat)

  /** The index: one chain head per key (g_set), the node arena (g_nodes) and
      the first unused arena slot (g_num_nodes). */
  datatype Arena = Arena(heads: seq<nat>, nodes: seq<Node>, count: nat)

  /** The storage of alloc_storage: B+1 zeroed nodes, slot 0 being the "none"
      sentinel, and K10 empty heads; the first free slot starts at 1. */
  function Alloc(b: nat, k10: nat): (a: Arena)
    ensures |a.heads| == k10 && |a.nodes| == b + 1 && a.count == 1
    // zeroed storage is already a cleared index
    ensures Clear(a) == a
  {
    Arena(seq(k10, _ => 0), seq(b + 1, _ => Node(0, 0)), 1)
  }

  /** set_clear: every head back to "none" and the arena reused from slot 1.
      The nodes themselves are left as they were. */
  function Clear(a: Arena): (r: Arena)
    ensures |r.heads| == |a.heads| && r.nodes == a.nodes && r.count == 1
  {
    Arena(seq(|a.heads|, _ => 0), a.nodes, 1)
  }

  /** The chain view of an index in which every chain is empty. */
  function NoChains(size: nat): (chains: seq<seq<nat>>)
  {
    seq(size, _ => [])
  }

  /** The t-th node of chain `c`, or 0 ("none") past its end. */
  function At(c: seq<nat>, t: nat): nat
  {
    if t < |c| then c[t] else 0
  }

  /** The first `len` digits of the window recorded by node `id`. */
  function Stored(a: Arena, digits: seq<Digit>, id: nat, len: nat): seq<Digit>
  {
    if id < |a.nodes| && a.nodes[id].pos + len <= |digits| then
      digits[a.nodes[id].pos..a.nodes[id].pos + len]
    else
      []
  }

  /** The buffer offsets recorded along chain `c`. */
  function Positions(a: Arena, c: seq<nat>): (ps: seq<nat>)
  {
    seq(|c|, t requires 0 <= t < |c| => if c[t] < |a.nodes| then a.nodes[c[t]].pos else 0)
  }

  /** The first `len` digits of every window recorded along chain `c`. */
  function Prefixes(a: Arena, digits: seq<Digit>, c: seq<nat>, len: nat): (ws: seq<seq<Digit>>)
  {
    seq(|c|, t requires 0 <= t < |c| => Stored(a, digits, c[t], len))
  }

  /** The `next` link of every node of chain `c`. */
  function Successors(a: Arena, c: seq<nat>): (ss: seq<nat>)
  {
    seq(|c|, t requires 0 <= t < |c| => if c[t] < |a.nodes| then a.nodes[c[t]].next else 0)
  }

  /** What the links of a well-formed chain must be: each node points at the
      one after it, and the last at 0 ("none"). */
  function Shifted(c: seq<nat>): (ss: seq<nat>)
  {
    if |c| == 0 then [] else c[1..] + [0]
  }

  /** Chain `c` consists of used slots, each linked to the next. */
  ghost predicate ChainLinked(a: Arena, c: seq<nat>)
  {
    && (forall t :: 0 <= t < |c| ==> 1 <= c[t] < a.count)
    && Successors(a, c) == Shifted(c)
  }

  /** `chains[key]` lists, in order, the nodes reached from `heads[key]` by
      following `next` links until 0; every listed node is a used slot. */
  ghost predicate Linked(a: Arena, chains: seq<seq<nat>>)
  {
    && |chains| == |a.heads|
    && 1 <= a.count <= |a.nodes|
    && (forall key :: 0 <= key < |chains| ==> a.heads[key] == At(chains[key], 0) && ChainLinked(a, chains[key]))
  }

  /** Every window recorded along `c` lies inside the buffer. */
  ghost predicate InBuffer(a: Arena, c: seq<nat>, digits: seq<Digit>, n: nat)
  {
    forall t :: 0 <= t < |c| ==> |Stored(a, digits, c[t], n)| == n
  }

  /** The strings of `ws` all have length `n` and key `key`. */
  ghost predicate AllKeyed(ws: seq<seq<Digit>>, n: nat, k: nat, key: nat)
    requires k <= n
  {
    forall t :: 0 <= t < |ws| ==> |ws[t]| == n && KeyOf(ws[t], k) == key
  }

  /** Every window recorded along `c` lies inside the buffer and has key
      `key`. */
  ghost predicate Keyed(a: Arena, c: seq<nat>, digits: seq<Digit>, n: nat, k: nat, key: nat)
    requires k <= n
  {
    AllKeyed(Prefixes(a, digits, c, n), n, k, key)
  }

  /** Chain `c` holds windows of key `key` only, strictly increasing in their
      first n-k digits. */
  ghost predicate ChainOrdered(a: Arena, c: seq<nat>, digits: seq<Digit>, n: nat, k: nat, key: nat)
    requires k <= n
  {
    Keyed(a, c, digits, n, k, key) && Increasing(Prefixes(a, digits, c, n - k))
  }

  ghost predicate Ordered(a: Arena, chains: seq<seq<nat>>, digits: seq<Digit>, n: nat, k: nat)
  {
    && k <= n
    && (forall key :: 0 <= key < |chains| ==> ChainOrdered(a, chains[key], digits, n, k, key))
  }

  ghost predicate Valid(a: Arena, chains: seq<seq<nat>>, digits: seq<Digit>, n: nat, k: nat)
  {
    Linked(a, chains) && Ordered(a, chains, digits, n, k)
  }

  /** A cleared index is a valid index with every chain empty, whatever the
      buffer holds and whatever the arena held before. */
  lemma ClearIsEmpty(a: Arena, digits: seq<Digit>, n: nat, k: nat)
    requires 1 <= |a.nodes| && k <= n
    ensures Valid(Clear(a), NoChains(|a.heads|), digits, n, k)
    ensures forall key :: 0 <= key < |a.heads| ==> Positions(Clear(a), NoChains(|a.heads|)[key]) == []
  {
  }

  /** Links a new node for the window at buffer offset `pos` into the chain
      of `key`, right after node `prev` (at the head when `prev` is 0): the
      new slot takes over the link that pointed past `prev`, and that link
      now points at the new slot. No other head and no other node changes. */
  function Link(a: Arena, key: nat, prev: nat, pos: nat): (r: Arena)
    requires key < |a.heads| && a.count < |a.nodes| && prev < a.count
    ensures |r.heads| == |a.heads| && |r.nodes| == |a.nodes| && r.count == a.count + 1
    ensures r.nodes[a.count] == Node(if prev == 0 then a.heads[key] else a.nodes[prev].next, pos)
    ensures prev == 0 ==> r.heads[key] == a.count
    ensures prev != 0 ==> r.heads[key] == a.heads[key] && r.nodes[prev] == Node(a.count, a.nodes[prev].pos)
    ensures forall other :: 0 <= other < |a.heads| && other != key ==> r.heads[other] == a.heads[other]
    ensures forall id :: 0 <= id < |a.nodes| && id != a.count && id != prev ==> r.nodes[id] == a.nodes[id]
    ensures forall id :: 0 <= id < |a.nodes| && id != a.count ==> r.nodes[id].pos == a.nodes[id].pos
  {
    var id := a.count;
    var succ := if prev == 0 then a.heads[key] else a.nodes[prev].next;
    var nodes := a.nodes[id := Node(succ, pos)];
    if prev == 0 then
      Arena(a.heads[key := id], nodes, id + 1)
    else
      Arena(a.heads, nodes[prev := Node(id, a.nodes[prev].pos)], id + 1)
  }

  /** The chain `c` hangs from the head of `key`, is linked in order, lies
      inside the buffer and is strictly increasing: what the walk relies on. */
  ghost predicate ChainAt(a: Arena, c: seq<nat>, digits: seq<Digit>, n: nat, k: nat, key: nat)
  {
    && k < n && key < |a.heads| && 1 <= a.count <= |a.nodes|
    && a.heads[key] == At(c, 0) && ChainLinked(a, c)
    && InBuffer(a, c, digits, n) && Increasing(Prefixes(a, digits, c, n - k))
  }

  /** In a valid index every chain hangs from its head and is well formed. */
  lemma ValidChain(a: Arena, chains: seq<seq<nat>>, digits: seq<Digit>, n: nat, k: nat, key: nat)
    requires Valid(a, chains, digits, n, k) && k < n && key < |chains|
    ensures ChainAt(a, chains[key], digits, n, k, key) && Keyed(a, chains[key], digits, n, k, key)
  {
    var c := chains[key];
    assert ChainOrdered(a, c, digits, n, k, key);
    forall t | 0 <= t < |c|
      ensures |Stored(a, digits, c[t], n)| == n
    {
      assert Prefixes(a, digits, c, n)[t] == Stored(a, digits, c[t], n);
    }
  }

  /** The walk of set_test over the chain `c` of `key`: follows the links
      while the recorded windows precede `cand` on their first n-k digits, and
      stops at a window that agrees with it (`found`) or that follows it, or
      at the end of the chain. `prev` is the node after which `cand` belongs,
      0 when it belongs at the head, and `j` its place in the chain. */
  method Walk(a: Arena, ghost c: seq<nat>, digits: seq<Digit>, key: nat, cand: seq<Digit>, n: nat, k: nat)
    returns (found: bool, prev: nat, ghost j: nat)
    requires ChainAt(a, c, digits, n, k, key) && |cand| == n
    ensures found <==> exists t :: 0 <= t < |c| && Stored(a, digits, c[t], n - k) == cand[..n - k]
    ensures j <= |c| && prev == (if j == 0 then 0 else c[j - 1]) && prev < a.count
    ensures forall t :: 0 <= t < j ==> Less(Stored(a, digits, c[t], n - k), cand[..n - k])
    ensures !found && j < |c| ==> Less(cand[..n - k], Stored(a, digits, c[j], n - k))
  {
    var diff;
    diff, prev, j := Scan(a, c, digits, key, cand, n, k);
    found := diff == 0;
    if found {
      assert Stored(a, digits, c[j], n - k) == cand[..n - k];
    } else {
      NothingEqual(a, c, digits, n, k, key, cand, j, diff > 0);
    }
    EntryBelowCount(a, c, digits, n, k, key, j);
  }

  /** The loop of set_test: passes every node whose recorded prefix is below
      `cand` and stops at the first one that is not, or at the chain's end. */
  method Scan(a: Arena, ghost c: seq<nat>, digits: seq<Digit>, key: nat, cand: seq<Digit>, n: nat, k: nat)
    returns (diff: int, prev: nat, ghost j: nat)
    requires ChainAt(a, c, digits, n, k, key) && |cand| == n
    ensures j <= |c| && prev == (if j == 0 then 0 else c[j - 1])
    ensures forall t :: 0 <= t < j ==> Less(Stored(a, digits, c[t], n - k), cand[..n - k])
    ensures diff < 0 ==> j == |c|
    ensures diff >= 0 ==> j < |c| && (diff == 0 <==> Stored(a, digits, c[j], n - k) == cand[..n - k])
    ensures diff > 0 ==> Less(cand[..n - k], Stored(a, digits, c[j], n - k))
  {
    var p := a.heads[key];
    prev := 0;
    j := 0;
    diff := -1;
    while p != 0 && diff < 0
      invariant 0 <= j <= |c|
      invariant p == At(c, j)
      invariant prev == (if j == 0 then 0 else c[j - 1])
      invariant forall t :: 0 <= t < j ==> Less(Stored(a, digits, c[t], n - k), cand[..n - k])
      invariant diff >= 0 ==> j < |c| && (diff == 0 <==> Stored(a, digits, c[j], n - k) == cand[..n - k])
      invariant diff > 0 ==> Less(cand[..n - k], Stored(a, digits, c[j], n - k))
      decreases |c| - j, if diff < 0 then 1 else 0
    {
      assert j < |c|;
      EntryInBuffer(a, c, digits, n, k, key, j);
      var next;
      diff, next := Visit(a, digits, cand, n, k, p);
      if diff < 0 {
        PassOne(a, c, digits, n - k, cand[..n - k], j);
        prev := p;
        p := next;
        j := j + 1;
      }
    }
  }

  /** One step of the walk: compares the window recorded at node `p` with
      `cand` on the first n-k digits and follows the link. */
  method Visit(a: Arena, digits: seq<Digit>, cand: seq<Digit>, n: nat, k: nat, p: nat) returns (diff: int, next: nat)
    requires k < n && |cand| == n && p < |a.nodes| && a.nodes[p].pos + n <= |digits|
    ensures next == a.nodes[p].next
    ensures diff == 0 <==> Stored(a, digits, p, n - k) == cand[..n - k]
    ensures diff < 0 ==> Less(Stored(a, digits, p, n - k), cand[..n - k])
    ensures diff > 0 ==> Less(cand[..n - k], Stored(a, digits, p, n - k))
  {
    var node := a.nodes[p];
    diff := ComparePrefix(digits, node.pos, cand, n - k);
    next := node.next;
  }

  /** set_test: looks `cand` up in the chain of `key` and reports whether
      some recorded window agrees with it on the first n-k digits; on a miss
      with `insert` set, records the window at buffer offset `pos` where the
      walk stopped. */
  method SetTest(a: Arena, ghost chains: seq<seq<nat>>, digits: seq<Digit>, key: nat, cand: seq<Digit>,
                 pos: nat, n: nat, k: nat, insert: bool)
    returns (hit: bool, a': Arena, ghost chains': seq<seq<nat>>)
    requires Valid(a, chains, digits, n, k) && k < n
    requires key < |a.heads| && |cand| == n
    requires insert ==> a.count < |a.nodes| && pos + n <= |digits| && digits[pos..pos + n] == cand
    requires insert ==> KeyOf(cand, k) == key
    // no false positive and no false negative on the compared digits
    ensures hit <==> exists t :: 0 <= t < |chains[key]| && Stored(a, digits, chains[key][t], n - k) == cand[..n - k]
    // with the right key: a hit means an identical N-digit window is recorded
    ensures KeyOf(cand, k) == key ==>
              (hit <==> exists t :: 0 <= t < |chains[key]| && Stored(a, digits, chains[key][t], n) == cand)
    ensures Valid(a', chains', digits, n, k)
    // a lookup, or a hit, changes nothing
    ensures !insert || hit ==> a' == a && chains' == chains
    // a miss with insert adds exactly one node, for offset `pos`
    ensures insert && !hit ==>
              && a'.count == a.count + 1 && |a'.nodes| == |a.nodes| && |a'.heads| == |a.heads|
              && a'.nodes[a.count].pos == pos
              && (exists j :: 0 <= j <= |chains[key]| && chains'[key] == chains[key][..j] + [a.count] + chains[key][j..])
    ensures insert && !hit ==>
              && (forall other :: 0 <= other < |a.heads| && other != key ==> a'.heads[other] == a.heads[other])
              && (forall id :: 0 <= id < |a.nodes| && id != a.count ==> a'.nodes[id].pos == a.nodes[id].pos)
    ensures |chains'| == |chains|
    ensures forall other :: 0 <= other < |chains| && other != key ==> chains'[other] == chains[other]
    ensures forall kk, x :: 0 <= kk < |chains| ==>
              (x in Positions(a', chains'[kk]) <==>
                 x in Positions(a, chains[kk]) || (insert && !hit && kk == key && x == pos))
  {
    ghost var c := chains[key];
    ValidChain(a, chains, digits, n, k, key);
    var prev;
    ghost var j;
    hit, prev, j := Walk(a, c, digits, key, cand, n, k);
    FullMatchIffPrefix(a, c, digits, n, k, key, cand);
    if hit || !insert {
      a' := a;
      chains' := chains;
      return;
    }
    a' := Link(a, key, prev, pos);
    chains' := chains[key := c[..j] + [a.count] + c[j..]];
    assert cand[..n - k] == digits[pos..pos + n - k];
    SpliceValid(a, chains, digits, n, k, key, j, prev, pos);
    SplicePositions(a, chains, key, j, prev, pos, a', chains');
  }

  /** The walk passes one more window that precedes `x`. */
  lemma PassOne(a: Arena, c: seq<nat>, digits: seq<Digit>, m: nat, x: seq<Digit>, j: nat)
    requires j < |c|
    requires forall t :: 0 <= t < j ==> Less(Stored(a, digits, c[t], m), x)
    requires Less(Stored(a, digits, c[j], m), x)
    ensures forall t :: 0 <= t < j + 1 ==> Less(Stored(a, digits, c[t], m), x)
  {
  }

  /** The last node the walk passed is a used slot. */
  lemma EntryBelowCount(a: Arena, c: seq<nat>, digits: seq<Digit>, n: nat, k: nat, key: nat, j: nat)
    requires ChainAt(a, c, digits, n, k, key) && j <= |c|
    ensures j > 0 ==> 1 <= c[j - 1] < a.count
  {
  }

  /** The window recorded at the t-th node of a chain lies inside the buffer,
      so the walk may read its first n-k digits; the node's link leads to the
      next node of the chain. */
  lemma EntryInBuffer(a: Arena, c: seq<nat>, digits: seq<Digit>, n: nat, k: nat, key: nat, t: nat)
    requires ChainAt(a, c, digits, n, k, key) && t < |c|
    ensures && 1 <= c[t] < a.count && a.nodes[c[t]].pos + n <= |digits|
              && Stored(a, digits, c[t], n - k) == digits[a.nodes[c[t]].pos..a.nodes[c[t]].pos + n - k]
              && a.nodes[c[t]].next == At(c, t + 1)
  {
    assert |Stored(a, digits, c[t], n)| == n;
    assert Successors(a, c)[t] == Shifted(c)[t];
  }

  /** Where the recorded key matches, agreeing on the first n-k digits is
      agreeing on the whole window. */
  lemma FullMatchIffPrefix(a: Arena, c: seq<nat>, digits: seq<Digit>, n: nat, k: nat, key: nat, cand: seq<Digit>)
    requires k < n && Keyed(a, c, digits, n, k, key) && |cand| == n
    ensures KeyOf(cand, k) == key ==>
              forall t :: 0 <= t < |c| ==>
                (Stored(a, digits, c[t], n) == cand <==> Stored(a, digits, c[t], n - k) == cand[..n - k])
  {
    if KeyOf(cand, k) == key {
      forall t | 0 <= t < |c|
        ensures Stored(a, digits, c[t], n) == cand <==> Stored(a, digits, c[t], n - k) == cand[..n - k]
      {
        var w := Stored(a, digits, c[t], n);
        assert w == Prefixes(a, digits, c, n)[t];
        assert Stored(a, digits, c[t], n - k) == w[..n - k];
        assert |w| == n && KeyOf(w, k) == key;
        SameKeySameWindow(w, cand, k);
      }
    }
  }

  /** Two windows with the same key that agree on the digits before the key
      digits are the same window. */
  lemma SameKeySameWindow(w: seq<Digit>, cand: seq<Digit>, k: nat)
    requires |w| == |cand| && k <= |w| && KeyOf(w, k) == KeyOf(cand, k)
    ensures w == cand <==> w[..|w| - k] == cand[..|w| - k]
  {
    var m := |w| - k;
    if w[..m] == cand[..m] {
      ValueInjective(w[m..], cand[m..]);
      assert w == w[..m] + w[m..];
      assert cand == cand[..m] + cand[m..];
    }
  }

  /** When the walk ends without a match, no window of the chain agrees with
      the candidate: those passed precede it, and the one it stopped at, with
      all that follow it, come after it. */
  lemma NothingEqual(a: Arena, c: seq<nat>, digits: seq<Digit>, n: nat, k: nat, key: nat,
                     cand: seq<Digit>, j: nat, above: bool)
    requires ChainAt(a, c, digits, n, k, key) && |cand| == n && j <= |c|
    requires forall t :: 0 <= t < j ==> Less(Stored(a, digits, c[t], n - k), cand[..n - k])
    requires above ==> j < |c| && Less(cand[..n - k], Stored(a, digits, c[j], n - k))
    requires !above ==> j == |c|
    ensures forall t :: 0 <= t < |c| ==> Stored(a, digits, c[t], n - k) != cand[..n - k]
  {
    var m := n - k;
    var ws := Prefixes(a, digits, c, m);
    forall t | 0 <= t < |c|
      ensures Stored(a, digits, c[t], m) != cand[..m]
    {
      if t < j {
        LessIrreflexive(cand[..m]);
      } else {
        if t > j {
          assert Less(ws[j], ws[t]);
          LessTransitive(cand[..m], ws[j], ws[t]);
        }
        LessIrreflexive(cand[..m]);
      }
    }
  }

  /** A node appears once in the whole index: its window fixes both its
      key and its place in the strictly increasing chain. */
  lemma OnlyOnce(a: Arena, chains: seq<seq<nat>>, digits: seq<Digit>, n: nat, k: nat, key: nat, t: nat)
    requires Valid(a, chains, digits, n, k) && key < |chains| && t < |chains[key]|
    ensures forall k2, t2 :: 0 <= k2 < |chains| && 0 <= t2 < |chains[k2]| && chains[k2][t2] == chains[key][t] ==>
              k2 == key && t2 == t
  {
    forall k2, t2 | 0 <= k2 < |chains| && 0 <= t2 < |chains[k2]| && chains[k2][t2] == chains[key][t]
      ensures k2 == key && t2 == t
    {
      assert ChainOrdered(a, chains[k2], digits, n, k, k2);
      assert ChainOrdered(a, chains[key], digits, n, k, key);
      assert Prefixes(a, digits, chains[k2], n)[t2] == Prefixes(a, digits, chains[key], n)[t];
      if t2 != t && k2 == key {
        var ws := Prefixes(a, digits, chains[key], n - k);
        assert ws[t] == ws[t2];
        if t < t2 {
          assert Less(ws[t], ws[t2]);
        } else {
          assert Less(ws[t2], ws[t]);
        }
        LessIrreflexive(ws[t]);
      }
    }
  }

  /** Linking a new node at the walk's stopping point keeps the index valid:
      the chain stays linked, keyed and strictly increasing. */
  lemma SpliceValid(a: Arena, chains: seq<seq<nat>>, digits: seq<Digit>, n: nat, k: nat,
                    key: nat, j: nat, prev: nat, pos: nat)
    requires Valid(a, chains, digits, n, k) && k < n
    requires key < |chains| && j <= |chains[key]| && a.count < |a.nodes|
    requires prev == (if j == 0 then 0 else chains[key][j - 1]) && prev < a.count
    requires pos + n <= |digits| && KeyOf(digits[pos..pos + n], k) == key
    requires forall t :: 0 <= t < j ==> Less(Stored(a, digits, chains[key][t], n - k), digits[pos..pos + n - k])
    requires j < |chains[key]| ==> Less(digits[pos..pos + n - k], Stored(a, digits, chains[key][j], n - k))
    ensures Valid(Link(a, key, prev, pos), chains[key := chains[key][..j] + [a.count] + chains[key][j..]], digits, n, k)
  {
    SpliceLinked(a, chains, digits, n, k, key, j, prev, pos);
    SpliceOrdered(a, chains, digits, n, k, key, j, prev, pos);
  }

  lemma SpliceLinked(a: Arena, chains: seq<seq<nat>>, digits: seq<Digit>, n: nat, k: nat,
                     key: nat, j: nat, prev: nat, pos: nat)
    requires Valid(a, chains, digits, n, k)
    requires key < |chains| && j <= |chains[key]| && a.count < |a.nodes|
    requires prev == (if j == 0 then 0 else chains[key][j - 1]) && prev < a.count
    ensures Linked(Link(a, key, prev, pos), chains[key := chains[key][..j] + [a.count] + chains[key][j..]])
  {
    var c := chains[key];
    var c' := c[..j] + [a.count] + c[j..];
    var a' := Link(a, key, prev, pos);
    var chains' := chains[key := c'];
    if j > 0 {
      OnlyOnce(a, chains, digits, n, k, key, j - 1);
    }
    forall kk | 0 <= kk < |chains'|
      ensures a'.heads[kk] == At(chains'[kk], 0) && ChainLinked(a', chains'[kk])
    {
      if kk != key {
        LinkKeepsChain(a, chains[kk], key, kk, prev, pos);
      } else {
        SpliceChainLinked(a, c, j, key, prev, pos);
      }
    }
  }

  /** A chain that does not contain `prev` keeps its head and its links. */
  lemma LinkKeepsChain(a: Arena, ck: seq<nat>, key: nat, kk: nat, prev: nat, pos: nat)
    requires ChainLinked(a, ck) && key < |a.heads| && kk < |a.heads| && kk != key && a.heads[kk] == At(ck, 0)
    requires a.count < |a.nodes| && prev < a.count
    requires forall t :: 0 <= t < |ck| && ck[t] == prev ==> prev == 0
    ensures Link(a, key, prev, pos).heads[kk] == At(ck, 0) && ChainLinked(Link(a, key, prev, pos), ck)
  {
    var a' := Link(a, key, prev, pos);
    forall t | 0 <= t < |ck|
      ensures Successors(a', ck)[t] == Successors(a, ck)[t]
    {
    }
    assert Successors(a', ck) == Successors(a, ck);
  }

  /** The chain that takes the new node stays linked in order. */
  lemma SpliceChainLinked(a: Arena, c: seq<nat>, j: nat, key: nat, prev: nat, pos: nat)
    requires ChainLinked(a, c) && key < |a.heads| && a.heads[key] == At(c, 0)
    requires j <= |c| && a.count < |a.nodes|
    requires prev == (if j == 0 then 0 else c[j - 1]) && prev < a.count
    requires forall t :: 0 <= t < |c| && c[t] == prev ==> t == j - 1
    ensures Link(a, key, prev, pos).heads[key] == At(c[..j] + [a.count] + c[j..], 0)
    ensures ChainLinked(Link(a, key, prev, pos), c[..j] + [a.count] + c[j..])
  {
    var id := a.count;
    var c' := c[..j] + [id] + c[j..];
    var a' := Link(a, key, prev, pos);
    var ss := Successors(a, c);
    var ss' := Successors(a', c');
    var sh' := Shifted(c');
    assert |c'| == |c| + 1;
    forall t | 0 <= t < |c'|
      ensures ss'[t] == sh'[t]
    {
      ShiftedAt(c', t);
      if t < j - 1 {
        assert c'[t] == c[t] && At(c', t + 1) == At(c, t + 1);
        ShiftedAt(c, t);
        assert ss[t] == Shifted(c)[t];
      } else if t == j - 1 {
        assert c'[t] == prev && At(c', t + 1) == id;
      } else if t == j {
        assert c'[t] == id && At(c', t + 1) == At(c, j);
        if j > 0 {
          ShiftedAt(c, j - 1);
          assert ss[j - 1] == Shifted(c)[j - 1];
        }
      } else {
        assert c'[t] == c[t - 1] && At(c', t + 1) == At(c, t);
        ShiftedAt(c, t - 1);
        assert ss[t - 1] == Shifted(c)[t - 1];
      }
    }
    assert ss' == sh';
    if j > 0 {
      assert c'[0] == c[0];
    }
  }

  /** The link chain `c` expects after its t-th node. */
  lemma ShiftedAt(c: seq<nat>, t: nat)
    requires t < |c|
    ensures Shifted(c)[t] == At(c, t + 1)
  {
  }

  /** Stored windows read through nodes whose offsets did not change are
      the same windows. */
  lemma PrefixesKept(a: Arena, a': Arena, digits: seq<Digit>, c: seq<nat>, len: nat)
    requires forall t :: 0 <= t < |c| ==>
               c[t] < |a.nodes| && c[t] < |a'.nodes| && a'.nodes[c[t]].pos == a.nodes[c[t]].pos
    ensures forall t, l :: 0 <= t < |c| ==> Stored(a', digits, c[t], l) == Stored(a, digits, c[t], l)
    ensures Prefixes(a', digits, c, len) == Prefixes(a, digits, c, len)
  {
  }

  lemma SpliceOrdered(a: Arena, chains: seq<seq<nat>>, digits: seq<Digit>, n: nat, k: nat,
                      key: nat, j: nat, prev: nat, pos: nat)
    requires Valid(a, chains, digits, n, k) && k < n
    requires key < |chains| && j <= |chains[key]| && a.count < |a.nodes|
    requires prev == (if j == 0 then 0 else chains[key][j - 1]) && prev < a.count
    requires pos + n <= |digits| && KeyOf(digits[pos..pos + n], k) == key
    requires forall t :: 0 <= t < j ==> Less(Stored(a, digits, chains[key][t], n - k), digits[pos..pos + n - k])
    requires j < |chains[key]| ==> Less(digits[pos..pos + n - k], Stored(a, digits, chains[key][j], n - k))
    ensures Ordered(Link(a, key, prev, pos), chains[key := chains[key][..j] + [a.count] + chains[key][j..]], digits, n, k)
  {
    var c := chains[key];
    var id := a.count;
    var c' := c[..j] + [id] + c[j..];
    var a' := Link(a, key, prev, pos);
    var chains' := chains[key := c'];
    var m := n - k;
    forall kk | 0 <= kk < |chains'|
      ensures ChainOrdered(a', chains'[kk], digits, n, k, kk)
    {
      assert ChainOrdered(a, chains[kk], digits, n, k, kk);
      if kk != key {
        ChainUnchanged(a, a', chains, kk);
      } else {
        SpliceChainOrdered(a, a', chains, digits, n, k, key, j, pos);
      }
    }
  }

  /** A chain that does not take the new node reads the same windows. */
  lemma ChainUnchanged(a: Arena, a': Arena, chains: seq<seq<nat>>, kk: nat)
    requires Linked(a, chains) && kk < |chains|
    requires |a'.nodes| == |a.nodes|
    requires forall id :: 0 <= id < |a.nodes| && id != a.count ==> a'.nodes[id].pos == a.nodes[id].pos
    ensures forall digits: seq<Digit>, t, l :: 0 <= t < |chains[kk]| ==>
              Stored(a', digits, chains[kk][t], l) == Stored(a, digits, chains[kk][t], l)
    ensures forall digits: seq<Digit>, l :: Prefixes(a', digits, chains[kk], l) == Prefixes(a, digits, chains[kk], l)
  {
    forall digits: seq<Digit>, l {
      PrefixesKept(a, a', digits, chains[kk], l);
    }
  }

  /** The chain that takes the new node is the old chain with the new window
      inserted at its place, so it stays keyed and strictly increasing. */
  lemma SpliceChainOrdered(a: Arena, a': Arena, chains: seq<seq<nat>>, digits: seq<Digit>, n: nat, k: nat,
                           key: nat, j: nat, pos: nat)
    requires Linked(a, chains) && key < |chains| && k < n && j <= |chains[key]|
    requires ChainOrdered(a, chains[key], digits, n, k, key)
    requires |a'.nodes| == |a.nodes| && a.count < |a.nodes| && a'.nodes[a.count].pos == pos
    requires forall id :: 0 <= id < |a.nodes| && id != a.count ==> a'.nodes[id].pos == a.nodes[id].pos
    requires pos + n <= |digits| && KeyOf(digits[pos..pos + n], k) == key
    requires forall t :: 0 <= t < j ==> Less(Stored(a, digits, chains[key][t], n - k), digits[pos..pos + n - k])
    requires j < |chains[key]| ==> Less(digits[pos..pos + n - k], Stored(a, digits, chains[key][j], n - k))
    ensures ChainOrdered(a', chains[key][..j] + [a.count] + chains[key][j..], digits, n, k, key)
  {
    var c := chains[key];
    var m := n - k;
    assert ChainLinked(a, c);
    SplicePrefixes(a, a', c, j, digits, pos, m);
    SplicePrefixes(a, a', c, j, digits, pos, n);
    var ws := Prefixes(a, digits, c, m);
    forall t | 0 <= t < j
      ensures Less(ws[t], digits[pos..pos + m])
    {
    }
    InsertKeepsIncreasing(ws, j, digits[pos..pos + m]);
    InsertKeepsKeyed(Prefixes(a, digits, c, n), j, digits[pos..pos + n], n, k, key);
  }

  /** Inserting a window of the right length and key keeps a list keyed. */
  lemma InsertKeepsKeyed(ws: seq<seq<Digit>>, j: nat, x: seq<Digit>, n: nat, k: nat, key: nat)
    requires k <= n && j <= |ws| && AllKeyed(ws, n, k, key) && |x| == n && KeyOf(x, k) == key
    ensures AllKeyed(ws[..j] + [x] + ws[j..], n, k, key)
  {
    var ws' := ws[..j] + [x] + ws[j..];
    forall t | 0 <= t < |ws'|
      ensures |ws'[t]| == n && KeyOf(ws'[t], k) == key
    {
      if t < j {
        assert ws'[t] == ws[t];
      } else if t > j {
        assert ws'[t] == ws[t - 1];
      }
    }
  }

  /** The windows read along the spliced chain are the old ones with the
      new window at its place. */
  lemma SplicePrefixes(a: Arena, a': Arena, c: seq<nat>, j: nat, digits: seq<Digit>, pos: nat, len: nat)
    requires j <= |c| && a.count < |a.nodes| && (forall t :: 0 <= t < |c| ==> 1 <= c[t] < a.count)
    requires |a'.nodes| == |a.nodes| && a'.nodes[a.count].pos == pos && pos + len <= |digits|
    requires forall id :: 0 <= id < |a.nodes| && id != a.count ==> a'.nodes[id].pos == a.nodes[id].pos
    ensures Prefixes(a', digits, c[..j] + [a.count] + c[j..], len) ==
              Prefixes(a, digits, c, len)[..j] + [digits[pos..pos + len]] + Prefixes(a, digits, c, len)[j..]
  {
    var c' := c[..j] + [a.count] + c[j..];
    var ws := Prefixes(a, digits, c, len);
    var ws' := Prefixes(a', digits, c', len);
    var r := ws[..j] + [digits[pos..pos + len]] + ws[j..];
    assert |ws'| == |r|;
    forall t | 0 <= t < |ws'|
      ensures ws'[t] == r[t]
    {
      if t < j {
        assert c'[t] == c[t] && r[t] == ws[t];
        StoredSame(a, a', digits, c[t], len);
      } else if t > j {
        assert c'[t] == c[t - 1] && r[t] == ws[t - 1];
        StoredSame(a, a', digits, c[t - 1], len);
      } else {
        assert c'[t] == a.count && r[t] == digits[pos..pos + len];
      }
    }
  }

  /** A node whose offset the splice kept records the same window. */
  lemma StoredSame(a: Arena, a': Arena, digits: seq<Digit>, id: nat, len: nat)
    requires |a'.nodes| == |a.nodes| && id < |a.nodes| && a'.nodes[id].pos == a.nodes[id].pos
    ensures Stored(a', digits, id, len) == Stored(a, digits, id, len)
  {
  }

  /** After the splice the chain of `key` records `pos` besides what it
      recorded before, and every other chain records what it did. */
  lemma SplicePositions(a: Arena, chains: seq<seq<nat>>, key: nat, j: nat, prev: nat, pos: nat,
                         a': Arena, chains': seq<seq<nat>>)
    requires Linked(a, chains)
    requires key < |chains| && j <= |chains[key]| && a.count < |a.nodes| && prev < a.count
    requires a' == Link(a, key, prev, pos) && chains' == chains[key := chains[key][..j] + [a.count] + chains[key][j..]]
    ensures forall kk, x :: 0 <= kk < |chains| ==>
              (x in Positions(a', chains'[kk]) <==> x in Positions(a, chains[kk]) || (kk == key && x == pos))
  {
    forall kk | 0 <= kk < |chains|
      ensures kk != key ==> Positions(a', chains'[kk]) == Positions(a, chains[kk])
    {
      assert ChainLinked(a, chains[kk]);
      if kk != key {
        SplicedPositions(a, chains[kk], key, 0, prev, pos);
      }
    }
    assert ChainLinked(a, chains[key]);
    SplicedPositions(a, chains[key], key, j, prev, pos);
    var ps := Positions(a, chains[key]);
    assert ps == ps[..j] + ps[j..];
  }

  /** Linking a node changes the offsets recorded along no chain of used
      slots, and a chain that takes the new node gains `pos` at its place. */
  lemma SplicedPositions(a: Arena, c: seq<nat>, key: nat, j: nat, prev: nat, pos: nat)
    requires key < |a.heads| && a.count < |a.nodes| && prev < a.count && j <= |c|
    requires forall t :: 0 <= t < |c| ==> c[t] < a.count
    ensures Positions(Link(a, key, prev, pos), c) == Positions(a, c)
    ensures Positions(Link(a, key, prev, pos), c[..j] + [a.count] + c[j..]) ==
              Positions(a, c)[..j] + [pos] + Positions(a, c)[j..]
  {
    var a' := Link(a, key, prev, pos);
    var c' := c[..j] + [a.count] + c[j..];
    var ps := Positions(a, c);
    var ps' := Positions(a', c');
    var r := ps[..j] + [pos] + ps[j..];
    assert |ps'| == |r|;
    forall t | 0 <= t < |ps'|
      ensures ps'[t] == r[t]
    {
      if t < j {
        assert c'[t] == c[t] && r[t] == ps[t];
      } else if t > j {
        assert c'[t] == c[t - 1] && r[t] == ps[t - 1];
      }
    }
  }

  /** The chain of `key` holds a recorded window equal to `w` exactly when
      one of its recorded offsets starts a copy of `w` in the buffer. */
  lemma StoredIffPositions(a: Arena, chains: seq<seq<nat>>, digits: seq<Digit>, key: nat, w: seq<Digit>)
    requires Linked(a, chains) && key < |chains| && |w| >= 1
    ensures (exists t :: 0 <= t < |chains[key]| && Stored(a, digits, chains[key][t], |w|) == w) <==>
            CopyAt(Positions(a, chains[key]), digits, w)
  {
    var c := chains[key];
    var ps := Positions(a, c);
    assert ChainLinked(a, c);
    if exists t :: 0 <= t < |c| && Stored(a, digits, c[t], |w|) == w {
      var t :| 0 <= t < |c| && Stored(a, digits, c[t], |w|) == w;
      StoredAt(a, c, digits, w, t);
      assert ps[t] in ps;
    }
    if CopyAt(ps, digits, w) {
      var x :| x in ps && x + |w| <= |digits| && digits[x..x + |w|] == w;
      var t := IndexOf(ps, x);
      StoredAt(a, c, digits, w, t);
    }
  }

  /** Some offset of `ps` starts a copy of `w` in the buffer. */
  ghost predicate CopyAt(ps: seq<nat>, digits: seq<Digit>, w: seq<Digit>)
  {
    exists x :: x in ps && x + |w| <= |digits| && digits[x..x + |w|] == w
  }

  /** A recorded window equals `w` exactly when its offset starts a copy of
      `w` in the buffer. */
  lemma StoredAt(a: Arena, c: seq<nat>, digits: seq<Digit>, w: seq<Digit>, t: nat)
    requires |w| >= 1 && t < |c| && c[t] < |a.nodes|
    ensures Stored(a, digits, c[t], |w|) == w <==>
              Positions(a, c)[t] + |w| <= |digits| && digits[Positions(a, c)[t]..Positions(a, c)[t] + |w|] == w
  {
  }

  /** Where `x` occurs in `xs`. */
  lemma IndexOf(xs: seq<nat>, x: nat) returns (t: nat)
    requires x in xs
    ensures t < |xs| && xs[t] == x
  {
    t :| 0 <= t < |xs| && xs[t] == x;
  }

  /** Writing the buffer past the end of every recorded window leaves the
      index valid: the digits it reads are untouched. */
  lemma WriteKeepsValid(a: Arena, chains: seq<seq<nat>>, digits: seq<Digit>, n: nat, k: nat, idx: nat, v: Digit)
    requires Valid(a, chains, digits, n, k) && idx < |digits|
    requires forall kk, x :: 0 <= kk < |chains| && x in Positions(a, chains[kk]) ==> x + n <= idx
    ensures Valid(a, chains, digits[idx := v], n, k)
  {
    forall kk | 0 <= kk < |chains|
      ensures ChainOrdered(a, chains[kk], digits[idx := v], n, k, kk)
    {
      var c := chains[kk];
      assert ChainOrdered(a, c, digits, n, k, kk) && ChainLinked(a, c);
      forall t | 0 <= t < |c|
        ensures Positions(a, c)[t] + n <= idx
      {
        assert Positions(a, c)[t] in Positions(a, c);
      }
      WriteKeepsPrefixes(a, c, digits, idx, v, n);
      WriteKeepsPrefixes(a, c, digits, idx, v, n - k);
    }
  }

  lemma WriteKeepsPrefixes(a: Arena, c: seq<nat>, digits: seq<Digit>, idx: nat, v: Digit, len: nat)
    requires idx < |digits| && forall t :: 0 <= t < |c| ==> c[t] < |a.nodes|
    requires forall t :: 0 <= t < |c| ==> Positions(a, c)[t] + len <= idx
    ensures Prefixes(a, digits[idx := v], c, len) == Prefixes(a, digits, c, len)
  {
    forall t | 0 <= t < |c|
      ensures Prefixes(a, digits[idx := v], c, len)[t] == Prefixes(a, digits, c, len)[t]
    {
      var p := a.nodes[c[t]].pos;
      assert Positions(a, c)[t] == p;
      assert digits[idx := v][p..p + len] == digits[p..p + len];
    }
  }
}
