/** The phys-to-virt hashmap: twenty chains of page_table_t nodes. */
module VmmHashmap {
  import opened Common

  const BUCKETS := 20

  /** hash_function */
  function Hash(paddr: nat): (b: nat)
    ensures b < BUCKETS
  {
    paddr % BUCKETS
  }

  /** Page-aligned keys use five of the twenty buckets, and use all five. */
  lemma PageAlignedBuckets(b: nat)
    requires b < BUCKETS
    ensures (exists n: nat :: Hash(n * 0x1000) == b) <==> b in {0, 4, 8, 12, 16}
  {
    forall n: nat
      ensures Hash(n * 0x1000) in {0, 4, 8, 12, 16}
    {
      PageHash(n);
    }
    assert Hash(0 * 0x1000) == 0 && Hash(1 * 0x1000) == 16 && Hash(2 * 0x1000) == 12;
    assert Hash(3 * 0x1000) == 8 && Hash(4 * 0x1000) == 4;
  }

  lemma PageHash(n: nat)
    ensures Hash(n * 0x1000) == (0x1000 * (n % 5)) % 20
    ensures Hash(n * 0x1000) in {0, 4, 8, 12, 16}
  {
    var q, r := n / 5, n % 5;
    assert n * 0x1000 == (1024 * q) * 20 + 0x1000 * r;
    Multiple20(1024 * q, 0x1000 * r);
    assert r == 0 || r == 1 || r == 2 || r == 3 || r == 4;
  }

  lemma Multiple20(k: nat, m: nat)
    ensures (k * 20 + m) % 20 == m % 20
  {
  }

  // ------------------------------------------------------------ chain contents

  /** A chain as its (pt_paddr, pt_vaddr) pairs. */
  type Chain = seq<(nat, nat)>

  /** get_ptbl_vaddr on one chain: the first match. */
  ghost function Find(c: Chain, k: nat): Option<nat> {
    if c == [] then None
    else if c[0].0 == k then Some(c[0].1)
    else Find(c[1..], k)
  }

  /** Position of the first match at or after i, or |c|. */
  ghost function IndexFrom(c: Chain, k: nat, i: nat): (j: nat)
    requires i <= |c|
    ensures i <= j <= |c|
    ensures j < |c| ==> c[j].0 == k
    ensures forall n :: i <= n < j ==> c[n].0 != k
    decreases |c| - i
  {
    if i == |c| || c[i].0 == k then i else IndexFrom(c, k, i + 1)
  }

  /** The match that insertion and removal see: neither looks at the first
      node of a chain. */
  ghost function LaterMatch(c: Chain, k: nat): (j: nat)
    ensures j <= |c|
  {
    if c == [] then 0 else IndexFrom(c, k, 1)
  }

  ghost function Inserted(c: Chain, k: nat, v: nat): Chain {
    var j := LaterMatch(c, k);
    if j < |c| then c[j := (k, v)] else c + [(k, v)]
  }

  ghost function Removed(c: Chain, k: nat): Chain {
    var j := LaterMatch(c, k);
    if j < |c| then c[..j] + c[j + 1..] else c
  }

  lemma {:induction false} FindIndex(c: Chain, k: nat, j: nat)
    requires j <= |c| && (forall n :: 0 <= n < j ==> c[n].0 != k) && (j < |c| ==> c[j].0 == k)
    ensures Find(c, k) == if j < |c| then Some(c[j].1) else None
    decreases |c|
  {
    if c != [] && j > 0 {
      FindIndex(c[1..], k, j - 1);
    }
  }

  /** Insertion is a map update exactly when the key is not the one at the
      head of its chain; in that case the new node is shadowed for good. */
  lemma InsertFinds(c: Chain, k: nat, v: nat, q: nat)
    ensures Find(Inserted(c, k, v), q) ==
      if q == k && !(c != [] && c[0].0 == k) then Some(v) else Find(c, q)
  {
    var d := Inserted(c, k, v);
    var i := IndexFrom(c, q, 0);
    FindIndex(c, q, i);
    var j := LaterMatch(c, k);
    if q == k && !(c != [] && c[0].0 == k) {
      FindIndex(d, q, j);
    } else if i < |c| {
      FindIndex(d, q, i);
    } else {
      FindIndex(d, q, |d|);
    }
  }

  ghost predicate DistinctKeys(c: Chain) {
    forall i, j :: 0 <= i < j < |c| ==> c[i].0 != c[j].0
  }

  /** Removal succeeds exactly when the matching node is not first in its
      chain, and then takes that key out and nothing else. */
  lemma RemoveFinds(c: Chain, k: nat, q: nat)
    requires DistinctKeys(c)
    ensures LaterMatch(c, k) < |c| <==> Find(c, k).Some? && c[0].0 != k
    ensures Find(Removed(c, k), q) == if q == k && LaterMatch(c, k) < |c| then None else Find(c, q)
    ensures DistinctKeys(Removed(c, k))
  {
    hide Find;
    var i := IndexFrom(c, q, 0);
    FindIndex(c, q, i);
    FindIndex(c, k, IndexFrom(c, k, 0));
    var j := LaterMatch(c, k);
    if j < |c| {
      RemovedElements(c, k);
      var d := Removed(c, k);
      if q == k || i == |c| {
        FindIndex(d, q, |d|);
      } else {
        FindIndex(d, q, if i < j then i else i - 1);
      }
    }
  }

  lemma RemovedElements(c: Chain, k: nat)
    requires DistinctKeys(c) && LaterMatch(c, k) < |c|
    ensures var j, d := LaterMatch(c, k), Removed(c, k);
      && |d| == |c| - 1 && 0 < j && c[j].0 == k
      && (forall n :: 0 <= n < j ==> d[n] == c[n])
      && (forall n :: j <= n < |d| ==> d[n] == c[n + 1])
      && (forall n :: 0 <= n < |d| ==> d[n].0 != k)
      && DistinctKeys(d)
  {
    var j, d := LaterMatch(c, k), Removed(c, k);
    forall n | 0 <= n < |d|
      ensures d[n].0 != k
    {
      assert d[n] == c[if n < j then n else n + 1];
    }
  }

  // -------------------------------------------------------------- whole table

  type Table = seq<Chain>

  ghost predicate IsTable(t: Table) { |t| == BUCKETS }

  ghost function Lookup(t: Table, k: nat): Option<nat>
    requires IsTable(t)
  {
    Find(t[Hash(k)], k)
  }

  ghost function Put(t: Table, k: nat, v: nat): Table
    requires IsTable(t)
  {
    t[Hash(k) := Inserted(t[Hash(k)], k, v)]
  }

  ghost function Take(t: Table, k: nat): Table
    requires IsTable(t)
  {
    t[Hash(k) := Removed(t[Hash(k)], k)]
  }

  ghost function Puts(kvs: seq<(nat, nat)>): (t: Table)
    ensures IsTable(t)
  {
    if kvs == [] then seq(BUCKETS, _ => [])
    else Put(Puts(kvs[..|kvs| - 1]), kvs[|kvs| - 1].0, kvs[|kvs| - 1].1)
  }

  ghost function AsMap(kvs: seq<(nat, nat)>): map<nat, nat> {
    if kvs == [] then map[]
    else AsMap(kvs[..|kvs| - 1])[kvs[|kvs| - 1].0 := kvs[|kvs| - 1].1]
  }

  lemma {:induction false} AsMapKeys(kvs: seq<(nat, nat)>, k: nat)
    ensures k in AsMap(kvs) <==> exists i :: 0 <= i < |kvs| && kvs[i].0 == k
  {
    if kvs != [] {
      var init := kvs[..|kvs| - 1];
      AsMapKeys(init, k);
      if k in AsMap(init) {
        var i :| 0 <= i < |init| && init[i].0 == k;
        assert kvs[i].0 == k;
      }
      forall i | 0 <= i < |kvs| && kvs[i].0 == k
        ensures k in AsMap(kvs)
      {
        if i < |init| {
          assert init[i].0 == k;
        }
      }
    }
  }

  lemma {:induction false} AsMapAt(kvs: seq<(nat, nat)>, i: nat)
    requires DistinctKeys(kvs) && i < |kvs|
    ensures kvs[i].0 in AsMap(kvs) && AsMap(kvs)[kvs[i].0] == kvs[i].1
  {
    if i < |kvs| - 1 {
      AsMapAt(kvs[..|kvs| - 1], i);
    }
  }

  /** After any sequence of insertions with distinct keys the twenty chains
      behave as the finite map of those insertions. */
  lemma {:induction false} PutsRefineMap(kvs: seq<(nat, nat)>, k: nat)
    requires DistinctKeys(kvs)
    ensures Lookup(Puts(kvs), k) == if k in AsMap(kvs) then Some(AsMap(kvs)[k]) else None
    decreases |kvs|
  {
    if kvs != [] {
      var init := kvs[..|kvs| - 1];
      var (k0, v0) := kvs[|kvs| - 1];
      var t := Puts(init);
      PutsRefineMap(init, k);
      PutsRefineMap(init, k0);
      AsMapKeys(init, k0);
      var c := t[Hash(k0)];
      assert c != [] ==> c[0].0 != k0;
      if Hash(k) == Hash(k0) {
        InsertFinds(c, k0, v0, k);
      }
    }
  }

  // --------------------------------------------------------------- the objects

  class Node {
    var ptVaddr: nat
    const ptPaddr: nat
    var next: Node?

    constructor (paddr: nat, vaddr: nat)
      ensures ptPaddr == paddr && ptVaddr == vaddr && next == null
    {
      ptPaddr, ptVaddr, next := paddr, vaddr, null;
    }
  }

  ghost function Succ(nodes: seq<Node>, i: nat): Node? {
    if i + 1 < |nodes| then nodes[i + 1] else null
  }

  ghost predicate Linked(first: Node?, nodes: seq<Node>)
    reads nodes`next
  {
    && first == (if nodes == [] then null else nodes[0])
    && (forall i :: 0 <= i < |nodes| ==> nodes[i].next == Succ(nodes, i))
    && (forall i, j :: 0 <= i < j < |nodes| ==> nodes[i] != nodes[j])
  }

  lemma Head(first: Node?, nodes: seq<Node>)
    requires Linked(first, nodes)
    ensures first == null <==> nodes == []
  {
  }

  lemma Single(node: Node)
    requires node.next == null
    ensures Linked(node, [node]) && Pairs([node]) == [(node.ptPaddr, node.ptVaddr)]
  {
  }

  lemma InsertedEmpty(k: nat, v: nat)
    ensures Inserted([], k, v) == [(k, v)]
  {
  }

  ghost function Pairs(nodes: seq<Node>): (c: Chain)
    reads nodes`ptVaddr
    ensures |c| == |nodes|
    ensures forall i :: 0 <= i < |nodes| ==> c[i] == (nodes[i].ptPaddr, nodes[i].ptVaddr)
  {
    if nodes == [] then [] else [(nodes[0].ptPaddr, nodes[0].ptVaddr)] + Pairs(nodes[1..])
  }

  /** get_ptbl_vaddr on one chain; 0 is NULL. */
  method Search(first: Node?, paddr: nat, ghost nodes: seq<Node>) returns (vaddr: nat)
    requires Linked(first, nodes)
    ensures vaddr == match Find(Pairs(nodes), paddr) case None => 0 case Some(v) => v
  {
    ghost var c := Pairs(nodes);
    var node := first;
    ghost var i := 0;
    while node != null
      invariant i <= |nodes| && node == if i < |nodes| then nodes[i] else null
      invariant forall n :: 0 <= n < i ==> c[n].0 != paddr
      decreases |nodes| - i
    {
      if node.ptPaddr == paddr {
        FindIndex(c, paddr, i);
        return node.ptVaddr;
      }
      assert nodes[i].next == Succ(nodes, i);
      node := node.next;
      i := i + 1;
    }
    FindIndex(c, paddr, i);
    return 0;
  }

  lemma LaterMatchIs(c: Chain, k: nat, j: nat)
    requires c != [] && 1 <= j <= |c| && (forall n :: 1 <= n < j ==> c[n].0 != k) && (j < |c| ==> c[j].0 == k)
    ensures LaterMatch(c, k) == j
  {
  }

  /** pg_tbl_insert on a non-empty chain. The result says whether the node was
      appended; otherwise an existing node took its address. */
  method Append(first: Node, node: Node, ghost nodes: seq<Node>) returns (appended: bool)
    requires nodes != [] && Linked(first, nodes) && node !in nodes && node.next == null
    modifies nodes`next, nodes`ptVaddr
    ensures Linked(first, if appended then nodes + [node] else nodes)
    ensures Pairs(if appended then nodes + [node] else nodes) ==
            Inserted(old(Pairs(nodes)), node.ptPaddr, node.ptVaddr)
    ensures appended <==> LaterMatch(old(Pairs(nodes)), node.ptPaddr) == |nodes|
    ensures node.ptVaddr == old(node.ptVaddr)
  {
    hide LaterMatch, Inserted, Pairs;
    ghost var c := Pairs(nodes);
    InsertedCases(c, node.ptPaddr, node.ptVaddr);
    var scan;
    ghost var i;
    scan, i := Scan(first, node.ptPaddr, nodes);
    LaterMatchIs(c, node.ptPaddr, i + 1);
    if scan.next != null {
      scan.next.ptVaddr := node.ptVaddr;
      assert Pairs(nodes) == c[i + 1 := (node.ptPaddr, node.ptVaddr)];
      return false;
    }
    scan.next := node;
    AppendLinked(nodes, node);
    assert Pairs(nodes + [node]) == c + [(node.ptPaddr, node.ptVaddr)];
    return true;
  }

  /** The loop of pg_tbl_insert: stops before the first later match, or at the
      end. */
  method Scan(first: Node, paddr: nat, ghost nodes: seq<Node>) returns (scan: Node, ghost i: nat)
    requires nodes != [] && Linked(first, nodes)
    ensures i < |nodes| && scan == nodes[i] && scan.next == Succ(nodes, i)
    ensures forall n :: 1 <= n <= i ==> nodes[n].ptPaddr != paddr
    ensures scan.next != null ==> scan.next.ptPaddr == paddr
  {
    scan, i := first, 0;
    while scan.next != null && scan.next.ptPaddr != paddr
      invariant i < |nodes| && scan == nodes[i]
      invariant forall n :: 1 <= n <= i ==> nodes[n].ptPaddr != paddr
      decreases |nodes| - i
    {
      assert nodes[i].next == Succ(nodes, i);
      scan, i := scan.next, i + 1;
    }
  }

  lemma InsertedCases(c: Chain, k: nat, v: nat)
    ensures LaterMatch(c, k) <= |c|
    ensures Inserted(c, k, v) ==
      if LaterMatch(c, k) < |c| then c[LaterMatch(c, k) := (k, v)] else c + [(k, v)]
  {
  }

  lemma AppendLinked(nodes: seq<Node>, node: Node)
    requires nodes != [] && node !in nodes && node.next == null && nodes[|nodes| - 1].next == node
    requires forall i :: 0 <= i < |nodes| - 1 ==> nodes[i].next == Succ(nodes, i)
    requires forall i, j :: 0 <= i < j < |nodes| ==> nodes[i] != nodes[j]
    ensures Linked(nodes[0], nodes + [node])
  {
    var l := nodes + [node];
    forall i | 0 <= i < |l|
      ensures l[i].next == Succ(l, i)
    {
      if i < |nodes| {
        assert l[i] == nodes[i];
      }
    }
  }

  /** The link edit of vmm_hashmap_remove on a non-empty chain: the first
      matching node behind the head is taken out, if there is one. */
  method Unlink(first: Node, paddr: nat, ghost nodes: seq<Node>) returns (taken: Node?)
    requires nodes != [] && Linked(first, nodes)
    modifies nodes`next
    ensures var j := LaterMatch(Pairs(nodes), paddr);
      if j < |nodes| then taken == nodes[j] && Linked(first, Without(nodes, j))
      else taken == null && Linked(first, nodes)
  {
    hide LaterMatch, Without, Pairs;
    ghost var c := Pairs(nodes);
    var scan := first;
    ghost var i := 0;
    while scan.next != null && scan.next.ptPaddr != paddr
      modifies {}
      invariant i < |nodes| && scan == nodes[i]
      invariant forall n :: 1 <= n <= i ==> c[n].0 != paddr
      decreases |nodes| - i
    {
      assert nodes[i].next == Succ(nodes, i);
      scan := scan.next;
      i := i + 1;
    }
    assert nodes[i].next == Succ(nodes, i);
    LaterMatchIs(c, paddr, i + 1);
    taken := scan.next;
    if taken != null {
      assert nodes[i + 1].next == Succ(nodes, i + 1);
      scan.next := scan.next.next;
      Unlinked(nodes, i + 1);
    }
  }

  lemma Unlinked(nodes: seq<Node>, j: nat)
    requires 0 < j < |nodes|
    requires nodes[j - 1].next == Succ(nodes, j)
    requires forall i :: 0 <= i < |nodes| && i != j - 1 ==> nodes[i].next == Succ(nodes, i)
    requires forall i, k :: 0 <= i < k < |nodes| ==> nodes[i] != nodes[k]
    ensures Linked(nodes[0], Without(nodes, j))
  {
    var rest := Without(nodes, j);
    forall i | 0 <= i < |rest|
      ensures rest[i].next == Succ(rest, i)
    {
      assert rest[i] == nodes[if i < j then i else i + 1];
    }
  }

  /** The map from table frames to the addresses at which they are mapped. */
  class Hashmap {
    const buckets: array<Node?>
    var tables: Node?                       // nodes taken out by remove
    ghost var chains: seq<seq<Node>>
    ghost var view: Table                   // the pairs in the chains
    ghost var freed: seq<Node>

    static ghost function NodesOf(cs: seq<seq<Node>>): set<Node> {
      set b, i | 0 <= b < |cs| && 0 <= i < |cs[b]| :: cs[b][i]
    }

    ghost function Nodes(): set<Node>
      reads this`chains
    {
      NodesOf(chains)
    }

    /** Chain b hangs at its bucket and holds keys that hash to b. */
    static ghost predicate Bucket(first: Node?, nodes: seq<Node>, b: nat, pairs: Chain)
      reads nodes`next, nodes`ptVaddr
    {
      && Linked(first, nodes)
      && (forall i :: 0 <= i < |nodes| ==> Hash(nodes[i].ptPaddr) == b)
      && pairs == Pairs(nodes)
    }

    ghost predicate Chained()
      reads this`chains, this`view, buckets, Nodes()`next, Nodes()`ptVaddr
    {
      && buckets.Length == BUCKETS && |chains| == BUCKETS && IsTable(view)
      && (forall b :: 0 <= b < BUCKETS ==> Bucket(buckets[b], chains[b], b, view[b]))
    }

    ghost predicate Valid()
      reads this, buckets, Nodes()`next, Nodes()`ptVaddr, freed`next
    {
      && Chained()
      && Linked(tables, freed)
      && (forall n :: n in freed ==> n !in Nodes())
    }

    /** vmm_hashmap_init */
    constructor ()
      ensures Valid() && view == Puts([]) && freed == []
    {
      buckets := new Node?[BUCKETS](_ => null);
      tables := null;
      chains, freed := seq(BUCKETS, _ => []), [];
      view := Puts([]);
    }

    lemma Members()
      requires Chained()
      ensures forall b, i :: 0 <= b < BUCKETS && 0 <= i < |chains[b]| ==> chains[b][i] in Nodes()
      ensures forall b, c :: 0 <= b < BUCKETS && 0 <= c < BUCKETS && b != c ==>
                forall i :: 0 <= i < |chains[b]| ==> chains[b][i] !in chains[c]
    {
      forall b, c, i | 0 <= b < BUCKETS && 0 <= c < BUCKETS && b != c && 0 <= i < |chains[b]|
        ensures chains[b][i] !in chains[c]
      {
        assert Bucket(buckets[b], chains[b], b, view[b]) && Bucket(buckets[c], chains[c], c, view[c]);
        assert Hash(chains[b][i].ptPaddr) == b;
      }
    }

    /** get_ptbl_vaddr */
    method GetPtblVaddr(paddr: nat) returns (vaddr: nat)
      requires Valid()
      ensures vaddr == match Lookup(view, paddr) case None => 0 case Some(v) => v
    {
      var b := Hash(paddr);
      assert Bucket(buckets[b], chains[b], b, view[b]);
      vaddr := Search(buckets[b], paddr, chains[b]);
    }

    /** pg_tbl_insert, on the chains. */
    method InsertChained(node: Node) returns (appended: bool)
      requires Chained() && node !in Nodes() && node.next == null
      modifies this`chains, this`view, buckets, Nodes()`next, Nodes()`ptVaddr
      ensures Chained() && view == Put(old(view), node.ptPaddr, node.ptVaddr)
      ensures Nodes() == old(Nodes()) + if appended then {node} else {}
      ensures var c := old(view)[Hash(node.ptPaddr)];
        appended <==> c == [] || LaterMatch(c, node.ptPaddr) == |c|
    {
      hide Bucket, NodesOf, Inserted, LaterMatch, Find, Hash, Pairs;
      var b := Hash(node.ptPaddr);
      ghost var cs := chains;
      Members();
      NotThere(node, b);
      appended := InsertInBucket(b, node, cs[b], view[b]);
      assert forall d :: 0 <= d < BUCKETS && d != b ==> Bucket(buckets[d], cs[d], d, view[d]);
      NodesAfter(cs, b, node);
      if appended {
        chains := cs[b := cs[b] + [node]];
      }
      view := Put(view, node.ptPaddr, node.ptVaddr);
    }

    /** The same on the one bucket concerned. */
    method InsertInBucket(b: nat, node: Node, ghost nodes: seq<Node>, ghost pairs: Chain) returns (appended: bool)
      requires buckets.Length == BUCKETS && b < BUCKETS && b == Hash(node.ptPaddr)
      requires Bucket(buckets[b], nodes, b, pairs) && node !in nodes && node.next == null
      modifies buckets, nodes`next, nodes`ptVaddr
      ensures Bucket(buckets[b], if appended then nodes + [node] else nodes, b,
                     Inserted(pairs, node.ptPaddr, node.ptVaddr))
      ensures appended <==> pairs == [] || LaterMatch(pairs, node.ptPaddr) == |pairs|
      ensures forall d :: 0 <= d < BUCKETS && d != b ==> buckets[d] == old(buckets[d])
      ensures node.ptVaddr == old(node.ptVaddr)
    {
      hide Linked, Inserted, LaterMatch, Find, Hash;
      Head(buckets[b], nodes);
      InsertedEmpty(node.ptPaddr, node.ptVaddr);
      if buckets[b] == null {
        buckets[b] := node;
        appended := true;
        Single(node);
        assert nodes + [node] == [node];
      } else {
        appended := Append(buckets[b], node, nodes);
      }
    }

    /** pg_tbl_insert of a node that is in no list yet. */
    method PgTblInsert(node: Node) returns (appended: bool)
      requires Valid() && node !in Nodes() && node !in freed && node.next == null
      modifies this`chains, this`view, buckets, Nodes()`next, Nodes()`ptVaddr
      ensures Valid() && view == Put(old(view), node.ptPaddr, node.ptVaddr)
      ensures var c := old(view)[Hash(node.ptPaddr)];
        appended <==> c == [] || LaterMatch(c, node.ptPaddr) == |c|
    {
      hide Chained, NodesOf, Put, LaterMatch;
      appended := InsertChained(node);
    }

    /** The chain edit of vmm_hashmap_remove. */
    method RemoveChained(paddr: nat) returns (taken: Node?)
      requires Chained()
      modifies this`chains, this`view, Nodes()`next
      ensures Chained() && view == Take(old(view), paddr)
      ensures taken == null ==> chains == old(chains)
      ensures taken != null ==> taken in old(Nodes()) && Nodes() == old(Nodes()) - {taken} && taken.ptPaddr == paddr
      ensures var c := old(view)[Hash(paddr)];
        taken != null <==> c != [] && LaterMatch(c, paddr) < |c|
      ensures taken != null ==> Left(old(chains), chains, Hash(paddr), LaterMatch(old(view)[Hash(paddr)], paddr), taken)
    {
      hide Bucket, Linked, NodesOf, Removed, LaterMatch, Find, Hash, Pairs, Without;
      var b := Hash(paddr);
      ghost var cs, t := chains, view;
      Members();
      BucketParts(buckets[b], cs[b], b, t[b]);
      Head(buckets[b], cs[b]);
      RemovedPairs(cs[b], paddr, t[b]);
      taken := null;
      ghost var j := LaterMatch(t[b], paddr);
      if buckets[b] != null {
        taken := Unlink(buckets[b], paddr, cs[b]);
      }
      assert forall d :: 0 <= d < BUCKETS && d != b ==> Bucket(buckets[d], cs[d], d, t[d]);
      if taken != null {
        WithoutNode(cs, b, j);
        chains := cs[b := Without(cs[b], j)];
      }
      view := Take(t, paddr);
      RemovedAgain(cs[b], paddr, t[b]);
      BucketMade(buckets[b], chains[b], b, view[b]);
    }

    /** The node at place j of chain b has left it, and nothing else has changed. */
    static ghost predicate Left(cs: seq<seq<Node>>, cs': seq<seq<Node>>, b: nat, j: nat, node: Node) {
      b < |cs| && j < |cs[b]| && node == cs[b][j] && cs' == cs[b := Without(cs[b], j)]
    }

    /** The node that removal finds is a later node with the wanted frame. */
    static lemma RemovedPairs(nodes: seq<Node>, paddr: nat, c: Chain)
      requires c == Pairs(nodes)
      ensures nodes == [] ==> LaterMatch(c, paddr) == 0
      ensures LaterMatch(c, paddr) < |nodes| ==>
        nodes[LaterMatch(c, paddr)].ptPaddr == paddr && 0 < LaterMatch(c, paddr)
    {
    }

    /** Removal on a node list is removal on its pairs. */
    static lemma RemovedAgain(nodes: seq<Node>, paddr: nat, c: Chain)
      requires c == Pairs(nodes)
      ensures var j := LaterMatch(c, paddr);
        && j <= |nodes|
        && (j < |nodes| ==> Removed(c, paddr) == Pairs(Without(nodes, j))
                            && forall i :: 0 <= i < |Without(nodes, j)| ==> Without(nodes, j)[i] in nodes)
        && (j == |nodes| ==> Removed(c, paddr) == Pairs(nodes))
    {
    }

    static lemma WithoutNode(cs: seq<seq<Node>>, b: nat, j: nat)
      requires b < |cs| && j < |cs[b]|
      requires forall i, k :: 0 <= i < k < |cs[b]| ==> cs[b][i] != cs[b][k]
      requires forall c :: 0 <= c < |cs| && c != b ==> forall i :: 0 <= i < |cs[c]| ==> cs[c][i] !in cs[b]
      ensures NodesOf(cs[b := Without(cs[b], j)]) == NodesOf(cs) - {cs[b][j]}
      ensures cs[b][j] in NodesOf(cs)
    {
      var ds := cs[b := Without(cs[b], j)];
      forall q, t | 0 <= q < |ds| && 0 <= t < |ds[q]|
        ensures ds[q][t] in NodesOf(cs) - {cs[b][j]}
      {
        var u := if q == b && t >= j then t + 1 else t;
        assert cs[q][u] == ds[q][t];
      }
      forall q, t | 0 <= q < |cs| && 0 <= t < |cs[q]| && cs[q][t] != cs[b][j]
        ensures cs[q][t] in NodesOf(ds)
      {
        var u := if q == b && t > j then t - 1 else t;
        assert ds[q][u] == cs[q][t];
      }
    }

    method PushFreed(node: Node)
      requires Linked(tables, freed) && node !in freed
      modifies this`tables, this`freed, node`next
      ensures Linked(tables, freed) && freed == [node] + old(freed)
    {
      ghost var rest := freed;
      node.next := tables;
      tables := node;
      freed := [node] + freed;
      forall i | 0 <= i < |freed|
        ensures freed[i].next == Succ(freed, i)
      {
        if i > 0 {
          assert freed[i] == rest[i - 1];
        }
      }
    }

    /** vmm_hashmap_remove: the node goes to the list of freed tables. */
    method Remove(paddr: nat) returns (found: bool)
      requires Valid()
      modifies this`chains, this`view, this`tables, this`freed, Nodes()`next
      ensures Valid() && view == Take(old(view), paddr)
      ensures var c := old(view)[Hash(paddr)];
        found <==> c != [] && LaterMatch(c, paddr) < |c|
      ensures !found ==> freed == old(freed)
      ensures found ==> |freed| > 0 && freed[0].ptPaddr == paddr && freed[1..] == old(freed)
      ensures found ==> Left(old(chains), chains, Hash(paddr), LaterMatch(old(view)[Hash(paddr)], paddr), freed[0])
      ensures !found ==> chains == old(chains)
    {
      hide Bucket, Linked, Take, LaterMatch, Left;
      var node := RemoveChained(paddr);
      if node != null {
        Members();
        assert forall b :: 0 <= b < BUCKETS ==> node !in chains[b];
        PushFreed(node);
        assert forall b :: 0 <= b < BUCKETS ==> Bucket(buckets[b], chains[b], b, view[b]);
      }
      found := node != null;
    }

    lemma NotThere(node: Node, b: nat)
      requires b < |chains| && node !in Nodes()
      ensures node !in chains[b]
    {
    }

    static lemma BucketParts(first: Node?, nodes: seq<Node>, b: nat, pairs: Chain)
      requires Bucket(first, nodes, b, pairs)
      ensures Linked(first, nodes) && pairs == Pairs(nodes)
      ensures forall i :: 0 <= i < |nodes| ==> Hash(nodes[i].ptPaddr) == b
    {
    }

    static lemma BucketMade(first: Node?, nodes: seq<Node>, b: nat, pairs: Chain)
      requires Linked(first, nodes) && pairs == Pairs(nodes)
      requires forall i :: 0 <= i < |nodes| ==> Hash(nodes[i].ptPaddr) == b
      ensures Bucket(first, nodes, b, pairs)
    {
    }

    static lemma NodesAfter(cs: seq<seq<Node>>, b: nat, node: Node)
      requires b < |cs|
      ensures NodesOf(cs[b := cs[b] + [node]]) == NodesOf(cs) + {node}
    {
      var ds := cs[b := cs[b] + [node]];
      forall q, t | 0 <= q < |cs| && 0 <= t < |cs[q]|
        ensures cs[q][t] in NodesOf(ds)
      {
        assert ds[q][t] == cs[q][t];
      }
      assert ds[b][|cs[b]|] == node;
      forall q, t | 0 <= q < |ds| && 0 <= t < |ds[q]|
        ensures ds[q][t] in NodesOf(cs) + {node}
      {
        if t < |cs[q]| {
          assert cs[q][t] == ds[q][t];
        }
      }
    }
  }
}
