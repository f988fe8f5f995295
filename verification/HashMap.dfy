/** The chained hash map of std_map.c, which resizes in place. */
module HashMap {
  import opened A64Encoding
  import opened Numbers

  // ----- unsigned arithmetic, bit by bit -----

  // a & b
  function And(a: nat, b: nat): nat {
    if b == 0 then 0 else 2 * And(a / 2, b / 2) + (a % 2) * (b % 2)
  }

  // a ^ b
  function Xor(a: nat, b: nat): nat
    decreases a + b
  {
    if a == 0 && b == 0 then 0 else 2 * Xor(a / 2, b / 2) + (a + b) % 2
  }

  // Masking with one less than a power of two is the remainder.
  lemma {:induction false} AndMask(h: nat, e: nat)
    ensures And(h, Pow2(e) - 1) == h % Pow2(e)
    decreases e
  {
    if e > 0 {
      var p := Pow2(e - 1);
      assert (2 * p - 1) / 2 == p - 1 && (2 * p - 1) % 2 == 1;
      AndMask(h / 2, e - 1);
      HalfRemainder(h, p);
    }
  }

  lemma HalfRemainder(h: nat, p: nat)
    requires p > 0
    ensures h % (2 * p) == 2 * ((h / 2) % p) + h % 2
  {
    var q, r := (h / 2) / p, (h / 2) % p;
    assert h / 2 == q * p + r;
    assert h == q * (2 * p) + (2 * r + h % 2) by {
      assert h == 2 * (h / 2) + h % 2;
      assert 2 * (q * p) == q * (2 * p);
    }
    RemainderIs(h, q, 2 * p, 2 * r + h % 2);
  }

  lemma RemainderIs(h: nat, q: nat, p: nat, r: nat)
    requires h == q * p + r && r < p
    ensures h % p == r
  {
    var q', r' := h / p, h % p;
    assert h == q' * p + r';
    assert (q' - q) * p == q' * p - q * p;
    MultipleFar(q' - q, p);
  }

  lemma MultipleFar(d: int, p: int)
    requires p > 0
    ensures d >= 1 ==> d * p >= p
    ensures d <= -1 ==> d * p <= -p
  {
    if d >= 1 {
      assert (d - 1) * p >= 0;
      assert d * p == (d - 1) * p + p;
    } else if d <= -1 {
      assert (-d - 1) * p >= 0;
      assert -(d * p) == (-d - 1) * p + p;
    }
  }

  // ----- nodes and chains -----

  type Key = seq<bv8>

  // map_hash: hash = ((hash << 5) + hash) ^ c in 32 bits, from 5381, over the bytes of the key.
  function MapHash(key: Key): (h: nat)
    ensures h < TWO_32
  {
    if key == [] then 5381
    else Xor(33 * MapHash(key[..|key| - 1]), key[|key| - 1] as int) % TWO_32
  }

  function Bit(n: nat, k: nat): nat {
    if k == 0 then n % 2 else Bit(n / 2, k - 1)
  }

  lemma {:induction false} XorBits(a: nat, b: nat, k: nat)
    ensures Bit(Xor(a, b), k) == (Bit(a, k) + Bit(b, k)) % 2
    decreases k
  {
    XorHalves(a, b);
    hide Xor;
    if k > 0 {
      XorBits(a / 2, b / 2, k - 1);
    }
  }

  lemma XorHalves(a: nat, b: nat)
    ensures Xor(a, b) / 2 == Xor(a / 2, b / 2) && Xor(a, b) % 2 == (a % 2 + b % 2) % 2
  {
    hide Xor;
    XorUnfolds(a, b);
    Parity(a, b);
    HalfOf(Xor(a / 2, b / 2), (a + b) % 2);
  }

  lemma XorUnfolds(a: nat, b: nat)
    ensures Xor(a, b) == 2 * Xor(a / 2, b / 2) + (a + b) % 2
  {
  }

  lemma Parity(a: nat, b: nat)
    ensures (a + b) % 2 == (a % 2 + b % 2) % 2
  {
    assert a + b == 2 * (a / 2 + b / 2) + (a % 2 + b % 2);
  }

  lemma HalfOf(v: nat, r: nat)
    requires r < 2
    ensures (2 * v + r) / 2 == v && (2 * v + r) % 2 == r
  {
  }

  // Cutting a number to m bits leaves those.
  lemma {:induction false} LowBits(n: nat, m: nat, k: nat)
    requires k < m
    ensures Bit(n % Pow2(m), k) == Bit(n, k)
    decreases k
  {
    HalfRemainder(n, Pow2(m - 1));
    if k > 0 {
      LowBits(n / 2, m - 1, k - 1);
    }
  }

  lemma Pow2Of32()
    ensures Pow2(32) == TWO_32
  {
    assert Pow2(8) == 0x100;
    assert Pow2(16) == 0x1_0000;
    assert Pow2(24) == 0x100_0000;
  }

  /** The hash starts from 5381, and one more byte c makes of h the low 32 bits of 33 * h ^ c. */
  lemma HashGrows(key: Key, c: bv8, k: nat)
    requires k < 32
    ensures MapHash([]) == 5381
    ensures Bit(MapHash(key + [c]), k) == (Bit(33 * MapHash(key), k) + Bit(c as int, k)) % 2
  {
    assert (key + [c])[..|key|] == key;
    XorBits(33 * MapHash(key), c as int, k);
    Pow2Of32();
    LowBits(Xor(33 * MapHash(key), c as int), 32, k);
  }

  class Node {
    const hash: nat
    const key: Key
    var value: U64
    var next: Node?

    constructor (key: Key, value: U64)
      ensures this.key == key && hash == MapHash(key) && this.value == value
    {
      this.key, hash, this.value, next := key, MapHash(key), value, null;
    }
  }

  // One chain of nodes per bucket.
  type Chains = seq<seq<Node>>

  function BucketIndex(nbuckets: nat, hash: nat): nat
    requires nbuckets > 0
  {
    And(hash, nbuckets - 1)
  }

  predicate PowerOfTwo(n: nat) {
    exists e: nat :: e <= n && Pow2(e) == n
  }

  /** A hash goes to the bucket it leaves as remainder. */
  lemma BucketIsRemainder(nbuckets: nat, hash: nat)
    requires PowerOfTwo(nbuckets)
    ensures BucketIndex(nbuckets, hash) == hash % nbuckets < nbuckets
  {
    var e: nat :| e <= nbuckets && Pow2(e) == nbuckets;
    AndMask(hash, e);
  }

  // All nodes, in whatever bucket.
  function AllNodes(chains: Chains): multiset<Node> {
    if chains == [] then multiset{} else multiset(chains[0]) + AllNodes(chains[1..])
  }

  // Each node is in the bucket of its hash, which is its key's.
  ghost predicate Placed(chains: Chains) {
    forall b, k :: 0 <= b < |chains| && 0 <= k < |chains[b]| ==>
      chains[b][k].hash == MapHash(chains[b][k].key) && BucketIndex(|chains|, chains[b][k].hash) == b
  }

  // No key twice.
  ghost predicate UniqueKeys(nodes: multiset<Node>) {
    && (forall n :: n in nodes ==> nodes[n] == 1)
    && (forall m, n :: m in nodes && n in nodes && m.key == n.key ==> m == n)
  }

  function AddTo(chains: Chains, b: nat, node: Node): Chains
    requires b < |chains|
  {
    chains[b := [node] + chains[b]]
  }

  // A node at the front of its bucket.
  function Insert(chains: Chains, node: Node): (r: Chains)
    requires PowerOfTwo(|chains|)
    ensures |r| == |chains|
  {
    BucketIsRemainder(|chains|, node.hash);
    AddTo(chains, BucketIndex(|chains|, node.hash), node)
  }

  lemma {:induction false} AddToNodes(chains: Chains, b: nat, node: Node)
    requires b < |chains|
    ensures AllNodes(AddTo(chains, b, node)) == AllNodes(chains) + multiset{node}
    decreases |chains|
  {
    var chains' := AddTo(chains, b, node);
    if b == 0 {
      assert chains'[1..] == chains[1..];
    } else {
      AddToNodes(chains[1..], b - 1, node);
      assert chains'[1..] == AddTo(chains[1..], b - 1, node);
    }
  }

  lemma {:induction false} InChain(chains: Chains, b: nat, k: nat)
    requires b < |chains| && k < |chains[b]|
    ensures chains[b][k] in AllNodes(chains)
    decreases b
  {
    if b > 0 {
      InChain(chains[1..], b - 1, k);
      assert chains[1..][b - 1][k] == chains[b][k];
    }
  }

  lemma {:induction false} WhichChain(chains: Chains, n: Node) returns (b: nat, k: nat)
    requires n in AllNodes(chains)
    ensures b < |chains| && k < |chains[b]| && chains[b][k] == n
    decreases |chains|
  {
    if n in chains[0] {
      b := 0;
      k :| 0 <= k < |chains[0]| && chains[0][k] == n;
    } else {
      b, k := WhichChain(chains[1..], n);
      b := b + 1;
    }
  }

  // ----- resizing -----

  // A chain's nodes pushed one by one to the front of a list.
  function Pushed(chain: seq<Node>, list: seq<Node>): seq<Node> {
    if chain == [] then list else Pushed(chain[1..], [chain[0]] + list)
  }

  // All chains chained together, the last bucket first.
  function Gathered(chains: Chains): seq<Node> {
    if chains == [] then [] else Pushed(chains[0], Gathered(chains[1..]))
  }

  // The list's nodes added one by one to n empty buckets.
  function Spread(list: seq<Node>, n: nat): (chains: Chains)
    requires PowerOfTwo(n)
    ensures |chains| == n
  {
    if list == [] then seq(n, _ => [])
    else
      Insert(Spread(list[..|list| - 1], n), list[|list| - 1])
  }

  lemma {:induction false} PushedNodes(chain: seq<Node>, list: seq<Node>)
    ensures multiset(Pushed(chain, list)) == multiset(chain) + multiset(list)
    decreases |chain|
  {
    if chain != [] {
      PushedNodes(chain[1..], [chain[0]] + list);
      assert chain == [chain[0]] + chain[1..];
    }
  }

  lemma {:induction false} GatheredNodes(chains: Chains)
    ensures multiset(Gathered(chains)) == AllNodes(chains)
  {
    if chains != [] {
      GatheredNodes(chains[1..]);
      PushedNodes(chains[0], Gathered(chains[1..]));
    }
  }

  lemma {:induction false} SpreadNodes(list: seq<Node>, n: nat)
    requires PowerOfTwo(n)
    ensures AllNodes(Spread(list, n)) == multiset(list)
    decreases |list|
  {
    if list == [] {
      EmptyNodes(seq(n, _ => []));
    } else {
      var rest, node := list[..|list| - 1], list[|list| - 1];
      BucketIsRemainder(n, node.hash);
      SpreadNodes(rest, n);
      AddToNodes(Spread(rest, n), BucketIndex(n, node.hash), node);
      assert list == rest + [node];
    }
  }

  lemma {:induction false} EmptyNodes(chains: Chains)
    requires forall b :: 0 <= b < |chains| ==> chains[b] == []
    ensures AllNodes(chains) == multiset{}
  {
    if chains != [] {
      EmptyNodes(chains[1..]);
    }
  }

  lemma {:induction false} SpreadPlaced(list: seq<Node>, n: nat)
    requires PowerOfTwo(n) && forall k :: 0 <= k < |list| ==> list[k].hash == MapHash(list[k].key)
    ensures Placed(Spread(list, n))
    decreases |list|
  {
    if list != [] {
      var rest, node := list[..|list| - 1], list[|list| - 1];
      BucketIsRemainder(n, node.hash);
      SpreadPlaced(rest, n);
    }
  }

  /** Resizing keeps exactly the nodes there were, each in the bucket of its hash. */
  lemma ResizeConserves(chains: Chains, n: nat)
    requires Placed(chains) && PowerOfTwo(n)
    ensures AllNodes(Spread(Gathered(chains), n)) == AllNodes(chains) && Placed(Spread(Gathered(chains), n))
  {
    var list := Gathered(chains);
    GatheredNodes(chains);
    SpreadNodes(list, n);
    forall k | 0 <= k < |list| ensures list[k].hash == MapHash(list[k].key) {
      assert list[k] in multiset(list);
      var b, j := WhichChain(chains, list[k]);
    }
    SpreadPlaced(list, n);
  }

  // ----- the heap -----

  // From `head`, following `next` visits exactly the chain and ends.
  ghost predicate Linked(head: Node?, chain: seq<Node>)
    reads chain`next
  {
    if chain == [] then head == null else head == chain[0] && Linked(chain[0].next, chain[1..])
  }

  // No node twice, in either list or between them.
  ghost predicate Apart(a: seq<Node>, b: seq<Node>) {
    && (forall i, j :: 0 <= i < j < |a| ==> a[i] != a[j])
    && (forall i, j :: 0 <= i < |a| && 0 <= j < |b| ==> a[i] != b[j])
  }

  // The inner loop of the unchaining: a chain's nodes go to the front of the list of nodes.
  method PushAll(head: Node?, ghost chain: seq<Node>, list: Node?, ghost listed: seq<Node>) returns (nodes: Node?)
    requires Linked(head, chain) && Linked(list, listed) && Apart(chain, listed)
    modifies chain`next
    ensures Linked(nodes, Pushed(chain, listed))
  {
    var node := head;
    nodes := list;
    ghost var rest: seq<Node>, acc: seq<Node> := chain, listed;
    while node != null
      invariant Linked(node, rest) && Linked(nodes, acc) && Apart(rest, acc)
      invariant Pushed(rest, acc) == Pushed(chain, listed)
      invariant forall n :: n in rest ==> n in chain
      decreases |rest|
    {
      var first: Node := node;
      assert first in rest;
      var next := first.next;
      first.next := nodes;
      nodes := first;
      rest, acc := rest[1..], [first] + acc;
      node := next;
    }
  }

  function NodesOf(chains: Chains): set<Node> {
    set b, k | 0 <= b < |chains| && 0 <= k < |chains[b]| :: chains[b][k]
  }

  // What the nodes say is what the map holds.
  ghost predicate Represent(nodes: set<Node>, contents: map<Key, U64>)
    reads nodes`value
  {
    && (forall n :: n in nodes ==> n.key in contents && contents[n.key] == n.value)
    && (forall k :: k in contents ==> exists n :: n in nodes && n.key == k)
  }

  class Map {
    var buckets: array?<Node?>
    var nbuckets: nat
    var nnodes: nat
    ghost var chains: Chains
    ghost var contents: map<Key, U64>

    // The buckets hold the chains.
    ghost predicate Chained()
      reads this`buckets, this`nbuckets, this`chains, buckets, NodesOf(chains)`next
    {
      && |chains| == nbuckets && (buckets == null <==> nbuckets == 0)
      && (buckets != null ==> buckets.Length == nbuckets && PowerOfTwo(nbuckets)
                              && forall b :: 0 <= b < nbuckets ==> Linked(buckets[b], chains[b]))
    }

    // map_add_node: to the front of its bucket.
    method AddNode(node: Node)
      requires Chained() && buckets != null && node !in NodesOf(chains)
      modifies this`chains, buckets, node`next
      ensures Chained() && chains == Insert(old(chains), node)
    {
      BucketIsRemainder(nbuckets, node.hash);
      var n := BucketIndex(nbuckets, node.hash);
      node.next := buckets[n];
      buckets[n] := node;
      chains := AddTo(chains, n, node);
    }

    // All chains into one list; what the buckets hold afterwards does not matter.
    method Gather() returns (nodes: Node?)
      requires Chained() && Placed(chains) && UniqueKeys(AllNodes(chains))
      modifies NodesOf(chains)`next
      ensures Linked(nodes, Gathered(chains))
    {
      hide Placed, UniqueKeys, AllNodes, PowerOfTwo;
      nodes := null;
      var i := nbuckets;
      ghost var cs, list: seq<Node> := chains, [];
      assert cs[i..] == [];
      while i > 0
        invariant chains == cs && |cs| == nbuckets && (nbuckets > 0 ==> buckets != null && buckets.Length == nbuckets)
        invariant i <= nbuckets && list == Gathered(cs[i..]) && Linked(nodes, list)
        invariant forall b :: 0 <= b < i ==> Linked(buckets[b], cs[b])
      {
        i := i - 1;
        GatheredApart(cs, i);
        ChainsDisjoint(cs, i);
        nodes := PushAll(buckets[i], cs[i], nodes, list);
        list := Pushed(cs[i], list);
        assert cs[i..][1..] == cs[i + 1..];
      }
      assert cs[0..] == cs;
    }

    // A list of nodes added to empty buckets.
    method AddAll(head: Node?, ghost list: seq<Node>)
      requires Chained() && buckets != null && chains == seq(nbuckets, _ => []) && Linked(head, list) && Apart(list, [])
      modifies this`chains, buckets, list`next
      ensures Chained() && chains == Spread(list, nbuckets)
    {
      var node := head;
      ghost var k := 0;
      assert list[..0] == [] && list[0..] == list;
      while node != null
        invariant nbuckets == old(nbuckets) && buckets == old(buckets) && Chained()
        invariant k <= |list| && Linked(node, list[k..]) && chains == Spread(list[..k], nbuckets)
        decreases |list| - k
      {
        var first: Node := node;
        var next := first.next;
        SpreadOthers(list, k, nbuckets);
        assert list[k..][1..] == list[k + 1..] && list[..k + 1][..k] == list[..k];
        AddNode(first);
        node := next;
        k := k + 1;
      }
      assert list[..k] == list;
    }

    // realloc, if it succeeds, and memset: empty buckets, whatever there was. The nodes are left alone.
    method ResetBuckets(n: nat, realloc: bool, ghost head: Node?, ghost list: seq<Node>)
      requires Linked(head, list)
      requires |chains| == nbuckets && (buckets == null <==> nbuckets == 0) && PowerOfTwo(n)
      requires buckets != null ==> buckets.Length == nbuckets && PowerOfTwo(nbuckets)
      modifies this`buckets, this`nbuckets, this`chains, buckets
      ensures Chained() && chains == seq(nbuckets, _ => []) && Linked(head, list)
      ensures nbuckets == (if realloc then n else old(nbuckets)) && (buckets == old(buckets) || fresh(buckets))
    {
      if realloc {
        buckets := new Node?[n](_ => null);
        nbuckets := n;
      } else if buckets != null {
        forall b | 0 <= b < nbuckets {
          buckets[b] := null;
        }
      }
      chains := seq(nbuckets, _ => []);
    }

    // map_resize, with whether realloc succeeds.
    method Resize(n: nat, realloc: bool) returns (err: int)
      requires Chained() && Placed(chains) && UniqueKeys(AllNodes(chains)) && PowerOfTwo(n)
      modifies this`buckets, this`nbuckets, this`chains, buckets, NodesOf(chains)`next
      ensures Chained() && Placed(chains) && AllNodes(chains) == old(AllNodes(chains))
      ensures err == if realloc then 0 else -1
      ensures nbuckets == (if realloc then n else old(nbuckets)) && (buckets == old(buckets) || fresh(buckets))
    {
      hide Placed, UniqueKeys, AllNodes, PowerOfTwo;
      ghost var before := chains;
      GatheredOnce(chains);
      var nodes := Gather();
      ResetBuckets(n, realloc, nodes, Gathered(before));
      if buckets != null {
        GatheredWithin(before);
        AddAll(nodes, Gathered(before));
        ResizeConserves(before, nbuckets);
      }
      err := if realloc then 0 else -1;
    }

    ghost predicate Valid()
      reads this, buckets, NodesOf(chains)
    {
      && Chained() && Placed(chains) && UniqueKeys(AllNodes(chains)) && Represent(NodesOf(chains), contents)
      && nnodes == |AllNodes(chains)| && nnodes <= nbuckets
    }

    constructor ()
      ensures Valid() && contents == map[] && nbuckets == 0
    {
      buckets, nbuckets, nnodes := null, 0, 0;
      chains, contents := [], map[];
    }

    method GetNode(key: Key) returns (node: Node?)
      requires Valid()
      ensures node == null <==> key !in contents
      ensures node != null ==> node in NodesOf(chains) && node.key == key
    {
      hide BucketIndex, UniqueKeys, AllNodes, PowerOfTwo, MapHash;
      var hash := MapHash(key);
      node := null;
      if nbuckets > 0 {
        BucketIsRemainder(nbuckets, hash);
        var n := BucketIndex(nbuckets, hash);
        node := buckets[n];
        ghost var k := 0;
        assert chains[n][0..] == chains[n];
        while node != null
          invariant k <= |chains[n]| && Linked(node, chains[n][k..])
          invariant forall j :: 0 <= j < k ==> chains[n][j].key != key
          decreases |chains[n]| - k
        {
          assert node == chains[n][k];
          if node.hash == hash && node.key == key {
            return;
          }
          node := node.next;
          k := k + 1;
        }
      }
      OnlyInItsBucket(chains, key);
    }

    /** map_get_value: a lookup in the mathematical map. */
    method GetValue(key: Key) returns (value: U64)
      requires Valid()
      ensures value == if key in contents then contents[key] else 0
    {
      var node := GetNode(key);
      value := if node != null then node.value else 0;
    }

    // Twice the buckets, or one.
    method Grow(realloc: bool) returns (err: int)
      requires Valid() && nnodes >= nbuckets
      modifies this`buckets, this`nbuckets, this`chains, buckets, NodesOf(chains)`next
      ensures Valid() && NodesOf(chains) == old(NodesOf(chains)) && (buckets == old(buckets) || fresh(buckets))
      ensures err == (if realloc then 0 else -1) && (err == 0 ==> nnodes < nbuckets)
      ensures nbuckets == if !realloc then old(nbuckets) else if old(nbuckets) == 0 then 1 else 2 * old(nbuckets)
    {
      hide Placed, UniqueKeys, AllNodes, NodesOf, PowerOfTwo;
      ghost var nodes := NodesOf(chains);
      assert Represent(nodes, contents);
      Doubled(nbuckets);
      SameNodes(chains);
      err := Resize(if nbuckets > 0 then 2 * nbuckets else 1, realloc);
      SameNodes(chains);
      assert NodesOf(chains) == nodes;
      assert Represent(nodes, contents);
    }

    // A node with a new key.
    method Append(node: Node)
      requires Valid() && nnodes < nbuckets && node !in NodesOf(chains)
      requires node.hash == MapHash(node.key) && node.key !in contents
      modifies this`chains, this`nnodes, this`contents, buckets, node`next
      ensures Valid() && contents == old(contents)[node.key := node.value]
    {
      hide Placed, UniqueKeys, AllNodes, NodesOf, PowerOfTwo, MapHash, Insert;
      ghost var nodes := NodesOf(chains);
      assert Represent(nodes, contents);
      NewNode(chains, node);
      AddNode(node);
      nnodes := nnodes + 1;
      assert Represent(nodes, contents);
      contents := contents[node.key := node.value];
      assert NodesOf(chains) == nodes + {node};
      assert Represent(nodes + {node}, contents);
    }

    /** map_set_value: an update of the mathematical map; where realloc fails on a full map, nothing is added. */
    method SetValue(key: Key, value: U64, realloc: bool) returns (err: int)
      requires Valid()
      modifies this, buckets, NodesOf(chains)
      ensures Valid()
      ensures err == if key in old(contents) || old(nnodes) < old(nbuckets) || realloc then 0 else -1
      ensures contents == if err == 0 then old(contents)[key := value] else old(contents)
    {
      hide Placed, UniqueKeys, AllNodes, Represent, PowerOfTwo, MapHash, Chained;
      var node := GetNode(key);
      if node != null {
        Replace(node, value);
        return 0;
      }
      var added := new Node(key, value);
      if nnodes >= nbuckets {
        err := Grow(realloc);
        if err != 0 {
          return;
        }
      }
      Append(added);
      err := 0;
    }

    // The value of a key already there.
    method Replace(node: Node, value: U64)
      requires Valid() && node in NodesOf(chains)
      modifies this`contents, node`value
      ensures Valid() && contents == old(contents)[node.key := value]
    {
      hide Placed, AllNodes;
      SameNodes(chains);
      node.value := value;
      contents := contents[node.key := value];
    }
  }

  // The two ways of naming the nodes.
  lemma SameNodes(chains: Chains)
    ensures forall n :: n in NodesOf(chains) ==> n in AllNodes(chains)
    ensures forall n :: n in AllNodes(chains) ==> n in NodesOf(chains)
  {
    forall n | n in NodesOf(chains) ensures n in AllNodes(chains) {
      var b, k :| 0 <= b < |chains| && 0 <= k < |chains[b]| && chains[b][k] == n;
      InChain(chains, b, k);
    }
    forall n | n in AllNodes(chains) ensures n in NodesOf(chains) {
      var b, k := WhichChain(chains, n);
    }
  }

  lemma NewNode(chains: Chains, node: Node)
    requires Placed(chains) && UniqueKeys(AllNodes(chains)) && PowerOfTwo(|chains|)
    requires node.hash == MapHash(node.key) && forall n :: n in NodesOf(chains) ==> n.key != node.key
    ensures var chains' := Insert(chains, node);
            && Placed(chains') && UniqueKeys(AllNodes(chains')) && |AllNodes(chains')| == |AllNodes(chains)| + 1
            && NodesOf(chains') == NodesOf(chains) + {node}
  {
    hide Placed, UniqueKeys, PowerOfTwo, MapHash, Pow2, BucketIndex;
    BucketIsRemainder(|chains|, node.hash);
    AddToNodes(chains, BucketIndex(|chains|, node.hash), node);
    SameNodes(chains);
    SameNodes(Insert(chains, node));
    InsertPlaced(chains, node);
    OneMoreKey(AllNodes(chains), node);
  }

  lemma OneMoreKey(nodes: multiset<Node>, node: Node)
    requires UniqueKeys(nodes) && forall n :: n in nodes ==> n.key != node.key
    ensures UniqueKeys(nodes + multiset{node})
  {
  }

  lemma InsertPlaced(chains: Chains, node: Node)
    requires Placed(chains) && PowerOfTwo(|chains|) && node.hash == MapHash(node.key)
    ensures Placed(Insert(chains, node))
  {
    hide BucketIndex, PowerOfTwo, MapHash;
    BucketIsRemainder(|chains|, node.hash);
  }

  // A key none of whose bucket's nodes has is nowhere.
  lemma OnlyInItsBucket(chains: Chains, key: Key)
    requires Placed(chains)
    requires |chains| > 0 ==> PowerOfTwo(|chains|)
    requires |chains| > 0 ==>
               var b := BucketIndex(|chains|, MapHash(key));
               b < |chains| ==> forall j :: 0 <= j < |chains[b]| ==> chains[b][j].key != key
    ensures forall n :: n in NodesOf(chains) ==> n.key != key
  {
  }

  lemma GatheredWithin(chains: Chains)
    ensures forall n :: n in Gathered(chains) ==> n in NodesOf(chains)
  {
    GatheredNodes(chains);
    forall n | n in Gathered(chains) ensures n in NodesOf(chains) {
      assert n in multiset(Gathered(chains));
      var b, k := WhichChain(chains, n);
    }
  }

  // The nodes still to be added are in no bucket.
  lemma SpreadOthers(list: seq<Node>, k: nat, n: nat)
    requires PowerOfTwo(n) && k < |list| && Apart(list, [])
    ensures forall j :: k <= j < |list| ==> list[j] !in NodesOf(Spread(list[..k], n))
  {
    var chains := Spread(list[..k], n);
    SpreadNodes(list[..k], n);
    forall x | x in NodesOf(chains) ensures exists i :: 0 <= i < k && list[i] == x {
      var b, i :| 0 <= b < |chains| && 0 <= i < |chains[b]| && chains[b][i] == x;
      InChain(chains, b, i);
      assert x in multiset(list[..k]);
    }
  }

  lemma GatheredOnce(chains: Chains)
    requires UniqueKeys(AllNodes(chains))
    ensures Apart(Gathered(chains), [])
  {
    var list := Gathered(chains);
    GatheredNodes(chains);
    forall i, j | 0 <= i < j < |list| ensures list[i] != list[j] {
      assert list[i] in multiset(list);
      OnlyOnce(list, i, j);
    }
  }

  lemma OnlyOnce<T>(s: seq<T>, i: nat, j: nat)
    requires i < j < |s| && multiset(s)[s[i]] == 1
    ensures s[i] != s[j]
  {
    var m, x := multiset(s), s[i];
    assert s == s[..j] + s[j..];
    assert m[x] == multiset(s[..j])[x] + multiset(s[j..])[x];
    assert s[..j][i] == x;
    assert s[j..][0] == s[j] && multiset(s[j..])[s[j]] >= 1;
  }

  lemma {:induction false} ChainWithin(chains: Chains, b: nat)
    requires b < |chains|
    ensures multiset(chains[b]) <= AllNodes(chains)
    decreases b
  {
    if b > 0 {
      ChainWithin(chains[1..], b - 1);
      assert chains[1..][b - 1] == chains[b];
    }
  }

  // A chain has no node twice.
  lemma ChainOnce(chains: Chains, b: nat)
    requires b < |chains| && UniqueKeys(AllNodes(chains))
    ensures forall i, j :: 0 <= i < j < |chains[b]| ==> chains[b][i] != chains[b][j]
  {
    var chain := chains[b];
    ChainWithin(chains, b);
    forall i, j | 0 <= i < j < |chain| ensures chain[i] != chain[j] {
      assert chain[i] in multiset(chain);
      assert multiset(chain)[chain[i]] <= AllNodes(chains)[chain[i]];
      OnlyOnce(chain, i, j);
    }
  }

  lemma ChainsDisjoint(chains: Chains, i: nat)
    requires i < |chains| && Placed(chains)
    ensures forall b, k, j :: 0 <= b < i && 0 <= k < |chains[b]| && 0 <= j < |chains[i]| ==>
              chains[b][k] != chains[i][j]
  {
    hide BucketIndex;
  }

  // Each node of a chain has the chain's index; each one gathered behind it a higher one.
  lemma BehindIndex(chains: Chains, i: nat, n: Node)
    requires i < |chains| && Placed(chains) && n in AllNodes(chains[i + 1..])
    ensures BucketIndex(|chains|, n.hash) > i
  {
    hide BucketIndex;
    var b, k := WhichChain(chains[i + 1..], n);
    assert chains[i + 1 + b][k] == n;
  }

  // A chain has no node twice and shares none with those behind it.
  lemma GatheredApart(chains: Chains, i: nat)
    requires i < |chains| && Placed(chains) && UniqueKeys(AllNodes(chains))
    ensures Apart(chains[i], Gathered(chains[i + 1..]))
  {
    hide BucketIndex, Gathered;
    var list := Gathered(chains[i + 1..]);
    ChainOnce(chains, i);
    GatheredNodes(chains[i + 1..]);
    forall k | 0 <= k < |list| ensures BucketIndex(|chains|, list[k].hash) > i {
      assert list[k] in multiset(list);
      BehindIndex(chains, i, list[k]);
    }
  }

  lemma Doubled(n: nat)
    requires n == 0 || PowerOfTwo(n)
    ensures PowerOfTwo(if n > 0 then 2 * n else 1)
  {
    if n == 0 {
      assert Pow2(0) == 1;
    } else {
      var e: nat :| e <= n && Pow2(e) == n;
      assert Pow2(e + 1) == 2 * n;
    }
  }

  // ----- what validity says -----

  lemma {:induction false} CountKeys(nodes: multiset<Node>, keys: set<Key>)
    requires UniqueKeys(nodes)
    requires forall n :: n in nodes ==> n.key in keys
    requires forall k :: k in keys ==> exists n :: n in nodes && n.key == k
    ensures |keys| == |nodes|
    decreases |nodes|
  {
    if n :| n in nodes {
      var nodes', keys' := nodes - multiset{n}, keys - {n.key};
      assert forall m :: m in nodes' ==> m in nodes && m != n;
      CountKeys(nodes', keys');
      assert keys == keys' + {n.key};
    } else {
      assert keys == {};
    }
  }

  /**
   * After any sequence of updates: no buckets or a power of two of them, every node in the bucket its hash leaves as
   * remainder, and as many nodes as keys, at most one a bucket on average.
   */
  lemma Shape(m: Map)
    requires m.Valid()
    ensures m.nbuckets == 0 || PowerOfTwo(m.nbuckets)
    ensures forall b, k :: 0 <= b < m.nbuckets && 0 <= k < |m.chains[b]| ==>
              b == MapHash(m.chains[b][k].key) % m.nbuckets
    ensures m.nnodes == |m.contents| <= m.nbuckets
  {
    SameNodes(m.chains);
    assert m.contents.Keys == set k | k in m.contents;
    CountKeys(AllNodes(m.chains), m.contents.Keys);
    forall b, k | 0 <= b < m.nbuckets && 0 <= k < |m.chains[b]| ensures b == MapHash(m.chains[b][k].key) % m.nbuckets {
      BucketIsRemainder(m.nbuckets, m.chains[b][k].hash);
    }
  }
}
