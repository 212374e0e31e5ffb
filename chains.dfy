/** The bucket chains of HashMap (src/hash_map.rb): the `Node` struct and the
    operations on one singly-linked chain. A chain is a sequence whose index 0
    is the head node and whose index j + 1 is the `next` of index j. */
module Chains {

  datatype Option<T> = None | Some(value: T)

  /** The Ruby objects a map stores. Only `nil` and `false` are falsy, which
      is what HashMap#key? (`!!get`) observes. */
  datatype Value = Nil | Bool(b: bool) | Int(i: int) | Str(s: string)

  /** Ruby truthiness, the `!!` of HashMap#key?. */
  predicate Truthy(v: Value)
  {
    v != Nil && v != Bool(false)
  }

  /** One `Node` of a chain: its key and its value (the `next` link is the
      position in the chain). */
  datatype Node = Node(key: string, val: Value)

  type Chain = seq<Node>

  /** No key occurs twice in the chain. */
  ghost predicate UniqueKeys(chain: Chain)
  {
    forall j, k :: 0 <= j < k < |chain| ==> chain[j].key != chain[k].key
  }

  /** Where `each_node.find { _1.key == key }` stops: the position of the first
      node with the key, or |chain| when there is none. */
  function Position(chain: Chain, key: string): (p: nat)
    ensures p <= |chain|
    ensures p < |chain| ==> chain[p].key == key
    ensures forall j :: 0 <= j < p ==> chain[j].key != key
  {
    if chain == [] then 0
    else if chain[0].key == key then 0
    else 1 + Position(chain[1..], key)
  }

  /** Whether some node of the chain carries the key. */
  predicate InChain(chain: Chain, key: string)
  {
    Position(chain, key) < |chain|
  }

  /** The value of the first node with the key, or nil (`find { ... }&.val`). */
  function Lookup(chain: Chain, key: string): (v: Value)
    ensures InChain(chain, key) ==> exists j :: 0 <= j < |chain| && chain[j] == Node(key, v)
    ensures !InChain(chain, key) ==> v == Nil
  {
    var p := Position(chain, key);
    if p < |chain| then chain[p].val else Nil
  }

  /** The chain after HashMap#set: a one-node chain in an empty bucket
      (src/hash_map.rb:25), the value of the matching node replaced in place
      (`node.val = val`), or a new head node in front of the old chain. */
  function SetInChain(chain: Chain, key: string, val: Value): (r: Chain)
    ensures exists j :: 0 <= j < |r| && r[j] == Node(key, val)
    ensures |r| == if InChain(chain, key) then |chain| else |chain| + 1
  {
    if chain == [] then
      assert [Node(key, val)][0] == Node(key, val);
      [Node(key, val)]
    else
      var p := Position(chain, key);
      if p < |chain| then
        var r := chain[p := chain[p].(val := val)];
        assert r[p] == Node(key, val);
        r
      else
        assert ([Node(key, val)] + chain)[0] == Node(key, val);
        [Node(key, val)] + chain
  }

  /** Node#delete_first_if with the block `node.key == key`: the head node is
      never tested; the first later node with the key is unlinked and
      returned, the others keep their order; nil when there is none. */
  function DeleteFirstAfterHead(chain: Chain, key: string): (r: (Chain, Option<Node>))
    requires chain != []
    ensures r.1.None? ==> r.0 == chain && forall j :: 1 <= j < |chain| ==> chain[j].key != key
    ensures r.1.Some? ==>
      (exists p :: 1 <= p < |chain| && chain[p].key == key
        && (forall j :: 1 <= j < p ==> chain[j].key != key)
        && r.0 == chain[..p] + chain[p + 1..] && r.1.value == chain[p])
  {
    var p := 1 + Position(chain[1..], key);
    if p < |chain| then (chain[..p] + chain[p + 1..], Some(chain[p])) else (chain, None)
  }

  /** The chain after HashMap#remove, and the value it returns: nil for an
      empty bucket; for a one-node bucket the node's value, and the bucket
      emptied, whatever the node's key; otherwise the outcome of
      `delete_first_if`. */
  function RemoveFromChain(chain: Chain, key: string): (r: (Chain, Value))
    ensures r == (chain, Nil)
      || (exists p :: 0 <= p < |chain| && r == (chain[..p] + chain[p + 1..], chain[p].val))
  {
    if chain == [] then ([], Nil)
    else if |chain| == 1 then
      assert chain[..0] + chain[1..] == [];
      ([], chain[0].val)
    else
      var (rest, removed) := DeleteFirstAfterHead(chain, key);
      (rest, if removed.Some? then removed.value.val else Nil)
  }

  /** `each_node.find { _1.key == key }`: walks the chain from its head until a
      node with the key is met. */
  method FindNode(chain: Chain, key: string) returns (p: nat)
    ensures p == Position(chain, key)
  {
    p := 0;
    while p < |chain| && chain[p].key != key
      invariant p <= |chain|
      invariant forall j :: 0 <= j < p ==> chain[j].key != key
    {
      p := p + 1;
    }
  }

  /** Node#delete_first_if: walks the chain, looking at each node's `next`,
      and unlinks the first `next` whose key matches. */
  method DeleteFirstIf(chain: Chain, key: string) returns (rest: Chain, removed: Option<Node>)
    requires chain != []
    ensures (rest, removed) == DeleteFirstAfterHead(chain, key)
  {
    var i := 0;
    while i + 1 < |chain|
      invariant i < |chain|
      invariant forall j :: 1 <= j <= i ==> chain[j].key != key
    {
      if chain[i + 1].key == key {
        assert Position(chain[1..], key) == i;
        return chain[..i + 1] + chain[i + 2..], Some(chain[i + 1]);
      }
      i := i + 1;
    }
    assert Position(chain[1..], key) == |chain| - 1;
    return chain, None;
  }

  // Lemmas relating the chain operations to Lookup.

  /** A unique key is found at the one node that carries it. */
  lemma LookupAt(chain: Chain, j: nat)
    requires UniqueKeys(chain) && j < |chain|
    ensures Position(chain, chain[j].key) == j
    ensures Lookup(chain, chain[j].key) == chain[j].val
  {
  }

  /** After SetInChain the key is bound to the new value, and every other key
      keeps its value. */
  lemma {:induction false} LookupSet(chain: Chain, key: string, val: Value, other: string)
    ensures Lookup(SetInChain(chain, key, val), other) == if other == key then val else Lookup(chain, other)
  {
    var r := SetInChain(chain, key, val);
    var p := Position(chain, key);
    if chain != [] && p < |chain| {
      var n := chain[p].(val := val);
      assert r == chain[p := n];
      PositionUpdate(chain, p, n, other);
    } else {
      assert r == [Node(key, val)] + chain;
      if other != key {
        assert r[1..] == chain;
      }
    }
  }

  /** The chain update of `set` keeps every node of another key: in place
      for a stored key, one place further back behind a new head. */
  lemma SetInChainKeeps(chain: Chain, key: string, val: Value)
    ensures forall j :: 0 <= j < |chain| && chain[j].key != key ==>
      SetInChain(chain, key, val)[if InChain(chain, key) then j else j + 1] == chain[j]
  {
  }

  /** Replacing a node by one with the same key moves no key's first position. */
  lemma {:induction false} PositionUpdate(chain: Chain, p: nat, n: Node, key: string)
    requires p < |chain| && n.key == chain[p].key
    ensures Position(chain[p := n], key) == Position(chain, key)
    decreases p
  {
    if p > 0 && chain[0].key != key {
      assert chain[p := n][1..] == chain[1..][p - 1 := n];
      PositionUpdate(chain[1..], p - 1, n, key);
    }
  }

  /** Unlinking the node at position p keeps every other key's value. */
  lemma {:induction false} LookupUnlink(chain: Chain, p: nat, key: string)
    requires p < |chain| && chain[p].key != key
    ensures Lookup(chain[..p] + chain[p + 1..], key) == Lookup(chain, key)
    decreases p
  {
    var r := chain[..p] + chain[p + 1..];
    if p == 0 {
      assert r == chain[1..];
      LookupTail(chain, key);
    } else {
      assert r[0] == chain[0];
      if chain[0].key != key {
        assert r[1..] == chain[1..][..p - 1] + chain[1..][p..];
        LookupUnlink(chain[1..], p - 1, key);
        LookupTail(chain, key);
        LookupTail(r, key);
      }
    }
  }

  /** Past a head that does not carry the key, the lookup continues in the tail. */
  lemma LookupTail(chain: Chain, key: string)
    requires chain != [] && chain[0].key != key
    ensures Lookup(chain, key) == Lookup(chain[1..], key)
  {
    var p := Position(chain[1..], key);
    assert Position(chain, key) == 1 + p;
    if p < |chain[1..]| {
      assert chain[1 + p] == chain[1..][p];
    }
  }

  /** With unique keys, unlinking the node that carries a key removes it. */
  lemma LookupUnlinkSelf(chain: Chain, p: nat)
    requires UniqueKeys(chain) && p < |chain|
    ensures !InChain(chain[..p] + chain[p + 1..], chain[p].key)
  {
  }
}
