/** The bucket array of HashMap (src/hash_map.rb) as a value: a table of
    chains whose length is the capacity. Every operation of the map is stated
    here as a function of the table, and the lemmas below say what those
    functions do to `get`, `length`, `keys`, `values` and `entries`. */
module Tables {
  import opened Hashing
  import opened Chains

  type Table = seq<Chain>

  /** The buckets of a new map (`Array.new(initial_capacity)`), and the
      buckets after `clear`: every bucket empty. */
  function Empty(capacity: nat): (t: Table)
    ensures |t| == capacity && forall i :: 0 <= i < capacity ==> t[i] == []
  {
    seq(capacity, _ => [])
  }

  /** Every node of bucket i has a key whose index is i. */
  ghost predicate Placed(t: Table, capacity: nat)
    requires capacity > 0
  {
    forall i, j :: 0 <= i < |t| && 0 <= j < |t[i]| ==> Index(t[i][j].key, capacity) == i
  }

  /** The invariant of the map: a positive capacity, every node in the
      bucket of its key, and no key twice in a chain (hence, by placement,
      no key twice in the table). */
  ghost predicate WellFormed(t: Table)
  {
    |t| > 0 && Placed(t, |t|) && forall i :: 0 <= i < |t| ==> UniqueKeys(t[i])
  }

  /** HashMap#get: the value of a node of the key's bucket that carries the
      key, or nil when no node carries it. */
  function Get(t: Table, key: string): (v: Value)
    requires |t| > 0
    ensures Contains(t, key) ==>
      exists j :: 0 <= j < |t[Index(key, |t|)]| && t[Index(key, |t|)][j] == Node(key, v)
    ensures !Contains(t, key) ==> v == Nil
  {
    Lookup(t[Index(key, |t|)], key)
  }

  /** HashMap#key?: `!!get(key:)`, true only for a stored key. */
  predicate HasKey(t: Table, key: string)
    requires |t| > 0
    ensures HasKey(t, key) ==> Contains(t, key)
  {
    Truthy(Get(t, key))
  }

  /** Some node of the table carries the key (whatever its value). */
  predicate Contains(t: Table, key: string)
    requires |t| > 0
  {
    InChain(t[Index(key, |t|)], key)
  }

  /** HashMap#set: only the key's bucket changes, and it then holds the key
      with the new value. */
  function Put(t: Table, key: string, val: Value): (r: Table)
    requires |t| > 0
    ensures |r| == |t|
    ensures forall b :: 0 <= b < |t| && b != Index(key, |t|) ==> r[b] == t[b]
    ensures exists j :: 0 <= j < |r[Index(key, |t|)]| && r[Index(key, |t|)][j] == Node(key, val)
  {
    var i := Index(key, |t|);
    t[i := SetInChain(t[i], key, val)]
  }

  /** HashMap#remove: the new table and the value returned. Only the key's
      bucket changes, and it loses at most one node; when it loses none,
      nothing changes and nil is returned. */
  function Remove(t: Table, key: string): (r: (Table, Value))
    requires |t| > 0
    ensures |r.0| == |t|
    ensures forall b :: 0 <= b < |t| && b != Index(key, |t|) ==> r.0[b] == t[b]
    ensures |r.0[Index(key, |t|)]| == |t[Index(key, |t|)]| ==> r == (t, Nil)
    ensures |r.0[Index(key, |t|)]| + 1 == |t[Index(key, |t|)]| || |r.0[Index(key, |t|)]| == |t[Index(key, |t|)]|
  {
    var i := Index(key, |t|);
    var (c, v) := RemoveFromChain(t[i], key);
    assert c == t[i] ==> t[i := c] == t;
    (t[i := c], v)
  }

  /** `keys.zip(vals).each { |key, val| set(key:, val:) }`. */
  function PutAll(t: Table, kvs: seq<(string, Value)>): (r: Table)
    requires |t| > 0
    ensures |r| == |t|
    decreases |kvs|
  {
    if kvs == [] then t else PutAll(Put(t, kvs[0].0, kvs[0].1), kvs[1..])
  }

  /** HashMap#length: `@buckets.compact.sum(&:size)`, the number of nodes
      the traversal of all buckets visits. */
  function Size(t: Table): (n: nat)
    ensures n == |Flatten(t)|
  {
    if t == [] then 0 else Size(t[..|t| - 1]) + |t[|t| - 1]|
  }

  /** The nodes of all buckets, bucket 0 first, each chain from its head:
      the traversal order of `flat_map` over `each_node`. */
  function Flatten(t: Table): seq<Node>
  {
    if t == [] then [] else Flatten(t[..|t| - 1]) + t[|t| - 1]
  }

  /** HashMap#keys: one key per stored node. */
  function Keys(t: Table): (ks: seq<string>)
    ensures |ks| == Size(t)
  {
    var f := Flatten(t);
    seq(|f|, m requires 0 <= m < |f| => f[m].key)
  }

  /** HashMap#values: one value per stored node. */
  function Values(t: Table): (vs: seq<Value>)
    ensures |vs| == Size(t)
  {
    var f := Flatten(t);
    seq(|f|, m requires 0 <= m < |f| => f[m].val)
  }

  /** Array#zip: one pair per element of `ks`, nil where `vs` runs out. */
  function Zip(ks: seq<string>, vs: seq<Value>): seq<(string, Value)>
  {
    seq(|ks|, m requires 0 <= m < |ks| => (ks[m], if m < |vs| then vs[m] else Nil))
  }

  /** HashMap#entries: `keys.zip(values)`, one pair per stored node, each
      pairing a node's key with that node's value. */
  function Entries(t: Table): (es: seq<(string, Value)>)
    ensures |es| == Size(t) && |es| == |Flatten(t)|
    ensures forall m :: 0 <= m < |es| ==> Node(es[m].0, es[m].1) == Flatten(t)[m]
  {
    Zip(Keys(t), Values(t))
  }

  // ---------------------------------------------------------------------
  // Sizes and traversals.

  /** A node is listed by the traversal exactly when it sits in some bucket. */
  lemma {:induction false} InFlatten(t: Table, n: Node)
    ensures n in Flatten(t) <==> exists i, j :: 0 <= i < |t| && 0 <= j < |t[i]| && t[i][j] == n
    decreases |t|
  {
    if t != [] {
      var init, last := t[..|t| - 1], t[|t| - 1];
      InFlatten(init, n);
      assert Flatten(t) == Flatten(init) + last;
      if n in Flatten(init) {
        var i, j :| 0 <= i < |init| && 0 <= j < |init[i]| && init[i][j] == n;
        assert t[i][j] == n;
      }
      if n in last {
        var j :| 0 <= j < |last| && last[j] == n;
        assert t[|t| - 1][j] == n;
      }
      if exists i, j :: 0 <= i < |t| && 0 <= j < |t[i]| && t[i][j] == n {
        var i, j :| 0 <= i < |t| && 0 <= j < |t[i]| && t[i][j] == n;
        if i < |t| - 1 {
          assert init[i][j] == n;
        } else {
          assert last[j] == n;
        }
      }
    }
  }

  /** Placement and unique chains make the traversal list every key once. */
  lemma {:induction false} FlattenDistinct(t: Table, capacity: nat)
    requires capacity > 0 && Placed(t, capacity)
    requires forall i :: 0 <= i < |t| ==> UniqueKeys(t[i])
    ensures forall a :: 0 <= a < |Flatten(t)| ==> Index(Flatten(t)[a].key, capacity) < |t|
    ensures forall a, b :: 0 <= a < b < |Flatten(t)| ==> Flatten(t)[a].key != Flatten(t)[b].key
    decreases |t|
  {
    if t != [] {
      var init, last := t[..|t| - 1], t[|t| - 1];
      FlattenDistinct(init, capacity);
      var f, fi := Flatten(t), Flatten(init);
      assert f == fi + last;
      forall a | 0 <= a < |f|
        ensures Index(f[a].key, capacity) < |t|
      {
        if a >= |fi| {
          assert f[a] == last[a - |fi|];
        }
      }
      forall a, b | 0 <= a < b < |f|
        ensures f[a].key != f[b].key
      {
        if a >= |fi| {
          assert f[a] == last[a - |fi|] && f[b] == last[b - |fi|];
        } else if b >= |fi| {
          assert f[b] == last[b - |fi|];
          assert Index(f[a].key, capacity) < |init|;
        }
      }
    }
  }

  /** `length`, `keys`, `values` and `entries` agree: one element per stored
      node, and `entries[m] == (keys[m], values[m])`. */
  lemma TraversalsAgree(t: Table)
    ensures |Keys(t)| == |Values(t)| == |Entries(t)| == Size(t)
    ensures forall m :: 0 <= m < |Entries(t)| ==> Entries(t)[m] == (Keys(t)[m], Values(t)[m])
  {
  }

  /** `entries` lists exactly the key/value pairs stored in the buckets. */
  lemma EntriesComplete(t: Table, key: string, val: Value)
    ensures (key, val) in Entries(t) <==>
      exists i, j :: 0 <= i < |t| && 0 <= j < |t[i]| && t[i][j] == Node(key, val)
  {
    var f := Flatten(t);
    InFlatten(t, Node(key, val));
    if (key, val) in Entries(t) {
      var m :| 0 <= m < |Entries(t)| && Entries(t)[m] == (key, val);
      assert f[m] == Node(key, val);
    }
    if Node(key, val) in f {
      var m :| 0 <= m < |f| && f[m] == Node(key, val);
      assert Entries(t)[m] == (key, val);
    }
  }

  /** In a well-formed table, every key is listed once by `keys`. */
  lemma KeysDistinct(t: Table)
    requires WellFormed(t)
    ensures forall a, b :: 0 <= a < b < |Keys(t)| ==> Keys(t)[a] != Keys(t)[b]
  {
    FlattenDistinct(t, |t|);
  }

  /** In a well-formed table, `entries` holds (k, v) exactly when the key is
      stored and `get(k)` returns v. */
  lemma EntriesAgreeWithGet(t: Table, key: string, val: Value)
    requires WellFormed(t)
    ensures (key, val) in Entries(t) <==> Contains(t, key) && Get(t, key) == val
  {
    EntriesComplete(t, key, val);
    var b := Index(key, |t|);
    if (key, val) in Entries(t) {
      var i, j :| 0 <= i < |t| && 0 <= j < |t[i]| && t[i][j] == Node(key, val);
      LookupAt(t[i], j);
    } else if Contains(t, key) {
      var p := Position(t[b], key);
      assert t[b][p] == Node(key, Get(t, key));
    }
  }

  /** In a well-formed table, `keys` lists exactly the stored keys. */
  lemma KeysAreContained(t: Table, key: string)
    requires WellFormed(t)
    ensures key in Keys(t) <==> Contains(t, key)
  {
    var f := Flatten(t);
    EntriesAgreeWithGet(t, key, Get(t, key));
    TraversalsAgree(t);
    if key in Keys(t) {
      var m :| 0 <= m < |Keys(t)| && Keys(t)[m] == key;
      EntriesAgreeWithGet(t, key, Values(t)[m]);
      assert Entries(t)[m] == (key, Values(t)[m]);
    }
  }

  // ---------------------------------------------------------------------
  // Initialisation and clear.

  lemma {:induction false} FlattenOfEmpties(t: Table)
    requires forall i :: 0 <= i < |t| ==> t[i] == []
    ensures Flatten(t) == [] && Size(t) == 0
    decreases |t|
  {
    if t != [] {
      FlattenOfEmpties(t[..|t| - 1]);
    }
  }

  /** The length is zero exactly when every bucket is empty. */
  lemma {:induction false} SizeZero(t: Table)
    ensures Size(t) == 0 <==> forall i :: 0 <= i < |t| ==> t[i] == []
    decreases |t|
  {
    if t != [] {
      var init := t[..|t| - 1];
      SizeZero(init);
      if Size(t) == 0 {
        assert forall i :: 0 <= i < |t| - 1 ==> t[i] == init[i];
      } else {
        assert forall i :: 0 <= i < |t| - 1 ==> init[i] == t[i];
      }
    }
  }

  /** A new or cleared map is well formed, has length 0, no keys, no
      entries, and `get` returns nil for every key. */
  lemma Cleared(capacity: nat)
    requires capacity > 0
    ensures WellFormed(Empty(capacity))
    ensures Size(Empty(capacity)) == 0 && Keys(Empty(capacity)) == [] && Entries(Empty(capacity)) == []
    ensures forall key :: Get(Empty(capacity), key) == Nil && !Contains(Empty(capacity), key)
  {
    FlattenOfEmpties(Empty(capacity));
  }

  // ---------------------------------------------------------------------
  // set.

  lemma {:induction false} SizeUpdate(t: Table, i: nat, c: Chain)
    requires i < |t|
    ensures Size(t[i := c]) == Size(t) - |t[i]| + |c|
    decreases |t|
  {
    var u := t[i := c];
    if i < |t| - 1 {
      assert u[..|u| - 1] == t[..|t| - 1][i := c];
      SizeUpdate(t[..|t| - 1], i, c);
    } else {
      assert u[..|u| - 1] == t[..|t| - 1];
    }
  }

  /** Two node sequences of the same length and the same key at each place. */
  ghost predicate SameKeys(a: seq<Node>, b: seq<Node>)
  {
    |a| == |b| && forall m :: 0 <= m < |a| ==> a[m].key == b[m].key
  }

  lemma {:induction false} FlattenUpdateKeys(t: Table, i: nat, c: Chain)
    requires i < |t| && SameKeys(c, t[i])
    ensures SameKeys(Flatten(t[i := c]), Flatten(t))
    decreases |t|
  {
    var u := t[i := c];
    var fu, ft := Flatten(u), Flatten(t);
    if i < |t| - 1 {
      assert u[..|u| - 1] == t[..|t| - 1][i := c];
      FlattenUpdateKeys(t[..|t| - 1], i, c);
      assert fu == Flatten(t[..|t| - 1][i := c]) + t[|t| - 1];
    } else {
      assert u[..|u| - 1] == t[..|t| - 1];
      assert fu == Flatten(t[..|t| - 1]) + c;
    }
    assert ft == Flatten(t[..|t| - 1]) + t[|t| - 1];
  }

  lemma {:induction false} InChainSet(chain: Chain, key: string, val: Value, other: string)
    ensures InChain(SetInChain(chain, key, val), other) <==> other == key || InChain(chain, other)
  {
    var r := SetInChain(chain, key, val);
    var p := Position(chain, key);
    if chain != [] && p < |chain| {
      var n := chain[p].(val := val);
      assert r == chain[p := n];
      PositionUpdate(chain, p, n, other);
    } else {
      assert r == [Node(key, val)] + chain;
      if other != key {
        assert r[1..] == chain;
      }
    }
  }

  /** After `set(key, val)`, `get(key)` is val and every other key's `get` is
      unchanged. */
  lemma GetPut(t: Table, key: string, val: Value, other: string)
    requires |t| > 0
    ensures Get(Put(t, key, val), other) == if other == key then val else Get(t, other)
    ensures Contains(Put(t, key, val), other) <==> other == key || Contains(t, other)
  {
    var i := Index(key, |t|);
    if Index(other, |t|) == i {
      LookupSet(t[i], key, val, other);
      InChainSet(t[i], key, val, other);
    }
  }

  /** `set` of a stored key only replaces that node's value: the other
      buckets, the chain's shape, `keys` and `length` are unchanged. `set` of
      a new key puts one node in front of its bucket's chain and adds one to
      `length`. */
  lemma PutShape(t: Table, key: string, val: Value)
    requires |t| > 0
    ensures forall b :: 0 <= b < |t| && b != Index(key, |t|) ==> Put(t, key, val)[b] == t[b]
    ensures Contains(t, key) ==>
      Keys(Put(t, key, val)) == Keys(t) && Size(Put(t, key, val)) == Size(t)
    ensures !Contains(t, key) ==>
      Put(t, key, val)[Index(key, |t|)] == [Node(key, val)] + t[Index(key, |t|)]
      && Size(Put(t, key, val)) == Size(t) + 1
  {
    if Contains(t, key) {
      PutStored(t, key, val);
    } else {
      PutNew(t, key, val);
    }
  }

  lemma PutStored(t: Table, key: string, val: Value)
    requires |t| > 0 && Contains(t, key)
    ensures Keys(Put(t, key, val)) == Keys(t) && Size(Put(t, key, val)) == Size(t)
  {
    var i := Index(key, |t|);
    var c := SetInChain(t[i], key, val);
    var u := t[i := c];
    assert Put(t, key, val) == u;
    SizeUpdate(t, i, c);
    FlattenUpdateKeys(t, i, c);
    SameKeysKeys(u, t);
  }

  lemma SameKeysKeys(a: Table, b: Table)
    requires SameKeys(Flatten(a), Flatten(b))
    ensures Keys(a) == Keys(b)
  {
    assert forall m :: 0 <= m < |Keys(a)| ==> Keys(a)[m] == Flatten(a)[m].key == Flatten(b)[m].key;
  }

  lemma PutNew(t: Table, key: string, val: Value)
    requires |t| > 0 && !Contains(t, key)
    ensures Put(t, key, val)[Index(key, |t|)] == [Node(key, val)] + t[Index(key, |t|)]
    ensures Size(Put(t, key, val)) == Size(t) + 1
  {
    var i := Index(key, |t|);
    var c := SetInChain(t[i], key, val);
    assert c == [Node(key, val)] + t[i];
    SizeUpdate(t, i, c);
  }

  /** `set` keeps the map's invariant. */
  lemma PutWellFormed(t: Table, key: string, val: Value)
    requires WellFormed(t)
    ensures WellFormed(Put(t, key, val))
  {
  }

  /** Setting distinct keys that are not stored yet adds one to `length` per
      key; in particular n distinct sets on a new map give length n. */
  lemma {:induction false} SizePutAll(t: Table, kvs: seq<(string, Value)>)
    requires |t| > 0
    requires forall m :: 0 <= m < |kvs| ==> !Contains(t, kvs[m].0)
    requires forall a, b :: 0 <= a < b < |kvs| ==> kvs[a].0 != kvs[b].0
    ensures Size(PutAll(t, kvs)) == Size(t) + |kvs|
    decreases |kvs|
  {
    if kvs != [] {
      var u := Put(t, kvs[0].0, kvs[0].1);
      PutShape(t, kvs[0].0, kvs[0].1);
      forall m | 0 <= m < |kvs[1..]|
        ensures !Contains(u, kvs[1..][m].0)
      {
        GetPut(t, kvs[0].0, kvs[0].1, kvs[m + 1].0);
      }
      SizePutAll(u, kvs[1..]);
    }
  }

  // ---------------------------------------------------------------------
  // remove.

  lemma UnlinkKeeps(chain: Chain, p: nat)
    requires UniqueKeys(chain) && p < |chain|
    ensures UniqueKeys(chain[..p] + chain[p + 1..])
    ensures forall n :: n in chain[..p] + chain[p + 1..] ==> n in chain
  {
  }

  /** Replacing one bucket by a chain of that bucket's keys, none twice,
      keeps the invariant. */
  lemma UpdateWellFormed(t: Table, i: nat, c: Chain)
    requires WellFormed(t) && i < |t| && UniqueKeys(c)
    requires forall j :: 0 <= j < |c| ==> Index(c[j].key, |t|) == i
    ensures WellFormed(t[i := c])
  {
  }

  /** `remove` keeps the map's invariant. */
  lemma RemoveWellFormed(t: Table, key: string)
    requires WellFormed(t)
    ensures WellFormed(Remove(t, key).0)
  {
    var i := Index(key, |t|);
    var r := RemoveFromChain(t[i], key).0;
    assert Remove(t, key).0 == t[i := r];
    RemoveFromChainPlaced(t[i], key, i, |t|);
    UpdateWellFormed(t, i, r);
  }

  /** The chain `remove` leaves holds only nodes of the old chain, none twice. */
  lemma RemoveFromChainPlaced(c: Chain, key: string, i: nat, capacity: nat)
    requires capacity > 0 && UniqueKeys(c)
    requires forall j :: 0 <= j < |c| ==> Index(c[j].key, capacity) == i
    ensures var r := RemoveFromChain(c, key).0;
      UniqueKeys(r) && forall j :: 0 <= j < |r| ==> Index(r[j].key, capacity) == i
  {
    var r := RemoveFromChain(c, key).0;
    if r != c {
      var p :| 0 <= p < |c| && r == c[..p] + c[p + 1..];
      UnlinkKeeps(c, p);
      forall j | 0 <= j < |r|
        ensures Index(r[j].key, capacity) == i
      {
        if j < p {
          assert r[j] == c[j];
        } else {
          assert r[j] == c[j + 1];
        }
      }
    }
  }

  /** `remove` of a stored key that is the only node of its bucket, or is not
      the head of its chain, returns its value, drops it, keeps every other
      key's value, and takes one from `length`. */
  lemma RemoveStored(t: Table, key: string)
    requires WellFormed(t) && Contains(t, key)
    requires |t[Index(key, |t|)]| == 1 || t[Index(key, |t|)][0].key != key
    ensures Remove(t, key).1 == Get(t, key)
    ensures !Contains(Remove(t, key).0, key) && Get(Remove(t, key).0, key) == Nil
    ensures forall other :: other != key ==> Get(Remove(t, key).0, other) == Get(t, other)
    ensures Size(Remove(t, key).0) == Size(t) - 1
  {
    var i := Index(key, |t|);
    var c := t[i];
    var p := Position(c, key);
    var rest := c[..p] + c[p + 1..];
    RemoveFromChainStored(c, key);
    var u := t[i := rest];
    assert Remove(t, key) == (u, c[p].val);
    assert Get(t, key) == c[p].val;
    assert |rest| == |c| - 1;
    SizeUpdate(t, i, rest);
    LookupUnlinkSelf(c, p);
    assert u[i] == rest;
    UnlinkKeepsOthers(t, i, p);
  }

  /** Unlinking one node of bucket i keeps the value of every key the node
      does not carry. */
  lemma UnlinkKeepsOthers(t: Table, i: nat, p: nat)
    requires i < |t| && p < |t[i]|
    ensures forall other :: other != t[i][p].key ==>
      Get(t[i := t[i][..p] + t[i][p + 1..]], other) == Get(t, other)
  {
    var u := t[i := t[i][..p] + t[i][p + 1..]];
    forall other | other != t[i][p].key
      ensures Get(u, other) == Get(t, other)
    {
      if Index(other, |t|) == i {
        LookupUnlink(t[i], p, other);
      }
    }
  }

  /** On a chain that holds the key alone or past its head, `remove` unlinks
      the key's node and returns its value. */
  lemma RemoveFromChainStored(c: Chain, key: string)
    requires InChain(c, key) && (|c| == 1 || c[0].key != key)
    ensures var p := Position(c, key);
      RemoveFromChain(c, key) == (c[..p] + c[p + 1..], c[p].val)
  {
    var p := Position(c, key);
    if |c| > 1 {
      assert Position(c[1..], key) == p - 1;
    } else {
      assert c[..p] + c[p + 1..] == [];
    }
  }

  /** `remove` of a key that is not stored returns nil and changes nothing,
      unless its bucket holds exactly one node (see RemoveEvictsSoleNode). */
  lemma RemoveAbsent(t: Table, key: string)
    requires |t| > 0 && !Contains(t, key) && |t[Index(key, |t|)]| != 1
    ensures Remove(t, key) == (t, Nil)
  {
    var c := t[Index(key, |t|)];
    assert t[Index(key, |t|) := c] == t;
    if |c| > 1 {
      assert Position(c[1..], key) == |c| - 1 by {
        assert forall j :: 0 <= j < |c| - 1 ==> c[1..][j] == c[j + 1];
      }
    }
  }

  /** `remove` on a one-node bucket does not look at the node's key: a key
      that is not stored but shares the bucket evicts the stored entry and
      returns its value. */
  lemma RemoveEvictsSoleNode(t: Table, key: string)
    requires WellFormed(t) && !Contains(t, key) && |t[Index(key, |t|)]| == 1
    ensures var n := t[Index(key, |t|)][0];
      n.key != key && Contains(t, n.key)
      && Remove(t, key).1 == n.val
      && !Contains(Remove(t, key).0, n.key)
      && Size(Remove(t, key).0) == Size(t) - 1
    ensures forall other :: other != t[Index(key, |t|)][0].key ==> Get(Remove(t, key).0, other) == Get(t, other)
  {
    var i := Index(key, |t|);
    SizeUpdate(t, i, []);
    assert Index(t[i][0].key, |t|) == i;
  }

  /** `delete_first_if` never tests the head node: `remove` of the key at the
      head of a chain of two or more nodes returns nil and keeps the key. */
  lemma RemoveSkipsHead(t: Table, key: string)
    requires WellFormed(t)
    requires |t[Index(key, |t|)]| > 1 && t[Index(key, |t|)][0].key == key
    ensures Remove(t, key) == (t, Nil)
    ensures Contains(Remove(t, key).0, key) && Get(Remove(t, key).0, key) == t[Index(key, |t|)][0].val
  {
    var c := t[Index(key, |t|)];
    assert t[Index(key, |t|) := c] == t;
    assert Position(c[1..], key) == |c| - 1 by {
      assert forall j :: 0 <= j < |c| - 1 ==> c[1..][j] == c[j + 1];
    }
  }
}
