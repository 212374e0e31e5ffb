/** HashMap (src/hash_map.rb): a separate-chaining hash map from strings to
    Ruby values. The bucket array is updated in place; its contents at any
    moment are a table of the Tables module, and each method's contract says
    which function of the old table the new one is. */
module HashMaps {
  import opened Hashing
  import opened Chains
  import Tables

  /** The default of the `initial_capacity:` keyword. */
  const DefaultCapacity: nat := 16

  class HashMap {
    /** `attr_reader :capacity`: set once by the constructor and never
        reassigned (there is no resize). */
    const capacity: nat

    /** `@buckets`: one chain per slot, its head at index 0; the empty chain
        stands for a nil slot. The array is only ever updated in place. */
    const buckets: array<Chain>

    /** The map's invariant: one bucket per unit of capacity, every node in
        the bucket of its key, no key twice. */
    ghost predicate Valid()
      reads buckets
    {
      buckets.Length == capacity && Tables.WellFormed(buckets[..])
    }

    /** HashMap#initialize: `capacity` empty buckets, 16 unless the caller
        passes `initial_capacity:`. A capacity of 0 would make every later
        `index` divide by zero. */
    constructor (initialCapacity: nat := DefaultCapacity)
      requires initialCapacity > 0
      ensures Valid() && fresh(buckets)
      ensures capacity == initialCapacity && buckets[..] == Tables.Empty(initialCapacity)
      ensures Length() == 0
    {
      capacity := initialCapacity;
      buckets := new Chain[initialCapacity](_ => []);
      new;
      assert buckets[..] == Tables.Empty(initialCapacity);
      Tables.Cleared(initialCapacity);
    }

    /** HashMap#length: zero exactly when every bucket is empty. */
    function Length(): (n: nat)
      reads buckets
      ensures n == 0 <==> forall i :: 0 <= i < buckets.Length ==> buckets[i] == []
    {
      Tables.SizeZero(buckets[..]);
      Tables.Size(buckets[..])
    }

    /** `empty?`, which the class itself does not define (HashSet delegates
        to it): `length == 0`, that is, no keys. */
    function IsEmpty(): (b: bool)
      reads buckets
      ensures b <==> Tables.Keys(buckets[..]) == []
    {
      Length() == 0
    }

    /** HashMap#keys: one element per stored node, no key twice. */
    function Keys(): (ks: seq<string>)
      reads buckets
      requires Valid()
      ensures |ks| == Length()
      ensures forall a, b :: 0 <= a < b < |ks| ==> ks[a] != ks[b]
    {
      Tables.TraversalsAgree(buckets[..]);
      Tables.KeysDistinct(buckets[..]);
      Tables.Keys(buckets[..])
    }

    /** HashMap#values, in the order of `keys`. */
    function Values(): (vs: seq<Value>)
      reads buckets
      requires Valid()
      ensures |vs| == Length()
      ensures forall m :: 0 <= m < |vs| ==> Tables.Get(buckets[..], Keys()[m]) == vs[m]
    {
      Tables.TraversalsAgree(buckets[..]);
      forall m | 0 <= m < Tables.Size(buckets[..])
        ensures Tables.Get(buckets[..], Keys()[m]) == Tables.Values(buckets[..])[m]
      {
        assert Tables.Entries(buckets[..])[m] == (Keys()[m], Tables.Values(buckets[..])[m]);
        Tables.EntriesAgreeWithGet(buckets[..], Keys()[m], Tables.Values(buckets[..])[m]);
      }
      Tables.Values(buckets[..])
    }

    /** HashMap#entries: `keys.zip(values)`, each stored key once with the
        value `get` returns for it. */
    function Entries(): (es: seq<(string, Value)>)
      reads buckets
      requires Valid()
      ensures |es| == Length()
      ensures forall m :: 0 <= m < |es| ==> es[m] == (Keys()[m], Values()[m])
      ensures forall key, val :: (key, val) in es <==> Tables.Contains(buckets[..], key) && Tables.Get(buckets[..], key) == val
    {
      Tables.TraversalsAgree(buckets[..]);
      forall key, val
        ensures (key, val) in Tables.Entries(buckets[..]) <==> Tables.Contains(buckets[..], key) && Tables.Get(buckets[..], key) == val
      {
        Tables.EntriesAgreeWithGet(buckets[..], key, val);
      }
      Tables.Entries(buckets[..])
    }

    /** HashMap#get: nil for an empty bucket, else the value of the first node
        of the chain that carries the key, or nil. */
    method Get(key: string) returns (v: Value)
      requires Valid()
      ensures v == Tables.Get(buckets[..], key)
      ensures Tables.Contains(buckets[..], key) <==> (key, v) in Entries()
    {
      Tables.EntriesAgreeWithGet(buckets[..], key, Tables.Get(buckets[..], key));
      var i := Index(key, capacity);
      var chain := buckets[i];
      if chain == [] {
        return Nil;
      }
      var p := FindNode(chain, key);
      v := if p < |chain| then chain[p].val else Nil;
    }

    /** HashMap#key?: `!!get(key:)`, false for a key stored with nil or false. */
    method HasKey(key: string) returns (b: bool)
      requires Valid()
      ensures b == Tables.HasKey(buckets[..], key)
      ensures b <==> Tables.Contains(buckets[..], key) && Truthy(Tables.Get(buckets[..], key))
    {
      var v := Get(key);
      b := Truthy(v);
    }

    /** HashMap#set: a one-node chain in an empty bucket, an in-place value
        update for a stored key, otherwise a new head node. */
    method Set(key: string, val: Value)
      requires Valid()
      modifies buckets
      ensures Valid()
      ensures buckets[..] == Tables.Put(old(buckets[..]), key, val)
      ensures Tables.Get(buckets[..], key) == val
      ensures forall other :: other != key ==> Tables.Get(buckets[..], other) == old(Tables.Get(buckets[..], other))
      ensures Length() == old(Length()) + if old(Tables.Contains(buckets[..], key)) then 0 else 1
    {
      ghost var before := buckets[..];
      var i := Index(key, capacity);
      var chain := buckets[i];
      if chain == [] {
        buckets[i] := [Node(key, val)];
      } else {
        var p := FindNode(chain, key);
        if p < |chain| {
          buckets[i] := chain[p := chain[p].(val := val)];
        } else {
          buckets[i] := [Node(key, val)] + chain;
        }
      }
      assert buckets[..] == Tables.Put(before, key, val);
      Tables.PutWellFormed(before, key, val);
      Tables.PutShape(before, key, val);
      forall other
        ensures Tables.Get(buckets[..], other) == if other == key then val else Tables.Get(before, other)
      {
        Tables.GetPut(before, key, val, other);
      }
    }

    /** HashMap#remove: nil for an empty bucket; for a one-node bucket the
        node's value, emptying the bucket without comparing keys; otherwise
        what `delete_first_if` unlinks after the head, or nil. */
    method Remove(key: string) returns (v: Value)
      requires Valid()
      modifies buckets
      ensures Valid()
      ensures (buckets[..], v) == Tables.Remove(old(buckets[..]), key)
    {
      ghost var before := buckets[..];
      var i := Index(key, capacity);
      var chain := buckets[i];
      if chain == [] {
        assert before[i := []] == before;
        return Nil;
      }
      if |chain| == 1 {
        v := chain[0].val;
        buckets[i] := [];
      } else {
        var rest, removed := DeleteFirstIf(chain, key);
        buckets[i] := rest;
        v := if removed.Some? then removed.value.val else Nil;
      }
      assert buckets[..] == before[i := buckets[i]];
      Tables.RemoveWellFormed(before, key);
    }

    /** HashMap#clear. The source empties the Ruby array to size 0; since a
        read past its end yields nil and a write past its end extends it,
        that is the same as emptying every bucket, which is what this does. */
    method Clear()
      requires Valid()
      modifies buckets
      ensures Valid()
      ensures buckets[..] == Tables.Empty(capacity)
      ensures Length() == 0 && Keys() == [] && Entries() == []
      ensures forall key :: Tables.Get(buckets[..], key) == Nil
    {
      forall i | 0 <= i < buckets.Length {
        buckets[i] := [];
      }
      assert buckets[..] == Tables.Empty(capacity);
      Tables.Cleared(capacity);
    }
  }

  // Concrete instances of the behaviour of the code as written.

  /** "a" and "q" share bucket 1 at the default capacity (97 % 16 == 113 % 16). */
  lemma CollidingKeys()
    ensures Index("a", DefaultCapacity) == Index("q", DefaultCapacity) == 1
  {
  }

  /** `remove(key: "q")` on a map that holds only "a" returns the value of
      "a" and loses it. */
  lemma RemoveEvictsWitness()
    ensures var t := Tables.Put(Tables.Empty(DefaultCapacity), "a", Str("x"));
      Tables.Get(t, "a") == Str("x") && !Tables.Contains(t, "q")
      && Tables.Remove(t, "q") == (Tables.Empty(DefaultCapacity), Str("x"))
      && Tables.Get(Tables.Remove(t, "q").0, "a") == Nil
  {
    CollidingKeys();
    var e := Tables.Empty(DefaultCapacity);
    var t := Tables.Put(e, "a", Str("x"));
    assert t == e[1 := [Node("a", Str("x"))]];
    assert t[1 := []] == e;
  }

  /** After setting "a" and then "q", "q" is the head of bucket 1, and
      `remove(key: "q")` returns nil and keeps it. */
  lemma RemoveSkipsHeadWitness()
    ensures var t := Tables.Put(Tables.Put(Tables.Empty(DefaultCapacity), "a", Str("x")), "q", Str("y"));
      Tables.Get(t, "q") == Str("y") && Tables.Remove(t, "q") == (t, Nil)
  {
    CollidingKeys();
    var e := Tables.Empty(DefaultCapacity);
    var ta := Tables.Put(e, "a", Str("x"));
    assert ta == e[1 := [Node("a", Str("x"))]];
    assert Position([Node("a", Str("x"))], "q") == 1 by {
      assert [Node("a", Str("x"))][1..] == [];
    }
    assert SetInChain(ta[1], "q", Str("y")) == [Node("q", Str("y")), Node("a", Str("x"))];
    var t := Tables.Put(ta, "q", Str("y"));
    assert t == ta[1 := [Node("q", Str("y")), Node("a", Str("x"))]];
    assert t == e[1 := [Node("q", Str("y")), Node("a", Str("x"))]];
    assert t[1 := t[1]] == t;
  }

  /** On any map, `key?` is false for a key just set to nil or false,
      although the key is stored and listed by `keys`. */
  lemma FalsyValuesHideKeys(t: Tables.Table, key: string, val: Value)
    requires Tables.WellFormed(t) && (val == Nil || val == Bool(false))
    ensures var u := Tables.Put(t, key, val);
      Tables.Contains(u, key) && key in Tables.Keys(u) && !Tables.HasKey(u, key)
  {
    var u := Tables.Put(t, key, val);
    Tables.PutWellFormed(t, key, val);
    Tables.GetPut(t, key, val, key);
    Tables.KeysAreContained(u, key);
  }

  /** Setting three distinct keys on a new map, as "bonito", "potato" and
      "yam" are, gives length 3, whatever the capacity and their buckets. */
  lemma ThreeDistinctKeys(capacity: nat, a: string, b: string, c: string, va: Value, vb: Value, vc: Value)
    requires capacity > 0 && a != b && a != c && b != c
    ensures Tables.Size(Tables.PutAll(Tables.Empty(capacity), [(a, va), (b, vb), (c, vc)])) == 3
  {
    Tables.Cleared(capacity);
    Tables.SizePutAll(Tables.Empty(capacity), [(a, va), (b, vb), (c, vc)]);
  }
}
