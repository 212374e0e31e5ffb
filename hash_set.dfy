/** HashSet (src/hash_set.rb): a set of strings kept as the keys of one
    HashMap, each stored with the value `true`. */
module HashSets {
  import opened Hashing
  import opened Chains
  import Tables
  import opened HashMaps

  /** Every value stored in the table is `true`. */
  ghost predicate AllTrue(t: Tables.Table)
  {
    forall i, j :: 0 <= i < |t| && 0 <= j < |t[i]| ==> t[i][j].val == Bool(true)
  }

  class HashSet {
    /** `@hash`: the map, created by the constructor and never replaced. */
    const hash: HashMap

    /** The set's invariant: the map's, and only `true` stored. */
    ghost predicate Valid()
      reads hash.buckets
    {
      hash.Valid() && AllTrue(hash.buckets[..])
    }

    /** The elements: the keys of the map. */
    ghost function Elements(): seq<string>
      reads hash.buckets
    {
      Tables.Keys(hash.buckets[..])
    }

    /** HashSet#initialize: a map of the default capacity. */
    constructor ()
      ensures Valid() && fresh(hash) && fresh(hash.buckets)
      ensures hash.capacity == DefaultCapacity && hash.buckets[..] == Tables.Empty(DefaultCapacity)
      ensures Elements() == [] && Length() == 0
    {
      hash := new HashMap();
      new;
      Tables.Cleared(DefaultCapacity);
    }

    /** `length`, delegated to the map: the number of elements. */
    function Length(): (n: nat)
      reads hash.buckets
      ensures n == |Elements()|
    {
      Tables.TraversalsAgree(hash.buckets[..]);
      hash.Length()
    }

    /** `empty?`, delegated to the map (whose `empty?` is an addition of this
        model). */
    function IsEmpty(): (b: bool)
      reads hash.buckets
      ensures b <==> Elements() == []
    {
      hash.IsEmpty()
    }

    /** HashSet#add: `set(key: val, val: true)`. */
    method Add(v: string)
      requires Valid()
      modifies hash.buckets
      ensures Valid()
      ensures hash.buckets[..] == Tables.Put(old(hash.buckets[..]), v, Bool(true))
      ensures forall w :: w in Elements() <==> w == v || w in old(Elements())
      ensures Length() == old(Length()) + if v in old(Elements()) then 0 else 1
    {
      ghost var before := hash.buckets[..];
      hash.Set(v, Bool(true));
      AddKeepsAllTrue(before, v);
      Tables.KeysAreContained(before, v);
      forall w
        ensures w in Elements() <==> w == v || w in Tables.Keys(before)
      {
        Tables.KeysAreContained(before, w);
        Tables.KeysAreContained(hash.buckets[..], w);
        Tables.GetPut(before, v, Bool(true), w);
      }
    }

    /** HashSet#include?: `key?` of the map. Since only `true` is stored,
        the `!!` never hides an element. */
    method Include(v: string) returns (b: bool)
      requires Valid()
      ensures b <==> v in Elements()
    {
      b := hash.HasKey(v);
      IncludeIsStored(hash.buckets[..], v);
    }

    /** HashSet#get: the element itself when it is included, else nil. */
    method Get(v: string) returns (r: Option<string>)
      requires Valid()
      ensures r == if v in Elements() then Some(v) else None
    {
      var b := Include(v);
      r := if b then Some(v) else None;
    }

    /** HashSet#delete: nil, with the map untouched, when the element is not
        included; otherwise the map's `remove` and the element itself (not
        the stored `true`). */
    method Delete(v: string) returns (r: Option<string>)
      requires Valid()
      modifies hash.buckets
      ensures Valid()
      ensures v !in old(Elements()) ==> r == None && hash.buckets[..] == old(hash.buckets[..])
      ensures v in old(Elements()) ==> r == Some(v) && hash.buckets[..] == Tables.Remove(old(hash.buckets[..]), v).0
    {
      var b := Include(v);
      if !b {
        return None;
      }
      ghost var before := hash.buckets[..];
      var _ := hash.Remove(v);
      RemoveKeepsAllTrue(before, v);
      r := Some(v);
    }

    /** `clear`, delegated to the map. */
    method Clear()
      requires Valid()
      modifies hash.buckets
      ensures Valid()
      ensures hash.buckets[..] == Tables.Empty(hash.capacity)
      ensures Elements() == [] && Length() == 0 && IsEmpty()
    {
      hash.Clear();
    }
  }

  // Lemmas about tables that hold only `true`.

  /** With only `true` stored, `key?` holds exactly for the stored keys. */
  lemma IncludeIsStored(t: Tables.Table, v: string)
    requires Tables.WellFormed(t) && AllTrue(t)
    ensures Tables.HasKey(t, v) <==> v in Tables.Keys(t)
  {
    Tables.KeysAreContained(t, v);
    var i := Index(v, |t|);
    if Tables.Contains(t, v) {
      assert t[i][Position(t[i], v)].val == Bool(true);
    }
  }

  lemma AddKeepsAllTrue(t: Tables.Table, v: string)
    requires |t| > 0 && AllTrue(t)
    ensures AllTrue(Tables.Put(t, v, Bool(true)))
  {
  }

  lemma RemoveKeepsAllTrue(t: Tables.Table, v: string)
    requires Tables.WellFormed(t) && AllTrue(t)
    ensures AllTrue(Tables.Remove(t, v).0)
  {
  }

  /** The pairs `add` stores for a sequence of elements. */
  function AsEntries(vs: seq<string>): (kvs: seq<(string, Value)>)
    ensures |kvs| == |vs| && forall m :: 0 <= m < |vs| ==> kvs[m] == (vs[m], Bool(true))
  {
    seq(|vs|, m requires 0 <= m < |vs| => (vs[m], Bool(true)))
  }

  /** Adding n distinct elements to a new set gives length n. */
  lemma DistinctAdds(vs: seq<string>)
    requires forall a, b :: 0 <= a < b < |vs| ==> vs[a] != vs[b]
    ensures Tables.Size(Tables.PutAll(Tables.Empty(DefaultCapacity), AsEntries(vs))) == |vs|
  {
    Tables.Cleared(DefaultCapacity);
    Tables.SizePutAll(Tables.Empty(DefaultCapacity), AsEntries(vs));
  }

  /** The set inherits the map's skipped head: after adding "a" then "q"
      (same bucket), `delete(val: "q")` returns "q" but the map's `remove`
      leaves "q" in place. */
  lemma DeleteSkipsHeadWitness()
    ensures var t := Tables.Put(Tables.Put(Tables.Empty(DefaultCapacity), "a", Bool(true)), "q", Bool(true));
      Tables.HasKey(t, "q") && Tables.Remove(t, "q").0 == t
  {
    CollidingKeys();
    var e := Tables.Empty(DefaultCapacity);
    var ta := Tables.Put(e, "a", Bool(true));
    assert ta == e[1 := [Node("a", Bool(true))]];
    assert Position([Node("a", Bool(true))], "q") == 1 by {
      assert [Node("a", Bool(true))][1..] == [];
    }
    assert SetInChain(ta[1], "q", Bool(true)) == [Node("q", Bool(true)), Node("a", Bool(true))];
    var t := Tables.Put(ta, "q", Bool(true));
    assert t == ta[1 := [Node("q", Bool(true)), Node("a", Bool(true))]];
    assert t[1 := t[1]] == t;
  }
}
