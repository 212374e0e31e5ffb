# A verified model of a Ruby hash map and hash set

This project models `HashMap` (`src/hash_map.rb`), a separate-chaining hash map from strings to Ruby
values, and `HashSet` (`src/hash_set.rb`), a set of strings kept as the keys of one `HashMap` whose
values are all `true`.

The model has five modules.

- `Hashing` (`hashing.dfy`) holds the polynomial rolling hash. It is the left fold
  `h <- 31 * h + ord(c)` from 0, on unbounded integers. It also holds the bucket index
  `hash % capacity`.
- `Chains` (`chains.dfy`) models the `Node` struct. A bucket's chain is a `seq<Node>` whose index 0 is
  the head, and whose index j + 1 is the `next` of index j. It holds the chain-level operations:
  `each_node.find` as the loop `FindNode`, and `delete_first_if` as the loop `DeleteFirstIf`. Each
  loop is proved against a specification function.
- `Tables` (`tables.dfy`) treats the whole bucket array as a value: a `seq<Chain>` whose length is the
  capacity. It states `get`, `set`, `remove`, `length`, `keys`, `values` and `entries` as functions of
  that value, and proves the map's properties about them.
- `HashMaps` (`hash_map.dfy`) holds the class `HashMap`. It has a `const capacity` and a
  `const buckets: array<Chain>` that its methods update in place. Each state-changing method's
  contract says which `Tables` function of the old buckets the new buckets are. The invariant
  `Valid()` says that every node sits in the bucket of its key and that no key occurs twice.
- `HashSets` (`hash_set.dfy`) holds the class `HashSet`. It owns one `HashMap` and adds the invariant
  that every stored value is `true`.

The model follows the code as written, including two behaviours of `remove` that a textbook map
would not have.

- On a bucket with exactly one node, `remove` empties the bucket and returns that node's value
  without comparing keys. So removing an absent key that shares the bucket evicts another entry
  (`Tables.RemoveEvictsSoleNode`, `HashMaps.RemoveEvictsWitness`).
- `delete_first_if` never tests the head node. So on a chain of two or more nodes, removing the head's
  key returns nil and removes nothing (`Tables.RemoveSkipsHead`, `HashMaps.RemoveSkipsHeadWitness`).
  `HashSet#delete` inherits this: it returns the element but leaves it in the set
  (`HashSets.DeleteSkipsHeadWitness`).

The keys "a" and "q" share bucket 1 at the default capacity of 16, because 97 % 16 == 113 % 16 == 1.
The witness lemmas use them.

The capacity never changes. `set` and `remove` end in a `TODO: adjust_bucket_size_if_required`
comment (src/hash_map.rb:30, :43), and `LOAD_FACTOR` is never read. The test titled "grows if capacity
if exceed own load factor" (spec/hash_map_spec.rb:112-116) asks only that the capacity is at least its
initial value after 26 keys, which holds without growth.

Values are Ruby objects: `Value = Nil | Bool | Int | Str`. This makes the `!!get` of `key?` visible:
it is false for a key stored with `nil` or `false` (`HashMaps.FalsyValuesHideKeys`).

`HashMap` does not define `empty?`. The map tests that use the `be_empty` matcher
(spec/hash_map_spec.rb:64, :68, :76) therefore fail, because `HashMap` does not respond to `empty?`;
they raise nothing. `HashSet` delegates `empty?` to the map, and that delegated call raises
NoMethodError. The model adds `empty?` as `HashMap.IsEmpty`, defined as `length == 0`, and
`HashSet.IsEmpty` passes on to it.

In the source, `clear` empties the Ruby array to size 0. Reading past the end of a Ruby array yields
nil, and writing past its end extends the array. So this is observationally the same as emptying
every bucket, and `HashMap.Clear` is modelled that way.

## Model

| member | source | states |
|---|---|---|
| `Hashing.Fold` | src/hash_map.rb:90-92 | the `reduce` over the characters never yields less than its start value or any character code: no wrap-around |
| `Hashing.Hash` | src/hash_map.rb:90-92 | the hash of a key is at least every character code of the key, since nothing is reduced modulo a word size |
| `Hashing.Index` | src/hash_map.rb:84 | the bucket index of a key lies in [0, capacity) for a positive capacity; equal keys give equal indices because it is a function |
| `Hashing.HashSnoc` | src/hash_map.rb:87-92 | the hash of "" is 0 and hash(s + c) == 31 * hash(s) + ord(c), a left fold with no wrap-around |
| `Hashing.HashConcat` | src/hash_map.rb:90-92 | hash(s + t) == hash(s) * 31^len(t) + hash(t), exact on unbounded integers |
| `Chains.Position` | src/hash_map.rb:19 | the position where `each_node.find { _1.key == key }` stops: the first node with the key, or the chain's length when no node has it |
| `Chains.Lookup` | src/hash_map.rb:19 | when some node carries the key, the result is the value of a node with that key; otherwise nil |
| `Chains.SetInChain` | src/hash_map.rb:25-28 | after `set`'s chain update, a node carries the key with the new value; the chain grows by one exactly when the key was absent |
| `Chains.SetInChainKeeps` | src/hash_map.rb:25-28 | `set`'s chain update keeps every node of another key: in place when the key is stored, one place back behind the new head otherwise |
| `Chains.RemoveFromChain` | src/hash_map.rb:38-41 | `remove`'s chain update leaves the chain unchanged and returns nil, or unlinks exactly one node, keeping the others in order, and returns its value |
| `Chains.FindNode` | src/hash_map.rb:59-68 | the `while curr` walk from the head stops at the first node whose key matches, or past the end |
| `Chains.DeleteFirstAfterHead` | src/hash_map.rb:72-81 | the head is never tested; the first later node with the key is unlinked and returned, the rest keep their order; otherwise nil and the chain is unchanged |
| `Chains.DeleteFirstIf` | src/hash_map.rb:74-81 | the loop over `node.next` computes exactly that unlink and result |
| `Chains.LookupAt` | src/hash_map.rb:19 | in a chain without repeated keys, a node's key is found at that node and yields its value |
| `Chains.LookupSet` | src/hash_map.rb:25-28 | after the chain update of `set`, the key yields the new value and every other key keeps its value |
| `Chains.LookupUnlink` | src/hash_map.rb:79 | unlinking a node keeps the value of every key the node does not carry |
| `Tables.Get` | src/hash_map.rb:14-20 | for a stored key, the value of a node of the key's bucket that carries the key; nil for a key no node carries |
| `Tables.HasKey` | src/hash_map.rb:33 | `key?` is true only for a stored key |
| `Tables.Put` | src/hash_map.rb:22-28 | `set` keeps the capacity, changes only the key's bucket, and leaves there a node with the key and the new value |
| `Tables.Remove` | src/hash_map.rb:35-41 | `remove` keeps the capacity and changes only the key's bucket, which loses at most one node; when it loses none, the map is unchanged and the result is nil |
| `Tables.Size` | src/hash_map.rb:46 | `length` is the number of nodes the traversal of all buckets visits, the count `keys`, `values` and `entries` are built from |
| `Tables.Keys` | src/hash_map.rb:50 | `keys` has one element per stored node, `length` in all |
| `Tables.Values` | src/hash_map.rb:52 | `values` has one element per stored node, `length` in all |
| `Tables.Entries` | src/hash_map.rb:54 | `entries` has `length` pairs, and each pair is the key and value of one stored node |
| `Tables.Empty` | src/hash_map.rb:9-12 | a new map has `capacity` buckets, all empty |
| `Tables.Cleared` | src/hash_map.rb:48 | a new or cleared map keeps the invariant, has length 0 and no keys or entries, and `get` is nil for every key |
| `Tables.SizeZero` | src/hash_map.rb:46 | `length` is 0 exactly when every bucket is empty |
| `Tables.TraversalsAgree` | src/hash_map.rb:46-54 | `keys`, `values` and `entries` each have `length` elements, and `entries[m] == (keys[m], values[m])` |
| `Tables.EntriesComplete` | src/hash_map.rb:50-54 | `entries` contains a pair exactly when some bucket holds a node with that key and value |
| `Tables.KeysDistinct` | src/hash_map.rb:50 | in a well-formed map, `keys` lists no key twice |
| `Tables.EntriesAgreeWithGet` | src/hash_map.rb:14-20 | in a well-formed map, (k, v) is in `entries` exactly when k is stored and `get(k) == v` |
| `Tables.KeysAreContained` | src/hash_map.rb:50 | in a well-formed map, `keys` lists exactly the stored keys |
| `Tables.GetPut` | src/hash_map.rb:14-28 | after `set(k, v)`, `get(k) == v`, `get` of every other key is unchanged, and k is stored along with the keys stored before |
| `Tables.PutShape` | src/hash_map.rb:22-28 | `set` touches only the key's bucket; for a stored key, `keys` and `length` stay the same; for a new key, one node is put in front of the chain and `length` grows by 1 |
| `Tables.PutWellFormed` | src/hash_map.rb:22-28 | `set` keeps every node in its key's bucket and no key twice |
| `Tables.SizePutAll` | src/hash_map.rb:22-28 | setting n distinct keys that are not stored adds n to `length` |
| `Tables.RemoveWellFormed` | src/hash_map.rb:35-41 | `remove` keeps every node in its key's bucket and no key twice |
| `Tables.RemoveStored` | src/hash_map.rb:35-41 | `remove` of a stored key that is alone in its bucket, or is not the head of its chain, returns `get(key)`, makes the key absent, keeps every other key's value and takes 1 from `length` |
| `Tables.RemoveAbsent` | src/hash_map.rb:38-41 | `remove` of a key that is not stored returns nil and changes nothing, when its bucket does not hold exactly one node |
| `Tables.RemoveEvictsSoleNode` | src/hash_map.rb:39 | `remove` of a key that is not stored, on a one-node bucket, returns the other key's value, drops it and takes 1 from `length`; every key but the dropped one keeps its value |
| `Tables.RemoveSkipsHead` | src/hash_map.rb:41 | `remove` of the head key of a chain of two or more nodes returns nil and leaves the map unchanged, the key still stored |
| `HashMaps.HashMap.constructor` | src/hash_map.rb:9-12 | a map of the given positive capacity, 16 by default, with every bucket empty and length 0 |
| `HashMaps.HashMap.Length` | src/hash_map.rb:46 | the sum of the chain sizes is 0 exactly when every bucket is empty |
| `HashMaps.HashMap.IsEmpty` | spec/hash_map_spec.rb:61-77 | true exactly when there are no keys (an addition: the class lacks `empty?`) |
| `HashMaps.HashMap.Keys` | src/hash_map.rb:50 | `length` keys, none twice |
| `HashMaps.HashMap.Values` | src/hash_map.rb:52 | `length` values, the m-th being `get` of the m-th key |
| `HashMaps.HashMap.Entries` | src/hash_map.rb:54 | `keys.zip(values)` with `length` pairs, holding (k, v) exactly when k is stored with `get(k) == v` |
| `HashMaps.HashMap.Get` | src/hash_map.rb:14-20 | returns the value of the key's node in its bucket, or nil; the key is stored exactly when the result pairs with it in `entries` |
| `HashMaps.HashMap.HasKey` | src/hash_map.rb:33 | `key?` is true exactly when the key is stored with a value other than nil and false |
| `HashMaps.HashMap.Set` | src/hash_map.rb:22-31 | the buckets become `set` of the old ones; `get(key)` is the new value, other keys are unchanged, and `length` grows by 1 only for a new key |
| `HashMaps.HashMap.Remove` | src/hash_map.rb:35-44 | the buckets and the result are those of `remove` as written, with all three cases; the invariant is kept |
| `HashMaps.HashMap.Clear` | src/hash_map.rb:48 | every bucket empty, the capacity unchanged, length 0, no keys or entries, and `get` nil for every key |
| `HashMaps.CollidingKeys` | src/hash_map.rb:84-92 | "a" and "q" both go to bucket 1 at capacity 16 |
| `HashMaps.RemoveEvictsWitness` | src/hash_map.rb:39 | with only "a" stored, `remove(key: "q")` returns a's value and loses "a" |
| `HashMaps.RemoveSkipsHeadWitness` | src/hash_map.rb:41 | after setting "a" then "q", `remove(key: "q")` returns nil and keeps "q" |
| `HashMaps.FalsyValuesHideKeys` | src/hash_map.rb:33 | on any well-formed map, a key just set to nil or false is stored and listed by `keys`, yet `key?` is false for it |
| `HashMaps.ThreeDistinctKeys` | spec/hash_map_spec.rb:54-58 | setting three distinct keys, such as "bonito", "potato" and "yam", on a new map of any capacity gives length 3, whichever buckets they share |
| `HashSets.HashSet.constructor` | src/hash_set.rb:12-14 | a set over a new map of the default capacity 16, every bucket empty, with no elements and length 0 |
| `HashSets.HashSet.Add` | src/hash_set.rb:18 | stores the element with `true`; the elements become the old ones plus it, and `length` grows only for a new element |
| `HashSets.HashSet.Include` | src/hash_set.rb:22 | true exactly when the element is a key of the map |
| `HashSets.HashSet.Get` | src/hash_set.rb:20 | the element itself when it is included, nil otherwise |
| `HashSets.HashSet.Delete` | src/hash_set.rb:24-29 | an absent element gives nil and leaves the map unchanged; an included one gives the element itself, with the map as the map's `remove` leaves it |
| `HashSets.HashSet.Length` | src/hash_set.rb:16 | the delegated `length` is the number of elements, the keys of the map |
| `HashSets.HashSet.IsEmpty` | src/hash_set.rb:16 | the delegated `empty?` is true exactly when there are no elements; it passes on to the model's added `HashMap.IsEmpty`, since in the source `HashMap` has no `empty?` and the delegation raises NoMethodError |
| `HashSets.HashSet.Clear` | src/hash_set.rb:16 | every bucket of the map is empty, so no elements, length 0, and `empty?` true |
| `HashSets.IncludeIsStored` | src/hash_set.rb:22 | since every stored value is `true`, `key?` holds exactly for the stored keys |
| `HashSets.AddKeepsAllTrue` | src/hash_set.rb:18 | `add` keeps every stored value `true` |
| `HashSets.RemoveKeepsAllTrue` | src/hash_set.rb:27 | the map's `remove` keeps every stored value `true` |
| `HashSets.DistinctAdds` | spec/hash_set_spec.rb:41-46 | adding n distinct elements to a new set gives length n |
| `HashSets.DeleteSkipsHeadWitness` | src/hash_set.rb:24-29 | after adding "a" then "q", "q" is included, yet the map's `remove` of "q" leaves the map unchanged |

## Left out

- Load-factor growth and rehash are left out. In the code, `adjust_bucket_size` is an empty TODO and
  `LOAD_FACTOR = 0.75` is never read, so the capacity never changes.
- `require "debug"` and the enumerator returned by `each_node` without a block are left out. The
  traversal is the order of the chain sequence.
- `Node#size` (`each_node.count`) is the length of the chain sequence.
- `Forwardable`'s `def_delegators` is left out. `HashSet`'s `clear`, `length` and `empty?` call the
  map directly.
- Object identity and sharing of the `Struct` nodes are left out. The model keeps only each node's
  key, value and successor.
- `Chains.DeleteFirstIf` takes a key instead of a block. Its only caller passes `node.key == key`.
- Keys are strings, and `ord` is the character's Unicode scalar value. Other objects that respond to
  `each_char` are not modelled.
- Values are `nil`, booleans, integers and strings. Other Ruby objects behave like these for the map,
  since it only stores them and tests their truthiness.
- The return value of `set` (the new `Node`, or `val` when an existing node is updated) is not
  modelled. `HashSet#add` passes it on; no test reads it.
- `HashSets.HashSet.Add` does not return what `set` returns (a new `Node` or `true`).
- `HashMaps.HashMap.Clear` and `HashSets.HashSet.Clear` do not return the bucket array that
  `Array#clear` returns (src/hash_map.rb:48, src/hash_set.rb:16). Returning it would hand the map's
  internal state to the caller; no test reads it.
- `HashMaps.HashMap.constructor` requires a positive capacity. With 0, `index` raises
  ZeroDivisionError, and a negative size makes `Array.new` raise ArgumentError. Neither error path is
  modelled.
- `HashSets.HashSet.Get` and `HashSets.HashSet.Delete` return an `Option<string>`. Ruby's nil is
  `None`.
