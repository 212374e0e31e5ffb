/** The string hash of HashMap (src/hash_map.rb): a polynomial rolling hash over
    character codes with the multiplier 31, computed on Ruby's unbounded
    Integers, and the bucket index derived from it. */
module Hashing {

  /** PRIME_NUM, the multiplier of the rolling hash. */
  const Prime: nat := 31

  /** `each_char.reduce(acc) { |result, char| Prime * result + char.ord }`:
      a left fold over the characters, front to back, with no wrap-around:
      the result is never below the start value or any character code. */
  function Fold(acc: nat, s: string): (r: nat)
    ensures acc <= r
    ensures forall i :: 0 <= i < |s| ==> s[i] as nat <= r
    decreases |s|
  {
    if s == [] then acc else Fold(Prime * acc + s[0] as nat, s[1..])
  }

  /** HashMap#hash: the fold started at 0. No character code exceeds the
      hash, since nothing is reduced modulo a word size. */
  function Hash(s: string): (h: nat)
    ensures forall i :: 0 <= i < |s| ==> s[i] as nat <= h
  {
    Fold(0, s)
  }

  function Pow(b: nat, n: nat): nat
  {
    if n == 0 then 1 else b * Pow(b, n - 1)
  }

  /** HashMap#index: `hash(str) % capacity`. The hash is never negative, so
      Ruby's floored modulo and Dafny's Euclidean one agree. Equal keys give
      equal indices because Index is a function of the key and the capacity. */
  function Index(key: string, capacity: nat): (i: nat)
    requires capacity > 0
    ensures i < capacity
  {
    Hash(key) % capacity
  }

  /** Folding over a concatenation folds over the first part, then the second. */
  lemma {:induction false} FoldConcat(acc: nat, s: string, t: string)
    ensures Fold(acc, s + t) == Fold(Fold(acc, s), t)
    decreases |s|
  {
    if s != [] {
      assert (s + t)[1..] == s[1..] + t;
      FoldConcat(Prime * acc + s[0] as nat, s[1..], t);
    } else {
      assert s + t == t;
    }
  }

  lemma Regroup(a: nat, c: nat, p: nat)
    ensures (Prime * a + c) * p == a * (Prime * p) + c * p
  {
  }

  /** A fold started at `acc` is the hash shifted by |s| digits of base 31. */
  lemma {:induction false} FoldShift(acc: nat, s: string)
    ensures Fold(acc, s) == acc * Pow(Prime, |s|) + Hash(s)
    decreases |s|
  {
    if s != [] {
      var c, rest := s[0] as nat, s[1..];
      var p, h := Pow(Prime, |rest|), Hash(rest);
      FoldShift(Prime * acc + c, rest);
      FoldShift(c, rest);
      assert Fold(acc, s) == (Prime * acc + c) * p + h;
      assert Hash(s) == c * p + h;
      assert Pow(Prime, |s|) == Prime * p;
      Regroup(acc, c, p);
      assert Fold(acc, s) == acc * (Prime * p) + Hash(s);
      assert acc * Pow(Prime, |s|) == acc * (Prime * p);
    }
  }

  /** The hash of a concatenation: the digits of `t` are appended in base 31
      to those of `s`; the value is exact, never reduced modulo a word size. */
  lemma HashConcat(s: string, t: string)
    ensures Hash(s + t) == Hash(s) * Pow(Prime, |t|) + Hash(t)
  {
    FoldConcat(0, s, t);
    FoldShift(Hash(s), t);
  }

  /** The recurrence of the left fold: hash("") == 0 and
      hash(s + c) == 31 * hash(s) + ord(c). */
  lemma HashSnoc(s: string, c: char)
    ensures Hash([]) == 0
    ensures Hash(s + [c]) == Prime * Hash(s) + c as nat
  {
    HashConcat(s, [c]);
    assert [c][1..] == [];
    assert Hash([c]) == Fold(c as nat, []) == c as nat;
  }
}
