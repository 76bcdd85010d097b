/** Types and list operations shared by the other modules. */
module Basics {
  type Byte = b: int | 0 <= b < 256

  datatype Option<+T> = None | Some(value: T)

  function One(b: bool): nat {
    if b then 1 else 0
  }

  function Pow2(n: nat): (p: nat)
    ensures p > 0
  {
    if n == 0 then 1 else 2 * Pow2(n - 1)
  }

  lemma {:induction false} Pow2Plus(a: nat, b: nat)
    ensures Pow2(a + b) == Pow2(a) * Pow2(b)
    decreases a
  {
    if a > 0 {
      Pow2Plus(a - 1, b);
    }
  }

  /** How often `k` occurs in a list of kinds. */
  function Tally<K(==)>(ks: seq<K>, k: K): nat {
    multiset(ks)[k]
  }

  /** The change of all counts when the entry at `t` becomes `to`. */
  lemma TallyMoved<K>(ks: seq<K>, t: nat, to: K)
    requires t < |ks|
    ensures Tally(ks, ks[t]) > 0
    ensures forall k :: Tally(ks[t := to], k) == Tally(ks, k) - One(ks[t] == k) + One(to == k)
  {
    assert ks[t] in multiset(ks);
  }

  lemma TallyFirst<K>(ks: seq<K>, k: K)
    requires ks != []
    ensures Tally(ks, k) == One(ks[0] == k) + Tally(ks[1..], k)
  {
    assert ks == [ks[0]] + ks[1..];
  }

  lemma TallyNone<K>(ks: seq<K>, k: K)
    ensures Tally(ks, k) == 0 <==> forall t :: 0 <= t < |ks| ==> ks[t] != k
  {
    assert k in multiset(ks) <==> k in ks;
  }

  /** Concatenation of a list of lists. */
  function Flatten<T>(parts: seq<seq<T>>): seq<T>
    decreases |parts|
  {
    if parts == [] then [] else parts[0] + Flatten(parts[1..])
  }

  lemma {:induction false} FlattenConcat<T>(a: seq<seq<T>>, b: seq<seq<T>>)
    ensures Flatten(a + b) == Flatten(a) + Flatten(b)
    decreases |a|
  {
    if a == [] {
      assert a + b == b;
    } else {
      assert (a + b)[1..] == a[1..] + b;
      FlattenConcat(a[1..], b);
    }
  }
}
