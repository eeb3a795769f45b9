/** A disjoint-set table over the dense key space 0..n-1, grown one singleton key at a
    time. Each slot holds the root of its key's set directly (the forest is kept fully
    compressed), so `unioned` compares two slots. The table also records, as ghost
    state, every pair it was asked to union; its meaning is the equivalence closure of
    those pairs (module Partition). */
module UnionFind {
  import opened Partition

  /** Unsigned 32-bit integers: the index type of a unification key. */
  type u32 = x: nat | x < 0x1_0000_0000

  /** `parent` is a union-find forest whose sets are exactly the classes of the
      equivalence closure of `unions`. */
  ghost predicate Represents(parent: seq<nat>, unions: seq<(nat, nat)>)
  {
    && (forall i :: 0 <= i < |parent| ==> parent[i] < |parent| && parent[parent[i]] == parent[i])
    && (forall p :: p in unions ==> p.0 < |parent| && p.1 < |parent|)
    && (forall i, j :: 0 <= i < |parent| && 0 <= j < |parent| ==>
          (parent[i] == parent[j] <==> Connected(unions, i, j)))
  }

  /** Every key whose root is `from` is re-pointed at `to`. */
  function Relinked(parent: seq<nat>, from: nat, to: nat): seq<nat>
  {
    seq(|parent|, k requires 0 <= k < |parent| => if parent[k] == from then to else parent[k])
  }

  /** Appending a key that is its own root adds a singleton set and keeps every other set. */
  lemma RepresentsAfterNewKey(parent: seq<nat>, unions: seq<(nat, nat)>)
    requires Represents(parent, unions)
    ensures Represents(parent + [|parent|], unions)
  {
    var n := |parent|;
    var grown := parent + [n];
    forall i, j | 0 <= i < n + 1 && 0 <= j < n + 1
      ensures grown[i] == grown[j] <==> Connected(unions, i, j)
    {
      if i == n && j == n {
        ConnectedReflexive(unions, n);
      } else if i == n {
        if Connected(unions, n, j) {
          ConnectedSymmetric(unions, n, j);
          ConnectedUntouched(unions, j, n);
        }
      } else if j == n {
        if Connected(unions, i, n) {
          ConnectedUntouched(unions, i, n);
        }
      }
    }
  }

  /** Re-pointing the set of b at the root of a represents the closure extended by the
      union of a and b; when both already share a root nothing moves. */
  lemma RepresentsAfterUnion(parent: seq<nat>, unions: seq<(nat, nat)>, a: nat, b: nat)
    requires Represents(parent, unions)
    requires a < |parent| && b < |parent|
    ensures Represents(Relinked(parent, parent[b], parent[a]), unions + [(a, b)])
    ensures parent[a] == parent[b] ==> Relinked(parent, parent[b], parent[a]) == parent
  {
    var ra, rb := parent[a], parent[b];
    var merged := Relinked(parent, rb, ra);
    var grown := unions + [(a, b)];
    forall i, j | 0 <= i < |parent| && 0 <= j < |parent|
      ensures merged[i] == merged[j] <==> Connected(grown, i, j)
    {
      ConnectedAfterUnion(unions, a, b, i, j);
      assert parent[i] == ra <==> Connected(unions, i, a);
      assert parent[j] == rb <==> Connected(unions, b, j) by {
        if Connected(unions, b, j) {
          ConnectedSymmetric(unions, b, j);
        }
        if Connected(unions, j, b) {
          ConnectedSymmetric(unions, j, b);
        }
      }
      assert parent[i] == rb <==> Connected(unions, i, b);
      assert parent[j] == ra <==> Connected(unions, a, j) by {
        if Connected(unions, a, j) {
          ConnectedSymmetric(unions, a, j);
        }
        if Connected(unions, j, a) {
          ConnectedSymmetric(unions, j, a);
        }
      }
    }
    if ra == rb {
      assert merged == parent;
    }
  }

  class UnificationTable {
    var parent: seq<nat>
    ghost var unions: seq<(nat, nat)>

    ghost predicate Valid()
      reads this
    {
      Represents(parent, unions)
    }

    /** The number of keys allocated so far. */
    function Len(): nat
      reads this
    {
      |parent|
    }

    /** a and b are in one set of the partition built so far. */
    ghost predicate SameSet(a: nat, b: nat)
      reads this
    {
      Connected(unions, a, b)
    }

    constructor ()
      ensures Valid() && Len() == 0 && unions == []
    {
      parent := [];
      unions := [];
    }

    /** Allocates the next key as a singleton set. Its index is the old length cast to
        32 bits, which wraps around beyond 2^32 keys. */
    method NewKey() returns (key: u32)
      requires Valid()
      modifies this
      ensures Valid() && Len() == old(Len()) + 1 && unions == old(unions)
      ensures key == old(Len()) % 0x1_0000_0000
      ensures forall k :: SameSet(k, old(Len())) <==> k == old(Len())
    {
      var n := |parent|;
      key := n % 0x1_0000_0000;
      RepresentsAfterNewKey(parent, unions);
      parent := parent + [n];
      forall k | SameSet(k, n)
        ensures k == n
      {
        ConnectedUntouched(unions, k, n);
      }
      ConnectedReflexive(unions, n);
    }

    /** Merges the sets of a and b; every other set is left as it was. */
    method Union(a: u32, b: u32)
      requires Valid() && a < Len() && b < Len()
      modifies this
      ensures Valid() && Len() == old(Len())
      ensures unions == old(unions) + [(a as nat, b as nat)]
      ensures SameSet(a, b)
      ensures forall i, j :: SameSet(i, j) <==> JoinedBy(old(unions), a, b, i, j)
    {
      var rootA, rootB := parent[a], parent[b];
      RepresentsAfterUnion(parent, unions, a, b);
      if rootA != rootB {
        var merged := parent;
        for k := 0 to |parent|
          invariant |merged| == |parent|
          invariant forall m :: 0 <= m < k ==> merged[m] == (if parent[m] == rootB then rootA else parent[m])
          invariant forall m :: k <= m < |parent| ==> merged[m] == parent[m]
        {
          if parent[k] == rootB {
            merged := merged[k := rootA];
          }
        }
        assert merged == Relinked(parent, rootB, rootA);
        parent := merged;
      }
      forall i, j
        ensures Connected(unions + [(a, b)], i, j) <==> JoinedBy(unions, a, b, i, j)
      {
        ConnectedAfterUnion(unions, a, b, i, j);
      }
      unions := unions + [(a, b)];
      ConnectedLinked(unions, a, b);
    }

    /** Whether a and b are currently in one set. */
    function Unioned(a: u32, b: u32): (r: bool)
      reads this
      requires Valid() && a < Len() && b < Len()
      ensures r <==> SameSet(a, b)
    {
      parent[a] == parent[b]
    }
  }
}
