/** The abstract meaning of a disjoint-set structure: the equivalence closure of the
    pairs unioned so far. Two keys are in one set when a chain of recorded unions,
    each used in either direction, leads from one to the other. */
module Partition {

  /** x and y were unioned directly, in either order. */
  predicate Linked(pairs: seq<(nat, nat)>, x: nat, y: nat)
  {
    (x, y) in pairs || (y, x) in pairs
  }

  /** `path` steps from its first key to its last along recorded unions. */
  ghost predicate IsChain(pairs: seq<(nat, nat)>, path: seq<nat>)
  {
    |path| > 0 && forall k :: 0 <= k < |path| - 1 ==> Linked(pairs, path[k], path[k + 1])
  }

  /** a and b lie in the same set of the equivalence closure of `pairs`. */
  ghost predicate Connected(pairs: seq<(nat, nat)>, a: nat, b: nat)
  {
    exists path :: IsChain(pairs, path) && path[0] == a && path[|path| - 1] == b
  }

  /** i and j are in one set once the sets of a and b are merged: they already were,
      or one of them is with a and the other with b. */
  ghost predicate JoinedBy(pairs: seq<(nat, nat)>, a: nat, b: nat, i: nat, j: nat)
  {
    || Connected(pairs, i, j)
    || (Connected(pairs, i, a) && Connected(pairs, b, j))
    || (Connected(pairs, i, b) && Connected(pairs, a, j))
  }

  lemma ConnectedReflexive(pairs: seq<(nat, nat)>, a: nat)
    ensures Connected(pairs, a, a)
  {
    assert IsChain(pairs, [a]);
  }

  lemma ConnectedLinked(pairs: seq<(nat, nat)>, x: nat, y: nat)
    requires Linked(pairs, x, y)
    ensures Connected(pairs, x, y)
  {
    assert IsChain(pairs, [x, y]);
  }

  lemma ConnectedSymmetric(pairs: seq<(nat, nat)>, a: nat, b: nat)
    requires Connected(pairs, a, b)
    ensures Connected(pairs, b, a)
  {
    var path :| IsChain(pairs, path) && path[0] == a && path[|path| - 1] == b;
    var n := |path|;
    var back := seq(n, k requires 0 <= k < n => path[n - 1 - k]);
    forall k | 0 <= k < n - 1
      ensures Linked(pairs, back[k], back[k + 1])
    {
      assert Linked(pairs, path[n - 2 - k], path[n - 1 - k]);
    }
    assert IsChain(pairs, back);
  }

  lemma ConnectedTransitive(pairs: seq<(nat, nat)>, a: nat, b: nat, c: nat)
    requires Connected(pairs, a, b) && Connected(pairs, b, c)
    ensures Connected(pairs, a, c)
  {
    var p :| IsChain(pairs, p) && p[0] == a && p[|p| - 1] == b;
    var q :| IsChain(pairs, q) && q[0] == b && q[|q| - 1] == c;
    var r := p + q[1..];
    forall k | 0 <= k < |r| - 1
      ensures Linked(pairs, r[k], r[k + 1])
    {
      if k < |p| - 1 {
        assert r[k] == p[k] && r[k + 1] == p[k + 1];
      } else {
        var m := k - |p| + 1;
        assert r[k] == q[m] && r[k + 1] == q[m + 1];
      }
    }
    assert IsChain(pairs, r) && r[0] == a && r[|r| - 1] == c;
  }

  /** Recording more unions never separates keys that were together. */
  lemma ConnectedMonotonic(pairs: seq<(nat, nat)>, more: seq<(nat, nat)>, a: nat, b: nat)
    requires forall p :: p in pairs ==> p in more
    requires Connected(pairs, a, b)
    ensures Connected(more, a, b)
  {
    var path :| IsChain(pairs, path) && path[0] == a && path[|path| - 1] == b;
    assert IsChain(more, path);
  }

  /** The closure depends only on which pairs were unioned, not on their order or
      repetition. */
  lemma ConnectedDependsOnMembers(pairs: seq<(nat, nat)>, others: seq<(nat, nat)>, a: nat, b: nat)
    requires forall p :: p in pairs <==> p in others
    ensures Connected(pairs, a, b) <==> Connected(others, a, b)
  {
    if Connected(pairs, a, b) {
      ConnectedMonotonic(pairs, others, a, b);
    }
    if Connected(others, a, b) {
      ConnectedMonotonic(others, pairs, a, b);
    }
  }

  /** A key that no recorded union mentions is alone in its set. */
  lemma ConnectedUntouched(pairs: seq<(nat, nat)>, a: nat, x: nat)
    requires forall p :: p in pairs ==> p.0 != x && p.1 != x
    requires Connected(pairs, a, x)
    ensures a == x
  {
    var path :| IsChain(pairs, path) && path[0] == a && path[|path| - 1] == x;
    if |path| > 1 {
      ChainLastLink(pairs, path);
      assert false;
    }
  }

  /** States the chain's last link as a fact, so that a caller in a branch the link
      contradicts need not check an index there. */
  lemma ChainLastLink(pairs: seq<(nat, nat)>, path: seq<nat>)
    requires IsChain(pairs, path) && |path| > 1
    ensures Linked(pairs, path[|path| - 2], path[|path| - 1])
  {
  }

  /** Before any union, every key is a singleton. */
  lemma ConnectedEmpty(a: nat, b: nat)
    ensures Connected([], a, b) <==> a == b
  {
    if Connected([], a, b) {
      ConnectedUntouched([], a, b);
    }
    if a == b {
      ConnectedReflexive([], a);
    }
  }

  /** Unioning a with b merges exactly the set of a with the set of b: i and j end up
      together iff they were together or one was with a and the other with b. */
  lemma ConnectedAfterUnion(pairs: seq<(nat, nat)>, a: nat, b: nat, i: nat, j: nat)
    ensures Connected(pairs + [(a, b)], i, j) <==> JoinedBy(pairs, a, b, i, j)
  {
    var grown := pairs + [(a, b)];
    if Connected(grown, i, j) {
      var path :| IsChain(grown, path) && path[0] == i && path[|path| - 1] == j;
      ChainJoined(pairs, a, b, path);
    }
    if JoinedBy(pairs, a, b, i, j) {
      assert forall p :: p in pairs ==> p in grown;
      ConnectedLinked(grown, a, b);
      ConnectedSymmetric(grown, a, b);
      if Connected(pairs, i, j) {
        ConnectedMonotonic(pairs, grown, i, j);
      } else if Connected(pairs, i, a) && Connected(pairs, b, j) {
        ConnectedMonotonic(pairs, grown, i, a);
        ConnectedMonotonic(pairs, grown, b, j);
        ConnectedTransitive(grown, i, a, b);
        ConnectedTransitive(grown, i, b, j);
      } else {
        ConnectedMonotonic(pairs, grown, i, b);
        ConnectedMonotonic(pairs, grown, a, j);
        ConnectedTransitive(grown, i, b, a);
        ConnectedTransitive(grown, i, a, j);
      }
    }
  }

  /** Every chain over pairs + [(a, b)] joins its ends in the sense of JoinedBy. */
  lemma {:induction false} ChainJoined(pairs: seq<(nat, nat)>, a: nat, b: nat, path: seq<nat>)
    requires IsChain(pairs + [(a, b)], path)
    ensures JoinedBy(pairs, a, b, path[0], path[|path| - 1])
    decreases |path|
  {
    var grown := pairs + [(a, b)];
    var i := path[0];
    if |path| == 1 {
      ConnectedReflexive(pairs, i);
    } else {
      var prefix := path[..|path| - 1];
      assert IsChain(grown, prefix);
      ChainJoined(pairs, a, b, prefix);
      var x, y := path[|path| - 2], path[|path| - 1];
      assert JoinedBy(pairs, a, b, i, x);
      assert Linked(grown, x, y);
      if Linked(pairs, x, y) {
        ConnectedLinked(pairs, x, y);
        if Connected(pairs, i, x) {
          ConnectedTransitive(pairs, i, x, y);
        } else if Connected(pairs, i, a) && Connected(pairs, b, x) {
          ConnectedTransitive(pairs, b, x, y);
        } else {
          ConnectedTransitive(pairs, a, x, y);
        }
      } else if x == a && y == b {
        ConnectedReflexive(pairs, b);
      } else {
        assert x == b && y == a;
        ConnectedReflexive(pairs, a);
      }
    }
  }
}
