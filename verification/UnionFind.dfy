/** The disjoint-set forest behind anomaly grouping: parents in an array, path compression on every lookup. */
module UnionFinds {

  /** Partition `after` is `before` with the classes of a and b fused and nothing else changed. */
  ghost predicate MergesExactly(before: seq<nat>, after: seq<nat>, a: nat, b: nat)
    requires |before| == |after| && a < |before| && b < |before|
  {
    forall i, j :: 0 <= i < |before| && 0 <= j < |before| ==>
      (after[i] == after[j] <==>
        || before[i] == before[j]
        || (before[i] == before[a] && before[j] == before[b])
        || (before[i] == before[b] && before[j] == before[a]))
  }

  /** `root` and `level` witness that `parent` is a forest whose trees are the classes of `root`. */
  ghost predicate Forest(parent: seq<nat>, root: seq<nat>, level: seq<nat>) {
    && |parent| == |root| == |level|
    && (forall i :: 0 <= i < |parent| ==> parent[i] < |parent| && root[i] < |parent|)
    && (forall i {:trigger parent[root[i]]} :: 0 <= i < |parent| ==> parent[root[i]] == root[i])
    && (forall i {:trigger root[parent[i]]} :: 0 <= i < |parent| ==> root[parent[i]] == root[i])
    && (forall i {:trigger parent[i], root[i]} :: 0 <= i < |parent| && parent[i] == i ==> root[i] == i)
    && (forall i {:trigger level[parent[i]]} :: 0 <= i < |parent| && parent[i] != i ==> level[parent[i]] < level[i])
  }

  /** Following `parent` for at most `steps` links. */
  function Climb(parent: seq<nat>, x: nat, steps: nat): (r: nat)
    requires x < |parent| && forall i :: 0 <= i < |parent| ==> parent[i] < |parent|
    ensures r < |parent|
    decreases steps
  {
    if steps == 0 then x else Climb(parent, parent[x], steps - 1)
  }

  /** The witness is no free choice: climbing from x, for long enough, always ends at root[x]. */
  lemma {:induction false} RootIsReachedByClimbing(parent: seq<nat>, root: seq<nat>, level: seq<nat>, x: nat, steps: nat)
    requires Forest(parent, root, level) && x < |parent|
    requires parent[x] == x || level[x] <= steps
    ensures Climb(parent, x, steps) == root[x]
    decreases steps
  {
    assert parent[x] != x ==> level[parent[x]] < level[x];
    if steps > 0 {
      RootIsReachedByClimbing(parent, root, level, parent[x], steps - 1);
    }
  }

  ghost predicate Idempotent(root: seq<nat>) {
    && (forall i :: 0 <= i < |root| ==> root[i] < |root|)
    && (forall i {:trigger root[root[i]]} :: 0 <= i < |root| ==> root[root[i]] == root[i])
  }

  lemma RootsAreFixed(parent: seq<nat>, root: seq<nat>, level: seq<nat>)
    requires Forest(parent, root, level)
    ensures Idempotent(root)
  {
    forall i | 0 <= i < |root| ensures root[root[i]] == root[i] {
      assert parent[root[i]] == root[i];
    }
  }

  /** Pointing any node straight at its root keeps the forest and every class. */
  lemma CompressionKeepsForest(parent: seq<nat>, root: seq<nat>, level: seq<nat>, x: nat)
    requires Forest(parent, root, level) && x < |parent|
    requires parent[x] != root[x]
    ensures Forest(parent[x := root[x]], root, level)
  {
    LevelOfRoot(parent, root, level, x);
  }

  lemma {:induction false} LevelOfRoot(parent: seq<nat>, root: seq<nat>, level: seq<nat>, x: nat)
    requires Forest(parent, root, level) && x < |parent|
    ensures level[root[x]] <= level[x]
    ensures parent[x] != x ==> level[root[x]] < level[x]
    decreases level[x]
  {
    if parent[x] != x {
      LevelOfRoot(parent, root, level, parent[x]);
    }
  }

  /** Hanging root rb below root ra fuses exactly their two classes. */
  lemma LinkKeepsForest(parent: seq<nat>, root: seq<nat>, level: seq<nat>, ra: nat, rb: nat)
    requires Forest(parent, root, level) && ra < |parent| && rb < |parent|
    requires root[ra] == ra && root[rb] == rb && ra != rb
    ensures Forest(parent[rb := ra], FusedRoot(root, ra, rb), FusedLevel(root, level, ra, rb))
    ensures MergesExactly(root, FusedRoot(root, ra, rb), ra, rb)
  {
  }

  ghost function FusedRoot(root: seq<nat>, ra: nat, rb: nat): (r: seq<nat>)
    ensures |r| == |root|
  {
    seq(|root|, i requires 0 <= i < |root| => if root[i] == rb then ra else root[i])
  }

  ghost function FusedLevel(root: seq<nat>, level: seq<nat>, ra: nat, rb: nat): (r: seq<nat>)
    requires |root| == |level| && ra < |root|
    ensures |r| == |level|
  {
    seq(|level|, i requires 0 <= i < |level| => if root[i] == rb then level[i] + level[ra] + 1 else level[i])
  }

  /** The merge is the same whichever members of the two classes are named. */
  lemma MergeOfMembers(before: seq<nat>, after: seq<nat>, ra: nat, rb: nat, a: nat, b: nat)
    requires |before| == |after| && a < |before| && b < |before| && ra < |before| && rb < |before|
    requires before[a] == before[ra] && before[b] == before[rb]
    requires MergesExactly(before, after, ra, rb)
    ensures MergesExactly(before, after, a, b)
  {
  }

  class UnionFind {
    const parent: array<nat>
    ghost var root: seq<nat>
    ghost var level: seq<nat>

    ghost predicate Valid()
      reads this, parent
    {
      Forest(parent[..], root, level)
    }

    constructor (n: nat)
      ensures Valid() && fresh(parent) && parent.Length == n
      ensures root == seq(n, i => i)
    {
      parent := new nat[n](i => i);
      root := seq(n, i => i);
      level := seq(n, i => 0);
    }

    method Find(start: nat) returns (r: nat)
      requires Valid() && start < parent.Length
      modifies parent
      ensures Valid() && r == root[start]
    {
      r := start;
      while parent[r] != r
        invariant r < parent.Length && root[r] == root[start]
        decreases level[r]
      {
        r := parent[r];
      }
      var x: nat := start;
      while parent[x] != r
        invariant Valid()
        invariant x < parent.Length && root[x] == r
        decreases level[x]
      {
        CompressionKeepsForest(parent[..], root, level, x);
        ghost var compressed := parent[..][x := r];
        var next := parent[x];
        parent[x] := r;
        assert parent[..] == compressed;
        x := next;
      }
    }

    method Union(a: nat, b: nat)
      requires Valid() && a < parent.Length && b < parent.Length
      modifies this, parent
      ensures Valid() && MergesExactly(old(root), root, a, b)
    {
      var ra := Find(a);
      var rb := Find(b);
      if ra != rb {
        LinkKeepsForest(parent[..], root, level, ra, rb);
        ghost var linked := parent[..][rb := ra];
        parent[rb] := ra;
        assert parent[..] == linked;
        MergeOfMembers(root, FusedRoot(root, ra, rb), ra, rb, a, b);
        root, level := FusedRoot(root, ra, rb), FusedLevel(root, level, ra, rb);
      }
    }
  }
}
