// Day 8: a union-find over the junction boxes (path compression, union by
// rank, component sizes) and the loops that join the boxes pair by pair.
// The distances that order the pairs are floating point; the model takes
// the ordered pair sequence as its input.

module Day08 {
  import opened Common
  import opened Sorting

  // ---------------------------------------------------------------------------
  // The forest that `parent` and `rank` describe

  /** Every parent link stays in range and leads to a strictly larger rank,
      which is what union by rank maintains. */
  ghost predicate Forest(parent: seq<nat>, rank: seq<nat>)
  {
    |parent| == |rank| &&
    (forall i :: 0 <= i < |parent| ==> parent[i] < |parent|) &&
    (forall i :: 0 <= i < |parent| && parent[i] != i ==> rank[i] < rank[parent[i]])
  }

  /** The largest rank, which bounds the length of every parent chain. */
  function MaxRank(rank: seq<nat>): (m: nat)
    ensures forall i :: 0 <= i < |rank| ==> rank[i] <= m
  {
    if |rank| == 0 then 0 else Max(MaxRank(rank[..|rank| - 1]), rank[|rank| - 1]) as nat
  }

  /** The root that `x` reaches by following parent links. */
  ghost function Root(parent: seq<nat>, rank: seq<nat>, x: nat): (r: nat)
    requires Forest(parent, rank) && x < |parent|
    ensures r < |parent| && parent[r] == r
    decreases MaxRank(rank) - rank[x]
  {
    if parent[x] == x then x else Root(parent, rank, parent[x])
  }

  /** The root of every element, in element order. */
  ghost function Roots(parent: seq<nat>, rank: seq<nat>): (roots: seq<nat>)
    requires Forest(parent, rank)
    ensures |roots| == |parent|
  {
    seq(|parent|, j requires 0 <= j < |parent| => Root(parent, rank, j))
  }

  /** A root has a larger rank than every other element of its tree. */
  lemma {:induction false} RankBelowRoot(parent: seq<nat>, rank: seq<nat>, x: nat)
    requires Forest(parent, rank) && x < |parent| && parent[x] != x
    ensures rank[x] < rank[Root(parent, rank, x)]
    decreases MaxRank(rank) - rank[x]
  {
    if parent[parent[x]] != parent[x] {
      RankBelowRoot(parent, rank, parent[x]);
    }
  }

  /** An element is its own root exactly when it is its own parent. */
  lemma RootIsSelf(parent: seq<nat>, rank: seq<nat>, x: nat)
    requires Forest(parent, rank) && x < |parent|
    ensures Root(parent, rank, x) == x <==> parent[x] == x
  {
    if parent[x] != x {
      RankBelowRoot(parent, rank, x);
    }
  }

  /** The roots depend on the parent links only, not on the ranks. */
  lemma {:induction false} RootsIgnoreRank(parent: seq<nat>, rank: seq<nat>, rank': seq<nat>, x: nat)
    requires Forest(parent, rank) && Forest(parent, rank') && x < |parent|
    ensures Root(parent, rank, x) == Root(parent, rank', x)
    decreases MaxRank(rank) - rank[x]
  {
    if parent[x] != x {
      RootsIgnoreRank(parent, rank, rank', parent[x]);
    }
  }

  /** Pointing `x` straight at its root (path compression) keeps the forest
      and changes no element's root. */
  lemma Compress(parent: seq<nat>, rank: seq<nat>, x: nat)
    requires Forest(parent, rank) && x < |parent|
    ensures Forest(parent[x := Root(parent, rank, x)], rank)
    ensures Roots(parent[x := Root(parent, rank, x)], rank) == Roots(parent, rank)
  {
    var r := Root(parent, rank, x);
    var parent' := parent[x := r];
    if parent[x] != x {
      RankBelowRoot(parent, rank, x);
    }
    assert Forest(parent', rank);
    forall j | 0 <= j < |parent|
      ensures Root(parent', rank, j) == Root(parent, rank, j)
    {
      CompressAt(parent, rank, x, j);
    }
  }

  lemma {:induction false} CompressAt(parent: seq<nat>, rank: seq<nat>, x: nat, j: nat)
    requires Forest(parent, rank) && x < |parent| && j < |parent|
    requires Forest(parent[x := Root(parent, rank, x)], rank)
    ensures Root(parent[x := Root(parent, rank, x)], rank, j) == Root(parent, rank, j)
    decreases MaxRank(rank) - rank[j]
  {
    var r := Root(parent, rank, x);
    var parent' := parent[x := r];
    if j == x {
      if r != x {
        assert parent'[r] == r;
        assert Root(parent', rank, r) == r;
      }
    } else if parent[j] != j {
      CompressAt(parent, rank, x, parent[j]);
    }
  }

  /** Making root `a` a child of root `b`, whose rank is larger, keeps the
      forest and sends every element of `a`'s tree to `b`. */
  lemma Link(parent: seq<nat>, rank: seq<nat>, a: nat, b: nat)
    requires Forest(parent, rank) && a < |parent| && b < |parent|
    requires parent[a] == a && parent[b] == b && rank[a] < rank[b]
    ensures Forest(parent[a := b], rank)
    ensures Roots(parent[a := b], rank) == Redirect(Roots(parent, rank), a, b)
  {
    forall j | 0 <= j < |parent|
      ensures Root(parent[a := b], rank, j) == Redirect(Roots(parent, rank), a, b)[j]
    {
      LinkAt(parent, rank, a, b, j);
    }
  }

  lemma {:induction false} LinkAt(parent: seq<nat>, rank: seq<nat>, a: nat, b: nat, j: nat)
    requires Forest(parent, rank) && a < |parent| && b < |parent| && j < |parent|
    requires parent[a] == a && parent[b] == b && rank[a] < rank[b]
    requires Forest(parent[a := b], rank)
    ensures Root(parent[a := b], rank, j) == if Root(parent, rank, j) == a then b else Root(parent, rank, j)
    decreases MaxRank(rank) - rank[j]
  {
    var parent' := parent[a := b];
    if j == a {
      assert Root(parent', rank, b) == b;
    } else if parent[j] != j {
      LinkAt(parent, rank, a, b, parent[j]);
    }
  }

  /** Raising a root's rank keeps the forest and its roots. */
  lemma Promote(parent: seq<nat>, rank: seq<nat>, size: seq<nat>, a: nat)
    requires Forest(parent, rank) && SizesCount(parent, rank, size) && a < |parent| && parent[a] == a
    ensures Forest(parent, rank[a := rank[a] + 1]) && SizesCount(parent, rank[a := rank[a] + 1], size)
    ensures Roots(parent, rank[a := rank[a] + 1]) == Roots(parent, rank)
  {
    var rank' := rank[a := rank[a] + 1];
    assert Forest(parent, rank');
    forall j | 0 <= j < |parent|
      ensures Root(parent, rank', j) == Root(parent, rank, j)
    {
      RootsIgnoreRank(parent, rank', rank, j);
    }
    assert Roots(parent, rank') == Roots(parent, rank);
  }

  // ---------------------------------------------------------------------------
  // Counting roots and component members

  /** `s` with every `a` replaced by `b`. */
  function Redirect(s: seq<nat>, a: nat, b: nat): (r: seq<nat>)
    ensures |r| == |s|
    ensures forall i :: 0 <= i < |s| ==> r[i] != a || a == b
  {
    seq(|s|, i requires 0 <= i < |s| => if s[i] == a then b else s[i])
  }

  /** Redirecting `a` to `b` moves the count of `a` onto `b`. */
  lemma {:induction false} RedirectCount(s: seq<nat>, a: nat, b: nat, v: nat)
    requires a != b
    ensures multiset(Redirect(s, a, b))[v] ==
            if v == a then 0
            else if v == b then multiset(s)[a] + multiset(s)[b]
            else multiset(s)[v]
  {
    if |s| > 0 {
      var init := s[..|s| - 1];
      RedirectCount(init, a, b, v);
      assert s == init + [s[|s| - 1]];
      assert Redirect(s, a, b) == Redirect(init, a, b) + [Redirect(s, a, b)[|s| - 1]];
    }
  }

  /** The roots among the first `k` elements, in increasing order. */
  function RootsBelow(parent: seq<nat>, k: nat): (r: seq<nat>)
    requires k <= |parent|
    ensures forall i :: 0 <= i < |r| ==> r[i] < k && parent[r[i]] == r[i]
    ensures |r| <= k
  {
    if k == 0 then []
    else RootsBelow(parent, k - 1) + (if parent[k - 1] == k - 1 then [k - 1] else [])
  }

  /** The number of trees in the forest. */
  function NumRoots(parent: seq<nat>): nat
  {
    |RootsBelow(parent, |parent|)|
  }

  /** Each element that is a root in one is a root in the other. */
  ghost predicate SameRoots(parent: seq<nat>, parent': seq<nat>)
  {
    |parent| == |parent'| && forall i :: 0 <= i < |parent| ==> (parent[i] == i <==> parent'[i] == i)
  }

  lemma {:induction false} RootsBelowSame(parent: seq<nat>, parent': seq<nat>, k: nat)
    requires SameRoots(parent, parent') && k <= |parent|
    ensures RootsBelow(parent, k) == RootsBelow(parent', k)
  {
    if k > 0 {
      RootsBelowSame(parent, parent', k - 1);
    }
  }

  /** A root that stops being one lowers the count by one. */
  lemma {:induction false} RootsBelowLose(parent: seq<nat>, a: nat, b: nat, k: nat)
    requires a < |parent| && b < |parent| && parent[a] == a && a != b && k <= |parent|
    ensures |RootsBelow(parent[a := b], k)| == |RootsBelow(parent, k)| - (if a < k then 1 else 0)
  {
    if k > 0 {
      RootsBelowLose(parent, a, b, k - 1);
    }
  }

  /** How many elements of `s` lie in `members`. */
  function CountIn(s: seq<nat>, members: set<nat>): (n: nat)
    ensures n <= |s|
  {
    if |s| == 0 then 0
    else CountIn(s[..|s| - 1], members) + (if s[|s| - 1] in members then 1 else 0)
  }

  lemma {:induction false} CountInAll(s: seq<nat>, members: set<nat>)
    requires forall i :: 0 <= i < |s| ==> s[i] in members
    ensures CountIn(s, members) == |s|
  {
    if |s| > 0 {
      CountInAll(s[..|s| - 1], members);
    }
  }

  lemma {:induction false} CountInNone(s: seq<nat>)
    ensures CountIn(s, {}) == 0
  {
    if |s| > 0 {
      CountInNone(s[..|s| - 1]);
    }
  }

  lemma {:induction false} CountInAdd(s: seq<nat>, members: set<nat>, v: nat)
    requires v !in members
    ensures CountIn(s, members + {v}) == CountIn(s, members) + multiset(s)[v]
  {
    if |s| > 0 {
      var init := s[..|s| - 1];
      CountInAdd(init, members, v);
      assert s == init + [s[|s| - 1]];
    }
  }

  /** `get_component_sizes`: the stored size of each root, in element order. */
  function ComponentSizes(parent: seq<nat>, size: seq<nat>, k: nat): (sizes: seq<int>)
    requires k <= |parent| == |size|
    ensures |sizes| == |RootsBelow(parent, k)|
  {
    if k == 0 then []
    else ComponentSizes(parent, size, k - 1) + (if parent[k - 1] == k - 1 then [size[k - 1] as int] else [])
  }

  ghost function RootSet(parent: seq<nat>, k: nat): set<nat>
  {
    set r: nat | r < k && r < |parent| && parent[r] == r
  }

  /** Each root's stored size is the number of elements whose root it is. */
  ghost predicate SizesCount(parent: seq<nat>, rank: seq<nat>, size: seq<nat>)
    requires Forest(parent, rank)
  {
    |size| == |parent| &&
    forall r :: 0 <= r < |parent| && parent[r] == r ==> size[r] == multiset(Roots(parent, rank))[r]
  }

  /** The sizes of the roots below `k` add up to the members of their trees. */
  lemma {:induction false} SizesSum(parent: seq<nat>, rank: seq<nat>, size: seq<nat>, k: nat)
    requires Forest(parent, rank) && SizesCount(parent, rank, size) && k <= |parent|
    ensures Sum(ComponentSizes(parent, size, k)) == CountIn(Roots(parent, rank), RootSet(parent, k))
  {
    var roots := Roots(parent, rank);
    if k == 0 {
      RootSetStep(parent, 0);
      CountInNone(roots);
    } else {
      SizesSum(parent, rank, size, k - 1);
      RootSetStep(parent, k);
      var sizes := ComponentSizes(parent, size, k - 1);
      if parent[k - 1] == k - 1 {
        CountInAdd(roots, RootSet(parent, k - 1), k - 1);
        SumAppend(sizes, [size[k - 1] as int]);
      } else {
        assert RootSet(parent, k - 1) + {} == RootSet(parent, k - 1);
        assert sizes + [] == sizes;
      }
    }
  }

  lemma RootSetStep(parent: seq<nat>, k: nat)
    requires k <= |parent|
    ensures k == 0 ==> RootSet(parent, k) == {}
    ensures k > 0 ==> RootSet(parent, k) == RootSet(parent, k - 1) + (if parent[k - 1] == k - 1 then {k - 1} else {})
  {
  }

  /** The component sizes add up to the number of elements. */
  lemma SizesTotal(parent: seq<nat>, rank: seq<nat>, size: seq<nat>)
    requires Forest(parent, rank) && SizesCount(parent, rank, size)
    ensures Sum(ComponentSizes(parent, size, |parent|)) == |parent|
  {
    SizesSum(parent, rank, size, |parent|);
    var roots := Roots(parent, rank);
    forall i | 0 <= i < |roots|
      ensures roots[i] in RootSet(parent, |parent|)
    {
    }
    CountInAll(roots, RootSet(parent, |parent|));
  }

  /** Each element of `0..n` occurs once in `0..n`. */
  lemma {:induction false} IdentityCount(n: nat, r: nat)
    requires r < n
    ensures multiset(seq(n, i => i))[r] == 1
  {
    var s := seq(n, i => i);
    var init := seq(n - 1, i => i);
    assert s == init + [n - 1];
    if r < n - 1 {
      IdentityCount(n - 1, r);
    } else {
      assert r !in init;
    }
  }

  /** Root `loser` hangs under root `winner`: its elements move to `winner`,
      which takes both sizes, and one tree fewer remains. */
  ghost predicate Linked(roots0: seq<nat>, size0: seq<nat>, count0: nat, loser: nat, winner: nat,
                         roots: seq<nat>, size: seq<nat>, count: nat)
  {
    loser < |size0| && winner < |size0| &&
    roots == Redirect(roots0, loser, winner) &&
    size == size0[winner := size0[winner] + size0[loser]] &&
    count == count0 - 1
  }

  /** What `union` does to the roots, ranks, sizes and tree count, given the
      roots `rx` and `ry` of its two arguments: nothing when they are the
      same; otherwise the root of smaller rank hangs under the other, and on
      a tie `ry` hangs under `rx`, whose rank goes up by one. */
  ghost predicate Joined(roots0: seq<nat>, rank0: seq<nat>, size0: seq<nat>, count0: nat, rx: nat, ry: nat,
                         roots: seq<nat>, rank: seq<nat>, size: seq<nat>, count: nat)
  {
    rx < |rank0| && ry < |rank0| &&
    if rx == ry then
      roots == roots0 && rank == rank0 && size == size0 && count == count0
    else if rank0[rx] < rank0[ry] then
      rank == rank0 && Linked(roots0, size0, count0, rx, ry, roots, size, count)
    else if rank0[rx] > rank0[ry] then
      rank == rank0 && Linked(roots0, size0, count0, ry, rx, roots, size, count)
    else
      rank == rank0[rx := rank0[rx] + 1] && Linked(roots0, size0, count0, ry, rx, roots, size, count)
  }

  // ---------------------------------------------------------------------------
  // The union-find structure

  class UnionFind {
    var parent: seq<nat>
    var rank: seq<nat>
    var size: seq<nat>

    ghost predicate Valid()
      reads this
    {
      Forest(parent, rank) && SizesCount(parent, rank, size)
    }

    /** `UnionFind::new`: `n` singleton sets. */
    constructor (n: nat)
      ensures Valid()
      ensures parent == seq(n, i => i) && rank == seq(n, _ => 0) && size == seq(n, _ => 1)
      ensures Roots(parent, rank) == parent && NumRoots(parent) == n
    {
      parent := seq(n, i => i);
      rank := seq(n, _ => 0);
      size := seq(n, _ => 1);
      new;
      forall j | 0 <= j < n
        ensures Roots(parent, rank)[j] == j
      {
      }
      assert Roots(parent, rank) == parent;
      forall r | 0 <= r < n
        ensures size[r] == multiset(Roots(parent, rank))[r]
      {
        IdentityCount(n, r);
      }
      AllRoots(parent, n);
    }

    /** `find`: the root of `x`, pointing `x` and every element on its way
        straight at it. */
    method Find(x: nat) returns (r: nat)
      requires Valid() && x < |parent|
      modifies this
      ensures Valid()
      ensures rank == old(rank) && size == old(size) && SameRoots(old(parent), parent)
      ensures Roots(parent, rank) == old(Roots(parent, rank))
      ensures NumRoots(parent) == old(NumRoots(parent))
      ensures r == old(Root(parent, rank, x)) && parent[x] == r && parent[r] == r
      decreases MaxRank(rank) - rank[x]
    {
      if parent[x] != x {
        ghost var parent0 := parent;
        var top := Find(parent[x]);
        assert Root(parent, rank, x) == Roots(parent, rank)[x] == Roots(parent0, rank)[x] == top;
        Compress(parent, rank, x);
        RootIsSelf(parent, rank, x);
        RootIsSelf(parent0, rank, x);
        parent := parent[x := top];
        assert SameRoots(old(parent), parent) by {
          forall i | 0 <= i < |parent|
            ensures parent[i] == i <==> old(parent)[i] == i
          {
            RootIsSelf(parent, rank, i);
            RootIsSelf(old(parent), rank, i);
          }
        }
      }
      r := parent[x];
      RootsBelowSame(old(parent), parent, |parent|);
    }

    /** `union`: join the sets of `x` and `y`, hanging the root of smaller
        rank under the other, and raising the rank on a tie. */
    method Union(x: nat, y: nat)
      requires Valid() && x < |parent| && y < |parent|
      modifies this
      ensures Valid() && |parent| == old(|parent|)
      ensures Root(parent, rank, x) == Root(parent, rank, y)
      ensures Joined(old(Roots(parent, rank)), old(rank), old(size), old(NumRoots(parent)),
                     old(Root(parent, rank, x)), old(Root(parent, rank, y)),
                     Roots(parent, rank), rank, size, NumRoots(parent))
    {
      ghost var roots0 := Roots(parent, rank);
      var rootX := Find(x);
      var rootY := Find(y);
      RootsBelowSame(old(parent), parent, |parent|);
      assert roots0[x] == rootX && roots0[y] == rootY;
      Join(rootX, rootY);
      assert Roots(parent, rank)[x] == Root(parent, rank, x);
      assert Roots(parent, rank)[y] == Root(parent, rank, y);
    }

    /** The linking part of `union`, on the two roots it found. */
    method Join(rootX: nat, rootY: nat)
      requires Valid() && rootX < |parent| && rootY < |parent| && parent[rootX] == rootX && parent[rootY] == rootY
      modifies this
      ensures Valid() && |parent| == old(|parent|)
      ensures Joined(old(Roots(parent, rank)), old(rank), old(size), old(NumRoots(parent)), rootX, rootY,
                     Roots(parent, rank), rank, size, NumRoots(parent))
    {
      if rootX != rootY {
        if rank[rootX] < rank[rootY] {
          Merge(rootX, rootY);
        } else if rank[rootX] > rank[rootY] {
          Merge(rootY, rootX);
        } else {
          MergeTie(rootY, rootX);
        }
      }
    }

    /** The tie branch of `union`: raise the rank of root `b`, then hang
        root `a` under it. */
    method MergeTie(a: nat, b: nat)
      requires Valid() && a < |parent| && b < |parent| && a != b
      requires parent[a] == a && parent[b] == b && rank[a] == rank[b]
      modifies this
      ensures Valid() && |parent| == old(|parent|) && rank == old(rank)[b := old(rank)[b] + 1]
      ensures Linked(old(Roots(parent, rank)), old(size), old(NumRoots(parent)), a, b,
                     Roots(parent, rank), size, NumRoots(parent))
    {
      ghost var roots0, size0, count0 := Roots(parent, rank), size, NumRoots(parent);
      Promote(parent, rank, size, b);
      rank := rank[b := rank[b] + 1];
      assert Roots(parent, rank) == roots0;
      Merge(a, b);
      assert Linked(roots0, size0, count0, a, b, Roots(parent, rank), size, NumRoots(parent));
    }

    /** One branch of `union`: hang root `a` under root `b` and add its size. */
    method Merge(a: nat, b: nat)
      requires Valid() && a < |parent| && b < |parent|
      requires parent[a] == a && parent[b] == b && rank[a] < rank[b]
      modifies this
      ensures Valid() && rank == old(rank) && parent == old(parent)[a := b]
      ensures Linked(old(Roots(parent, rank)), old(size), old(NumRoots(parent)), a, b,
                     Roots(parent, rank), size, NumRoots(parent))
    {
      ghost var roots0 := Roots(parent, rank);
      Link(parent, rank, a, b);
      RootsBelowLose(parent, a, b, |parent|);
      parent := parent[a := b];
      size := size[b := size[b] + size[a]];
      forall r | 0 <= r < |parent| && parent[r] == r
        ensures size[r] == multiset(Roots(parent, rank))[r]
      {
        RedirectCount(roots0, a, b, r);
      }
    }

    /** `get_component_sizes`: the size of each tree, by root order. */
    method GetComponentSizes() returns (sizes: seq<int>)
      requires Valid()
      modifies this
      ensures Valid() && rank == old(rank) && size == old(size) && SameRoots(old(parent), parent)
      ensures Roots(parent, rank) == old(Roots(parent, rank))
      ensures sizes == ComponentSizes(old(parent), size, |parent|)
      ensures |sizes| == NumRoots(old(parent)) && Sum(sizes) == |parent|
    {
      var n := |parent|;
      ghost var parent0, roots0 := parent, Roots(parent, rank);
      sizes := [];
      for i := 0 to n
        invariant Valid() && rank == old(rank) && size == old(size) && |parent| == n
        invariant Roots(parent, rank) == roots0
        invariant sizes == ComponentSizes(parent0, size, i)
      {
        assert Root(parent, rank, i) == roots0[i] == Root(parent0, rank, i);
        var r := Find(i);
        RootIsSelf(parent0, rank, i);
        assert r == i <==> parent0[i] == i;
        if r == i {
          sizes := sizes + [size[i] as int];
        }
      }
      RootsKeepRoots(parent0, parent, rank);
      SizesTotal(old(parent), rank, size);
    }
  }

  /** Forests over the same ranks with the same roots for every element
      have the same roots. */
  lemma RootsKeepRoots(parent: seq<nat>, parent': seq<nat>, rank: seq<nat>)
    requires Forest(parent, rank) && Forest(parent', rank) && Roots(parent, rank) == Roots(parent', rank)
    ensures SameRoots(parent, parent')
  {
    forall i | 0 <= i < |parent| ensures parent[i] == i <==> parent'[i] == i {
      assert Root(parent, rank, i) == Roots(parent, rank)[i] == Roots(parent', rank)[i] == Root(parent', rank, i);
      RootIsSelf(parent, rank, i);
      RootIsSelf(parent', rank, i);
    }
  }

  /** In a fresh structure every element is a root. */
  lemma {:induction false} AllRoots(parent: seq<nat>, k: nat)
    requires k <= |parent| && forall i :: 0 <= i < |parent| ==> parent[i] == i
    ensures |RootsBelow(parent, k)| == k
  {
    if k > 0 {
      AllRoots(parent, k - 1);
    }
  }

  // ---------------------------------------------------------------------------
  // The connections: a reference partition and the two puzzle loops

  /** Every pair joins two of the `n` boxes. */
  ghost predicate InRange(n: nat, pairs: seq<(nat, nat)>)
  {
    forall k :: 0 <= k < |pairs| ==> pairs[k].0 < n && pairs[k].1 < n
  }

  /** The reference partition: every box starts with its own label, and each
      pair relabels the whole class of its first box with the label of the
      second. */
  function Labels(n: nat, pairs: seq<(nat, nat)>): (labels: seq<nat>)
    requires InRange(n, pairs)
    ensures |labels| == n
  {
    if |pairs| == 0 then seq(n, i => i)
    else
      var labels := Labels(n, pairs[..|pairs| - 1]);
      var (x, y) := pairs[|pairs| - 1];
      Redirect(labels, labels[x], labels[y])
  }

  /** `a` and `b` put the same elements together. */
  ghost predicate SamePartition(a: seq<nat>, b: seq<nat>)
  {
    |a| == |b| && forall u, v :: 0 <= u < |a| && 0 <= v < |a| ==> (a[u] == a[v] <==> b[u] == b[v])
  }

  /** All elements lie in one class. */
  ghost predicate OneClass(a: seq<nat>)
  {
    forall u :: 0 <= u < |a| ==> a[u] == a[0]
  }

  /** Joining the classes of `x` and `y` in either direction gives the same
      partition. */
  lemma RedirectPartition(roots: seq<nat>, labels: seq<nat>, x: nat, y: nat, a: nat, b: nat)
    requires SamePartition(roots, labels) && x < |roots| && y < |roots|
    requires (a == roots[x] && b == roots[y]) || (a == roots[y] && b == roots[x])
    ensures SamePartition(Redirect(roots, a, b), Redirect(labels, labels[x], labels[y]))
  {
    var roots', labels' := Redirect(roots, a, b), Redirect(labels, labels[x], labels[y]);
    forall u, v | 0 <= u < |roots| && 0 <= v < |roots|
      ensures roots'[u] == roots'[v] <==> labels'[u] == labels'[v]
    {
      assert roots[u] == roots[x] <==> labels[u] == labels[x];
      assert roots[u] == roots[y] <==> labels[u] == labels[y];
      assert roots[v] == roots[x] <==> labels[v] == labels[x];
      assert roots[v] == roots[y] <==> labels[v] == labels[y];
    }
  }

  /** What `union` does to the roots matches one step of the reference partition. */
  lemma JoinedPartition(roots0: seq<nat>, rank0: seq<nat>, size0: seq<nat>, count0: nat, x: nat, y: nat,
                        roots: seq<nat>, rank: seq<nat>, size: seq<nat>, count: nat, labels: seq<nat>)
    requires x < |roots0| && y < |roots0| && SamePartition(roots0, labels)
    requires Joined(roots0, rank0, size0, count0, roots0[x], roots0[y], roots, rank, size, count)
    ensures SamePartition(roots, Redirect(labels, labels[x], labels[y]))
  {
    if roots0[x] == roots0[y] {
      assert Redirect(labels, labels[x], labels[y]) == labels;
    } else if rank0[roots0[x]] < rank0[roots0[y]] {
      RedirectPartition(roots0, labels, x, y, roots0[x], roots0[y]);
    } else {
      RedirectPartition(roots0, labels, x, y, roots0[y], roots0[x]);
    }
  }

  lemma {:induction false} RootsBelowHas(parent: seq<nat>, k: nat, r: nat)
    requires k <= |parent| && r < k && parent[r] == r
    ensures r in RootsBelow(parent, k)
  {
    if r < k - 1 {
      RootsBelowHas(parent, k - 1, r);
    }
  }

  lemma {:induction false} RootsBelowOnly(parent: seq<nat>, k: nat, c: nat)
    requires k <= |parent| && forall i :: 0 <= i < |parent| && parent[i] == i ==> i == c
    ensures |RootsBelow(parent, k)| == if c < k && parent[c] == c then 1 else 0
  {
    if k > 0 {
      RootsBelowOnly(parent, k - 1, c);
    }
  }

  /** The forest is a single tree exactly when all elements share one root. */
  lemma SingleTree(parent: seq<nat>, rank: seq<nat>)
    requires Forest(parent, rank) && |parent| > 0
    ensures NumRoots(parent) == 1 <==> OneClass(Roots(parent, rank))
  {
    var roots := Roots(parent, rank);
    var n := |parent|;
    if NumRoots(parent) == 1 {
      forall u | 0 <= u < n
        ensures roots[u] == roots[0]
      {
        RootsBelowHas(parent, n, roots[u]);
        RootsBelowHas(parent, n, roots[0]);
      }
    }
    if OneClass(roots) {
      forall i | 0 <= i < n && parent[i] == i
        ensures i == roots[0]
      {
        RootIsSelf(parent, rank, i);
        assert roots[i] == Root(parent, rank, i);
      }
      RootsBelowOnly(parent, n, roots[0]);
    }
  }

  lemma OneClassTransfer(a: seq<nat>, b: seq<nat>)
    requires SamePartition(a, b) && |a| > 0
    ensures OneClass(a) <==> OneClass(b)
  {
  }

  /** One pair of the `solve_part2` loop: find both roots and join them
      when they differ. */
  method Connect(uf: UnionFind, ghost labels: seq<nat>, i: nat, j: nat) returns (merged: bool)
    requires uf.Valid() && i < |uf.parent| && j < |uf.parent|
    requires SamePartition(Roots(uf.parent, uf.rank), labels)
    modifies uf
    ensures uf.Valid() && |uf.parent| == old(|uf.parent|)
    ensures SamePartition(Roots(uf.parent, uf.rank), Redirect(labels, labels[i], labels[j]))
    ensures merged <==> labels[i] != labels[j]
    ensures NumRoots(uf.parent) == old(NumRoots(uf.parent)) - if merged then 1 else 0
  {
    var rootI := uf.Find(i);
    var rootJ := uf.Find(j);
    ghost var roots1, rank1, size1, count1 := Roots(uf.parent, uf.rank), uf.rank, uf.size, NumRoots(uf.parent);
    assert roots1[i] == rootI && roots1[j] == rootJ;
    merged := rootI != rootJ;
    if merged {
      uf.Union(i, j);
      JoinedPartition(roots1, rank1, size1, count1, i, j,
                      Roots(uf.parent, uf.rank), uf.rank, uf.size, NumRoots(uf.parent), labels);
    } else {
      assert Redirect(labels, labels[i], labels[j]) == labels;
    }
  }

  /** The loop of `solve_part2`: join the pairs in order and report the pair
      whose join leaves a single circuit. */
  method LastConnection(n: nat, pairs: seq<(nat, nat)>) returns (last: Option<(nat, nat)>)
    requires InRange(n, pairs)
    ensures last.Some? ==> exists k :: 0 <= k < |pairs| && pairs[k] == last.value &&
                                       OneClass(Labels(n, pairs[..k + 1])) && !OneClass(Labels(n, pairs[..k]))
    ensures last.None? ==> n <= 1 || !OneClass(Labels(n, pairs))
  {
    var uf := new UnionFind(n);
    var components := n;
    assert pairs[..0] == [];
    for k := 0 to |pairs|
      invariant uf.Valid() && |uf.parent| == n
      invariant SamePartition(Roots(uf.parent, uf.rank), Labels(n, pairs[..k]))
      invariant components == NumRoots(uf.parent)
      invariant components >= 2 || n <= 1
    {
      var (i, j) := pairs[k];
      assert pairs[..k + 1][..k] == pairs[..k];
      ghost var labels := Labels(n, pairs[..k]);
      assert Labels(n, pairs[..k + 1]) == Redirect(labels, labels[i], labels[j]);
      var merged := Connect(uf, labels, i, j);
      if merged {
        components := components - 1;
        if components == 1 {
          SingleTree(uf.parent, uf.rank);
          OneClassTransfer(Roots(uf.parent, uf.rank), Labels(n, pairs[..k + 1]));
          assert !OneClass(labels);
          return Some((i, j));
        }
      }
    }
    assert pairs[..|pairs|] == pairs;
    if n >= 2 {
      SingleTree(uf.parent, uf.rank);
      OneClassTransfer(Roots(uf.parent, uf.rank), Labels(n, pairs));
    }
    return None;
  }

  /** Positions whose roots agree in one sequence and whose labels agree in
      the other give the two values the same count. */
  lemma {:induction false} CountMatch(a: seq<nat>, b: seq<nat>, va: nat, vb: nat)
    requires |a| == |b| && forall w :: 0 <= w < |a| ==> (a[w] == va <==> b[w] == vb)
    ensures multiset(a)[va] == multiset(b)[vb]
  {
    if |a| > 0 {
      var m := |a| - 1;
      CountMatch(a[..m], b[..m], va, vb);
      assert a == a[..m] + [a[m]];
      assert b == b[..m] + [b[m]];
    }
  }

  lemma {:induction false} ComponentSizesAt(parent: seq<nat>, size: seq<nat>, k: nat, m: nat)
    requires k <= |parent| == |size| && m < |ComponentSizes(parent, size, k)|
    ensures ComponentSizes(parent, size, k)[m] == size[RootsBelow(parent, k)[m]]
  {
    if m < |ComponentSizes(parent, size, k - 1)| {
      ComponentSizesAt(parent, size, k - 1, m);
    }
  }

  /** The number of boxes in the class of box `u`. */
  function ClassSize(labels: seq<nat>, u: nat): nat
    requires u < |labels|
  {
    multiset(labels)[labels[u]]
  }

  /** `s` is the size of some class of `labels`. */
  ghost predicate IsClassSize(labels: seq<nat>, s: int)
  {
    exists u: nat :: u < |labels| && s == ClassSize(labels, u)
  }

  /** The three largest sizes, largest first, as the descending sort and
      `take(3)` leave them. */
  function LargestThree(sizes: seq<int>): (top: seq<int>)
    ensures |top| == Min(3, |sizes|)
    ensures forall k :: 0 <= k < |top| ==> top[k] in sizes
  {
    var sorted := SortBy(sizes, v => -v);
    assert forall k :: 0 <= k < |sorted| ==> sorted[k] in multiset(sizes);
    sorted[..Min(3, |sizes|)]
  }

  /** The circuit sizes of a partition, one entry per circuit, listed at the
      circuit's first box among the first `k`. */
  function CircuitSizes(labels: seq<nat>, k: nat): (sizes: seq<int>)
    requires k <= |labels|
    ensures forall m :: 0 <= m < |sizes| ==> sizes[m] >= 1
  {
    if k == 0 then []
    else
      var w := labels[k - 1];
      assert w in labels;
      CircuitSizes(labels, k - 1) + (if w in labels[..k - 1] then [] else [ClassSize(labels, k - 1) as int])
  }

  /** How many of the first `k` boxes lie in a circuit of exactly `s` boxes. */
  function BoxesInCircuitsOfSize(labels: seq<nat>, s: int, k: nat): (count: nat)
    requires k <= |labels|
    ensures count <= k
  {
    if k == 0 then 0
    else BoxesInCircuitsOfSize(labels, s, k - 1) + (if ClassSize(labels, k - 1) == s then 1 else 0)
  }

  /** The sum of the entries of `sizes` that equal `s`. */
  function SizeTotal(sizes: seq<int>, s: int): int
  {
    if |sizes| == 0 then 0
    else SizeTotal(sizes[..|sizes| - 1], s) + (if sizes[|sizes| - 1] == s then s else 0)
  }

  lemma {:induction false} SizeTotalIsCount(sizes: seq<int>, s: int)
    ensures SizeTotal(sizes, s) == multiset(sizes)[s] * s
  {
    if |sizes| > 0 {
      var init := sizes[..|sizes| - 1];
      SizeTotalIsCount(init, s);
      assert sizes == init + [sizes[|sizes| - 1]];
      assert multiset(sizes) == multiset(init) + multiset{sizes[|sizes| - 1]};
      MulStep(multiset(init)[s], s);
    }
  }

  /** `sizes` lists the circuits of `labels`: every entry is positive, and for
      each size `s` the entries equal to `s` add up to the number of boxes
      whose circuit has `s` boxes, so there is one entry `s` per circuit of
      that size. */
  ghost predicate ListsCircuits(labels: seq<nat>, sizes: seq<int>)
  {
    (forall m :: 0 <= m < |sizes| ==> sizes[m] >= 1) &&
    forall s: int :: SizeTotal(sizes, s) == BoxesInCircuitsOfSize(labels, s, |labels|)
  }

  /** Two lists of the circuits of one partition hold the same sizes, each as
      often. */
  lemma ListsCircuitsUnique(labels: seq<nat>, a: seq<int>, b: seq<int>)
    requires ListsCircuits(labels, a) && ListsCircuits(labels, b)
    ensures multiset(a) == multiset(b)
  {
    forall v: int
      ensures multiset(a)[v] == multiset(b)[v]
    {
      if v < 1 {
        assert v !in a;
        assert v !in b;
      } else {
        var x, y := multiset(a)[v], multiset(b)[v];
        SizeTotalIsCount(a, v);
        SizeTotalIsCount(b, v);
        assert x * v == y * v;
        if x < y {
          MulMonotone(x, y, v);
        } else if y < x {
          MulMonotone(y, x, v);
        }
      }
    }
  }

  lemma MulStep(x: int, v: int)
    ensures (x + 1) * v == x * v + v
  {
  }

  lemma MulMonotone(x: int, y: int, v: int)
    requires x < y && v >= 1
    ensures x * v < y * v
  {
  }

  /** Boxes whose membership in `members` says whether their circuit has `s`
      boxes are counted by the number of such boxes. */
  lemma {:induction false} CountInSized(a: seq<nat>, members: set<nat>, labels: seq<nat>, s: int, k: nat)
    requires k <= |a| == |labels|
    requires forall u :: 0 <= u < |a| ==> (a[u] in members <==> ClassSize(labels, u) == s)
    ensures CountIn(a[..k], members) == BoxesInCircuitsOfSize(labels, s, k)
  {
    if k > 0 {
      CountInSized(a, members, labels, s, k - 1);
      assert a[..k][..k - 1] == a[..k - 1];
    }
  }

  /** The labels of circuits of `s` boxes that occur among the first `k` boxes. */
  ghost function SeenOfSize(labels: seq<nat>, s: int, k: nat): set<nat>
    requires k <= |labels|
  {
    set v | v in labels[..k] && multiset(labels)[v] == s
  }

  lemma SizeTotalAppend(sizes: seq<int>, c: int, s: int)
    ensures SizeTotal(sizes + [c], s) == SizeTotal(sizes, s) + (if c == s then s else 0)
  {
    assert (sizes + [c])[..|sizes|] == sizes;
  }

  /** A box adds its label to the labels seen exactly when it is the first
      box of a circuit of `s` boxes. */
  lemma SeenStep(labels: seq<nat>, s: int, k: nat)
    requires 0 < k <= |labels|
    ensures var w := labels[k - 1];
            if w !in labels[..k - 1] && multiset(labels)[w] == s
            then w !in SeenOfSize(labels, s, k - 1) && SeenOfSize(labels, s, k) == SeenOfSize(labels, s, k - 1) + {w}
            else SeenOfSize(labels, s, k) == SeenOfSize(labels, s, k - 1)
  {
    assert labels[..k] == labels[..k - 1] + [labels[k - 1]];
  }

  lemma {:induction false} CircuitSizesCount(labels: seq<nat>, s: int, k: nat)
    requires k <= |labels|
    ensures SizeTotal(CircuitSizes(labels, k), s) == CountIn(labels, SeenOfSize(labels, s, k))
  {
    if k == 0 {
      assert SeenOfSize(labels, s, 0) == {};
      CountInNone(labels);
    } else {
      CircuitSizesCount(labels, s, k - 1);
      var w, cs := labels[k - 1], CircuitSizes(labels, k - 1);
      SeenStep(labels, s, k);
      if w in labels[..k - 1] {
        assert CircuitSizes(labels, k) == cs + [] == cs;
      } else {
        assert CircuitSizes(labels, k) == cs + [ClassSize(labels, k - 1) as int];
        SizeTotalAppend(cs, ClassSize(labels, k - 1), s);
        if multiset(labels)[w] == s {
          CountInAdd(labels, SeenOfSize(labels, s, k - 1), w);
        }
      }
    }
  }

  /** `CircuitSizes` lists the circuits of the partition. */
  lemma CircuitSizesListed(labels: seq<nat>)
    ensures ListsCircuits(labels, CircuitSizes(labels, |labels|))
  {
    var n := |labels|;
    forall s: int
      ensures SizeTotal(CircuitSizes(labels, n), s) == BoxesInCircuitsOfSize(labels, s, n)
    {
      CircuitSizesCount(labels, s, n);
      var seen := SeenOfSize(labels, s, n);
      forall u | 0 <= u < n
        ensures labels[u] in seen <==> ClassSize(labels, u) == s
      {
        assert labels[..n][u] == labels[u];
      }
      CountInSized(labels, seen, labels, s, n);
      assert labels[..n] == labels;
    }
  }

  /** The roots below `k` whose trees have `s` elements. */
  ghost function RootsOfSize(parent: seq<nat>, size: seq<nat>, s: int, k: nat): set<nat>
    requires k <= |parent| == |size|
  {
    set r | 0 <= r < k && parent[r] == r && size[r] == s
  }

  /** A root below `k` joins the roots of size `s` exactly when its size is `s`. */
  lemma RootsOfSizeStep(parent: seq<nat>, size: seq<nat>, s: int, k: nat)
    requires 0 < k <= |parent| == |size|
    ensures if parent[k - 1] == k - 1 && size[k - 1] == s
            then k - 1 !in RootsOfSize(parent, size, s, k - 1) &&
                 RootsOfSize(parent, size, s, k) == RootsOfSize(parent, size, s, k - 1) + {k - 1}
            else RootsOfSize(parent, size, s, k) == RootsOfSize(parent, size, s, k - 1)
  {
  }

  lemma {:induction false} ComponentSizesCount(parent: seq<nat>, size: seq<nat>, roots: seq<nat>, s: int, k: nat)
    requires k <= |parent| == |size|
    requires forall r :: 0 <= r < |parent| && parent[r] == r ==> size[r] == multiset(roots)[r]
    ensures SizeTotal(ComponentSizes(parent, size, k), s) == CountIn(roots, RootsOfSize(parent, size, s, k))
  {
    if k == 0 {
      assert RootsOfSize(parent, size, s, 0) == {};
      CountInNone(roots);
    } else {
      ComponentSizesCount(parent, size, roots, s, k - 1);
      RootsOfSizeStep(parent, size, s, k);
      var cs := ComponentSizes(parent, size, k - 1);
      if parent[k - 1] != k - 1 {
        assert ComponentSizes(parent, size, k) == cs + [] == cs;
      } else {
        assert ComponentSizes(parent, size, k) == cs + [size[k - 1] as int];
        SizeTotalAppend(ComponentSizes(parent, size, k - 1), size[k - 1], s);
        if size[k - 1] == s {
          CountInAdd(roots, RootsOfSize(parent, size, s, k - 1), k - 1);
        }
      }
    }
  }

  /** The sizes the union-find reports list the circuits of the reference
      partition it follows. */
  lemma ComponentSizesListed(parent0: seq<nat>, parent: seq<nat>, rank: seq<nat>, size: seq<nat>, labels: seq<nat>)
    requires Forest(parent, rank) && SizesCount(parent, rank, size) && SameRoots(parent0, parent)
    requires SamePartition(Roots(parent, rank), labels)
    ensures ListsCircuits(labels, ComponentSizes(parent0, size, |parent|))
  {
    var n, roots := |parent|, Roots(parent, rank);
    var sizes := ComponentSizes(parent0, size, n);
    RootsBelowSame(parent0, parent, n);
    forall m | 0 <= m < |sizes|
      ensures sizes[m] >= 1
    {
      ComponentSizesAt(parent0, size, n, m);
      var r := RootsBelow(parent0, n)[m];
      RootIsSelf(parent, rank, r);
      assert roots[r] == r && r in roots;
    }
    forall s: int
      ensures SizeTotal(sizes, s) == BoxesInCircuitsOfSize(labels, s, n)
    {
      forall r | 0 <= r < n && parent0[r] == r
        ensures size[r] == multiset(roots)[r]
      {
      }
      ComponentSizesCount(parent0, size, roots, s, n);
      var members := RootsOfSize(parent0, size, s, n);
      forall u | 0 <= u < n
        ensures roots[u] in members <==> ClassSize(labels, u) == s
      {
        var r := roots[u];
        assert parent[r] == r;
        CountMatch(roots, labels, r, labels[u]);
      }
      CountInSized(roots, members, labels, s, n);
      assert roots[..n] == roots;
    }
  }

  /** The three largest sizes depend only on which sizes occur how often. */
  lemma LargestThreeOfPermutation(a: seq<int>, b: seq<int>)
    requires multiset(a) == multiset(b)
    ensures LargestThree(a) == LargestThree(b)
  {
    var key := (v: int) => -v;
    SortSorted(a, key);
    SortSorted(b, key);
    assert |a| == |multiset(a)| == |b|;
    SortedUnique(SortBy(a, key), SortBy(b, key), key);
  }

  /** `solve_part1`: join the first 1000 pairs, then multiply the three
      largest circuit sizes, each circuit counted once. */
  method SolvePart1(n: nat, pairs: seq<(nat, nat)>) returns (result: int)
    requires InRange(n, pairs)
    ensures result == Product(LargestThree(CircuitSizes(Labels(n, pairs[..Min(1000, |pairs|)]), n)))
  {
    var uf := new UnionFind(n);
    var count := Min(1000, |pairs|);
    JoinAll(uf, n, pairs[..count]);
    ghost var parent0 := uf.parent;
    var all := uf.GetComponentSizes();
    ghost var labels := Labels(n, pairs[..count]);
    ComponentSizesListed(parent0, uf.parent, uf.rank, uf.size, labels);
    CircuitSizesListed(labels);
    ListsCircuitsUnique(labels, all, CircuitSizes(labels, n));
    LargestThreeOfPermutation(all, CircuitSizes(labels, n));
    result := Product(LargestThree(all));
  }

  /** The loop of `solve_part1`: union every pair in order. */
  method JoinAll(uf: UnionFind, n: nat, pairs: seq<(nat, nat)>)
    requires InRange(n, pairs)
    requires uf.Valid() && |uf.parent| == n && Roots(uf.parent, uf.rank) == seq(n, i => i)
    modifies uf
    ensures uf.Valid() && |uf.parent| == n
    ensures SamePartition(Roots(uf.parent, uf.rank), Labels(n, pairs))
  {
    assert pairs[..0] == [];
    for k := 0 to |pairs|
      invariant uf.Valid() && |uf.parent| == n
      invariant SamePartition(Roots(uf.parent, uf.rank), Labels(n, pairs[..k]))
    {
      var (i, j) := pairs[k];
      assert pairs[..k + 1][..k] == pairs[..k];
      ghost var labels := Labels(n, pairs[..k]);
      assert Labels(n, pairs[..k + 1]) == Redirect(labels, labels[i], labels[j]);
      UnionStep(uf, labels, i, j);
    }
    assert pairs[..|pairs|] == pairs;
  }

  /** `uf.union(i, j)` in the loop of `solve_part1`, with the reference step it matches. */
  method UnionStep(uf: UnionFind, ghost labels: seq<nat>, i: nat, j: nat)
    requires uf.Valid() && i < |uf.parent| && j < |uf.parent|
    requires SamePartition(Roots(uf.parent, uf.rank), labels)
    modifies uf
    ensures uf.Valid() && |uf.parent| == old(|uf.parent|)
    ensures SamePartition(Roots(uf.parent, uf.rank), Redirect(labels, labels[i], labels[j]))
  {
    ghost var roots0, rank0, size0, count0 := Roots(uf.parent, uf.rank), uf.rank, uf.size, NumRoots(uf.parent);
    uf.Union(i, j);
    JoinedPartition(roots0, rank0, size0, count0, i, j,
                    Roots(uf.parent, uf.rank), uf.rank, uf.size, NumRoots(uf.parent), labels);
  }

  /** Each component size is the size of one class of the reference partition. */
  lemma {:induction false} ClassSizes(uf: UnionFind, parent0: seq<nat>, sizes: seq<int>, labels: seq<nat>)
    requires uf.Valid() && SameRoots(parent0, uf.parent)
    requires SamePartition(Roots(uf.parent, uf.rank), labels)
    requires sizes == ComponentSizes(parent0, uf.size, |uf.parent|)
    ensures forall k :: 0 <= k < |sizes| ==> IsClassSize(labels, sizes[k])
  {
    var parent, roots := uf.parent, Roots(uf.parent, uf.rank);
    RootsBelowSame(parent0, parent, |parent|);
    forall k | 0 <= k < |sizes|
      ensures IsClassSize(labels, sizes[k])
    {
      ComponentSizesAt(parent0, uf.size, |parent|, k);
      var r := RootsBelow(parent, |parent|)[k];
      RootIsSelf(parent, uf.rank, r);
      assert roots[r] == r;
      CountMatch(roots, labels, r, labels[r]);
      assert sizes[k] == ClassSize(labels, r);
    }
  }
}
