/** Merkle trees over transaction hashes (picocoin/block.c:87-177): the flat array of levels with
    the last node of an odd level paired with itself, the branch of a transaction, and the fold
    that checks a branch. The double SHA-256 of two concatenated hashes is the parameter `H`. */
module Merkle {
  import opened Common

  // ----- the tree as a recursion over levels -----

  /** The level above `xs`: neighbours are paired, a lone last node is paired with itself. */
  function Level<T>(H: (T, T) -> T, xs: seq<T>): (r: seq<T>)
    ensures |r| == (|xs| + 1) / 2
  {
    seq((|xs| + 1) / 2, k requires 0 <= k < (|xs| + 1) / 2 => H(PairAt(xs, k).0, PairAt(xs, k).1))
  }

  /** The pair that makes the k-th node of the level above. */
  function PairAt<T>(xs: seq<T>, k: nat): (T, T)
    requires k < (|xs| + 1) / 2
  {
    (xs[2 * k], xs[Min(2 * k + 1, |xs| - 1)])
  }

  lemma LevelAt<T>(H: (T, T) -> T, xs: seq<T>, k: nat)
    requires k < (|xs| + 1) / 2
    ensures Level(H, xs)[k] == H(PairAt(xs, k).0, PairAt(xs, k).1)
  {
  }

  function Root<T>(H: (T, T) -> T, xs: seq<T>): T
    requires xs != []
    decreases |xs|
  {
    if |xs| == 1 then xs[0] else Root(H, Level(H, xs))
  }

  /** All levels, leaves first, one after the other. */
  function Tree<T>(H: (T, T) -> T, xs: seq<T>): (t: seq<T>)
    requires xs != []
    ensures |t| >= |xs| && t[..|xs|] == xs
    decreases |xs|
  {
    if |xs| == 1 then xs else xs + Tree(H, Level(H, xs))
  }

  /** The index of the node that shares a parent with node i: `i ^ 1`. */
  function Sibling(i: nat): nat
  {
    if i % 2 == 0 then i + 1 else i - 1
  }

  /** The siblings met on the way from leaf i to the root. */
  function BranchOf<T>(H: (T, T) -> T, xs: seq<T>, i: nat): seq<T>
    requires i < |xs|
    decreases |xs|
  {
    if |xs| == 1 then [] else [xs[Min(Sibling(i), |xs| - 1)]] + BranchOf(H, Level(H, xs), i / 2)
  }

  /** The two hashes that are combined when `x` is node i and `other` its sibling. */
  function Ordered<T>(x: T, other: T, i: nat): (T, T)
  {
    if i % 2 == 1 then (other, x) else (x, other)
  }

  function Fold<T>(H: (T, T) -> T, x: T, branch: seq<T>, i: nat): T
    decreases |branch|
  {
    if branch == [] then x else
      var p := Ordered(x, branch[0], i);
      Fold(H, H(p.0, p.1), branch[1..], i / 2)
  }

  // ----- the code -----

  /** The inner loop of `bp_block_merkle_tree`: one more level behind the nodes from j on. */
  method AppendLevel<T>(H: (T, T) -> T, arr: seq<T>, j: nat) returns (longer: seq<T>)
    requires j < |arr|
    ensures longer == arr + Level(H, arr[j..])
  {
    hide Level, PairAt;
    ghost var cur := arr[j..];
    var size := |arr| - j;
    longer := arr;
    var i := 0;
    while i < size
      invariant 0 <= i <= size + 1 && i % 2 == 0
      invariant longer == arr + Level(H, cur)[..i / 2]
    {
      var i2 := Min(i + 1, size - 1);
      PairIs(cur, i);
      LevelAt(H, cur, i / 2);
      longer := longer + [H(longer[j + i], longer[j + i2])];
      i := i + 2;
    }
    assert Level(H, cur)[..i / 2] == Level(H, cur);
  }

  lemma PairIs<T>(xs: seq<T>, i: nat)
    requires i % 2 == 0 && i < |xs|
    ensures PairAt(xs, i / 2) == (xs[i], xs[Min(i + 1, |xs| - 1)])
  {
  }

  lemma TreeStep<T>(H: (T, T) -> T, xs: seq<T>)
    requires xs != []
    ensures |xs| == 1 ==> Tree(H, xs) == xs && Root(H, xs) == xs[0]
    ensures |xs| > 1 ==> Tree(H, xs) == xs + Tree(H, Level(H, xs)) && Root(H, xs) == Root(H, Level(H, xs))
  {
  }

  /** `bp_block_merkle_tree`: no transactions, no tree. */
  method BlockMerkleTree<T>(H: (T, T) -> T, leaves: seq<T>) returns (tree: Option<seq<T>>)
    ensures tree == if leaves == [] then None else Some(Tree(H, leaves))
  {
    hide Level, Tree;
    if leaves == [] {
      return None;
    }
    var arr := leaves;
    var j: nat, size: nat := 0, |leaves|;
    assert arr[0..] == leaves;
    while size > 1
      invariant 1 <= size && |arr| == j + size
      invariant Tree(H, leaves) == arr[..j] + Tree(H, arr[j..])
    {
      ghost var below, cur := arr[..j], arr[j..];
      ghost var up := Level(H, cur);
      TreeStep(H, cur);
      assert below + (cur + Tree(H, up)) == (below + cur) + Tree(H, up);
      assert arr == below + cur;
      arr := AppendLevel(H, arr, j);
      assert arr[j + size..] == up && arr[..j + size] == below + cur;
      j := j + size;
      size := (size + 1) / 2;
    }
    TreeStep(H, arr[j..]);
    assert arr[..j] + arr[j..] == arr;
    tree := Some(arr);
  }

  /** `bp_block_merkle`: the last element of the tree, or the given zero hash for an empty block. */
  method BlockMerkle<T>(H: (T, T) -> T, leaves: seq<T>, zero: T) returns (root: T)
    ensures root == if leaves == [] then zero else Root(H, leaves)
  {
    root := zero;
    var tree := BlockMerkleTree(H, leaves);
    if tree.Some? {
      TreeEndsInRoot(H, leaves);
      root := tree.value[|tree.value| - 1];
    }
  }

  lemma BranchStep<T>(H: (T, T) -> T, xs: seq<T>, i: nat)
    requires i < |xs|
    ensures |xs| == 1 ==> BranchOf(H, xs, i) == []
    ensures |xs| > 1 ==>
      BranchOf(H, xs, i) == [xs[Min(Sibling(i), |xs| - 1)]] + BranchOf(H, Level(H, xs), i / 2)
  {
  }

  /** `bp_block_merkle_branch`, given the flat tree of the block. */
  method BlockMerkleBranch<T>(H: (T, T) -> T, ghost leaves: seq<T>, n: nat, tree: seq<T>, txidx: nat)
    returns (branch: Option<seq<T>>)
    requires n == |leaves| && (leaves != [] ==> tree == Tree(H, leaves))
    ensures branch == if txidx < n then Some(BranchOf(H, leaves, txidx)) else None
  {
    hide Level, Tree, BranchOf, Sibling, Min, LiesAt;
    if txidx >= n {
      return None;
    }
    assert LiesAt(H, tree, 0, leaves) by { WholeTree(H, leaves); }
    var ret: seq<T> := [];
    var j: nat, size: nat, i: nat := 0, n, txidx;
    ghost var cur, todo := leaves, BranchOf(H, leaves, txidx);
    assert ret + todo == todo;
    while size > 1
      invariant size >= 1 && |cur| == size && i < size
      invariant j <= |tree| && LiesAt(H, tree, j, cur)
      invariant todo == BranchOf(H, cur, i)
      invariant ret + todo == BranchOf(H, leaves, txidx)
    {
      var k := Min(Sibling(i), size - 1);
      SiblingInRange(i, size);
      LevelsFollow(H, tree, j, cur, k);
      BranchStep(H, cur, i);
      ret := AppendSibling(ret, todo, tree[j + k]);
      cur, todo := Level(H, cur), todo[1..];
      i := i / 2;
      j := j + size;
      size := (size + 1) / 2;
    }
    BranchStep(H, cur, i);
    assert ret + [] == ret;
    branch := Some(ret);
  }

  /** The levels from `cur` upwards are what the flat tree holds from index j on. */
  ghost predicate LiesAt<T>(H: (T, T) -> T, tree: seq<T>, j: nat, cur: seq<T>)
  {
    j <= |tree| && cur != [] && tree[j..] == Tree(H, cur)
  }

  lemma WholeTree<T>(H: (T, T) -> T, leaves: seq<T>)
    requires leaves != []
    ensures LiesAt(H, Tree(H, leaves), 0, leaves)
  {
  }

  lemma LevelsFollow<T>(H: (T, T) -> T, tree: seq<T>, j: nat, cur: seq<T>, k: nat)
    requires LiesAt(H, tree, j, cur) && k < |cur| && |cur| > 1
    ensures j + |cur| <= |tree| && LiesAt(H, tree, j + |cur|, Level(H, cur))
    ensures tree[j + k] == cur[k]
  {
    hide Level, Tree;
    TreeStep(H, cur);
    assert tree[j + k] == tree[j..][k];
    assert tree[j + |cur|..] == tree[j..][|cur|..];
  }

  lemma SiblingInRange(i: nat, size: nat)
    requires i < size && size > 1
    ensures 0 <= Min(Sibling(i), size - 1) < size && i / 2 < (size + 1) / 2
  {
  }

  method AppendSibling<T>(ret: seq<T>, ghost todo: seq<T>, x: T) returns (longer: seq<T>)
    requires todo != [] && todo[0] == x
    ensures longer == ret + [x] && longer + todo[1..] == ret + todo
  {
    longer := ret + [x];
  }

  /** `bp_check_merkle_branch`. */
  method CheckMerkleBranch<T>(H: (T, T) -> T, txhash: T, branch: seq<T>, txidx: nat) returns (hash: T)
    ensures hash == Fold(H, txhash, branch, txidx)
  {
    hash := txhash;
    var k := txidx;
    for i := 0 to |branch|
      invariant Fold(H, hash, branch[i..], k) == Fold(H, txhash, branch, txidx)
    {
      var otherside := branch[i];
      assert branch[i..][1..] == branch[i + 1..];
      if k % 2 == 1 {
        hash := H(otherside, hash);
      } else {
        hash := H(hash, otherside);
      }
      k := k / 2;
    }
  }

  // ----- completeness: every branch of the tree leads to its root -----

  lemma {:induction false} TreeEndsInRoot<T>(H: (T, T) -> T, xs: seq<T>)
    requires xs != []
    ensures Tree(H, xs)[|Tree(H, xs)| - 1] == Root(H, xs)
    decreases |xs|
  {
    hide Level;
    if |xs| > 1 {
      TreeEndsInRoot(H, Level(H, xs));
    }
  }

  lemma ParentOf<T>(H: (T, T) -> T, xs: seq<T>, i: nat)
    requires i < |xs| && |xs| > 1
    ensures Ordered(xs[i], xs[Min(Sibling(i), |xs| - 1)], i) == PairAt(xs, i / 2)
    ensures Level(H, xs)[i / 2] == H(PairAt(xs, i / 2).0, PairAt(xs, i / 2).1)
  {
    hide Level;
    LevelAt(H, xs, i / 2);
    assert i == 2 * (i / 2) + i % 2;
  }

  /** Folding the branch of leaf i, starting from leaf i, gives the root and the tree's last node. */
  lemma {:induction false} BranchLeadsToRoot<T>(H: (T, T) -> T, xs: seq<T>, i: nat)
    requires i < |xs|
    ensures Fold(H, xs[i], BranchOf(H, xs, i), i) == Root(H, xs)
    ensures Root(H, xs) == Tree(H, xs)[|Tree(H, xs)| - 1]
    decreases |xs|
  {
    hide Level, Ordered, PairAt;
    TreeEndsInRoot(H, xs);
    if |xs| > 1 {
      ParentOf(H, xs, i);
      BranchLeadsToRoot(H, Level(H, xs), i / 2);
      assert BranchOf(H, xs, i)[1..] == BranchOf(H, Level(H, xs), i / 2);
    }
  }

  // ----- soundness: a root fixes the leaves, a branch fixes its leaf -----

  ghost function LevelPairs<T>(xs: seq<T>): set<(T, T)>
  {
    set k | 0 <= k < (|xs| + 1) / 2 :: PairAt(xs, k)
  }

  /** Every pair that is hashed while building the tree. */
  ghost function TreePairs<T>(H: (T, T) -> T, xs: seq<T>): set<(T, T)>
    decreases |xs|
  {
    if |xs| <= 1 then {} else LevelPairs(xs) + TreePairs(H, Level(H, xs))
  }

  /** Every pair that is hashed while folding a branch. */
  ghost function FoldPairs<T>(H: (T, T) -> T, x: T, branch: seq<T>, i: nat): set<(T, T)>
    decreases |branch|
  {
    if branch == [] then {} else
      var p := Ordered(x, branch[0], i);
      {p} + FoldPairs(H, H(p.0, p.1), branch[1..], i / 2)
  }

  /** No two different pairs of the set have the same hash. */
  ghost predicate CollisionFree<T(!new)>(H: (T, T) -> T, pairs: set<(T, T)>)
  {
    forall p, q :: p in pairs && q in pairs && H(p.0, p.1) == H(q.0, q.1) ==> p == q
  }

  lemma LevelIsInjective<T(!new)>(H: (T, T) -> T, xs: seq<T>, ys: seq<T>)
    requires |xs| == |ys| && Level(H, xs) == Level(H, ys)
    requires CollisionFree(H, LevelPairs(xs) + LevelPairs(ys))
    ensures xs == ys
  {
    hide Level;
    forall i | 0 <= i < |xs|
      ensures xs[i] == ys[i]
    {
      var k := i / 2;
      var p, q := PairAt(xs, k), PairAt(ys, k);
      assert p in LevelPairs(xs) && q in LevelPairs(ys);
      LevelAt(H, xs, k);
      LevelAt(H, ys, k);
      assert p == q;
    }
  }

  /** Two lists of the same length with the same root are equal, unless their trees hash two
      different pairs to the same value. */
  lemma {:induction false} RootFixesLeaves<T(!new)>(H: (T, T) -> T, xs: seq<T>, ys: seq<T>)
    requires |xs| == |ys| > 0 && Root(H, xs) == Root(H, ys)
    requires CollisionFree(H, TreePairs(H, xs) + TreePairs(H, ys))
    ensures xs == ys
    decreases |xs|
  {
    hide Level, LevelPairs;
    if |xs| > 1 {
      RootFixesLeaves(H, Level(H, xs), Level(H, ys));
      LevelIsInjective(H, xs, ys);
    }
  }

  lemma OrderedIsInjective<T>(x: T, a: T, y: T, b: T, i: nat)
    requires Ordered(x, a, i) == Ordered(y, b, i)
    ensures x == y && a == b
  {
  }

  /** A branch of the right length that leads from x, as leaf i, to the root of xs starts from the
      i-th leaf and is the branch the tree has for it. */
  lemma {:induction false} BranchFixesLeaf<T(!new)>(H: (T, T) -> T, xs: seq<T>, i: nat, x: T, branch: seq<T>)
    requires i < |xs| && |branch| == |BranchOf(H, xs, i)|
    requires Fold(H, x, branch, i) == Root(H, xs)
    requires CollisionFree(H, TreePairs(H, xs) + FoldPairs(H, x, branch, i))
    ensures x == xs[i] && branch == BranchOf(H, xs, i)
    decreases |xs|
  {
    hide Level, PairAt, Ordered;
    if |xs| > 1 {
      var up := Level(H, xs);
      var p := Ordered(x, branch[0], i);
      var other := xs[Min(Sibling(i), |xs| - 1)];
      BranchFixesLeaf(H, up, i / 2, H(p.0, p.1), branch[1..]);
      ParentOf(H, xs, i);
      var q := PairAt(xs, i / 2);
      assert q in LevelPairs(xs);
      assert p in FoldPairs(H, x, branch, i);
      assert p == q;
      OrderedIsInjective(x, branch[0], xs[i], other, i);
      assert branch == [other] + branch[1..];
    }
  }

  /** Equal lengths are needed: repeating the last leaf of an odd list changes nothing in the root. */
  lemma DuplicateLastLeaf<T>(H: (T, T) -> T, xs: seq<T>)
    requires |xs| % 2 == 1 && |xs| > 1
    ensures Root(H, xs + [xs[|xs| - 1]]) == Root(H, xs)
  {
    hide Level, Root, PairAt;
    var ys := xs + [xs[|xs| - 1]];
    forall k | 0 <= k < (|xs| + 1) / 2
      ensures Level(H, ys)[k] == Level(H, xs)[k]
    {
      PairIs(xs, 2 * k);
      PairIs(ys, 2 * k);
      LevelAt(H, xs, k);
      LevelAt(H, ys, k);
    }
    assert Level(H, ys) == Level(H, xs);
    TreeStep(H, xs);
    TreeStep(H, ys);
  }

  /** With a pair hash that never collides, equal length and equal root mean equal lists. */
  lemma RootIffSameLeaves<T(!new)>(H: (T, T) -> T, xs: seq<T>, ys: seq<T>)
    requires xs != [] && ys != []
    requires forall a, b, c, d :: H(a, b) == H(c, d) ==> a == c && b == d
    ensures xs == ys <==> |xs| == |ys| && Root(H, xs) == Root(H, ys)
  {
    if |xs| == |ys| && Root(H, xs) == Root(H, ys) {
      assert CollisionFree(H, TreePairs(H, xs) + TreePairs(H, ys));
      RootFixesLeaves(H, xs, ys);
    }
  }

  // ----- full trees -----

  /** The levels of two lists, the first of even length, stand side by side. */
  lemma LevelOfBoth<T>(H: (T, T) -> T, xs: seq<T>, ys: seq<T>)
    requires |xs| % 2 == 0
    ensures Level(H, xs + ys) == Level(H, xs) + Level(H, ys)
  {
    var a, b := Level(H, xs + ys), Level(H, xs) + Level(H, ys);
    assert |a| == |b|;
    forall k | 0 <= k < |a|
      ensures a[k] == b[k]
    {
      if k < |xs| / 2 {
        PairInFirst(xs, ys, k);
      } else {
        PairInSecond(xs, ys, k - |xs| / 2);
      }
    }
  }

  lemma PairInFirst<T>(xs: seq<T>, ys: seq<T>, k: nat)
    requires |xs| % 2 == 0 && k < |xs| / 2
    ensures PairAt(xs + ys, k) == PairAt(xs, k)
  {
  }

  lemma PairInSecond<T>(xs: seq<T>, ys: seq<T>, k: nat)
    requires |xs| % 2 == 0 && k < (|ys| + 1) / 2
    ensures PairAt(xs + ys, |xs| / 2 + k) == PairAt(ys, k)
  {
  }

  /** The root over two lists of 2^k leaves is the hash of their roots, the first on the left. */
  lemma {:induction false} RootOfHalves<T>(H: (T, T) -> T, xs: seq<T>, ys: seq<T>, k: nat)
    requires |xs| == |ys| == Pow(2, k)
    ensures xs != [] && Root(H, xs + ys) == H(Root(H, xs), Root(H, ys))
    decreases k
  {
    hide Level;
    PowPositive(2, k);
    LevelsHalve(H, xs, ys);
    if k == 0 {
      RootOfTwo(H, xs[0], ys[0]);
      assert xs == [xs[0]] && ys == [ys[0]] && xs + ys == [xs[0], ys[0]];
    } else {
      LevelOfBoth(H, xs, ys);
      RootOfHalves(H, Level(H, xs), Level(H, ys), k - 1);
    }
  }

  lemma LevelsHalve<T>(H: (T, T) -> T, xs: seq<T>, ys: seq<T>)
    ensures |Level(H, xs)| == (|xs| + 1) / 2 && |Level(H, ys)| == (|ys| + 1) / 2
    ensures |Level(H, xs + ys)| == (|xs| + |ys| + 1) / 2
  {
  }

  lemma RootOfTwo<T>(H: (T, T) -> T, a: T, b: T)
    ensures Root(H, [a]) == a && Root(H, [a, b]) == H(a, b)
  {
    LevelAt(H, [a, b], 0);
    assert Level(H, [a, b]) == [H(a, b)];
    assert Root(H, [H(a, b)]) == H(a, b);
  }
}
