/** Block locators (picocoin/blkdb.c:278-296): the walk back from a block, step by step at first and
    then in doubling strides, and what it guarantees about any fork. */
module BlockLocator {
  import opened Common
  import opened Wire
  import opened BlockTree

  /** The blocks pushed by the loop, from block h on, when `have` entries are already in the list. */
  function Entries(blocks: Blocks, h: Option<Hash256>, have: nat, step: nat): seq<Hash256>
    requires IsTree(blocks) && Known(blocks, h) && step >= 1
    decreases if h.Some? then blocks[h.value].height + 1 else 0
  {
    if h == None then [] else
      BackProperties(blocks, h.value, step);
      [h.value] + Entries(blocks, Back(blocks, h, step), have + 1, if have + 1 > 10 then 2 * step else step)
  }

  /** Depth of the k-th entry (from 0) of a locator that started empty. */
  function Depth(k: nat): nat
  {
    if k <= 11 then k else 9 + Pow(2, k - 10)
  }

  /** The stride from the k-th entry to the next. */
  function Stride(k: nat): (s: nat)
    ensures s >= 1
  {
    if k <= 10 then 1 else
      PowPositive(2, k - 10);
      Pow(2, k - 10)
  }

  lemma DepthStep(k: nat)
    ensures Depth(k + 1) == Depth(k) + Stride(k)
    ensures Stride(k + 1) == if k + 1 > 10 then 2 * Stride(k) else Stride(k)
  {
    assert Pow(2, 0) == 1;
    assert Pow(2, 1) == 2;
    assert Pow(2, 2) == 4;
  }

  /** The entries are the blocks at the depths 0, 1, ..., 11, 13, 17, 25, ... that exist. */
  lemma {:induction false} EntriesFrom(blocks: Blocks, start: Hash256, k: nat)
    requires IsTree(blocks) && start in blocks
    requires Known(blocks, Back(blocks, Some(start), Depth(k)))
    ensures var es := Entries(blocks, Back(blocks, Some(start), Depth(k)), k, Stride(k));
            && (forall m: nat :: m >= k ==> (m < k + |es| <==> Depth(m) <= blocks[start].height))
            && (forall m: nat :: k <= m < k + |es| ==> Some(es[m - k]) == Back(blocks, Some(start), Depth(m)))
    decreases blocks[start].height + 1 - Depth(k)
  {
    hide IsTree, Back, Depth, Stride;
    BackProperties(blocks, start, Depth(k));
    var h := Back(blocks, Some(start), Depth(k));
    var es := Entries(blocks, h, k, Stride(k));
    DepthGrows(k);
    if h.Some? {
      DepthStep(k);
      BackAdds(blocks, Some(start), Depth(k), Stride(k));
      BackProperties(blocks, start, Depth(k + 1));
      EntriesFrom(blocks, start, k + 1);
      var tail := Entries(blocks, Back(blocks, Some(start), Depth(k + 1)), k + 1, Stride(k + 1));
      assert es == [h.value] + tail;
      forall m: nat | k < m < k + |es|
        ensures Some(es[m - k]) == Back(blocks, Some(start), Depth(m))
      {
        assert es[m - k] == tail[m - (k + 1)];
      }
    }
  }

  lemma {:induction false} DepthIsMonotone(j: nat, k: nat)
    requires j <= k
    ensures Depth(j) + (k - j) <= Depth(k)
  {
    hide Depth, Stride;
    if j < k {
      DepthIsMonotone(j, k - 1);
      DepthStep(k - 1);
    }
  }

  lemma DepthGrows(k: nat)
    ensures forall m: nat :: m >= k ==> Depth(k) <= Depth(m)
  {
    hide Depth;
    forall m: nat | m >= k
      ensures Depth(k) <= Depth(m)
    {
      DepthIsMonotone(k, m);
    }
  }

  /** The whole list built from an empty one: the entries, then the genesis hash. */
  function LocatorList(blocks: Blocks, start: Option<Hash256>, block0: Hash256): seq<Hash256>
    requires IsTree(blocks) && Known(blocks, start)
  {
    Entries(blocks, start, 0, 1) + [block0]
  }

  lemma DepthStarts()
    ensures Depth(0) == 0 && Stride(0) == 1
  {
  }

  lemma DepthDoubles(k: nat)
    requires k >= 11
    ensures Depth(k) == 9 + Pow(2, k - 10)
  {
    assert Pow(2, 1) == 2;
  }

  /** Positions, length and end of the list: entry k exists exactly if the chain is Depth(k) deep,
      and then it is the block at that depth; after the twelfth entry the depth doubles, so the
      length is logarithmic in the height; the genesis hash comes last. */
  lemma LocatorPositions(blocks: Blocks, start: Hash256, block0: Hash256)
    requires IsTree(blocks) && start in blocks
    ensures var list := LocatorList(blocks, Some(start), block0);
            var n := |list| - 1;
            && (forall k: nat :: k < n <==> Depth(k) <= blocks[start].height)
            && (forall k :: 0 <= k < n ==> Some(list[k]) == Back(blocks, Some(start), Depth(k)))
            && (n >= 12 ==> 9 + Pow(2, n - 11) <= blocks[start].height)
            && list[n] == block0
  {
    hide IsTree, Entries, Back, Depth, Stride;
    DepthStarts();
    BackZero(blocks, start);
    EntriesFrom(blocks, start, 0);
    var es := Entries(blocks, Some(start), 0, 1);
    forall k: nat | k < |es|
      ensures Some(es[k]) == Back(blocks, Some(start), Depth(k))
    {
      assert es[k] == es[k - 0];
    }
    if |es| >= 12 {
      DepthDoubles(|es| - 1);
    }
  }

  /** The first entry that lies at or below depth d. */
  function FirstAtOrBelow(d: nat, k: nat): (r: nat)
    requires k == 0 || Depth(k - 1) < d
    ensures Depth(r) >= d && (r == 0 || Depth(r - 1) < d)
    decreases d - Depth(k)
  {
    if Depth(k) >= d then k else
      DepthStep(k);
      FirstAtOrBelow(d, k + 1)
  }

  lemma DepthAtMostDoubles(k: nat)
    requires k >= 1
    ensures Depth(k) <= 2 * Depth(k - 1) + 2
  {
    DepthStep(k - 1);
    assert Pow(2, 1) == 2;
  }

  /** For a fork at any depth d of the chain, the first entry of the list that is at or below the
      fork is at most 2d deep, or it is the genesis hash at the end. */
  lemma LocatorCoversFork(blocks: Blocks, start: Hash256, block0: Hash256, d: nat)
    requires IsTree(blocks) && start in blocks && 1 <= d <= blocks[start].height
    ensures var list := LocatorList(blocks, Some(start), block0);
            var k := FirstAtOrBelow(d, 0);
            && k < |list|
            && (forall j :: 0 <= j < k ==> Depth(j) < d)
            && (k < |list| - 1 ==>
                  d <= Depth(k) <= 2 * d && Some(list[k]) == Back(blocks, Some(start), Depth(k)))
            && (k == |list| - 1 ==> list[k] == block0)
  {
    hide IsTree, Back, Pow, Entries, Depth;
    DepthStarts();
    var k := FirstAtOrBelow(d, 0);
    LocatorPositions(blocks, start, block0);
    var n := |LocatorList(blocks, Some(start), block0)| - 1;
    assert Depth(k - 1) <= blocks[start].height;
    assert k - 1 < n;
    DepthAtMostDoubles(k);
    forall j | 0 <= j < k
      ensures Depth(j) < d
    {
      DepthIsMonotone(j, k - 1);
    }
  }
}
