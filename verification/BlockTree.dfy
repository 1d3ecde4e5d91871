/** The block tree of picocoin/blkdb.c:67-161 as a value: what a connect does to the map of known
    blocks and to the best tip, and what holds after any sequence of connects. A block is known by
    its hash, so `prev` holds the hash of the parent where the source holds a pointer. The work of
    a header (`u256_from_compact` of its nBits) is a parameter. */
module BlockTree {
  import opened Common
  import opened Wire

  /** A block as the caller hands it in: its key, the hash stored in its header, the block. */
  datatype Entry = Entry(hash: Hash256, sha256: Hash256, hdr: Block)

  /** A block in the database: the fields `blkdb_connect` fills in. */
  datatype Node = Node(entry: Entry, prev: Option<Hash256>, height: nat, work: nat)

  type Blocks = map<Hash256, Node>

  datatype Db = Db(block0: Hash256, blocks: Blocks, best: Option<Hash256>)

  type WorkOf = U32 -> nat

  predicate HasBest(db: Db)
  {
    if |db.blocks| == 0 then db.best == None else db.best.Some? && db.best.value in db.blocks
  }

  // ----- one connect -----

  /** A block is refused if it is known, if it should be the genesis block and is not, or if its
      parent is unknown. */
  predicate Accepts(db: Db, e: Entry)
  {
    e.hash !in db.blocks &&
    if |db.blocks| == 0 then e.sha256 == db.block0 else e.hdr.hashPrevBlock in db.blocks
  }

  function NewNode(work: WorkOf, db: Db, e: Entry): Node
    requires Accepts(db, e)
  {
    if |db.blocks| == 0 then Node(e, None, 0, work(e.hdr.nBits)) else
      var prev := db.blocks[e.hdr.hashPrevBlock];
      Node(e, Some(e.hdr.hashPrevBlock), prev.height + 1, work(e.hdr.nBits) + prev.work)
  }

  predicate BecomesBest(work: WorkOf, db: Db, e: Entry)
    requires HasBest(db) && Accepts(db, e)
  {
    |db.blocks| == 0 || NewNode(work, db, e).work > db.blocks[db.best.value].work
  }

  function Connect(work: WorkOf, db: Db, e: Entry): (r: Db)
    requires HasBest(db)
    ensures HasBest(r)
  {
    if !Accepts(db, e) then db else
      var best := if BecomesBest(work, db, e) then Some(e.hash) else db.best;
      Db(db.block0, db.blocks[e.hash := NewNode(work, db, e)], best)
  }

  // ----- what every connect keeps -----

  ghost predicate Distinct(order: seq<Hash256>)
  {
    forall i, j :: 0 <= i < j < |order| ==> order[i] != order[j]
  }

  /** The i-th inserted block: the first is the one root, every other hangs below an earlier one. */
  ghost predicate Placed(work: WorkOf, db: Db, order: seq<Hash256>, i: nat)
    requires i < |order| && forall h :: h in order ==> h in db.blocks
  {
    var n := db.blocks[order[i]];
    var own := work(n.entry.hdr.nBits);
    && n.entry.hash == order[i]
    && if i == 0 then n.prev == None && n.height == 0 && n.work == own && n.entry.sha256 == db.block0
       else
         var p := n.entry.hdr.hashPrevBlock;
         && n.prev == Some(p) && p in order[..i]
         && n.height == db.blocks[p].height + 1
         && n.work == own + db.blocks[p].work
  }

  /** The best tip is the first inserted block of maximal work. */
  ghost predicate IsFirstOfMaximalWork(db: Db, order: seq<Hash256>, b: nat)
    requires b < |order| && forall h :: h in order ==> h in db.blocks
  {
    && db.best == Some(order[b])
    && (forall i :: 0 <= i < |order| ==> db.blocks[order[i]].work <= db.blocks[order[b]].work)
    && (forall i :: 0 <= i < b ==> db.blocks[order[i]].work < db.blocks[order[b]].work)
  }

  /** The database after inserting exactly `order`, in that order. */
  ghost predicate Inv(work: WorkOf, db: Db, order: seq<Hash256>)
  {
    && Distinct(order)
    && (forall h :: h in order ==> h in db.blocks)
    && (forall h :: h in db.blocks ==> h in order)
    && (forall i :: 0 <= i < |order| ==> Placed(work, db, order, i))
    && if order == [] then db.best == None
       else exists b :: 0 <= b < |order| && IsFirstOfMaximalWork(db, order, b)
  }

  lemma EmptyIff(work: WorkOf, db: Db, order: seq<Hash256>)
    requires Inv(work, db, order)
    ensures |db.blocks| == 0 <==> order == []
    ensures HasBest(db)
  {
    if order == [] {
      assert db.blocks == map[];
    } else {
      assert order[0] in db.blocks;
      var b :| 0 <= b < |order| && IsFirstOfMaximalWork(db, order, b);
      assert order[b] in db.blocks;
    }
  }

  function Grown(db: Db, order: seq<Hash256>, e: Entry): seq<Hash256>
  {
    if Accepts(db, e) then order + [e.hash] else order
  }

  lemma PlacedStays(work: WorkOf, db: Db, order: seq<Hash256>, e: Entry, i: nat)
    requires Inv(work, db, order) && HasBest(db) && Accepts(db, e) && i < |order|
    ensures Placed(work, Connect(work, db, e), order + [e.hash], i)
  {
    assert Placed(work, db, order, i);
    var longer := order + [e.hash];
    assert longer[i] == order[i] && longer[..i] == order[..i];
    assert order[i] in order;
    if i > 0 {
      var p := db.blocks[order[i]].entry.hdr.hashPrevBlock;
      assert p in order;
    }
  }

  lemma PlacedNew(work: WorkOf, db: Db, order: seq<Hash256>, e: Entry)
    requires Inv(work, db, order) && HasBest(db) && Accepts(db, e)
    ensures Placed(work, Connect(work, db, e), order + [e.hash], |order|)
  {
    EmptyIff(work, db, order);
    assert (order + [e.hash])[..|order|] == order;
  }

  lemma BestKept(work: WorkOf, db: Db, order: seq<Hash256>, e: Entry)
    requires Inv(work, db, order) && HasBest(db) && Accepts(db, e)
    ensures exists b :: 0 <= b < |order| + 1 && IsFirstOfMaximalWork(Connect(work, db, e), order + [e.hash], b)
  {
    EmptyIff(work, db, order);
    var db', longer := Connect(work, db, e), order + [e.hash];
    assert forall i :: 0 <= i < |order| ==> order[i] in order && longer[i] == order[i];
    if BecomesBest(work, db, e) {
      assert IsFirstOfMaximalWork(db', longer, |order|);
    } else {
      var b :| 0 <= b < |order| && IsFirstOfMaximalWork(db, order, b);
      assert IsFirstOfMaximalWork(db', longer, b);
    }
  }

  lemma SameKeys(work: WorkOf, db: Db, order: seq<Hash256>, e: Entry)
    requires Inv(work, db, order) && HasBest(db) && Accepts(db, e)
    ensures Distinct(order + [e.hash])
    ensures forall h :: h in order + [e.hash] ==> h in Connect(work, db, e).blocks
    ensures forall h :: h in Connect(work, db, e).blocks ==> h in order + [e.hash]
  {
    hide Placed, IsFirstOfMaximalWork, NewNode, BecomesBest;
  }

  lemma Refused(work: WorkOf, db: Db, e: Entry)
    requires HasBest(db) && !Accepts(db, e)
    ensures Connect(work, db, e) == db
  {
  }

  /** Every connect, accepted or refused, keeps the tree, the sums and the best tip. */
  lemma ConnectKeepsInv(work: WorkOf, db: Db, order: seq<Hash256>, e: Entry)
    requires Inv(work, db, order)
    ensures HasBest(db)
    ensures Inv(work, Connect(work, db, e), Grown(db, order, e))
  {
    hide Placed, IsFirstOfMaximalWork, NewNode, BecomesBest, Distinct, Accepts, Connect;
    EmptyIff(work, db, order);
    if Accepts(db, e) {
      var db', longer := Connect(work, db, e), order + [e.hash];
      SameKeys(work, db, order, e);
      BestKept(work, db, order, e);
      forall i | 0 <= i < |longer|
        ensures Placed(work, db', longer, i)
      {
        if i < |order| {
          PlacedStays(work, db, order, e, i);
        } else {
          PlacedNew(work, db, order, e);
        }
      }
    } else {
      Refused(work, db, e);
    }
  }

  // ----- whole runs -----

  function Empty(block0: Hash256): Db
  {
    Db(block0, map[], None)
  }

  /** The database after handing in the blocks `es` one after the other. */
  function Run(work: WorkOf, db: Db, es: seq<Entry>): (r: Db)
    requires HasBest(db)
    ensures HasBest(r)
  {
    if es == [] then db else Connect(work, Run(work, db, es[..|es| - 1]), es[|es| - 1])
  }

  /** The hashes of those that were accepted, in order. */
  function Order(work: WorkOf, db: Db, es: seq<Entry>): seq<Hash256>
    requires HasBest(db)
  {
    if es == [] then [] else
      var init := es[..|es| - 1];
      Grown(Run(work, db, init), Order(work, db, init), es[|es| - 1])
  }

  /** Over every run from an empty database the invariant holds. */
  lemma {:induction false} RunKeepsInv(work: WorkOf, block0: Hash256, es: seq<Entry>)
    ensures Inv(work, Run(work, Empty(block0), es), Order(work, Empty(block0), es))
    ensures Run(work, Empty(block0), es).block0 == block0
  {
    hide Inv;
    if es == [] {
      EmptyInv(work, block0);
    } else {
      var init := es[..|es| - 1];
      RunKeepsInv(work, block0, init);
      ConnectKeepsInv(work, Run(work, Empty(block0), init), Order(work, Empty(block0), init), es[|es| - 1]);
    }
  }

  lemma EmptyInv(work: WorkOf, block0: Hash256)
    ensures Inv(work, Empty(block0), [])
  {
  }

  // ----- ancestors -----

  /** Heights and parents are consistent, and there is one root. */
  ghost predicate IsTree(blocks: Blocks)
  {
    && (forall h :: h in blocks && blocks[h].prev == None ==> blocks[h].height == 0)
    && (forall h :: h in blocks && blocks[h].prev.Some? ==>
          blocks[h].prev.value in blocks && blocks[h].height == blocks[blocks[h].prev.value].height + 1)
    && (forall g, h :: g in blocks && h in blocks && blocks[g].prev == None && blocks[h].prev == None ==> g == h)
  }

  lemma InvGivesTree(work: WorkOf, db: Db, order: seq<Hash256>)
    requires Inv(work, db, order)
    ensures IsTree(db.blocks)
  {
    forall h | h in db.blocks
      ensures db.blocks[h].prev == None ==> h == order[0] && db.blocks[h].height == 0
      ensures db.blocks[h].prev.Some? ==>
                db.blocks[h].prev.value in db.blocks &&
                db.blocks[h].height == db.blocks[db.blocks[h].prev.value].height + 1
    {
      var i :| 0 <= i < |order| && order[i] == h;
      assert Placed(work, db, order, i);
      if i > 0 {
        assert order[..i] <= order;
        assert forall x :: x in order[..i] ==> x in order;
      }
    }
  }

  predicate Known(blocks: Blocks, h: Option<Hash256>)
  {
    h.Some? ==> h.value in blocks
  }

  /** The block k steps back from h, none when the walk leaves the root. */
  function Back(blocks: Blocks, h: Option<Hash256>, k: nat): Option<Hash256>
    decreases k
  {
    if k == 0 || h == None || h.value !in blocks then h else Back(blocks, blocks[h.value].prev, k - 1)
  }

  lemma BackZero(blocks: Blocks, h: Hash256)
    ensures Back(blocks, Some(h), 0) == Some(h)
  {
  }

  ghost predicate IsAncestor(blocks: Blocks, a: Hash256, h: Hash256)
  {
    exists k :: Back(blocks, Some(h), k) == Some(a)
  }

  lemma {:induction false} BackProperties(blocks: Blocks, h: Hash256, k: nat)
    requires IsTree(blocks) && h in blocks
    ensures k <= blocks[h].height ==>
              Back(blocks, Some(h), k).Some? && Back(blocks, Some(h), k).value in blocks &&
              blocks[Back(blocks, Some(h), k).value].height == blocks[h].height - k
    ensures k > blocks[h].height ==> Back(blocks, Some(h), k) == None
    decreases k
  {
    if k > 0 {
      var p := blocks[h].prev;
      if p.Some? {
        BackProperties(blocks, p.value, k - 1);
      }
    }
  }

  lemma {:induction false} BackAdds(blocks: Blocks, h: Option<Hash256>, j: nat, k: nat)
    requires IsTree(blocks) && Known(blocks, h)
    ensures Back(blocks, Back(blocks, h, j), k) == Back(blocks, h, j + k)
    decreases j
  {
    if j > 0 && h.Some? {
      BackAdds(blocks, blocks[h.value].prev, j - 1, k);
    }
  }

  /** x is an ancestor of both, and every common ancestor is an ancestor of x. */
  ghost predicate IsLowestCommonAncestor(blocks: Blocks, x: Hash256, a: Hash256, b: Hash256)
  {
    && IsAncestor(blocks, x, a) && IsAncestor(blocks, x, b)
    && forall y :: IsAncestor(blocks, y, a) && IsAncestor(blocks, y, b) ==> IsAncestor(blocks, y, x)
  }

  lemma RootsCoincide(blocks: Blocks, a: Hash256, b: Hash256)
    requires IsTree(blocks) && a in blocks && b in blocks
    requires blocks[a].height == blocks[b].height == 0
    ensures a == b
  {
    assert blocks[a].prev == None && blocks[b].prev == None;
  }
}
