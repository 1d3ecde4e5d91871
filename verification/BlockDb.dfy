/** The block database object of picocoin/blkdb.c: `blkdb_connect` with its reorganisation count,
    `blkdb_add` and `blkdb_read` with the log, and `blkdb_locator`. */
module BlockDb {
  import opened Common
  import opened Wire
  import opened BlockTree
  import opened BlockLocator
  import opened BlockLog

  /** `struct blkdb_reorg`. */
  datatype Reorg = Reorg(oldBest: Option<Hash256>, conn: nat, disconn: nat)

  /** What the counters mean when the tip moves from `oldTip` to `tip`: `disconn` steps back from the
      old tip and `conn` steps back from the new one meet in their lowest common ancestor, and the
      difference of the counters is the difference in height. */
  ghost predicate CountsReorg(blocks: Blocks, oldTip: Option<Hash256>, tip: Hash256, r: Reorg)
    requires Known(blocks, oldTip) && tip in blocks
  {
    && r.oldBest == oldTip
    && match oldTip
       case None => r.conn == blocks[tip].height + 1 && r.disconn == 0
       case Some(former) =>
         && r.conn - r.disconn == blocks[tip].height - blocks[former].height
         && var meet := Back(blocks, Some(tip), r.conn);
         && meet == Back(blocks, Some(former), r.disconn)
         && meet.Some? && IsLowestCommonAncestor(blocks, meet.value, tip, former)
  }

  /** No block above height `level` is an ancestor of both a and b. */
  ghost predicate NothingAbove(blocks: Blocks, a: Hash256, b: Hash256, level: int)
  {
    forall y :: IsAncestor(blocks, y, a) && IsAncestor(blocks, y, b) ==> y in blocks && blocks[y].height <= level
  }

  lemma AncestorHeight(blocks: Blocks, y: Hash256, a: Hash256)
    requires IsTree(blocks) && a in blocks && IsAncestor(blocks, y, a)
    ensures y in blocks && blocks[y].height <= blocks[a].height
    ensures Back(blocks, Some(a), blocks[a].height - blocks[y].height) == Some(y)
  {
    hide IsTree;
    var k :| Back(blocks, Some(a), k) == Some(y);
    BackProperties(blocks, a, k);
  }

  lemma NothingAboveTips(blocks: Blocks, a: Hash256, b: Hash256)
    requires IsTree(blocks) && a in blocks && b in blocks
    ensures NothingAbove(blocks, a, b, blocks[a].height)
    ensures NothingAbove(blocks, a, b, blocks[b].height)
  {
    hide IsTree;
    forall y | IsAncestor(blocks, y, a) && IsAncestor(blocks, y, b)
      ensures y in blocks && blocks[y].height <= blocks[a].height && blocks[y].height <= blocks[b].height
    {
      AncestorHeight(blocks, y, a);
      AncestorHeight(blocks, y, b);
    }
  }

  /** If the two walks stand at the same height on different blocks, nothing at that height is common. */
  lemma NothingAtLevel(blocks: Blocks, a: Hash256, b: Hash256, i: nat, j: nat)
    requires IsTree(blocks) && a in blocks && b in blocks
    requires i <= blocks[a].height && j <= blocks[b].height
    requires blocks[a].height - i == blocks[b].height - j
    requires Back(blocks, Some(a), i) != Back(blocks, Some(b), j)
    requires NothingAbove(blocks, a, b, blocks[a].height - i)
    ensures NothingAbove(blocks, a, b, blocks[a].height - i - 1)
  {
    hide IsTree;
    forall y | IsAncestor(blocks, y, a) && IsAncestor(blocks, y, b)
      ensures y in blocks && blocks[y].height <= blocks[a].height - i - 1
    {
      AncestorHeight(blocks, y, a);
      AncestorHeight(blocks, y, b);
    }
  }

  /** Where the walks meet, with nothing common above, is the lowest common ancestor. */
  lemma MeetingPoint(blocks: Blocks, a: Hash256, b: Hash256, i: nat, j: nat)
    requires IsTree(blocks) && a in blocks && b in blocks
    requires i <= blocks[a].height && j <= blocks[b].height
    requires Back(blocks, Some(a), i) == Back(blocks, Some(b), j)
    requires NothingAbove(blocks, a, b, blocks[a].height - i)
    ensures Back(blocks, Some(a), i).Some?
    ensures IsLowestCommonAncestor(blocks, Back(blocks, Some(a), i).value, a, b)
  {
    hide IsTree;
    BackProperties(blocks, a, i);
    var x := Back(blocks, Some(a), i).value;
    forall y | IsAncestor(blocks, y, a) && IsAncestor(blocks, y, b)
      ensures IsAncestor(blocks, y, x)
    {
      AncestorHeight(blocks, y, a);
      var k := blocks[a].height - blocks[y].height - i;
      BackAdds(blocks, Some(a), i, k);
      assert Back(blocks, Some(x), k) == Some(y);
    }
  }

  lemma BackStep(blocks: Blocks, h: Hash256, k: nat)
    requires IsTree(blocks) && h in blocks && k <= blocks[h].height
    ensures Back(blocks, Some(h), k).Some? && Back(blocks, Some(h), k).value in blocks
    ensures blocks[Back(blocks, Some(h), k).value].height == blocks[h].height - k
    ensures blocks[Back(blocks, Some(h), k).value].prev == Back(blocks, Some(h), k + 1)
  {
    hide IsTree;
    BackProperties(blocks, h, k);
    BackAdds(blocks, Some(h), k, 1);
    var x := Back(blocks, Some(h), k).value;
    assert Back(blocks, blocks[x].prev, 0) == blocks[x].prev;
  }

  /** The walk from a genesis block: every step back is counted until the chain ends. */
  method CountConnected(blocks: Blocks, tip: Hash256) returns (conn: nat)
    requires IsTree(blocks) && tip in blocks
    ensures conn == blocks[tip].height + 1
  {
    hide IsTree, Back;
    conn := 0;
    var cur := Some(tip);
    assert Back(blocks, Some(tip), 0) == cur by { BackZero(blocks, tip); }
    while cur.Some?
      invariant conn <= blocks[tip].height + 1
      invariant cur == Back(blocks, Some(tip), conn)
      decreases blocks[tip].height + 1 - conn
    {
      BackProperties(blocks, tip, conn);
      BackStep(blocks, tip, conn);
      cur := blocks[cur.value].prev;
      conn := conn + 1;
    }
    BackProperties(blocks, tip, conn);
  }

  /** The three walks of `blkdb_connect` from the new and the old tip. */
  method CountReorg(blocks: Blocks, former: Hash256, tip: Hash256) returns (conn: nat, disconn: nat)
    requires IsTree(blocks) && tip in blocks && former in blocks
    ensures CountsReorg(blocks, Some(former), tip, Reorg(Some(former), conn, disconn))
  {
    hide IsTree, Back, NothingAbove, IsLowestCommonAncestor;
    conn, disconn := 0, 0;
    var newBest, oldBest := Some(tip), Some(former);
    ghost var hn, ho := blocks[tip].height, blocks[former].height;
    BackZero(blocks, tip);
    BackZero(blocks, former);
    while newBest.Some? && blocks[newBest.value].height > blocks[oldBest.value].height
      invariant StandsAt(blocks, tip, newBest, conn)
      invariant hn - conn >= ho || conn == 0
      decreases hn - conn
    {
      BackStep(blocks, tip, conn);
      BackStep(blocks, tip, conn + 1);
      newBest := blocks[newBest.value].prev;
      conn := conn + 1;
    }
    while oldBest.Some? && newBest.Some? && blocks[oldBest.value].height > blocks[newBest.value].height
      invariant StandsAt(blocks, former, oldBest, disconn)
      invariant ho - disconn >= hn - conn
      invariant disconn == 0 || conn == 0
      decreases ho - disconn
    {
      BackStep(blocks, former, disconn);
      BackStep(blocks, former, disconn + 1);
      oldBest := blocks[oldBest.value].prev;
      disconn := disconn + 1;
    }
    NothingAboveTips(blocks, tip, former);
    while oldBest.Some? && newBest.Some? && oldBest != newBest
      invariant hn - conn == ho - disconn
      invariant StandsAt(blocks, tip, newBest, conn)
      invariant StandsAt(blocks, former, oldBest, disconn)
      invariant NothingAbove(blocks, tip, former, hn - conn)
      decreases hn - conn
    {
      if hn == conn {
        RootsCoincide(blocks, newBest.value, oldBest.value);
      }
      NothingAtLevel(blocks, tip, former, conn, disconn);
      BackStep(blocks, tip, conn);
      BackStep(blocks, tip, conn + 1);
      BackStep(blocks, former, disconn);
      BackStep(blocks, former, disconn + 1);
      newBest := blocks[newBest.value].prev;
      conn := conn + 1;
      oldBest := blocks[oldBest.value].prev;
      disconn := disconn + 1;
    }
    MeetingPoint(blocks, tip, former, conn, disconn);
  }

  /** A walk from h stands, after k steps, on the block `cur`; it has not left the root. */
  ghost predicate StandsAt(blocks: Blocks, h: Hash256, cur: Option<Hash256>, k: nat)
    requires h in blocks
  {
    && k <= blocks[h].height && cur == Back(blocks, Some(h), k)
    && cur.Some? && cur.value in blocks && blocks[cur.value].height == blocks[h].height - k
  }

  class BlkDb {
    const work: WorkOf
    const H: HashFunction
    var netmagic: Magic
    var block0: Hash256
    var blocks: Blocks
    var best: Option<Hash256>

    /** The contents of the open log file, if there is one (`fd`). */
    var log: Option<seq<Byte>>

    /** The hashes of the blocks that were accepted, oldest first. */
    ghost var order: seq<Hash256>

    ghost function Contents(): Db
      reads this
    {
      Db(block0, blocks, best)
    }

    ghost predicate Valid()
      reads this
    {
      Inv(work, Contents(), order)
    }

    /** `blkdb_init`. */
    constructor (work: WorkOf, H: HashFunction, magic: Magic, genesis: Hash256)
      ensures Valid() && Contents() == Empty(genesis) && order == []
      ensures this.work == work && this.H == H && netmagic == magic && log == None
    {
      this.work, this.H := work, H;
      netmagic, log := magic, None;
      block0, blocks, best := genesis, map[], None;
      order := [];
      new;
      EmptyInv(work, genesis);
    }

    /** `blkdb_connect`: a refused block leaves the database alone; an accepted one is added, and
        if it becomes the tip the reorganisation is counted. */
    method ConnectBlock(e: Entry) returns (ok: bool, reorg: Reorg)
      requires Valid()
      modifies this`blocks, this`best, this`order
      ensures Valid() && HasBest(old(Contents()))
      ensures ok <==> Accepts(old(Contents()), e)
      ensures Contents() == Connect(work, old(Contents()), e)
      ensures order == Grown(old(Contents()), old(order), e)
      ensures !ok ==> Contents() == old(Contents())
      ensures old(order) == [] && ok ==> reorg == Reorg(None, 1, 0)
      ensures best != old(best) ==> ok && best == Some(e.hash) && CountsReorg(blocks, old(best), e.hash, reorg)
      ensures best == old(best) ==> reorg == Reorg(None, 0, 0)
    {
      hide Inv, CountsReorg, IsTree;
      ghost var db, was := Contents(), order;
      reorg := Reorg(None, 0, 0);
      EmptyIff(work, db, was);
      ConnectKeepsInv(work, db, was, e);
      BestIsNew(work, db, e);
      if e.hash in blocks {
        return false, reorg;
      }
      var node: Node;
      var bestChain := false;
      var cur := work(e.hdr.nBits);
      if |blocks| == 0 {
        if e.sha256 != block0 {
          return false, reorg;
        }
        node := Node(e, None, 0, cur);
        bestChain := true;
      } else {
        if e.hdr.hashPrevBlock !in blocks {
          return false, reorg;
        }
        var prev := blocks[e.hdr.hashPrevBlock];
        node := Node(e, Some(e.hdr.hashPrevBlock), prev.height + 1, cur + prev.work);
        bestChain := node.work > blocks[best.value].work;
      }
      blocks := blocks[e.hash := node];
      order := order + [e.hash];
      if bestChain {
        var oldBest := best;
        best := Some(e.hash);
        InvGivesTree(work, Contents(), order);
        if oldBest == None {
          var conn := CountConnected(blocks, e.hash);
          reorg := Reorg(None, conn, 0);
          FirstBlockCounts(blocks, e.hash, reorg);
        } else {
          var conn, disconn := CountReorg(blocks, oldBest.value, e.hash);
          reorg := Reorg(oldBest, conn, disconn);
        }
      }
      return true, reorg;
    }

    /** `blkdb_add`: the record goes to the log first, then the block is connected. `wrote` is the
        number of bytes that write() took, `synced` the outcome of the optional fdatasync(). */
    method AddBlock(e: Entry, wrote: nat, synced: bool) returns (ok: bool, reorg: Option<Reorg>)
      requires Valid()
      modifies this
      ensures Valid() && netmagic == old(netmagic) && HasBest(old(Contents()))
      ensures log == match old(log)
                     case None => None
                     case Some(s) => Some(s + Prefix(Record(H, netmagic, e), wrote))
      ensures var written := old(log) == None || (wrote == |Record(H, netmagic, e)| && synced);
              && (ok <==> written && Accepts(old(Contents()), e))
              && Contents() == (if written then Connect(work, old(Contents()), e) else old(Contents()))
              && order == (if written then Grown(old(Contents()), old(order), e) else old(order))
              && (reorg.Some? <==> written)
      ensures best != old(best) ==>
                ok && best == Some(e.hash) && reorg.Some? && CountsReorg(blocks, old(best), e.hash, reorg.value)
      ensures best == old(best) && reorg.Some? ==> reorg.value == Reorg(None, 0, 0)
    {
      hide Inv, Connect, Accepts, Record, CountsReorg;
      EmptyIff(work, Contents(), order);
      if log.Some? {
        var data := Record(H, netmagic, e);
        log := Some(log.value + Prefix(data, wrote));
        if wrote != |data| || !synced {
          return false, None;
        }
      }
      var r: Reorg;
      ok, r := ConnectBlock(e);
      reorg := Some(r);
    }

    /** `blkdb_read`, given the contents of the file. */
    method Read(file: seq<Byte>) returns (ok: bool)
      requires Valid()
      modifies this`blocks, this`best, this`order
      ensures Valid() && HasBest(old(Contents()))
      ensures (Contents(), ok) == Replay(work, H, old(Contents()), file)
    {
      hide Inv, Connect, Accepts, ReadMessage, ParseRecord, HasBest, CountsReorg;
      ghost var start := Contents();
      EmptyIff(work, start, order);
      var rest := file;
      while true
        invariant Valid() && HasBest(start) && HasBest(Contents())
        invariant Replay(work, H, start, file) == Replay(work, H, Contents(), rest)
        decreases |rest|
      {
        var m := ReadMessage(H, rest);
        if !m.Message? {
          return m.Eof?;
        }
        var e := ParseRecord(H, m.command, m.data);
        if e == None {
          return false;
        }
        var added, _ := ConnectBlock(e.value);
        EmptyIff(work, Contents(), order);
        if !added {
          return false;
        }
        rest := m.rest;
      }
    }

    /** `blkdb_locator`: from the given block, or from the tip, appended to the list `have`. */
    method Locator(start: Option<Hash256>, have: seq<Hash256>) returns (list: seq<Hash256>)
      requires Valid() && Known(blocks, start)
      ensures IsTree(blocks)
      ensures var from := if start == None then best else start;
              Known(blocks, from) && list == have + Entries(blocks, from, |have|, 1) + [block0]
    {
      hide Inv, IsTree, Entries;
      InvGivesTree(work, Contents(), order);
      EmptyIff(work, Contents(), order);
      var bi := if start == None then best else start;
      list := PushEntries(blocks, bi, have);
      list := list + [block0];
    }
  }

  /** The outer loop of `blkdb_locator`. */
  method PushEntries(blocks: Blocks, from: Option<Hash256>, have: seq<Hash256>) returns (list: seq<Hash256>)
    requires IsTree(blocks) && Known(blocks, from)
    ensures list == have + Entries(blocks, from, |have|, 1)
  {
    hide IsTree, Back, Entries;
    var bi, step: nat := from, 1;
    ghost var todo := Entries(blocks, bi, |have|, 1);
    list := have;
    while bi.Some?
      invariant Known(blocks, bi) && step >= 1
      invariant todo == Entries(blocks, bi, |list|, step)
      invariant list + todo == have + Entries(blocks, from, |have|, 1)
      decreases if bi.Some? then blocks[bi.value].height + 1 else 0
    {
      ghost var cur := bi.value;
      EntriesStep(blocks, cur, |list|, step);
      assert todo[0] == cur;
      assert list + todo == (list + [cur]) + todo[1..];
      todo := todo[1..];
      list := list + [bi.value];
      bi := StepBack(blocks, bi.value, step);
      BackProperties(blocks, cur, step);
      if |list| > 10 {
        step := step * 2;
      }
    }
    EntriesEnd(blocks, |list|, step);
    assert list + [] == list;
  }

  function Prefix<T>(s: seq<T>, n: nat): seq<T>
  {
    if n < |s| then s[..n] else s
  }

  lemma EntriesEnd(blocks: Blocks, have: nat, step: nat)
    requires IsTree(blocks) && step >= 1
    ensures Entries(blocks, None, have, step) == []
  {
  }

  lemma EntriesStep(blocks: Blocks, h: Hash256, have: nat, step: nat)
    requires IsTree(blocks) && h in blocks && step >= 1
    ensures Known(blocks, Back(blocks, Some(h), step))
    ensures Entries(blocks, Some(h), have, step)
         == [h] + Entries(blocks, Back(blocks, Some(h), step), have + 1, if have + 1 > 10 then 2 * step else step)
  {
    hide Back;
    BackProperties(blocks, h, step);
  }

  /** The inner loop of `blkdb_locator`. */
  method StepBack(blocks: Blocks, h: Hash256, step: nat) returns (bi: Option<Hash256>)
    requires IsTree(blocks) && h in blocks
    ensures bi == Back(blocks, Some(h), step)
  {
    hide IsTree, Back;
    bi := Some(h);
    BackZero(blocks, h);
    var i := 0;
    while bi.Some? && i < step
      invariant 0 <= i <= step && bi == Back(blocks, Some(h), i) && Known(blocks, bi)
    {
      BackProperties(blocks, h, i);
      BackStep(blocks, h, i);
      BackProperties(blocks, h, i + 1);
      bi := blocks[bi.value].prev;
      i := i + 1;
    }
    BackProperties(blocks, h, i);
    BackProperties(blocks, h, step);
  }

  lemma BestIsNew(work: WorkOf, db: Db, e: Entry)
    requires HasBest(db)
    ensures Connect(work, db, e).best != db.best <==> Accepts(db, e) && BecomesBest(work, db, e)
  {
  }

  lemma FirstBlockCounts(blocks: Blocks, tip: Hash256, r: Reorg)
    requires tip in blocks && r == Reorg(None, blocks[tip].height + 1, 0)
    ensures CountsReorg(blocks, None, tip, r)
  {
  }

  /** All blocks are handed to a new database with an empty log, refused ones or not; then a second
      database reads the log. It gets as far as the first refused block: it succeeds exactly if there
      was none, and holds the same exactly if nothing behind that block could have been accepted then. */
  method AddThenReplay(work: WorkOf, H: HashFunction, magic: Magic, genesis: Hash256, es: seq<Entry>)
    returns (db: BlkDb, copy: BlkDb, added: bool, ok: bool)
    requires forall e :: e in es ==> Honest(H, e) && Small(e)
    ensures db.Contents() == Run(work, Empty(genesis), es)
    ensures var n := AcceptedFirst(work, Empty(genesis), es);
            && copy.Contents() == Run(work, Empty(genesis), es[..n])
            && (added <==> n == |es|) && (ok <==> added)
            && (copy.Contents() == db.Contents() <==> NoneAccepted(copy.Contents(), es, n))
  {
    hide Inv, Honest, Small, Record, Replay, Log, Run, Connect, Accepts, AcceptedFirst, NoneAccepted;
    db := new BlkDb(work, H, magic, genesis);
    db.log := Some([]);
    assert db.Valid();
    added := true;
    NothingAdded(work, H, magic, genesis);
    for i := 0 to |es|
      invariant fresh(db) && db.Valid() && db.H == H && db.work == work && db.netmagic == magic
      invariant db.log == Some(Log(H, magic, es[..i]))
      invariant db.Contents() == Run(work, Empty(genesis), es[..i])
      invariant added <==> AcceptedFirst(work, Empty(genesis), es[..i]) == i
    {
      var e := es[i];
      assert es[..i + 1] == es[..i] + [e];
      LogAppends(H, magic, es[..i], e);
      RunAppends(work, Empty(genesis), es[..i], e);
      AcceptedAppends(work, Empty(genesis), es[..i], e);
      var accepted, _ := db.AddBlock(e, |Record(H, magic, e)|, true);
      added := added && accepted;
    }
    copy := new BlkDb(work, H, magic, genesis);
    assert es[..|es|] == es;
    ReplayRestores(work, H, magic, genesis, es);
    ReplayAgrees(work, H, magic, genesis, es);
    ok := copy.Read(db.log.value);
  }

  lemma NothingAdded(work: WorkOf, H: HashFunction, magic: Magic, genesis: Hash256)
    ensures Log(H, magic, []) == [] && Run(work, Empty(genesis), []) == Empty(genesis)
    ensures AcceptedFirst(work, Empty(genesis), []) == 0
  {
  }
}
