/** The append-only log of the block database: message framing (picocoin/message.c:16-71), reading a
    message from a file (picocoin/mbr.c:54-95), records (picocoin/blkdb.c:163-219) and replaying a
    log (picocoin/blkdb.c:221-243). The hash function `H` stands for double SHA-256. */
module BlockLog {
  import opened Common
  import opened Wire
  import opened BlockTree
  import opened WireLayout

  type HashFunction = seq<Byte> -> Hash256
  type Magic = s: seq<Byte> | |s| == 4 witness [0, 0, 0, 0]
  type Command = s: seq<Byte> | |s| == 12 witness seq(12, _ => 0)

  const HEADER_SIZE := 24
  const MAX_DATA := 100 * 1024 * 1024

  /** The first four bytes of the hash: `bu_Hash4`. */
  function Checksum(H: HashFunction, data: seq<Byte>): (c: seq<Byte>)
    ensures |c| == 4
  {
    H(data)[..4]
  }

  // ----- messages -----

  /** `message_str`. */
  function MessageBytes(H: HashFunction, magic: Magic, command: Command, data: seq<Byte>): seq<Byte>
  {
    magic + command + LittleEndian(|data|, 4) + Checksum(H, data) + data
  }

  datatype Reading = Eof | Bad | Message(command: Command, data: seq<Byte>, rest: seq<Byte>)

  /** `fread_message` on the unread part of a file: a clean end of file, a damaged or oversized
      message, or a message and what follows it. The network magic is not looked at. */
  function ReadMessage(H: HashFunction, file: seq<Byte>): (r: Reading)
    ensures r.Message? ==> |r.rest| < |file|
  {
    if file == [] then Eof
    else if |file| < HEADER_SIZE then Bad
    else
      var len := FromLittleEndian(file[16..20]);
      if len > MAX_DATA || |file| < HEADER_SIZE + len then Bad
      else
        var data := file[HEADER_SIZE..HEADER_SIZE + len];
        if Checksum(H, data) != file[20..24] then Bad
        else Message(file[4..16], data, file[HEADER_SIZE + len..])
  }

  lemma MessageRoundTrip(H: HashFunction, magic: Magic, command: Command, data: seq<Byte>, rest: seq<Byte>)
    requires |data| <= MAX_DATA
    ensures ReadMessage(H, MessageBytes(H, magic, command, data) + rest) == Message(command, data, rest)
  {
    hide LittleEndian, FromLittleEndian, Checksum, Pow;
    var file := MessageBytes(H, magic, command, data) + rest;
    var len := LittleEndian(|data|, 4);
    Pow256Values();
    LittleEndianRoundTrip(|data|, 4);
    assert file[4..16] == command;
    assert file[16..20] == len;
    assert file[20..24] == Checksum(H, data);
    assert file[24..24 + |data|] == data;
    assert file[24 + |data|..] == rest;
  }

  lemma {:induction false} LittleEndianOf(s: seq<Byte>)
    ensures LittleEndian(FromLittleEndian(s), |s|) == s
  {
    if s != [] {
      LittleEndianOf(s[1..]);
      LowByteSplits(s[0], FromLittleEndian(s[1..]));
      assert s == [s[0]] + s[1..];
    }
  }

  lemma LowByteSplits(b: Byte, v: nat)
    ensures (b + 256 * v) % 256 == b && (b + 256 * v) / 256 == v
  {
  }

  /** Where the parts of a message stand. */
  lemma MessageLayout(H: HashFunction, magic: Magic, command: Command, data: seq<Byte>)
    ensures var m := MessageBytes(H, magic, command, data);
            && |m| == 24 + |data| && m[..4] == magic && m[4..16] == command && Writes(m, 16, |data|, 4)
            && m[20..24] == H(data)[..4] && m[24..] == data
  {
    hide LittleEndian, Writes;
    var m := MessageBytes(H, magic, command, data);
    LittleEndianWrites(|data|, 4);
    InText(m, 16, LittleEndian(|data|, 4), |data|, 4);
  }

  /** A message is read exactly if the file starts with one, with the right length and checksum and at most
      100 MB of data; nothing is read of an empty file, and anything else is damaged. */
  lemma ReadsExactlyMessages(H: HashFunction, file: seq<Byte>, command: Command, data: seq<Byte>, rest: seq<Byte>)
    ensures ReadMessage(H, file) == Message(command, data, rest)
       <==> |data| <= 104857600 && |file| >= 4 && file == MessageBytes(H, file[..4], command, data) + rest
    ensures ReadMessage(H, file) == Eof <==> file == []
  {
    hide LittleEndian, FromLittleEndian;
    if ReadMessage(H, file) == Message(command, data, rest) {
      LittleEndianOf(file[16..20]);
      Reassembled(file, |data|);
    } else if |data| <= MAX_DATA && |file| >= 4 && file == MessageBytes(H, file[..4], command, data) + rest {
      MessageRoundTrip(H, file[..4], command, data, rest);
    }
  }

  lemma Reassembled(file: seq<Byte>, n: nat)
    requires |file| >= 24 + n
    ensures file == file[..4] + file[4..16] + file[16..20] + file[20..24] + file[24..24 + n] + file[24 + n..]
  {
  }

  // ----- records -----

  /** The command "rec", padded with NUL to twelve bytes. */
  const REC: Command := [114, 101, 99, 0, 0, 0, 0, 0, 0, 0, 0, 0]

  /** strncmp(command, "rec", 12) == 0: bytes after the terminating NUL do not matter. */
  predicate IsRec(command: Command)
  {
    command[..4] == [114, 101, 99, 0]
  }

  /** `ser_blkinfo`. */
  function RecordData(e: Entry): seq<Byte>
  {
    e.hash + SerBlock(e.hdr)
  }

  /** `blkdb_ser_rec`. */
  function Record(H: HashFunction, magic: Magic, e: Entry): seq<Byte>
  {
    MessageBytes(H, magic, REC, RecordData(e))
  }

  /** The block that a record carries, if it is well-formed and its key is the hash of its header. */
  function ParseRecord(H: HashFunction, command: Command, data: seq<Byte>): Option<Entry>
  {
    if !IsRec(command) then None else
      match DeserHash(data)
      case Fail => None
      case Ok(hash, b1) =>
        match DeserBlock(b1)
        case Fail => None
        case Ok(hdr, _) =>
          var sha := H(SerHeader(hdr));
          if hash == sha then Some(Entry(hash, sha, hdr)) else None
  }

  /** A record is a message called "rec", padded with NUL. */
  lemma RecordName(H: HashFunction, magic: Magic, e: Entry)
    ensures |Record(H, magic, e)| >= 16 && Record(H, magic, e)[4..16] == Ascii("rec") + seq(9, _ => 0)
  {
    hide RecordData;
    MessageLayout(H, magic, REC, RecordData(e));
  }

  /** A record is taken only if it is called "rec" and its key is the hash of the header it carries. */
  lemma ParsedIsHonest(H: HashFunction, command: Command, data: seq<Byte>)
    requires ParseRecord(H, command, data).Some?
    ensures var e := ParseRecord(H, command, data).value;
            && Honest(H, e) && |data| >= 32 && e.hash == data[..32]
            && command[0] == 114 && command[1] == 101 && command[2] == 99 && command[3] == 0
  {
    hide DeserBlock, SerHeader;
    assert command[..4][0] == command[0] && command[..4][1] == command[1];
    assert command[..4][2] == command[2] && command[..4][3] == command[3];
  }

  /** `blkdb_read_rec`: the record's block is connected, or nothing happens. */
  function ReadRecord(work: WorkOf, H: HashFunction, db: Db, command: Command, data: seq<Byte>): (r: Option<Db>)
    requires HasBest(db)
    ensures r.Some? ==> HasBest(r.value)
  {
    match ParseRecord(H, command, data)
    case None => None
    case Some(e) => if Accepts(db, e) then Some(Connect(work, db, e)) else None
  }

  /** `blkdb_read`: the database after the log, and whether the log was read to its end. */
  function Replay(work: WorkOf, H: HashFunction, db: Db, file: seq<Byte>): (r: (Db, bool))
    requires HasBest(db)
    ensures HasBest(r.0)
    decreases |file|
  {
    match ReadMessage(H, file)
    case Eof => (db, true)
    case Bad => (db, false)
    case Message(command, data, rest) =>
      match ReadRecord(work, H, db, command, data)
      case None => (db, false)
      case Some(db') => Replay(work, H, db', rest)
  }

  // ----- a written log -----

  /** The key and the stored hash of the block are the hash of its header. */
  predicate Honest(H: HashFunction, e: Entry)
  {
    e.hash == e.sha256 == H(SerHeader(e.hdr))
  }

  predicate Small(e: Entry)
  {
    |RecordData(e)| <= MAX_DATA
  }

  /** The log that one complete write after the other produces. */
  function Log(H: HashFunction, magic: Magic, es: seq<Entry>): seq<Byte>
  {
    if es == [] then [] else Record(H, magic, es[0]) + Log(H, magic, es[1..])
  }

  lemma {:induction false} SerAllLength<T>(ser: T -> seq<Byte>, xs: seq<T>)
    requires forall x :: x in xs ==> |ser(x)| >= 1
    ensures |SerAll(ser, xs)| >= |xs|
    ensures forall x :: x in xs ==> |SerAll(ser, xs)| >= |ser(x)|
  {
    if xs != [] {
      SerAllLength(ser, xs[1..]);
      assert forall x :: x in xs ==> x == xs[0] || x in xs[1..];
    }
  }

  lemma TxLength(t: Tx)
    ensures |SerTx(t)| >= 1
    ensures |SerTx(t)| < TWO32 ==> TxFits(t)
  {
    hide SerVarlen, LittleEndian, SerAll;
    assert forall x :: x in t.vin ==> |SerTxIn(x)| >= 32 + |x.scriptSig|;
    assert forall x :: x in t.vout ==> |SerTxOut(x)| >= 8 + |x.scriptPubKey|;
    SerAllLength(SerTxIn, t.vin);
    SerAllLength(SerTxOut, t.vout);
  }

  /** Whatever is short enough for a record has 32-bit counts throughout. */
  lemma SmallBlockFits(b: Block)
    requires |SerBlock(b)| < TWO32
    ensures BlockFits(b)
  {
    hide SerVarlen, SerHeader, SerAll, SerTx, TxFits;
    if b.vtx.Some? {
      forall t
        ensures |SerTx(t)| >= 1 && (|SerTx(t)| < TWO32 ==> TxFits(t))
      {
        TxLength(t);
      }
      SerAllLength(SerTx, b.vtx.value);
    }
  }

  lemma RecordRoundTrip(H: HashFunction, e: Entry)
    requires Honest(H, e) && Small(e)
    ensures ParseRecord(H, REC, RecordData(e)) == Some(e)
  {
    hide SerBlock, DeserBlock, DeserHash, BlockFits, SerHeader;
    SmallBlockFits(e.hdr);
    HashRoundTrip(e.hash, SerBlock(e.hdr));
    BlockRoundTrip(e.hdr, []);
    assert SerBlock(e.hdr) + [] == SerBlock(e.hdr);
  }

  /** The blocks of `es` connected one after the other until one is refused, and whether none was. */
  function RunWhileAccepted(work: WorkOf, db: Db, es: seq<Entry>): (r: (Db, bool))
    requires HasBest(db)
    ensures HasBest(r.0)
    decreases |es|
  {
    if es == [] then (db, true)
    else if !Accepts(db, es[0]) then (db, false)
    else RunWhileAccepted(work, Connect(work, db, es[0]), es[1..])
  }

  /** Replaying a written log does exactly what handing in the same blocks did, up to the first
      block that was refused; it reports success exactly if there was none. */
  lemma {:induction false} ReplayOfLog(work: WorkOf, H: HashFunction, magic: Magic, db: Db, es: seq<Entry>)
    requires HasBest(db)
    requires forall e :: e in es ==> Honest(H, e) && Small(e)
    ensures Replay(work, H, db, Log(H, magic, es)) == RunWhileAccepted(work, db, es)
    decreases |es|
  {
    hide ReadMessage, MessageBytes, ParseRecord, RecordData, Honest, Small, HasBest, Accepts, Connect;
    if es == [] {
      EndOfLog(H);
    } else {
      var e, rest := es[0], Log(H, magic, es[1..]);
      RecordIsRead(H, magic, e, rest);
      RecordRoundTrip(H, e);
      if Accepts(db, e) {
        ReplayOfLog(work, H, magic, Connect(work, db, e), es[1..]);
      }
    }
  }

  lemma EndOfLog(H: HashFunction)
    ensures ReadMessage(H, []) == Eof
  {
  }

  lemma RecordIsRead(H: HashFunction, magic: Magic, e: Entry, rest: seq<Byte>)
    requires Small(e)
    ensures ReadMessage(H, Record(H, magic, e) + rest) == Message(REC, RecordData(e), rest)
  {
    hide ReadMessage, MessageBytes, RecordData;
    MessageRoundTrip(H, magic, REC, RecordData(e), rest);
  }

  lemma {:induction false} RunSplits(work: WorkOf, db: Db, e: Entry, es: seq<Entry>)
    requires HasBest(db)
    ensures Run(work, db, [e] + es) == Run(work, Connect(work, db, e), es)
  {
    hide Connect, HasBest;
    var all := [e] + es;
    if es == [] {
      assert all[..0] == [];
      assert Run(work, db, all[..0]) == db;
    } else {
      assert all[..|all| - 1] == [e] + es[..|es| - 1];
      RunSplits(work, db, e, es[..|es| - 1]);
    }
  }

  /** How many blocks are accepted before the first refused one. */
  function AcceptedFirst(work: WorkOf, db: Db, es: seq<Entry>): (n: nat)
    requires HasBest(db)
    ensures n <= |es|
    decreases |es|
  {
    if es == [] || !Accepts(db, es[0]) then 0 else 1 + AcceptedFirst(work, Connect(work, db, es[0]), es[1..])
  }

  /** Connecting up to the first refused block is the run over the blocks before it. */
  lemma {:induction false} StoppedRun(work: WorkOf, db: Db, es: seq<Entry>)
    requires HasBest(db)
    ensures var n := AcceptedFirst(work, db, es);
            RunWhileAccepted(work, db, es) == (Run(work, db, es[..n]), n == |es|)
    decreases |es|
  {
    hide Connect, HasBest, Accepts;
    var n := AcceptedFirst(work, db, es);
    if n == 0 {
      assert es[..0] == [];
    } else {
      var db' := Connect(work, db, es[0]);
      StoppedRun(work, db', es[1..]);
      RunSplits(work, db, es[0], es[1..][..n - 1]);
      assert es[..n] == [es[0]] + es[1..][..n - 1];
    }
  }

  lemma {:induction false} RunFrom(work: WorkOf, db: Db, es: seq<Entry>, n: nat)
    requires HasBest(db) && n <= |es|
    ensures Run(work, db, es) == Run(work, Run(work, db, es[..n]), es[n..])
    decreases |es| - n
  {
    hide Connect, HasBest;
    var before, behind := es[..n], es[n..];
    if n == |es| {
      assert before == es && behind == [];
    } else {
      var init := es[..|es| - 1];
      RunFrom(work, db, init, n);
      assert init[..n] == before && init[n..] == behind[..|behind| - 1] && behind[|behind| - 1] == es[|es| - 1];
    }
  }

  lemma {:induction false} RunOnlyAdds(work: WorkOf, db: Db, es: seq<Entry>)
    requires HasBest(db)
    ensures forall h :: h in db.blocks ==> h in Run(work, db, es).blocks
  {
    if es != [] {
      RunOnlyAdds(work, db, es[..|es| - 1]);
    }
  }

  /** Handing in more blocks leaves a database as it is exactly if it accepts none of them. */
  lemma {:induction false} RunStays(work: WorkOf, db: Db, es: seq<Entry>)
    requires HasBest(db)
    ensures Run(work, db, es) == db <==> NoneAccepted(db, es, 0)
    decreases |es|
  {
    hide HasBest, NewNode, BecomesBest;
    if es != [] {
      var db', tail := Connect(work, db, es[0]), es[1..];
      assert es == [es[0]] + tail;
      RunSplits(work, db, es[0], tail);
      if Accepts(db, es[0]) {
        RunOnlyAdds(work, db', tail);
        assert es[0].hash in db'.blocks;
      } else {
        RunStays(work, db, tail);
        assert forall i :: 0 < i < |es| ==> es[i] == tail[i - 1];
      }
    }
  }

  /** The replay succeeds with the original database, blocks, heights, work and tip, if and only if no
      block was refused while the log was written. */
  lemma ReplayRestores(work: WorkOf, H: HashFunction, magic: Magic, block0: Hash256, es: seq<Entry>)
    requires forall e :: e in es ==> Honest(H, e) && Small(e)
    ensures var replay := Replay(work, H, Empty(block0), Log(H, magic, es));
            && (replay.1 <==> AcceptedFirst(work, Empty(block0), es) == |es|)
            && (replay == (Run(work, Empty(block0), es), true) <==> AcceptedFirst(work, Empty(block0), es) == |es|)
  {
    hide Honest, Small, Log, Replay, RunWhileAccepted, Run;
    ReplayOfLog(work, H, magic, Empty(block0), es);
    StoppedRun(work, Empty(block0), es);
    assert es[..|es|] == es;
  }

  /** From index n on, the database accepts none of the blocks. */
  predicate NoneAccepted(db: Db, es: seq<Entry>, n: nat)
  {
    forall i :: n <= i < |es| ==> !Accepts(db, es[i])
  }

  lemma NoneAcceptedBehind(db: Db, es: seq<Entry>, n: nat)
    requires n <= |es|
    ensures NoneAccepted(db, es, n) <==> NoneAccepted(db, es[n..], 0)
  {
    hide Accepts;
    var behind := es[n..];
    assert forall i :: n <= i < |es| ==> es[i] == behind[i - n];
    assert forall i :: 0 <= i < |behind| ==> behind[i] == es[n + i];
  }

  lemma StoppedAgrees(work: WorkOf, db: Db, es: seq<Entry>, n: nat)
    requires HasBest(db) && n <= |es|
    ensures var stopped := Run(work, db, es[..n]);
            stopped == Run(work, db, es) <==> NoneAccepted(stopped, es, n)
  {
    hide Run, Accepts, NoneAccepted, HasBest;
    var stopped, behind := Run(work, db, es[..n]), es[n..];
    RunFrom(work, db, es, n);
    RunStays(work, stopped, behind);
    NoneAcceptedBehind(stopped, es, n);
  }

  /** The replayed database holds the same as the original, successfully read or not, if and only if
      nothing handed in behind the first refused block could have been accepted at that point. */
  lemma ReplayAgrees(work: WorkOf, H: HashFunction, magic: Magic, block0: Hash256, es: seq<Entry>)
    requires forall e :: e in es ==> Honest(H, e) && Small(e)
    ensures var n := AcceptedFirst(work, Empty(block0), es);
            var stopped := Run(work, Empty(block0), es[..n]);
            && Replay(work, H, Empty(block0), Log(H, magic, es)).0 == stopped
            && (stopped == Run(work, Empty(block0), es) <==> NoneAccepted(stopped, es, n))
  {
    hide Honest, Small, Log, Replay, RunWhileAccepted, Run, Accepts, NoneAccepted;
    ReplayOfLog(work, H, magic, Empty(block0), es);
    StoppedRun(work, Empty(block0), es);
    StoppedAgrees(work, Empty(block0), es, AcceptedFirst(work, Empty(block0), es));
  }

  // ----- which blocks are accepted -----

  lemma RunAppends(work: WorkOf, db: Db, es: seq<Entry>, e: Entry)
    requires HasBest(db)
    ensures Run(work, db, es + [e]) == Connect(work, Run(work, db, es), e)
  {
    assert (es + [e])[..|es|] == es;
  }

  /** One more block: none was refused so far exactly if none was before and this one is accepted. */
  lemma {:induction false} AcceptedAppends(work: WorkOf, db: Db, es: seq<Entry>, e: Entry)
    requires HasBest(db)
    ensures AcceptedFirst(work, db, es + [e]) == |es| + 1
       <==> AcceptedFirst(work, db, es) == |es| && Accepts(Run(work, db, es), e)
    decreases |es|
  {
    hide Connect, HasBest, Accepts;
    var all := es + [e];
    if es == [] {
      assert all[1..] == [];
    } else {
      assert all[1..] == es[1..] + [e];
      assert es == [es[0]] + es[1..];
      RunSplits(work, db, es[0], es[1..]);
      AcceptedAppends(work, Connect(work, db, es[0]), es[1..], e);
    }
  }

  ghost function HashesOf(es: seq<Entry>): set<Hash256>
  {
    set i | 0 <= i < |es| :: es[i].hash
  }

  /** The block goes on behind the given ones: it is new, and the first one or a child of one of them. */
  ghost predicate GoesOn(block0: Hash256, es: seq<Entry>, e: Entry)
  {
    && e.hash !in HashesOf(es)
    && if es == [] then e.sha256 == block0 else e.hdr.hashPrevBlock in HashesOf(es)
  }

  /** The genesis block first, every other block behind its parent, none twice; forks are welcome. */
  ghost predicate ParentFirst(block0: Hash256, es: seq<Entry>)
  {
    forall i :: 0 <= i < |es| ==> GoesOn(block0, es[..i], es[i])
  }

  lemma ParentFirstAppends(block0: Hash256, es: seq<Entry>, e: Entry)
    ensures ParentFirst(block0, es + [e]) <==> ParentFirst(block0, es) && GoesOn(block0, es, e)
  {
    hide GoesOn;
    var all := es + [e];
    assert all[..|es|] == es && all[|es|] == e;
    assert forall i :: 0 <= i < |es| ==> all[..i] == es[..i] && all[i] == es[i];
    if ParentFirst(block0, all) {
      forall i | 0 <= i < |es|
        ensures GoesOn(block0, es[..i], es[i])
      {
        assert GoesOn(block0, all[..i], all[i]);
      }
      assert GoesOn(block0, all[..|es|], all[|es|]);
    }
  }

  lemma HashesAppend(es: seq<Entry>, e: Entry)
    ensures HashesOf(es + [e]) == HashesOf(es) + {e.hash}
  {
    var all := es + [e];
    assert all[|es|] == e;
    assert forall i :: 0 <= i < |es| ==> all[i] == es[i];
    forall h | h in HashesOf(es)
      ensures h in HashesOf(all)
    {
      var i :| 0 <= i < |es| && es[i].hash == h;
      assert all[i].hash == h;
    }
  }

  /** As long as none was refused, the database holds exactly the blocks handed in. */
  lemma {:induction false} HeldBlocks(work: WorkOf, block0: Hash256, es: seq<Entry>)
    requires AcceptedFirst(work, Empty(block0), es) == |es|
    ensures Run(work, Empty(block0), es).blocks.Keys == HashesOf(es) && Run(work, Empty(block0), es).block0 == block0
    decreases |es|
  {
    hide AcceptedFirst, NewNode, BecomesBest, HashesOf;
    if es == [] {
      NoHashes();
    } else {
      var init, e := es[..|es| - 1], es[|es| - 1];
      assert es == init + [e];
      AcceptedAppends(work, Empty(block0), init, e);
      HeldBlocks(work, block0, init);
      HashesAppend(init, e);
    }
  }

  lemma NoHashes()
    ensures HashesOf([]) == {}
  {
  }

  lemma AcceptsIffGoesOn(db: Db, block0: Hash256, es: seq<Entry>, e: Entry)
    requires db.blocks.Keys == HashesOf(es) && db.block0 == block0
    ensures Accepts(db, e) <==> GoesOn(block0, es, e)
  {
    if es != [] {
      assert es[0].hash in db.blocks.Keys;
      assert |db.blocks| != 0;
    } else {
      assert db.blocks == map[];
    }
  }

  /** All of a list of blocks is accepted if and only if it is parent-first, forks included. */
  lemma {:induction false} AcceptedIffParentFirst(work: WorkOf, block0: Hash256, es: seq<Entry>)
    ensures AcceptedFirst(work, Empty(block0), es) == |es| <==> ParentFirst(block0, es)
    decreases |es|
  {
    hide AcceptedFirst, ParentFirst, GoesOn, Accepts, Run, HashesOf;
    if es == [] {
      NothingHandedIn(work, block0);
    } else {
      var init, e := es[..|es| - 1], es[|es| - 1];
      assert es == init + [e];
      AcceptedIffParentFirst(work, block0, init);
      AcceptedAppends(work, Empty(block0), init, e);
      ParentFirstAppends(block0, init, e);
      if AcceptedFirst(work, Empty(block0), init) == |init| {
        HeldBlocks(work, block0, init);
        AcceptsIffGoesOn(Run(work, Empty(block0), init), block0, init, e);
      }
    }
  }

  lemma NothingHandedIn(work: WorkOf, block0: Hash256)
    ensures AcceptedFirst(work, Empty(block0), []) == 0 && ParentFirst(block0, [])
  {
  }

  // ----- a log that ends in a torn record -----

  /** Part of a message, but not all of it, is damaged. */
  lemma TornMessage(H: HashFunction, magic: Magic, command: Command, data: seq<Byte>, j: nat)
    requires |data| <= MAX_DATA && 0 < j < |MessageBytes(H, magic, command, data)|
    ensures ReadMessage(H, MessageBytes(H, magic, command, data)[..j]) == Bad
  {
    hide LittleEndian, FromLittleEndian, Checksum, Pow;
    var whole := MessageBytes(H, magic, command, data);
    if j >= HEADER_SIZE {
      Pow256Values();
      LittleEndianRoundTrip(|data|, 4);
      assert whole[16..20] == LittleEndian(|data|, 4);
      assert whole[..j][16..20] == whole[16..20];
      assert |whole| == HEADER_SIZE + |data|;
    }
  }

  lemma TornRecord(H: HashFunction, magic: Magic, e: Entry, j: nat)
    requires Small(e) && 0 < j < |Record(H, magic, e)|
    ensures ReadMessage(H, Record(H, magic, e)[..j]) == Bad
  {
    hide ReadMessage, MessageBytes, RecordData;
    TornMessage(H, magic, REC, RecordData(e), j);
  }

  /** The blocks `es` written completely, then the first j bytes of the record of e. */
  function TornLog(H: HashFunction, magic: Magic, es: seq<Entry>, e: Entry, j: nat): seq<Byte>
    requires j <= |Record(H, magic, e)|
  {
    Log(H, magic, es) + Record(H, magic, e)[..j]
  }

  /** Replaying a torn log gives the run over its complete records, up to the first refused block, and
      succeeds exactly if none was refused and the log ends between two records. */
  lemma {:induction false} ReplayOfTornLog(work: WorkOf, H: HashFunction, magic: Magic, db: Db,
                                           es: seq<Entry>, e: Entry, j: nat)
    requires HasBest(db) && Small(e) && j < |Record(H, magic, e)|
    requires forall x :: x in es ==> Honest(H, x) && Small(x)
    ensures var r := RunWhileAccepted(work, db, es);
            Replay(work, H, db, TornLog(H, magic, es, e, j)) == (r.0, r.1 && j == 0)
    decreases |es|
  {
    hide ReadMessage, Record, ParseRecord, Honest, Small, HasBest, Accepts, Connect;
    var torn := Record(H, magic, e)[..j];
    if es == [] {
      assert TornLog(H, magic, es, e, j) == torn;
      if j == 0 {
        EndOfLog(H);
      } else {
        TornRecord(H, magic, e, j);
      }
    } else {
      var x, rest := es[0], TornLog(H, magic, es[1..], e, j);
      TornLogSplits(H, magic, es, e, j);
      RecordIsRead(H, magic, x, rest);
      RecordRoundTrip(H, x);
      if Accepts(db, x) {
        ReplayOfTornLog(work, H, magic, Connect(work, db, x), es[1..], e, j);
      }
    }
  }

  lemma TornLogSplits(H: HashFunction, magic: Magic, es: seq<Entry>, e: Entry, j: nat)
    requires es != [] && j <= |Record(H, magic, e)|
    ensures TornLog(H, magic, es, e, j) == Record(H, magic, es[0]) + TornLog(H, magic, es[1..], e, j)
  {
    hide Record;
  }

  /** Every proper prefix of a log is such a torn log. */
  lemma {:induction false} EveryPrefixIsTorn(H: HashFunction, magic: Magic, es: seq<Entry>, k: nat) returns (m: nat, j: nat)
    requires k < |Log(H, magic, es)|
    ensures m < |es| && j < |Record(H, magic, es[m])|
    ensures Log(H, magic, es)[..k] == TornLog(H, magic, es[..m], es[m], j)
    decreases |es|
  {
    hide Record;
    var first := Record(H, magic, es[0]);
    if k < |first| {
      m, j := 0, k;
      assert es[..0] == [];
      assert Log(H, magic, es)[..k] == [] + first[..k];
    } else {
      var m';
      m', j := EveryPrefixIsTorn(H, magic, es[1..], k - |first|);
      m := m' + 1;
      var kept := es[..m];
      assert kept[0] == es[0] && kept[1..] == es[1..][..m'];
      TornLogSplits(H, magic, kept, es[m], j);
      assert Log(H, magic, es)[..k] == first + Log(H, magic, es[1..])[..k - |first|];
    }
  }

  /** Replaying the first k bytes of a log, for any k: m records are complete, and the replay gives the run
      over them, up to the first refused block. It succeeds exactly if none was refused and nothing of
      another record is there. */
  lemma ReplayOfPrefix(work: WorkOf, H: HashFunction, magic: Magic, db: Db, es: seq<Entry>, k: nat) returns (m: nat)
    requires HasBest(db) && k <= |Log(H, magic, es)|
    requires forall e :: e in es ==> Honest(H, e) && Small(e)
    ensures m <= |es| && |Log(H, magic, es[..m])| <= k && (m < |es| ==> k < |Log(H, magic, es[..m + 1])|)
    ensures var r := RunWhileAccepted(work, db, es[..m]);
            Replay(work, H, db, Log(H, magic, es)[..k]) == (r.0, r.1 && |Log(H, magic, es[..m])| == k)
  {
    hide Log, Record, Replay, RunWhileAccepted, Honest, Small, HasBest;
    if k == |Log(H, magic, es)| {
      m := |es|;
      assert es[..m] == es && Log(H, magic, es)[..k] == Log(H, magic, es);
      ReplayOfLog(work, H, magic, db, es);
    } else {
      var j;
      m, j := EveryPrefixIsTorn(H, magic, es, k);
      assert es[..m + 1] == es[..m] + [es[m]];
      LogAppends(H, magic, es[..m], es[m]);
      assert forall x :: x in es[..m] ==> x in es;
      ReplayOfTornLog(work, H, magic, db, es[..m], es[m], j);
    }
  }

  // ----- a block that a replay loses -----

  function Fill(b: Byte): Hash256
  {
    seq(32, _ => b)
  }

  /** A header without transactions. */
  function Header(parent: Hash256, root: Hash256): Block
  {
    Block(1, parent, root, 0, 0, 0, None)
  }

  /** The root field of a header. A hash function for an example only. */
  function RootField(bytes: seq<Byte>): Hash256
  {
    if |bytes| == 80 then bytes[36..68] else Fill(0)
  }

  function Example(parent: Hash256, root: Hash256): Entry
  {
    Entry(root, root, Header(parent, root))
  }

  lemma ExampleIsHonest(parent: Hash256, root: Hash256)
    ensures Honest(RootField, Example(parent, root)) && Small(Example(parent, root))
  {
    var hdr := Header(parent, root);
    var bytes := SerHeader(hdr);
    assert |bytes| == 80;
    assert bytes[36..68] == root;
  }

  lemma FillsDiffer(a: Byte, b: Byte)
    requires a != b
    ensures Fill(a) != Fill(b)
  {
    assert Fill(a)[0] != Fill(b)[0];
  }

  /** A genesis block, an orphan and a child of the genesis block: the child is in the database, but a
      replay ends at the orphan's record and does not have it. */
  lemma ChildIsLost(work: WorkOf, magic: Magic)
    ensures var es := [Example(Fill(0), Fill(1)), Example(Fill(9), Fill(2)), Example(Fill(1), Fill(3))];
            && (forall e :: e in es ==> Honest(RootField, e) && Small(e))
            && Fill(3) in Run(work, Empty(Fill(1)), es).blocks
            && Fill(3) !in Replay(work, RootField, Empty(Fill(1)), Log(RootField, magic, es)).0.blocks
            && !Replay(work, RootField, Empty(Fill(1)), Log(RootField, magic, es)).1
  {
    hide Honest, Small, Log, Replay, Fill, NewNode, BecomesBest, Run;
    var genesis, orphan, child := Example(Fill(0), Fill(1)), Example(Fill(9), Fill(2)), Example(Fill(1), Fill(3));
    var es := [genesis, orphan, child];
    ExampleIsHonest(Fill(0), Fill(1));
    ExampleIsHonest(Fill(9), Fill(2));
    ExampleIsHonest(Fill(1), Fill(3));
    FillsDiffer(1, 2);
    FillsDiffer(1, 3);
    FillsDiffer(1, 9);
    FillsDiffer(2, 3);
    ReplayOfLog(work, RootField, magic, Empty(Fill(1)), es);
    var db1 := Connect(work, Empty(Fill(1)), genesis);
    assert db1.blocks.Keys == {Fill(1)};
    assert es[1..] == [orphan, child];
    assert !Accepts(db1, orphan);
    RunOfThree(work, Empty(Fill(1)), genesis, orphan, child);
    assert Connect(work, db1, orphan) == db1;
    assert Accepts(db1, child);
  }

  lemma RunOfThree(work: WorkOf, db: Db, a: Entry, b: Entry, c: Entry)
    requires HasBest(db)
    ensures Run(work, db, [a, b, c]) == Connect(work, Connect(work, Connect(work, db, a), b), c)
  {
    hide Connect, HasBest;
    assert [a, b, c] == [a] + [b, c];
    RunSplits(work, db, a, [b, c]);
    var db1 := Connect(work, db, a);
    assert [b, c] == [b] + [c];
    RunSplits(work, db1, b, [c]);
    assert [c] == [c] + [];
    RunSplits(work, Connect(work, db1, b), c, []);
  }

  lemma {:induction false} LogAppends(H: HashFunction, magic: Magic, es: seq<Entry>, e: Entry)
    ensures Log(H, magic, es + [e]) == Log(H, magic, es) + Record(H, magic, e)
  {
    hide Record;
    var all := es + [e];
    if es == [] {
      assert all[1..] == [];
      assert Log(H, magic, all) == Record(H, magic, e) + [];
    } else {
      assert all[1..] == es[1..] + [e];
      LogAppends(H, magic, es[1..], e);
    }
  }
}
