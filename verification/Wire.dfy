/** The byte formats of picocoin: integers, variable-length counts and strings
    (picocoin/serialize.c), transactions and blocks (picocoin/core.c:100-195, 248-325, 431-497).
    A reader consumes a prefix of the buffer; a writer's output, read back, gives the same value
    and leaves exactly what followed. */
module Wire {
  import opened Common

  const TWO63 := 0x8000_0000_0000_0000
  const TWO64 := 0x1_0000_0000_0000_0000

  type U32 = x: nat | x < TWO32
  type S64 = x: int | -TWO63 <= x < TWO63
  type Hash256 = s: seq<Byte> | |s| == 32 witness seq(32, _ => 0)

  datatype Outpoint = Outpoint(hash: Hash256, n: U32)
  datatype TxIn = TxIn(prevout: Outpoint, scriptSig: seq<Byte>, nSequence: U32)
  datatype TxOut = TxOut(nValue: S64, scriptPubKey: seq<Byte>)
  datatype Tx = Tx(nVersion: U32, vin: seq<TxIn>, vout: seq<TxOut>, nLockTime: U32)

  /** `vtx` is absent in a header-only block. */
  datatype Block = Block(nVersion: U32, hashPrevBlock: Hash256, hashMerkleRoot: Hash256,
                         nTime: U32, nBits: U32, nNonce: U32, vtx: Option<seq<Tx>>)

  /** Outcome of reading: the value and the rest of the buffer, or a refusal. */
  datatype Parsed<+T> = Fail | Ok(value: T, rest: seq<Byte>)

  // ----- fixed-size values -----

  /** n bytes of v, least significant first; higher bits are cut off. */
  function LittleEndian(v: nat, n: nat): (s: seq<Byte>)
    ensures |s| == n
  {
    if n == 0 then [] else [v % 256] + LittleEndian(v / 256, n - 1)
  }

  function FromLittleEndian(s: seq<Byte>): nat
  {
    if s == [] then 0 else s[0] + 256 * FromLittleEndian(s[1..])
  }

  lemma {:induction false} LittleEndianRoundTrip(v: nat, n: nat)
    requires v < Pow(256, n)
    ensures FromLittleEndian(LittleEndian(v, n)) == v
  {
    if n > 0 {
      LittleEndianRoundTrip(v / 256, n - 1);
      assert LittleEndian(v, n)[1..] == LittleEndian(v / 256, n - 1);
    }
  }

  lemma {:induction false} FromLittleEndianBound(s: seq<Byte>)
    ensures FromLittleEndian(s) < Pow(256, |s|)
  {
    if s != [] {
      FromLittleEndianBound(s[1..]);
    }
  }

  lemma Pow256Values()
    ensures Pow(256, 1) == 256 && Pow(256, 2) == 0x1_0000 && Pow(256, 4) == TWO32 && Pow(256, 8) == TWO64
  {
    assert Pow(256, 3) == 0x100_0000;
    assert Pow(256, 5) == 0x100_0000_0000;
    assert Pow(256, 6) == 0x1_0000_0000_0000;
    assert Pow(256, 7) == 0x100_0000_0000_0000;
  }

  /** `deser_bytes`. */
  function Take(n: nat, buf: seq<Byte>): (r: Parsed<seq<Byte>>)
    ensures r.Ok? ==> |r.value| == n
  {
    if |buf| < n then Fail else Ok(buf[..n], buf[n..])
  }

  lemma TakeRoundTrip(s: seq<Byte>, rest: seq<Byte>)
    ensures Take(|s|, s + rest) == Ok(s, rest)
  {
    assert (s + rest)[..|s|] == s && (s + rest)[|s|..] == rest;
  }

  function SerU32(v: U32): seq<Byte>
  {
    LittleEndian(v, 4)
  }

  function DeserNat(n: nat, buf: seq<Byte>): Parsed<nat>
  {
    match Take(n, buf)
    case Fail => Fail
    case Ok(s, rest) => Ok(FromLittleEndian(s), rest)
  }

  function DeserU32(buf: seq<Byte>): Parsed<U32>
  {
    match Take(4, buf)
    case Fail => Fail
    case Ok(s, rest) =>
      FromLittleEndianBound(s);
      Pow256Values();
      Ok(FromLittleEndian(s), rest)
  }

  lemma NatRoundTrip(v: nat, n: nat, rest: seq<Byte>)
    requires v < Pow(256, n)
    ensures DeserNat(n, LittleEndian(v, n) + rest) == Ok(v, rest)
  {
    hide LittleEndian, FromLittleEndian;
    LittleEndianRoundTrip(v, n);
    TakeRoundTrip(LittleEndian(v, n), rest);
  }

  lemma U32RoundTrip(v: U32, rest: seq<Byte>)
    ensures DeserU32(SerU32(v) + rest) == Ok(v, rest)
  {
    hide LittleEndian, FromLittleEndian, Pow;
    Pow256Values();
    LittleEndianRoundTrip(v, 4);
    TakeRoundTrip(LittleEndian(v, 4), rest);
  }

  function SerS64(v: S64): seq<Byte>
  {
    LittleEndian(if v < 0 then v + TWO64 else v, 8)
  }

  function DeserS64(buf: seq<Byte>): Parsed<S64>
  {
    match Take(8, buf)
    case Fail => Fail
    case Ok(s, rest) =>
      FromLittleEndianBound(s);
      Pow256Values();
      var x := FromLittleEndian(s);
      Ok(if x < TWO63 then x else x - TWO64, rest)
  }

  lemma S64RoundTrip(v: S64, rest: seq<Byte>)
    ensures DeserS64(SerS64(v) + rest) == Ok(v, rest)
  {
    hide LittleEndian, FromLittleEndian, Pow;
    Pow256Values();
    var x: nat := if v < 0 then v + TWO64 else v;
    LittleEndianRoundTrip(x, 8);
    TakeRoundTrip(LittleEndian(x, 8), rest);
  }

  function DeserHash(buf: seq<Byte>): Parsed<Hash256>
  {
    match Take(32, buf)
    case Fail => Fail
    case Ok(s, rest) => Ok(s, rest)
  }

  lemma HashRoundTrip(h: Hash256, rest: seq<Byte>)
    ensures DeserHash(h + rest) == Ok(h, rest)
  {
    TakeRoundTrip(h, rest);
  }

  // ----- variable lengths -----

  /** `ser_varlen`, whose argument is converted to 32 bits. */
  function SerVarlen(n: nat): seq<Byte>
  {
    var len := n % TWO32;
    if len < 253 then [len]
    else if len < 0x1_0000 then [253] + LittleEndian(len, 2)
    else [254] + LittleEndian(len, 4)
  }

  /** `deser_varlen`; the eight-byte form is cut down to 32 bits. */
  function DeserVarlen(buf: seq<Byte>): Parsed<nat>
  {
    if buf == [] then Fail
    else if buf[0] == 253 then DeserNat(2, buf[1..])
    else if buf[0] == 254 then DeserNat(4, buf[1..])
    else if buf[0] == 255 then
      match DeserNat(8, buf[1..])
      case Fail => Fail
      case Ok(v, rest) => Ok(v % TWO32, rest)
    else Ok(buf[0], buf[1..])
  }

  lemma VarlenRoundTrip(n: U32, rest: seq<Byte>)
    ensures DeserVarlen(SerVarlen(n) + rest) == Ok(n, rest)
  {
    hide LittleEndian, DeserNat, Pow;
    Pow256Values();
    var buf := SerVarlen(n) + rest;
    if n < 253 {
      assert buf[1..] == rest;
    } else if n < 0x1_0000 {
      assert buf[1..] == LittleEndian(n, 2) + rest;
      NatRoundTrip(n, 2, rest);
    } else {
      assert buf[1..] == LittleEndian(n, 4) + rest;
      NatRoundTrip(n, 4, rest);
    }
  }

  /** `ser_varstr`. */
  function SerVarstr(s: seq<Byte>): seq<Byte>
  {
    SerVarlen(|s|) + s
  }

  function DeserVarstr(buf: seq<Byte>): Parsed<seq<Byte>>
  {
    match DeserVarlen(buf)
    case Fail => Fail
    case Ok(n, rest) => Take(n, rest)
  }

  lemma VarstrRoundTrip(s: seq<Byte>, rest: seq<Byte>)
    requires |s| < TWO32
    ensures DeserVarstr(SerVarstr(s) + rest) == Ok(s, rest)
  {
    hide DeserVarlen, SerVarlen, Take;
    assert SerVarstr(s) + rest == SerVarlen(|s|) + (s + rest);
    VarlenRoundTrip(|s|, s + rest);
    TakeRoundTrip(s, rest);
  }

  // ----- sequences of values -----

  function SerAll<T>(ser: T -> seq<Byte>, xs: seq<T>): seq<Byte>
  {
    if xs == [] then [] else ser(xs[0]) + SerAll(ser, xs[1..])
  }

  function Prepend<T>(x: T, r: Parsed<seq<T>>): Parsed<seq<T>>
  {
    match r
    case Fail => Fail
    case Ok(xs, rest) => Ok([x] + xs, rest)
  }

  function DeserAll<T>(deser: seq<Byte> -> Parsed<T>, n: nat, buf: seq<Byte>): Parsed<seq<T>>
  {
    if n == 0 then Ok([], buf) else
      match deser(buf)
      case Fail => Fail
      case Ok(x, rest) => Prepend(x, DeserAll(deser, n - 1, rest))
  }

  ghost predicate ReadsBack<T>(ser: T -> seq<Byte>, deser: seq<Byte> -> Parsed<T>, x: T)
  {
    forall rest :: deser(ser(x) + rest) == Ok(x, rest)
  }

  lemma {:induction false} AllRoundTrip<T>(ser: T -> seq<Byte>, deser: seq<Byte> -> Parsed<T>, xs: seq<T>, rest: seq<Byte>)
    requires forall x :: x in xs ==> ReadsBack(ser, deser, x)
    ensures DeserAll(deser, |xs|, SerAll(ser, xs) + rest) == Ok(xs, rest)
  {
    if xs == [] {
      assert SerAll(ser, xs) + rest == rest;
    } else {
      var tail := SerAll(ser, xs[1..]) + rest;
      assert SerAll(ser, xs) + rest == ser(xs[0]) + tail;
      assert ReadsBack(ser, deser, xs[0]);
      assert deser(ser(xs[0]) + tail) == Ok(xs[0], tail);
      AllRoundTrip(ser, deser, xs[1..], rest);
      assert xs == [xs[0]] + xs[1..];
    }
  }

  /** The writing loops of `ser_bp_tx` and `ser_bp_block`. */
  method WriteAll<T>(s: seq<Byte>, ser: T -> seq<Byte>, xs: seq<T>) returns (r: seq<Byte>)
    ensures r == s + SerAll(ser, xs)
  {
    r := s;
    for i := 0 to |xs|
      invariant r + SerAll(ser, xs[i..]) == s + SerAll(ser, xs)
    {
      assert xs[i..][1..] == xs[i + 1..];
      assert r + (ser(xs[i]) + SerAll(ser, xs[i + 1..])) == r + ser(xs[i]) + SerAll(ser, xs[i + 1..]);
      r := r + ser(xs[i]);
    }
    assert SerAll(ser, xs[|xs|..]) == [];
  }

  function PrependAll<T>(xs: seq<T>, r: Parsed<seq<T>>): Parsed<seq<T>>
  {
    match r
    case Fail => Fail
    case Ok(ys, rest) => Ok(xs + ys, rest)
  }

  /** The reading loops of `deser_bp_tx` and `deser_bp_block`: the first refusal ends them. */
  method ReadAll<T>(deser: seq<Byte> -> Parsed<T>, n: nat, buf: seq<Byte>) returns (r: Parsed<seq<T>>)
    ensures r == DeserAll(deser, n, buf)
  {
    var xs: seq<T>, cur := [], buf;
    PrependNone(DeserAll(deser, n, buf));
    for i := 0 to n
      invariant PrependAll(xs, DeserAll(deser, n - i, cur)) == DeserAll(deser, n, buf)
    {
      var x := deser(cur);
      if x.Fail? {
        return Fail;
      }
      PrependBoth(xs, x.value, DeserAll(deser, n - i - 1, x.rest));
      xs, cur := xs + [x.value], x.rest;
    }
    assert xs + [] == xs;
    r := Ok(xs, cur);
  }

  lemma PrependNone<T>(r: Parsed<seq<T>>)
    ensures PrependAll([], r) == r
  {
    if r.Ok? {
      assert [] + r.value == r.value;
    }
  }

  lemma PrependBoth<T>(xs: seq<T>, x: T, r: Parsed<seq<T>>)
    ensures PrependAll(xs, Prepend(x, r)) == PrependAll(xs + [x], r)
  {
    if r.Ok? {
      assert xs + ([x] + r.value) == xs + [x] + r.value;
    }
  }

  // ----- transactions -----

  function SerOutpoint(o: Outpoint): seq<Byte>
  {
    o.hash + SerU32(o.n)
  }

  function DeserOutpoint(buf: seq<Byte>): Parsed<Outpoint>
  {
    match DeserHash(buf)
    case Fail => Fail
    case Ok(hash, b1) =>
      match DeserU32(b1)
      case Fail => Fail
      case Ok(n, b2) => Ok(Outpoint(hash, n), b2)
  }

  lemma OutpointRoundTrip(o: Outpoint, rest: seq<Byte>)
    ensures DeserOutpoint(SerOutpoint(o) + rest) == Ok(o, rest)
  {
    hide DeserHash, DeserU32, SerU32;
    assert SerOutpoint(o) + rest == o.hash + (SerU32(o.n) + rest);
    HashRoundTrip(o.hash, SerU32(o.n) + rest);
    U32RoundTrip(o.n, rest);
  }

  function SerTxIn(t: TxIn): seq<Byte>
  {
    SerOutpoint(t.prevout) + SerVarstr(t.scriptSig) + SerU32(t.nSequence)
  }

  function DeserTxIn(buf: seq<Byte>): Parsed<TxIn>
  {
    match DeserOutpoint(buf)
    case Fail => Fail
    case Ok(prevout, b1) =>
      match DeserVarstr(b1)
      case Fail => Fail
      case Ok(script, b2) =>
        match DeserU32(b2)
        case Fail => Fail
        case Ok(sequence, b3) => Ok(TxIn(prevout, script, sequence), b3)
  }

  lemma TxInRoundTrip(t: TxIn, rest: seq<Byte>)
    requires |t.scriptSig| < TWO32
    ensures DeserTxIn(SerTxIn(t) + rest) == Ok(t, rest)
  {
    hide SerOutpoint, DeserOutpoint, SerVarstr, DeserVarstr, SerU32, DeserU32;
    var b2 := SerU32(t.nSequence) + rest;
    var b1 := SerVarstr(t.scriptSig) + b2;
    assert SerTxIn(t) + rest == SerOutpoint(t.prevout) + b1;
    OutpointRoundTrip(t.prevout, b1);
    VarstrRoundTrip(t.scriptSig, b2);
    U32RoundTrip(t.nSequence, rest);
  }

  function SerTxOut(t: TxOut): seq<Byte>
  {
    SerS64(t.nValue) + SerVarstr(t.scriptPubKey)
  }

  function DeserTxOut(buf: seq<Byte>): Parsed<TxOut>
  {
    match DeserS64(buf)
    case Fail => Fail
    case Ok(value, b1) =>
      match DeserVarstr(b1)
      case Fail => Fail
      case Ok(script, b2) => Ok(TxOut(value, script), b2)
  }

  lemma TxOutRoundTrip(t: TxOut, rest: seq<Byte>)
    requires |t.scriptPubKey| < TWO32
    ensures DeserTxOut(SerTxOut(t) + rest) == Ok(t, rest)
  {
    hide SerS64, DeserS64, SerVarstr, DeserVarstr;
    assert SerTxOut(t) + rest == SerS64(t.nValue) + (SerVarstr(t.scriptPubKey) + rest);
    S64RoundTrip(t.nValue, SerVarstr(t.scriptPubKey) + rest);
    VarstrRoundTrip(t.scriptPubKey, rest);
  }

  /** Counts and script lengths are 32-bit numbers in the source's structures. */
  predicate TxFits(t: Tx)
  {
    && |t.vin| < TWO32 && |t.vout| < TWO32
    && (forall x :: x in t.vin ==> |x.scriptSig| < TWO32)
    && (forall x :: x in t.vout ==> |x.scriptPubKey| < TWO32)
  }

  function SerTx(t: Tx): seq<Byte>
  {
    SerU32(t.nVersion) + SerVarlen(|t.vin|) + SerAll(SerTxIn, t.vin)
    + SerVarlen(|t.vout|) + SerAll(SerTxOut, t.vout) + SerU32(t.nLockTime)
  }

  /** A count followed by that many values. */
  function DeserVector<T>(deser: seq<Byte> -> Parsed<T>, buf: seq<Byte>): Parsed<seq<T>>
  {
    match DeserVarlen(buf)
    case Fail => Fail
    case Ok(n, rest) => DeserAll(deser, n, rest)
  }

  lemma VectorRoundTrip<T>(ser: T -> seq<Byte>, deser: seq<Byte> -> Parsed<T>, xs: seq<T>, rest: seq<Byte>)
    requires |xs| < TWO32 && forall x :: x in xs ==> ReadsBack(ser, deser, x)
    ensures DeserVector(deser, SerVarlen(|xs|) + SerAll(ser, xs) + rest) == Ok(xs, rest)
  {
    hide DeserVarlen, SerVarlen, DeserAll, SerAll;
    assert SerVarlen(|xs|) + SerAll(ser, xs) + rest == SerVarlen(|xs|) + (SerAll(ser, xs) + rest);
    VarlenRoundTrip(|xs|, SerAll(ser, xs) + rest);
    AllRoundTrip(ser, deser, xs, rest);
  }

  function DeserTx(buf: seq<Byte>): Parsed<Tx>
  {
    match DeserU32(buf)
    case Fail => Fail
    case Ok(version, b1) =>
      match DeserVector(DeserTxIn, b1)
      case Fail => Fail
      case Ok(vin, b2) =>
        match DeserVector(DeserTxOut, b2)
        case Fail => Fail
        case Ok(vout, b3) =>
          match DeserU32(b3)
          case Fail => Fail
          case Ok(lockTime, b4) => Ok(Tx(version, vin, vout, lockTime), b4)
  }

  lemma TxRoundTrip(t: Tx, rest: seq<Byte>)
    requires TxFits(t)
    ensures DeserTx(SerTx(t) + rest) == Ok(t, rest)
  {
    hide SerU32, DeserU32, SerVarlen, SerAll, DeserVector, SerTxIn, DeserTxIn, SerTxOut, DeserTxOut;
    var b3 := SerU32(t.nLockTime) + rest;
    var b2 := SerVarlen(|t.vout|) + SerAll(SerTxOut, t.vout) + b3;
    var b1 := SerVarlen(|t.vin|) + SerAll(SerTxIn, t.vin) + b2;
    assert SerTx(t) + rest == SerU32(t.nVersion) + b1;
    U32RoundTrip(t.nVersion, b1);
    forall x | x in t.vin
      ensures ReadsBack(SerTxIn, DeserTxIn, x)
    {
      TxInReadsBack(x);
    }
    VectorRoundTrip(SerTxIn, DeserTxIn, t.vin, b2);
    forall x | x in t.vout
      ensures ReadsBack(SerTxOut, DeserTxOut, x)
    {
      TxOutReadsBack(x);
    }
    VectorRoundTrip(SerTxOut, DeserTxOut, t.vout, b3);
    U32RoundTrip(t.nLockTime, rest);
  }

  /** `ser_bp_tx`. */
  method WriteTx(s: seq<Byte>, t: Tx) returns (r: seq<Byte>)
    ensures r == s + SerTx(t)
  {
    hide SerU32, SerVarlen, SerAll, SerTxIn, SerTxOut;
    var a := s + SerU32(t.nVersion) + SerVarlen(|t.vin|);
    var b := WriteAll(a, SerTxIn, t.vin);
    var c := WriteAll(b + SerVarlen(|t.vout|), SerTxOut, t.vout);
    r := c + SerU32(t.nLockTime);
  }

  /** `deser_bp_tx`. */
  method ReadTx(buf: seq<Byte>) returns (r: Parsed<Tx>)
    ensures r == DeserTx(buf)
  {
    hide DeserU32, DeserVarlen, DeserAll, DeserTxIn, DeserTxOut;
    var version := DeserU32(buf);
    if version.Fail? {
      return Fail;
    }
    var n := DeserVarlen(version.rest);
    if n.Fail? {
      return Fail;
    }
    var vin := ReadAll(DeserTxIn, n.value, n.rest);
    if vin.Fail? {
      return Fail;
    }
    n := DeserVarlen(vin.rest);
    if n.Fail? {
      return Fail;
    }
    var vout := ReadAll(DeserTxOut, n.value, n.rest);
    if vout.Fail? {
      return Fail;
    }
    var lockTime := DeserU32(vout.rest);
    if lockTime.Fail? {
      return Fail;
    }
    r := Ok(Tx(version.value, vin.value, vout.value, lockTime.value), lockTime.rest);
  }

  lemma TxInReadsBack(t: TxIn)
    requires |t.scriptSig| < TWO32
    ensures ReadsBack(SerTxIn, DeserTxIn, t)
  {
    hide SerTxIn, DeserTxIn;
    forall rest
      ensures DeserTxIn(SerTxIn(t) + rest) == Ok(t, rest)
    {
      TxInRoundTrip(t, rest);
    }
  }

  lemma TxOutReadsBack(t: TxOut)
    requires |t.scriptPubKey| < TWO32
    ensures ReadsBack(SerTxOut, DeserTxOut, t)
  {
    hide SerTxOut, DeserTxOut;
    forall rest
      ensures DeserTxOut(SerTxOut(t) + rest) == Ok(t, rest)
    {
      TxOutRoundTrip(t, rest);
    }
  }

  lemma TxReadsBack(t: Tx)
    requires TxFits(t)
    ensures ReadsBack(SerTx, DeserTx, t)
  {
    hide SerTx, DeserTx, TxFits;
    forall rest
      ensures DeserTx(SerTx(t) + rest) == Ok(t, rest)
    {
      TxRoundTrip(t, rest);
    }
  }

  // ----- blocks -----

  predicate BlockFits(b: Block)
  {
    b.vtx.Some? ==> |b.vtx.value| < TWO32 && forall t :: t in b.vtx.value ==> TxFits(t)
  }

  /** `ser_bp_block_hdr`: what the block hash is taken of. */
  function SerHeader(b: Block): seq<Byte>
  {
    SerU32(b.nVersion) + b.hashPrevBlock + b.hashMerkleRoot
    + SerU32(b.nTime) + SerU32(b.nBits) + SerU32(b.nNonce)
  }

  function SerBlock(b: Block): seq<Byte>
  {
    match b.vtx
    case None => SerHeader(b)
    case Some(vtx) => SerHeader(b) + SerVarlen(|vtx|) + SerAll(SerTx, vtx)
  }

  function DeserHeader(buf: seq<Byte>): Parsed<Block>
  {
    match DeserU32(buf)
    case Fail => Fail
    case Ok(version, b1) =>
      match DeserHash(b1)
      case Fail => Fail
      case Ok(prev, b2) =>
        match DeserHash(b2)
        case Fail => Fail
        case Ok(root, b3) =>
          match DeserU32(b3)
          case Fail => Fail
          case Ok(time, b4) =>
            match DeserU32(b4)
            case Fail => Fail
            case Ok(bits, b5) =>
              match DeserU32(b5)
              case Fail => Fail
              case Ok(nonce, b6) => Ok(Block(version, prev, root, time, bits, nonce, None), b6)
  }

  /** `deser_bp_block`: a buffer that ends after the header is a header-only block. */
  function DeserBlock(buf: seq<Byte>): Parsed<Block>
  {
    match DeserHeader(buf)
    case Fail => Fail
    case Ok(hdr, rest) =>
      if rest == [] then Ok(hdr, []) else
        match DeserVector(DeserTx, rest)
        case Fail => Fail
        case Ok(vtx, rest') => Ok(hdr.(vtx := Some(vtx)), rest')
  }

  lemma HeaderRoundTrip(b: Block, rest: seq<Byte>)
    ensures DeserHeader(SerHeader(b) + rest) == Ok(b.(vtx := None), rest)
  {
    hide SerU32, DeserU32, DeserHash;
    var b5 := SerU32(b.nNonce) + rest;
    var b4 := SerU32(b.nBits) + b5;
    var b3 := SerU32(b.nTime) + b4;
    var b2 := b.hashMerkleRoot + b3;
    var b1 := b.hashPrevBlock + b2;
    assert SerHeader(b) + rest == SerU32(b.nVersion) + b1;
    U32RoundTrip(b.nVersion, b1);
    HashRoundTrip(b.hashPrevBlock, b2);
    HashRoundTrip(b.hashMerkleRoot, b3);
    U32RoundTrip(b.nTime, b4);
    U32RoundTrip(b.nBits, b5);
    U32RoundTrip(b.nNonce, rest);
  }

  lemma VarlenNotEmpty(n: nat)
    ensures SerVarlen(n) != []
  {
  }

  /** A block reads back; a header-only one only where the buffer ends with it. */
  lemma BlockRoundTrip(b: Block, rest: seq<Byte>)
    requires BlockFits(b) && (b.vtx.None? ==> rest == [])
    ensures DeserBlock(SerBlock(b) + rest) == Ok(b, rest)
  {
    hide SerHeader, DeserHeader, SerVarlen, SerAll, SerTx, DeserTx, DeserVector, TxFits;
    match b.vtx
    case None =>
      HeaderRoundTrip(b, rest);
    case Some(vtx) =>
      var body := SerVarlen(|vtx|) + SerAll(SerTx, vtx) + rest;
      assert SerBlock(b) + rest == SerHeader(b) + body;
      HeaderRoundTrip(b, body);
      VarlenNotEmpty(|vtx|);
      forall t | t in vtx
        ensures ReadsBack(SerTx, DeserTx, t)
      {
        TxReadsBack(t);
      }
      VectorRoundTrip(SerTx, DeserTx, vtx, rest);
  }

  /** `ser_bp_block`. */
  method WriteBlock(s: seq<Byte>, b: Block) returns (r: seq<Byte>)
    ensures r == s + SerBlock(b)
  {
    hide SerHeader, SerVarlen, SerAll, SerTx;
    r := s + SerHeader(b);
    if b.vtx.Some? {
      r := WriteAll(r + SerVarlen(|b.vtx.value|), SerTx, b.vtx.value);
    }
  }

  /** `deser_bp_block`. */
  method ReadBlock(buf: seq<Byte>) returns (r: Parsed<Block>)
    ensures r == DeserBlock(buf)
  {
    hide DeserHeader, DeserVarlen, DeserAll, DeserTx;
    r := DeserHeader(buf);
    if r.Fail? || r.rest == [] {
      return;
    }
    var hdr, n := r.value, DeserVarlen(r.rest);
    if n.Fail? {
      return Fail;
    }
    var vtx := ReadAll(DeserTx, n.value, n.rest);
    if vtx.Fail? {
      return Fail;
    }
    r := Ok(hdr.(vtx := Some(vtx.value)), vtx.rest);
  }
}
