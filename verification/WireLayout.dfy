/** Where the fields of a serialised value stand, byte by byte, and which of the forms of a length is
    written (picocoin/serialize.c, picocoin/core.c:100-195, 297-325, 472-497). */
module WireLayout {
  import opened Common
  import opened Wire
  import opened Digits

  /** The n bytes from index `at` on are those of v, the lowest first. */
  ghost predicate Writes(s: seq<Byte>, at: nat, v: nat, n: nat)
  {
    at + n <= |s| && forall i: nat :: i < n ==> s[at + i] == DigitAt(256, v, i)
  }

  // ----- numbers -----

  lemma {:induction false} ByteOf(v: nat, n: nat, i: nat)
    requires i < n
    ensures LittleEndian(v, n)[i] == DigitAt(256, v, i)
    decreases n
  {
    hide DigitAt;
    if i == 0 {
      LowestDigit(256, v);
    } else {
      ByteOf(v / 256, n - 1, i - 1);
      assert LittleEndian(v, n)[i] == LittleEndian(v / 256, n - 1)[i - 1];
      NextDigit(256, v, i);
    }
  }

  lemma LittleEndianWrites(v: nat, n: nat)
    ensures Writes(LittleEndian(v, n), 0, v, n)
  {
    hide DigitAt, LittleEndian;
    var s := LittleEndian(v, n);
    forall i: nat | i < n
      ensures s[0 + i] == DigitAt(256, v, i)
    {
      ByteOf(v, n, i);
    }
  }

  /** A number inside a longer text. */
  lemma WritesInside(before: seq<Byte>, s: seq<Byte>, after: seq<Byte>, v: nat, n: nat)
    requires Writes(s, 0, v, n) && |s| == n
    ensures Writes(before + s + after, |before|, v, n)
  {
    hide DigitAt;
    var all := before + s + after;
    forall i: nat | i < n
      ensures all[|before| + i] == DigitAt(256, v, i)
    {
      assert all[|before| + i] == s[0 + i];
    }
  }

  lemma U32Writes(v: U32)
    ensures |SerU32(v)| == 4 && Writes(SerU32(v), 0, v, 4)
  {
    LittleEndianWrites(v, 4);
  }

  /** Negative values are written in two's complement. */
  lemma S64Writes(v: S64)
    ensures |SerS64(v)| == 8 && Writes(SerS64(v), 0, if v < 0 then v + 0x1_0000_0000_0000_0000 else v, 8)
  {
    hide LittleEndian, Writes;
    LittleEndianWrites(if v < 0 then v + TWO64 else v, 8);
  }

  // ----- lengths -----

  /** The form that is written is the shortest of those that are read as the same length. */
  lemma VarlenIsShortest(n: U32, s: seq<Byte>)
    requires DeserVarlen(s) == Ok(n, [])
    ensures |SerVarlen(n)| <= |s|
  {
    hide FromLittleEndian, LittleEndian, Pow;
    Pow256Values();
    var body := s[1..];
    if s[0] == 253 {
      ShortNumber(body, 2, n);
    } else if s[0] == 254 {
      assert |body| == 4;
    } else if s[0] == 255 {
      assert |body| == 8;
    }
  }

  lemma ShortNumber(body: seq<Byte>, k: nat, n: nat)
    requires DeserNat(k, body) == Ok(n, [])
    ensures |body| == k && n < Pow(256, k)
  {
    hide Pow;
    assert body[..k] == body;
    FromLittleEndianBound(body);
  }

  /** All forms that are read. */
  lemma VarlenForms(v: nat, rest: seq<Byte>)
    ensures v < 253 ==> DeserVarlen([v] + rest) == Ok(v, rest)
    ensures v < 0x1_0000 ==> DeserVarlen([253] + LittleEndian(v, 2) + rest) == Ok(v, rest)
    ensures v < TWO32 ==> DeserVarlen([254] + LittleEndian(v, 4) + rest) == Ok(v, rest)
    ensures v < TWO64 ==> DeserVarlen([255] + LittleEndian(v, 8) + rest) == Ok(v % TWO32, rest)
  {
    hide LittleEndian, DeserNat, Pow;
    Pow256Values();
    if v < 253 {
      assert ([v] + rest)[1..] == rest;
    }
    if v < 0x1_0000 {
      assert ([253] + LittleEndian(v, 2) + rest)[1..] == LittleEndian(v, 2) + rest;
      NatRoundTrip(v, 2, rest);
    }
    if v < TWO32 {
      assert ([254] + LittleEndian(v, 4) + rest)[1..] == LittleEndian(v, 4) + rest;
      NatRoundTrip(v, 4, rest);
    }
    if v < TWO64 {
      assert ([255] + LittleEndian(v, 8) + rest)[1..] == LittleEndian(v, 8) + rest;
      NatRoundTrip(v, 8, rest);
    }
  }

  // ----- structures -----

  lemma HeaderLayout(b: Block)
    ensures var s := SerHeader(b);
            && |s| == 80 && Writes(s, 0, b.nVersion, 4)
            && s[4..36] == b.hashPrevBlock && s[36..68] == b.hashMerkleRoot
            && Writes(s, 68, b.nTime, 4) && Writes(s, 72, b.nBits, 4) && Writes(s, 76, b.nNonce, 4)
  {
    hide SerU32, Writes;
    U32Writes(b.nVersion);
    U32Writes(b.nTime);
    U32Writes(b.nBits);
    U32Writes(b.nNonce);
    var s := SerHeader(b);
    InText(s, 0, SerU32(b.nVersion), b.nVersion, 4);
    InText(s, 68, SerU32(b.nTime), b.nTime, 4);
    InText(s, 72, SerU32(b.nBits), b.nBits, 4);
    InText(s, 76, SerU32(b.nNonce), b.nNonce, 4);
  }

  lemma InText(s: seq<Byte>, at: nat, part: seq<Byte>, v: nat, n: nat)
    requires at + n <= |s| && |part| == n && s[at..at + n] == part && Writes(part, 0, v, n)
    ensures Writes(s, at, v, n)
  {
    hide Writes;
    WritesInside(s[..at], part, s[at + n..], v, n);
    assert s == s[..at] + part + s[at + n..];
  }

  lemma OutpointLayout(o: Outpoint)
    ensures var s := SerOutpoint(o); |s| == 36 && s[..32] == o.hash && Writes(s, 32, o.n, 4)
  {
    hide SerU32, Writes;
    U32Writes(o.n);
    InText(SerOutpoint(o), 32, SerU32(o.n), o.n, 4);
  }

  /** Behind its length, a script stands as it is. */
  lemma TxInLayout(t: TxIn)
    ensures var s, k, n := SerTxIn(t), |SerVarlen(|t.scriptSig|)|, |t.scriptSig|;
            && |s| == 40 + k + n && s[..32] == t.prevout.hash && Writes(s, 32, t.prevout.n, 4)
            && s[36..36 + k] == SerVarlen(n) && s[36 + k..36 + k + n] == t.scriptSig
            && Writes(s, 36 + k + n, t.nSequence, 4)
  {
    hide SerU32, Writes, SerVarlen;
    var s, k, n := SerTxIn(t), |SerVarlen(|t.scriptSig|)|, |t.scriptSig|;
    U32Writes(t.nSequence);
    U32Writes(t.prevout.n);
    InText(s, 32, SerU32(t.prevout.n), t.prevout.n, 4);
    InText(s, 36 + k + n, SerU32(t.nSequence), t.nSequence, 4);
  }

  lemma TxOutLayout(t: TxOut)
    ensures var s, k := SerTxOut(t), |SerVarlen(|t.scriptPubKey|)|;
            && |s| == 8 + k + |t.scriptPubKey| && s[8..8 + k] == SerVarlen(|t.scriptPubKey|)
            && s[8 + k..] == t.scriptPubKey
            && Writes(s, 0, if t.nValue < 0 then t.nValue + 0x1_0000_0000_0000_0000 else t.nValue, 8)
  {
    hide SerS64, Writes, SerVarlen;
    S64Writes(t.nValue);
    InText(SerTxOut(t), 0, SerS64(t.nValue), if t.nValue < 0 then t.nValue + TWO64 else t.nValue, 8);
  }

  /** Version first, lock time last; the inputs come before the outputs. */
  lemma TxLayout(t: Tx)
    ensures var s, ins, outs := SerTx(t), SerAll(SerTxIn, t.vin), SerAll(SerTxOut, t.vout);
            var i, o := 4 + |SerVarlen(|t.vin|)|, |SerTx(t)| - 4 - |SerAll(SerTxOut, t.vout)|;
            && i + |ins| + |SerVarlen(|t.vout|)| == o
            && Writes(s, 0, t.nVersion, 4) && s[4..i] == SerVarlen(|t.vin|) && s[i..i + |ins|] == ins
            && s[i + |ins|..o] == SerVarlen(|t.vout|) && s[o..|s| - 4] == outs && Writes(s, |s| - 4, t.nLockTime, 4)
  {
    hide SerU32, Writes, SerVarlen, SerAll;
    var s := SerTx(t);
    U32Writes(t.nVersion);
    U32Writes(t.nLockTime);
    InText(s, 0, SerU32(t.nVersion), t.nVersion, 4);
    InText(s, |s| - 4, SerU32(t.nLockTime), t.nLockTime, 4);
  }
}
