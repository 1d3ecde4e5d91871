/** Types, constants and functions that several modules share. */
module Common {

  datatype Option<+T> = None | Some(value: T)

  type Byte = x: nat | x < 256

  const TWO32 := 0x1_0000_0000

  function Min(a: int, b: int): int
  {
    if a < b then a else b
  }

  function Pow(base: nat, n: nat): nat
  {
    if n == 0 then 1 else base * Pow(base, n - 1)
  }

  lemma {:induction false} PowPositive(base: nat, n: nat)
    requires base >= 1
    ensures Pow(base, n) >= 1
  {
    if n > 0 {
      PowPositive(base, n - 1);
      assert base * Pow(base, n - 1) >= 1 * Pow(base, n - 1);
    }
  }

  /** The bytes of a text. */
  function Ascii(s: string): (b: seq<Byte>)
    requires forall i :: 0 <= i < |s| ==> s[i] < 128 as char
    ensures |b| == |s| && forall i :: 0 <= i < |s| ==> b[i] == s[i] as int
  {
    seq(|s|, i requires 0 <= i < |s| => s[i] as int)
  }
}
