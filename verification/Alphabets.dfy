/** Looking a character up in an alphabet that is listed in ascending order, as both the NXT
    address alphabet and the Base58 alphabet are. */
module Alphabets {

  ghost predicate Ascending(alphabet: string)
  {
    forall i, j :: 0 <= i < j < |alphabet| ==> alphabet[i] < alphabet[j]
  }

  /** The first place from k on at which c stands, or -1. */
  function Find(alphabet: string, c: char, k: nat): (i: int)
    requires k <= |alphabet|
    ensures -1 <= i < |alphabet| && (i >= 0 ==> i >= k && alphabet[i] == c)
    decreases |alphabet| - k
  {
    if k == |alphabet| then -1 else if alphabet[k] == c then k else Find(alphabet, c, k + 1)
  }

  lemma {:induction false} FindLetter(alphabet: string, x: nat, k: nat)
    requires k <= x < |alphabet| && Ascending(alphabet)
    ensures Find(alphabet, alphabet[x], k) == x
    decreases x - k
  {
    if k < x {
      FindLetter(alphabet, x, k + 1);
    }
  }

  /** Neighbours in order suffice. */
  lemma {:induction false} AscendingFromSteps(alphabet: string)
    requires forall i :: 0 <= i < |alphabet| - 1 ==> alphabet[i] < alphabet[i + 1]
    ensures Ascending(alphabet)
  {
    if |alphabet| > 0 {
      var init := alphabet[..|alphabet| - 1];
      forall i | 0 <= i < |init| - 1
        ensures init[i] < init[i + 1]
      {
        assert alphabet[i] < alphabet[i + 1];
      }
      AscendingFromSteps(init);
      forall i, j | 0 <= i < j < |alphabet|
        ensures alphabet[i] < alphabet[j]
      {
        if j < |init| {
          assert init[i] < init[j];
        } else if i < j - 1 {
          assert init[i] < init[j - 1];
          assert alphabet[j - 1] < alphabet[j - 1 + 1];
        } else {
          assert alphabet[i] < alphabet[i + 1];
        }
      }
    }
  }
}
