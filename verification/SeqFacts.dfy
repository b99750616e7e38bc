/** Facts about sequences that the verifier is better told than left to search for. */
module SeqFacts {

  lemma ConcatParts<T>(a: seq<T>, b: seq<T>)
    ensures (a + b)[..|a|] == a && (a + b)[|a|..] == b
  {
  }

  lemma ConcatAssoc<T>(a: seq<T>, b: seq<T>, c: seq<T>)
    ensures (a + b) + c == a + (b + c)
  {
  }

  lemma DropDrop<T>(s: seq<T>, i: nat, j: nat)
    requires i + j <= |s|
    ensures s[i..][j..] == s[i + j..]
  {
  }

  lemma DropSlice<T>(s: seq<T>, i: nat, j: nat, k: nat)
    requires j <= k && i + k <= |s|
    ensures s[i..][j..k] == s[i + j..i + k]
  {
  }

  lemma SliceSlice<T>(s: seq<T>, i: nat, j: nat, h: nat, k: nat)
    requires i <= j <= |s| && h <= k <= j - i
    ensures s[i..j][h..k] == s[i + h..i + k]
  {
    assert |s[i..j][h..k]| == k - h == |s[i + h..i + k]|;
    forall n | 0 <= n < k - h ensures s[i..j][h..k][n] == s[i + h..i + k][n] {
      assert s[i..j][h..k][n] == s[i..j][h + n] == s[i + (h + n)];
    }
  }
}
