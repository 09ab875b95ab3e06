/** The Hamming distance of `scripts/qctools.py`: the number of positions at which two strings
    differ, counted over the pairs produced by `zip`, so the longer string is truncated. */
module Hamming {

  function Min(a: nat, b: nat): nat { if a <= b then a else b }

  /** `sum(c1 != c2 for c1, c2 in zip(s1, s2))`. */
  function HammingDist(s1: string, s2: string): (r: nat)
    ensures r <= |s1| && r <= |s2|
  {
    if |s1| == 0 || |s2| == 0 then 0
    else (if s1[0] != s2[0] then 1 else 0) + HammingDist(s1[1..], s2[1..])
  }

  predicate IsBitString(s: string) {
    forall i :: 0 <= i < |s| ==> s[i] == '0' || s[i] == '1'
  }

  function Flip(b: char): char { if b == '0' then '1' else '0' }

  lemma {:induction false} DistSelf(s: string)
    ensures HammingDist(s, s) == 0
  {
    if |s| > 0 { DistSelf(s[1..]); }
  }

  lemma {:induction false} DistSymmetric(s1: string, s2: string)
    ensures HammingDist(s1, s2) == HammingDist(s2, s1)
  {
    if |s1| > 0 && |s2| > 0 { DistSymmetric(s1[1..], s2[1..]); }
  }

  /** The distance is zero exactly when the strings agree on every position `zip` visits. */
  lemma {:induction false} DistZeroIffAgree(s1: string, s2: string)
    ensures HammingDist(s1, s2) == 0 <==> forall i :: 0 <= i < Min(|s1|, |s2|) ==> s1[i] == s2[i]
  {
    if |s1| > 0 && |s2| > 0 {
      DistZeroIffAgree(s1[1..], s2[1..]);
      if HammingDist(s1, s2) == 0 {
        forall i | 0 <= i < Min(|s1|, |s2|) ensures s1[i] == s2[i] {
          if i > 0 { assert s1[1..][i - 1] == s2[1..][i - 1]; }
        }
      } else if s1[0] == s2[0] {
        var j :| 0 <= j < Min(|s1| - 1, |s2| - 1) && s1[1..][j] != s2[1..][j];
        assert s1[j + 1] != s2[j + 1];
      }
    }
  }

  /** For strings of equal length, distance zero means equal strings. */
  lemma DistZeroIffEqual(s1: string, s2: string)
    requires |s1| == |s2|
    ensures HammingDist(s1, s2) == 0 <==> s1 == s2
  {
    DistZeroIffAgree(s1, s2);
    if s1 == s2 { DistSelf(s1); }
  }

  /** The triangle inequality, for strings of one common length. */
  lemma {:induction false} Triangle(a: string, b: string, c: string)
    requires |a| == |b| == |c|
    ensures HammingDist(a, c) <= HammingDist(a, b) + HammingDist(b, c)
  {
    if |a| > 0 { Triangle(a[1..], b[1..], c[1..]); }
  }

  /** Replacing one character changes the distance to the original by exactly that position. */
  lemma {:induction false} DistUpdate(s: string, i: nat, ch: char)
    requires i < |s|
    ensures HammingDist(s, s[i := ch]) == if ch != s[i] then 1 else 0
  {
    if i == 0 {
      assert s[i := ch][1..] == s[1..];
      DistSelf(s[1..]);
    } else {
      assert s[i := ch][1..] == s[1..][i - 1 := ch];
      DistUpdate(s[1..], i - 1, ch);
    }
  }

  /** Flipping one bit of a bit string gives a string at distance exactly 1, still a bit string. */
  lemma FlipOne(s: string, i: nat)
    requires IsBitString(s) && i < |s|
    ensures IsBitString(s[i := Flip(s[i])])
    ensures HammingDist(s, s[i := Flip(s[i])]) == 1
  {
    DistUpdate(s, i, Flip(s[i]));
  }
}
