// Overlaps between a pattern and a text: the mathematics under the
// Knuth-Morris-Pratt searcher and under every claim about delimiters.

module Matching {

  /** The first k characters of p are the k characters of s before position e. */
  ghost predicate Agree(p: string, s: string, e: int, k: int)
    decreases k
  {
    && 0 <= k <= |p| && k <= e <= |s|
    && (k > 0 ==> p[k - 1] == s[e - 1] && Agree(p, s, e - 1, k - 1))
  }

  /** The longest prefix of p, of at most k characters, that ends at position e of s. */
  ghost function LongestUpTo(p: string, s: string, e: int, k: nat): (r: nat)
    ensures r <= k
  {
    if k == 0 || Agree(p, s, e, k) then k else LongestUpTo(p, s, e, k - 1)
  }

  /** The length of the longest prefix of p that is a suffix of s. */
  ghost function Longest(p: string, s: string): (r: nat)
    ensures r <= |p|
  {
    LongestUpTo(p, s, |s|, |p|)
  }

  /** The length of the longest proper border of the first k characters of p. */
  ghost function Border(p: string, k: nat): (r: nat)
    requires 1 <= k
    ensures r < k
  {
    LongestUpTo(p, p, k, k - 1)
  }

  /** p occurs in s with its last character just before position e. */
  ghost predicate OccursAt(p: string, s: string, e: int) {
    Agree(p, s, e, |p|)
  }

  ghost predicate Absent(p: string, s: string) {
    forall e :: !OccursAt(p, s, e)
  }

  /** The only place where p occurs in x + p is at its very end. */
  ghost predicate FirstAtEnd(p: string, x: string) {
    forall e :: OccursAt(p, x + p, e) ==> e == |x| + |p|
  }

  /** Agree, spelled out: it is equality of the two slices. */
  lemma {:induction false} AgreeIsEquality(p: string, s: string, e: int, k: int)
    ensures Agree(p, s, e, k) <==>
      0 <= k <= |p| && k <= e <= |s| && p[..k] == s[e - k..e]
  {
    if 0 < k <= |p| && k <= e <= |s| {
      AgreeIsEquality(p, s, e - 1, k - 1);
      assert p[..k] == p[..k - 1] + [p[k - 1]];
      assert s[e - k..e] == s[e - k..e - 1] + [s[e - 1]];
    }
  }

  lemma {:induction false} AgreeAt(p: string, s: string, e: int, k: int, i: nat)
    requires Agree(p, s, e, k) && i < k
    ensures p[i] == s[e - k + i]
  {
    if i < k - 1 {
      AgreeAt(p, s, e - 1, k - 1, i);
    }
  }

  lemma {:induction false} LongestUpToMax(p: string, s: string, e: int, k: nat, j: int)
    requires 0 <= e <= |s|
    ensures Agree(p, s, e, LongestUpTo(p, s, e, k))
    ensures Agree(p, s, e, j) && j <= k ==> j <= LongestUpTo(p, s, e, k)
  {
    if k > 0 && !Agree(p, s, e, k) {
      LongestUpToMax(p, s, e, k - 1, j);
    }
  }

  /** Longest is an overlap, and no overlap is longer. */
  lemma LongestMax(p: string, s: string, j: int)
    ensures Agree(p, s, |s|, Longest(p, s))
    ensures Agree(p, s, |s|, j) ==> j <= Longest(p, s)
  {
    LongestUpToMax(p, s, |s|, |p|, j);
  }

  /** Longest, spelled out: of all prefixes that the text ends with, the longest one. */
  lemma LongestIs(p: string, s: string, k: nat)
    ensures Longest(p, s) == k <==>
      && k <= |p| && k <= |s| && p[..k] == s[|s| - k..]
      && forall j: nat :: k < j <= |p| && j <= |s| ==> p[..j] != s[|s| - j..]
  {
    forall j: nat
      ensures Agree(p, s, |s|, j) <==> j <= |p| && j <= |s| && p[..j] == s[|s| - j..]
    {
      AgreeIsEquality(p, s, |s|, j);
      assert j <= |s| ==> s[|s| - j..|s|] == s[|s| - j..];
    }
    hide Agree;
    LongestMax(p, s, k);
    forall j: nat
      ensures Agree(p, s, |s|, j) ==> j <= Longest(p, s)
    {
      LongestMax(p, s, j);
    }
  }

  /** Border is a proper border, and no proper border is longer. */
  lemma BorderMax(p: string, k: nat, j: int)
    requires 1 <= k <= |p|
    ensures Agree(p, p, k, Border(p, k))
    ensures j < k && Agree(p, p, k, j) ==> j <= Border(p, k)
  {
    LongestUpToMax(p, p, k, k - 1, j);
  }

  /** Agreement looks only at the characters before e. */
  lemma {:induction false} AgreePrefix(p: string, s: string, t: string, e: int, k: int)
    requires 0 <= e <= |s|
    ensures Agree(p, s + t, e, k) <==> Agree(p, s, e, k)
  {
    if 0 < k <= |p| && k <= e {
      AgreePrefix(p, s, t, e - 1, k - 1);
    }
  }

  /** Below a known overlap j, the overlaps of s are the overlaps of p itself at j. */
  lemma {:induction false} AgreeWithin(p: string, s: string, e: int, j: int, k: int)
    requires Agree(p, s, e, j) && k <= j
    ensures Agree(p, s, e, k) <==> Agree(p, p, j, k)
  {
    if 0 < k {
      AgreeWithin(p, s, e - 1, j - 1, k - 1);
    }
  }

  /** k is an overlap after the character c, given that m was the longest one before. */
  ghost predicate Extends(p: string, m: nat, c: char, k: nat) {
    1 <= k <= |p| && p[k - 1] == c && Agree(p, p, m, k - 1)
  }

  ghost function DeltaUpTo(p: string, m: nat, c: char, k: nat): (r: nat)
    ensures r <= k && (r > 0 ==> Extends(p, m, c, r))
  {
    if k == 0 || Extends(p, m, c, k) then k else DeltaUpTo(p, m, c, k - 1)
  }

  /** The longest overlap after one more character, from the previous one alone. */
  ghost function Delta(p: string, m: nat, c: char): (r: nat)
    ensures r <= m + 1
  {
    DeltaUpTo(p, m, c, m + 1)
  }

  lemma {:induction false} DeltaUpToMax(p: string, m: nat, c: char, k: nat, j: nat)
    requires j <= k && Extends(p, m, c, j)
    ensures j <= DeltaUpTo(p, m, c, k)
  {
    if k > 0 && !Extends(p, m, c, k) {
      DeltaUpToMax(p, m, c, k - 1, j);
    }
  }

  /** The longest overlap is a sufficient summary of the text seen so far. */
  lemma LongestSnoc(p: string, s: string, c: char)
    ensures Longest(p, s + [c]) == Delta(p, Longest(p, s), c)
  {
    var t, m := s + [c], Longest(p, s);
    var old', new' := Delta(p, m, c), Longest(p, t);
    if new' > 0 {
      LongestMax(p, s, new' - 1);
      LongestMax(p, t, 0);
      AgreePrefix(p, s, [c], |s|, new' - 1);
      AgreeWithin(p, s, |s|, m, new' - 1);
      DeltaUpToMax(p, m, c, m + 1, new');
    }
    if old' > 0 {
      LongestMax(p, s, 0);
      AgreeWithin(p, s, |s|, m, old' - 1);
      AgreePrefix(p, s, [c], |s|, old' - 1);
      LongestMax(p, t, old');
    }
  }

  /** A full overlap is an occurrence at the end. */
  lemma FullOccurrence(p: string, s: string)
    ensures OccursAt(p, s, |s|) <==> Longest(p, s) == |p|
  {
    LongestMax(p, s, |p|);
  }
}
