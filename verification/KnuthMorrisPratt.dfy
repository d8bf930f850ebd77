// The online searcher of knuth_morris_pratt_searcher.cpp: one character per
// call, with a failure table built once per pattern.

module KnuthMorrisPratt {
  import opened Matching

  /** One more than the largest size_t; `m` wraps around at this value. */
  const SIZE_T: nat := 0x1_0000_0000_0000_0000

  function Wrap(x: int): (r: nat)
    ensures r < SIZE_T
  {
    x % SIZE_T
  }

  /** How many characters the search has moved on from the given offset. */
  function Moved(m: nat, i: nat, offset: nat): (r: nat) {
    Wrap(m + i - offset)
  }

  lemma MovedNone(m: nat, i: nat)
    ensures Moved(m, i, Wrap(m + i)) == 0
  {
  }

  lemma MovedHit(m: nat, i: nat, offset: nat)
    requires Moved(m, i, offset) == 0
    ensures Moved(m, i + 1, offset) == 1
  {
  }

  /** Falling back to a border keeps the position in the text; without one it moves on. */
  lemma MovedMiss(m: nat, i: nat, t: int, offset: nat)
    requires -1 <= t <= i && Moved(m, i, offset) == 0
    ensures t > -1 ==> Moved(Wrap(m + i - t), t, offset) == 0
    ensures t == -1 && i == 0 ==> Moved(Wrap(m + i - t), 0, offset) == 1
  {
  }

  /** Entry k of the table is the longest proper border of the first k characters. */
  ghost predicate FilledTo(p: string, table: seq<int>, pos: int) {
    && |table| == |p| + 1
    && table[0] == -1
    && forall k :: 1 <= k < pos && k < |p| ==> table[k] == Border(p, k)
  }

  ghost predicate TableFor(p: string, table: seq<int>) {
    |p| >= 2 && FilledTo(p, table, |p|)
  }

  /** Where a search step stands: after m matched characters and the new character c,
      the answer is still the longest extension of an overlap of at most j. */
  ghost predicate Candidate(p: string, m: nat, c: char, j: nat, answer: nat) {
    && Agree(p, p, m, j) && j < |p|
    && answer == DeltaUpTo(p, m, c, j + 1)
  }

  /** Lengths that extend no overlap can be passed over. */
  lemma {:induction false} PassOver(p: string, m: nat, c: char, lo: nat, hi: nat)
    requires lo <= hi
    requires forall k: nat :: lo < k <= hi ==> !Extends(p, m, c, k)
    ensures DeltaUpTo(p, m, c, hi) == DeltaUpTo(p, m, c, lo)
  {
    if lo < hi {
      PassOver(p, m, c, lo, hi - 1);
    }
  }

  /** When j cannot be extended, the next one to try is the longest border of j. */
  lemma CandidateMiss(p: string, m: nat, c: char, j: nat, answer: nat)
    requires Candidate(p, m, c, j, answer) && p[j] != c
    ensures j == 0 ==> answer == 0
    ensures j > 0 ==> Candidate(p, m, c, Border(p, j), answer)
  {
    var next := if j == 0 then 0 else Border(p, j) + 1;
    forall k: nat | next < k <= j + 1
      ensures !Extends(p, m, c, k)
    {
      if Extends(p, m, c, k) {
        AgreeWithin(p, p, m, j, k - 1);
        BorderMax(p, j, k - 1);
      }
    }
    PassOver(p, m, c, next, j + 1);
    if j > 0 {
      BorderMax(p, j, 0);
      AgreeWithin(p, p, m, j, Border(p, j));
    }
  }

  lemma {:induction false} AgreeSelf(p: string, k: nat)
    requires k <= |p|
    ensures Agree(p, p, k, k)
  {
    if k > 0 {
      AgreeSelf(p, k - 1);
    }
  }

  class Searcher {
    var m: nat
    var i: nat
    var pattern: string
    var table: seq<int>

    // Characters given since the last reset, and loop iterations spent on them.
    ghost var seen: string
    ghost var work: nat

    /** A fresh searcher has no pattern; the table is rebuilt only for a new one. */
    ghost predicate Valid()
      reads this
    {
      pattern == "" || TableFor(pattern, table)
    }

    /** Usable by PartialSearch. The work spent is at most two iterations a character. */
    ghost predicate Ready()
      reads this
    {
      && TableFor(pattern, table)
      && i < |pattern|
      && m < SIZE_T
      && work + i <= 2 * |seen|
    }

    /** i summarises all the characters since the last reset. */
    ghost predicate Tracking()
      reads this
    {
      Ready() && i == Longest(pattern, seen)
    }

    constructor ()
      ensures Valid() && pattern == ""
    {
      m, i, pattern, table, seen, work := 0, 0, "", [], "", 0;
    }

    method Init(p: string)
      requires Valid() && 2 <= |p|
      modifies this
      ensures Valid() && Tracking() && pattern == p && seen == "" && i == 0
      ensures old(pattern) == p ==> table == old(table)
    {
      if p != pattern {
        pattern := p;
        table := BuildTable(pattern);
      }
      Reset();
    }

    method Reset()
      requires Valid() && pattern != ""
      modifies `m, `i, `seen, `work
      ensures Tracking() && seen == "" && i == 0
    {
      m, i := 0, 0;
      seen, work := "", 0;
      LongestMax(pattern, seen, 0);
    }

    /** The answer is the longest prefix of the pattern that the text now ends with;
        it is the whole pattern exactly at an occurrence. After that the searcher has
        lost track of the text until the next reset. */
    method PartialSearch(c: char) returns (matched: nat)
      requires Ready()
      modifies `m, `i, `seen, `work
      ensures Ready() && seen == old(seen) + [c]
      ensures matched == Delta(pattern, old(i), c)
      ensures old(Tracking()) ==> matched == Longest(pattern, seen)
      ensures old(Tracking()) ==>
        && matched <= |pattern| && matched <= |seen| && pattern[..matched] == seen[|seen| - matched..]
        && forall j: nat :: matched < j <= |pattern| && j <= |seen| ==> pattern[..j] != seen[|seen| - j..]
      ensures old(Tracking()) ==> (matched == |pattern| <==> OccursAt(pattern, seen, |seen|))
      ensures matched < |pattern| ==> i == matched
      ensures matched >= |pattern| ==> i == |pattern| - 1
    {
      LongestSnoc(pattern, seen, c);
      FullOccurrence(pattern, seen + [c]);
      seen := seen + [c];
      ghost var k := i;
      AgreeSelf(pattern, k);
      matched := Step(c, k);
      LongestIs(pattern, seen, matched);
    }

    /** The loop of partial_search. */
    method Step(c: char, ghost k: nat) returns (matched: nat)
      requires TableFor(pattern, table) && i < |pattern| && m < SIZE_T
      requires k == i && Agree(pattern, pattern, k, k)
      modifies `m, `i, `work
      ensures i < |pattern| && m < SIZE_T
      ensures matched == Delta(pattern, k, c)
      ensures matched < |pattern| ==> i == matched
      ensures matched >= |pattern| ==> i == |pattern| - 1
      ensures work + i <= old(work) + k + 2
    {
      var offset := Wrap(m + i);
      MovedNone(m, i);
      ghost var answer, moved := Delta(pattern, k, c), false;
      while Moved(m, i, offset) < 1
        invariant i < |pattern| && m < SIZE_T
        invariant Moved(m, i, offset) == if moved then 1 else 0
        invariant work + i <= old(work) + k + if moved then 2 else 0
        invariant if moved then i == answer else Candidate(pattern, k, c, i, answer)
        decreases !moved, i
      {
        work := work + 1;
        if pattern[i] == c {
          assert Extends(pattern, k, c, i + 1);
          if i == |pattern| - 1 {
            return i + 1;
          }
          MovedHit(m, i, offset);
          moved := true;
          i := i + 1;
        } else {
          CandidateMiss(pattern, k, c, i, answer);
          MovedMiss(m, i, table[i], offset);
          m := Wrap(m + i - table[i]);
          if table[i] > -1 {
            i := table[i];
          } else {
            moved := true;
            i := 0;
          }
        }
      }
      return i;
    }
  }

  /** The loop of BuildTable: entries below pos are right, and the border under
      extension is a candidate for entry pos. */
  ghost predicate Building(p: string, table: seq<int>, pos: nat, condition: nat) {
    && condition + 1 < pos <= |p|
    && FilledTo(p, table, pos)
    && (pos < |p| ==> Candidate(p, pos - 1, p[pos - 1], condition, Border(p, pos)))
  }

  /** A border of k characters is a border of k - 1 of them, extended by the last. */
  lemma {:induction false} BorderIsExtension(p: string, k: nat, j: nat)
    requires 1 <= k <= |p| && j <= k
    ensures LongestUpTo(p, p, k, j) == DeltaUpTo(p, k - 1, p[k - 1], j)
  {
    if j > 0 {
      BorderIsExtension(p, k, j - 1);
    }
  }

  lemma FillNext(p: string, table: seq<int>, pos: nat, condition: nat)
    requires FilledTo(p, table, pos) && 1 <= pos < |p| && condition == Border(p, pos)
    ensures Building(p, table[pos := condition], pos + 1, condition)
  {
    if pos + 1 < |p| {
      BorderMax(p, pos, 0);
      BorderIsExtension(p, pos + 1, pos);
      forall k: nat | condition + 1 < k <= pos
        ensures !Extends(p, pos, p[pos], k)
      {
        BorderMax(p, pos, k - 1);
      }
      PassOver(p, pos, p[pos], condition + 1, pos);
    }
  }

  lemma FillStart(p: string, table: seq<int>)
    requires 2 <= |p| && |table| == |p| + 1 && table[0] == -1 && table[1] == 0
    ensures Building(p, table, 2, 0)
  {
    FillNext(p, table, 1, 0);
    assert table[1 := 0] == table;
  }

  lemma FillHit(p: string, table: seq<int>, pos: nat, condition: nat)
    requires Building(p, table, pos, condition) && pos < |p| && p[pos - 1] == p[condition]
    ensures Building(p, table[pos := condition + 1], pos + 1, condition + 1)
  {
    assert Extends(p, pos - 1, p[pos - 1], condition + 1);
    FillNext(p, table, pos, condition + 1);
  }

  lemma FillMiss(p: string, table: seq<int>, pos: nat, condition: nat)
    requires Building(p, table, pos, condition) && pos < |p| && p[pos - 1] != p[condition]
    ensures condition > 0 ==> 0 <= table[condition] < condition && Building(p, table, pos, table[condition])
    ensures condition == 0 ==> Building(p, table[pos := 0], pos + 1, 0)
  {
    CandidateMiss(p, pos - 1, p[pos - 1], condition, Border(p, pos));
    if condition == 0 {
      FillNext(p, table, pos, 0);
    }
  }

  lemma OneCharacter(p: string, k: nat)
    requires k < |p|
    ensures p[k..k + 1] == [p[k]]
  {
  }

  method BuildTable(p: string) returns (table: seq<int>)
    requires 2 <= |p|
    ensures TableFor(p, table)
  {
    var pos, condition := 2, 0;
    table := seq(|p| + 1, _ => 0);
    if |p| > 2 {
      table := table[|p| := 0];
    } else {
      table := table[2 := 0];
    }
    table := table[0 := -1];
    table := table[1 := 0];
    FillStart(p, table);
    while pos < |p|
      invariant 2 <= pos && 0 <= condition && Building(p, table, pos, condition)
      decreases 2 * (|p| - pos) + condition
    {
      OneCharacter(p, pos - 1);
      OneCharacter(p, condition);
      if p[pos - 1..pos] == p[condition..condition + 1] {
        FillHit(p, table, pos, condition);
        condition := condition + 1;
        table := table[pos := condition];
        pos := pos + 1;
      } else if condition > 0 {
        FillMiss(p, table, pos, condition);
        condition := table[condition];
      } else {
        FillMiss(p, table, pos, condition);
        table := table[pos := 0];
        pos := pos + 1;
      }
    }
  }
}
