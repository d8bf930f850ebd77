// Paths, names and the file system that fs_cache.cpp looks at: one that changes
// under it, at times of its own.

module FsWorld {

  /** A place below the root of the cache. */
  datatype Path = Root | Under(parent: Path, name: string)

  function Depth(p: Path): nat {
    if p.Root? then 0 else Depth(p.parent) + 1
  }

  /** The place named by the first n parts. */
  function PathTo(parts: seq<string>, n: nat): Path
    requires n <= |parts|
  {
    if n == 0 then Root else Under(PathTo(parts, n - 1), parts[n - 1])
  }

  lemma {:induction false} DepthOfPathTo(parts: seq<string>, n: nat)
    requires n <= |parts|
    ensures Depth(PathTo(parts, n)) == n
  {
    if n > 0 {
      DepthOfPathTo(parts, n - 1);
    }
  }

  /** Lexicographic order, as std::filesystem::path compares the last components. */
  predicate Less(a: string, b: string) {
    if b == "" then false
    else if a == "" then true
    else if a[0] != b[0] then a[0] < b[0]
    else Less(a[1..], b[1..])
  }

  lemma {:induction false} LessIsTotal(a: string, b: string)
    ensures a == b || Less(a, b) || Less(b, a)
    ensures !(Less(a, b) && Less(b, a)) && !Less(a, a)
  {
    if a != "" && b != "" && a[0] == b[0] {
      LessIsTotal(a[1..], b[1..]);
      assert a == [a[0]] + a[1..] && b == [b[0]] + b[1..];
    }
    if a != "" {
      LessIsIrreflexive(a);
    }
  }

  lemma {:induction false} LessIsIrreflexive(a: string)
    ensures !Less(a, a)
  {
    if a != "" {
      LessIsIrreflexive(a[1..]);
    }
  }

  lemma {:induction false} LessIsTransitive(a: string, b: string, c: string)
    requires Less(a, b) && Less(b, c)
    ensures Less(a, c)
  {
    if a != "" && a[0] == b[0] == c[0] {
      LessIsTransitive(a[1..], b[1..], c[1..]);
    }
  }

  datatype Kind = Absent | File | Dir

  /** What is where at each moment, and the names a directory listing then gives. */
  datatype History = History(at: (nat, Path) -> Kind, listing: (nat, Path) -> seq<string>)

  /** Whatever exists lies in a directory, and a listing has each entry once. */
  ghost predicate HistoryOk(h: History) {
    && (forall t: nat, p: Path, name: string {:trigger h.at(t, Under(p, name))} ::
          h.at(t, Under(p, name)) != Absent ==> h.at(t, p) == Dir)
    && (forall t: nat, p: Path, name: string {:trigger name in h.listing(t, p)} ::
          name in h.listing(t, p) <==> h.at(t, p) == Dir && h.at(t, Under(p, name)) != Absent)
    && (forall t: nat, p: Path, i: int, j: int {:trigger h.listing(t, p)[i], h.listing(t, p)[j]} ::
          0 <= i < j < |h.listing(t, p)| ==> h.listing(t, p)[i] != h.listing(t, p)[j])
  }

  /** The clock and the file system. Time passes, by any amount, before every look. */
  class World {
    const history: History
    var clock: nat

    constructor (h: History, start: nat)
      ensures history == h && clock == start
    {
      history, clock := h, start;
    }

    method Now() returns (now: nat)
      modifies this
      ensures now == clock && old(clock) <= clock
    {
      var delay: nat :| true;
      clock := clock + delay;
      now := clock;
    }

    /** The kind of one entry. */
    method Status(p: Path) returns (kind: Kind)
      modifies this
      ensures old(clock) <= clock && kind == history.at(clock, p)
    {
      var now := Now();
      kind := history.at(now, p);
    }

    /** The names in a directory; none if it is not one, or no longer. */
    method List(p: Path) returns (names: seq<string>, isDir: bool)
      modifies this
      ensures old(clock) <= clock && names == history.listing(clock, p)
      ensures isDir <==> history.at(clock, p) == Dir
    {
      var now := Now();
      names := history.listing(now, p);
      isDir := history.at(now, p) == Dir;
    }
  }
}
