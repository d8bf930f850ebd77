// The directory cache of fs_cache.cpp: a tree of nodes that are reloaded when they
// are older than the invalidation time, down to a depth below which the real
// directory is read.

module DirectoryCache {
  import opened FsWorld

  datatype NodeState = Init | Deleted | Sync | Modified

  class FsNode {
    const path: Path
    const name: string
    const cachingLevel: nat
    var state: NodeState
    var lastUpdated: nat
    var children: seq<FsNode>

    constructor (path: Path, name: string, cachingLevel: nat, now: nat)
      ensures this.path == path && this.name == name && this.cachingLevel == cachingLevel
      ensures state == Init && lastUpdated == now && children == []
    {
      this.path, this.name, this.cachingLevel := path, name, cachingLevel;
      state, lastUpdated, children := Init, now, [];
    }
  }

  predicate HasName(nodes: seq<FsNode>, name: string) {
    exists i :: 0 <= i < |nodes| && nodes[i].name == name
  }

  /** Siblings: strictly ordered by name, all of the same level, below the same place. */
  ghost predicate Siblings(nodes: seq<FsNode>, parent: Path, level: nat) {
    && (forall i :: 0 <= i < |nodes| ==>
          nodes[i].path == Under(parent, nodes[i].name) && nodes[i].cachingLevel == level)
    && (forall i, j :: 0 <= i < j < |nodes| ==> Less(nodes[i].name, nodes[j].name))
  }

  function LevelBelow(level: nat): nat {
    if level > 0 then level - 1 else 0
  }

  /** The age of the oldest information that may still be used: less than the
      invalidation time. */
  function Staleness(invalidationTime: nat): nat {
    if invalidationTime == 0 then 0 else invalidationTime - 1
  }

  /** The place was empty at some moment from `since` to `until`. */
  ghost predicate Missing(h: History, p: Path, since: int, until: nat) {
    exists t: nat :: since <= t <= until && h.at(t, p) == Absent
  }

  /** The place was not empty at some moment up to `until`. */
  ghost predicate Existed(h: History, p: Path, until: nat) {
    exists t: nat :: t <= until && h.at(t, p) != Absent
  }

  /** The place was not empty at some moment from `since` to `until`. */
  ghost predicate Present(h: History, p: Path, since: int, until: nat) {
    exists t: nat :: since <= t <= until && h.at(t, p) != Absent
  }

  /** The place was no directory at some moment from `since` to `until`. */
  ghost predicate NoDirectory(h: History, p: Path, since: int, until: nat) {
    exists t: nat :: since <= t <= until && h.at(t, p) != Dir
  }

  /** What can be said of a hit: the place was there at some moment, or the directory it
      was in was not. */
  ghost predicate HitTrue(h: History, p: Path, since: int, until: nat)
    requires p.Under?
  {
    Present(h, p, since, until) || NoDirectory(h, p.parent, since, until)
  }

  ghost predicate NeverDirectory(h: History, p: Path, since: int) {
    forall t: nat :: since <= t ==> h.at(t, p) != Dir
  }

  lemma NeverLater(h: History, p: Path, since: int, since': int)
    requires since <= since'
    ensures NeverDirectory(h, p, since) ==> NeverDirectory(h, p, since')
  {
  }

  ghost predicate HitsTrue(h: History, nodes: seq<FsNode>, since: int, until: nat) {
    forall i :: 0 <= i < |nodes| && nodes[i].path.Under? ==> HitTrue(h, nodes[i].path, since, until)
  }

  lemma HitLater(h: History, p: Path, since: int, until: nat, since': int, until': nat)
    requires p.Under? && HitTrue(h, p, since, until) && since' <= since && until <= until'
    ensures HitTrue(h, p, since', until')
  {
    if t: nat :| since <= t <= until && h.at(t, p) != Absent {
      assert Present(h, p, since', until');
    } else {
      var t: nat :| since <= t <= until && h.at(t, p.parent) != Dir;
      assert NoDirectory(h, p.parent, since', until');
    }
  }

  lemma HitsLater(h: History, nodes: seq<FsNode>, since: int, until: nat, since': int, until': nat)
    requires HitsTrue(h, nodes, since, until) && since' <= since && until <= until'
    ensures HitsTrue(h, nodes, since', until')
  {
    forall i | 0 <= i < |nodes| && nodes[i].path.Under?
      ensures HitTrue(h, nodes[i].path, since', until')
    {
      HitLater(h, nodes[i].path, since, until, since', until');
    }
  }

  /** Where there is no directory, anything may be said of its entries. */
  lemma HitsWithout(h: History, p: Path, nodes: seq<FsNode>, t: nat, since: int, until: nat)
    requires h.at(t, p) != Dir && since <= t <= until
    requires forall i :: 0 <= i < |nodes| ==> nodes[i].path == Under(p, nodes[i].name)
    ensures HitsTrue(h, nodes, since, until)
  {
    assert NoDirectory(h, p, since, until);
  }

  /** Every name that is not among the children was missing at some moment. */
  ghost predicate MissesTrue(h: History, p: Path, nodes: seq<FsNode>, since: int, until: nat) {
    forall name: string :: !HasName(nodes, name) ==> Missing(h, Under(p, name), since, until)
  }

  lemma MissesLater(h: History, p: Path, nodes: seq<FsNode>, since: int, until: nat, since': int, until': nat)
    requires MissesTrue(h, p, nodes, since, until) && since' <= since && until <= until'
    ensures MissesTrue(h, p, nodes, since', until')
  {
    forall name: string | !HasName(nodes, name)
      ensures Missing(h, Under(p, name), since', until')
    {
      assert Missing(h, Under(p, name), since, until);
    }
  }

  /** Where there is no directory, nothing is below. */
  lemma NothingBelow(h: History, p: Path, nodes: seq<FsNode>, t: nat, since: int, until: nat)
    requires HistoryOk(h) && h.at(t, p) != Dir && since <= t <= until
    ensures MissesTrue(h, p, nodes, since, until)
  {
    forall name: string | !HasName(nodes, name)
      ensures Missing(h, Under(p, name), since, until)
    {
      assert h.at(t, Under(p, name)) == Absent;
    }
  }

  // ----- Ordered insertion and the merge of load -----

  /** One step of insert_equal: the position of a new node among ordered ones. */
  method InsertPosition(nodes: seq<FsNode>, name: string) returns (k: nat)
    requires forall i, j :: 0 <= i < j < |nodes| ==> Less(nodes[i].name, nodes[j].name)
    requires !HasName(nodes, name)
    ensures k <= |nodes|
    ensures forall i :: 0 <= i < k ==> Less(nodes[i].name, name)
    ensures forall i :: k <= i < |nodes| ==> Less(name, nodes[i].name)
  {
    k := 0;
    while k < |nodes| && Less(nodes[k].name, name)
      invariant k <= |nodes|
      invariant forall i :: 0 <= i < k ==> Less(nodes[i].name, name)
    {
      k := k + 1;
    }
    forall i | k <= i < |nodes|
      ensures Less(name, nodes[i].name)
    {
      LessIsTotal(name, nodes[k].name);
      if k < i {
        LessIsTransitive(name, nodes[k].name, nodes[i].name);
      }
    }
  }

  method Insert(nodes: seq<FsNode>, node: FsNode, parent: Path, level: nat) returns (r: seq<FsNode>)
    requires Siblings(nodes, parent, level) && !HasName(nodes, node.name)
    requires node.path == Under(parent, node.name) && node.cachingLevel == level
    ensures Siblings(r, parent, level)
    ensures forall name :: HasName(r, name) <==> HasName(nodes, name) || name == node.name
    ensures forall i :: 0 <= i < |r| ==> r[i] in nodes || r[i] == node
  {
    var k := InsertPosition(nodes, node.name);
    r := nodes[..k] + [node] + nodes[k..];
    forall name
      ensures HasName(r, name) <==> HasName(nodes, name) || name == node.name
    {
      if i :| 0 <= i < |nodes| && nodes[i].name == name {
        assert r[if i < k then i else i + 1].name == name;
      }
      if i :| 0 <= i < |r| && r[i].name == name {
        assert i != k ==> nodes[if i < k then i else i - 1].name == name;
      }
      assert r[k] == node;
    }
  }

  /** The names are those of the directory at that moment. */
  ghost predicate ListedAt(h: History, p: Path, nodes: seq<FsNode>, t: nat) {
    forall name :: HasName(nodes, name) <==> name in h.listing(t, p)
  }

  /** A just created node. */
  ghost predicate Untouched(n: FsNode, until: nat)
    reads n
  {
    n.state == Init && n.children == [] && n.lastUpdated <= until
  }

  /** New nodes for the entries of a directory, in order. */
  method FreshChildren(world: World, parent: Path, names: seq<string>, level: nat) returns (r: seq<FsNode>)
    requires forall i, j :: 0 <= i < j < |names| ==> names[i] != names[j]
    modifies world
    ensures old(world.clock) <= world.clock
    ensures Siblings(r, parent, level)
    ensures forall name :: HasName(r, name) <==> name in names
    ensures forall i :: 0 <= i < |r| ==> fresh(r[i]) && Untouched(r[i], world.clock)
  {
    r := [];
    for k := 0 to |names|
      invariant old(world.clock) <= world.clock
      invariant Siblings(r, parent, level)
      invariant forall name :: HasName(r, name) <==> name in names[..k]
      invariant forall i :: 0 <= i < |r| ==> fresh(r[i]) && Untouched(r[i], world.clock)
    {
      var now := world.Now();
      var node := new FsNode(Under(parent, names[k]), names[k], level, now);
      assert names[..k + 1] == names[..k] + [names[k]];
      r := Insert(r, node, parent, level);
    }
    assert names[..|names|] == names;
  }

  ghost predicate Ordered(nodes: seq<FsNode>) {
    forall i, j :: 0 <= i < j < |nodes| ==> Less(nodes[i].name, nodes[j].name)
  }

  /** How far the two sides of the merge have got: everything passed on one side is
      smaller than everything ahead on the other. */
  ghost predicate Apart(olds: seq<FsNode>, news: seq<FsNode>, a: nat, b: nat) {
    && a <= |olds| && b <= |news|
    && (forall j, i :: 0 <= j < a && b <= i < |news| ==> Less(olds[j].name, news[i].name))
    && (forall i, j :: 0 <= i < b && a <= j < |olds| ==> Less(news[i].name, olds[j].name))
  }

  lemma ApartStep(olds: seq<FsNode>, news: seq<FsNode>, a: nat, b: nat)
    requires Ordered(olds) && Ordered(news) && Apart(olds, news, a, b) && a < |olds| && b < |news|
    ensures Less(olds[a].name, news[b].name) ==> Apart(olds, news, a + 1, b)
    ensures olds[a].name == news[b].name ==> Apart(olds, news, a + 1, b + 1)
    ensures !Less(olds[a].name, news[b].name) && olds[a].name != news[b].name ==>
      Less(news[b].name, olds[a].name) && Apart(olds, news, a, b + 1)
  {
    var x, y := olds[a].name, news[b].name;
    LessIsTotal(x, y);
    if Less(x, y) {
      forall i | b < i < |news|
        ensures Less(x, news[i].name)
      {
        LessIsTransitive(x, y, news[i].name);
      }
    } else if x != y {
      forall j | a < j < |olds|
        ensures Less(y, olds[j].name)
      {
        LessIsTransitive(y, x, olds[j].name);
      }
    }
  }

  /** Where an old node with the name of a new one can be, while the merge stands at a, b. */
  lemma ApartNames(olds: seq<FsNode>, news: seq<FsNode>, a: nat, b: nat, i: nat)
    requires Ordered(olds) && Apart(olds, news, a, b) && b <= i < |news|
    ensures forall j :: 0 <= j < |olds| && olds[j].name == news[i].name ==>
      && a <= j
      && (i == b && olds[a].name == news[b].name ==> j == a)
      && !(i == b && Less(news[b].name, olds[a].name))
  {
    forall j | 0 <= j < |olds| && olds[j].name == news[i].name
      ensures a <= j
      ensures i == b && olds[a].name == news[b].name ==> j == a
      ensures !(i == b && Less(news[b].name, olds[a].name))
    {
      LessIsTotal(olds[j].name, news[i].name);
      if a < |olds| {
        LessIsTotal(olds[a].name, olds[j].name);
      }
    }
  }

  /** A new child that has everything from an old one with its name, which was in step. */
  ghost predicate Kept(c: FsNode, olds: seq<FsNode>)
    reads c, olds
  {
    exists j :: 0 <= j < |olds| && SameAs(c, olds[j])
  }

  ghost predicate SameAs(c: FsNode, o: FsNode)
    reads c, o
  {
    && c.name == o.name && c.state == o.state == Sync
    && c.lastUpdated == o.lastUpdated && c.children == o.children
  }

  /** An old node of that name was in step. */
  ghost predicate WasSync(olds: seq<FsNode>, name: string)
    reads olds
  {
    exists j :: 0 <= j < |olds| && olds[j].name == name && olds[j].state == Sync
  }

  /** The merge-join of load: a new node whose name was in step before keeps the subtree,
      the time and the state of the old one; every other new node stays as created. */
  method Merge(olds: seq<FsNode>, news: seq<FsNode>)
    requires Ordered(olds) && Ordered(news)
    requires forall i, j :: 0 <= i < |olds| && 0 <= j < |news| ==> olds[i] != news[j]
    modifies news
    ensures forall j :: 0 <= j < |olds| ==> unchanged(olds[j])
    ensures forall i :: 0 <= i < |news| ==>
      if WasSync(olds, news[i].name) then Kept(news[i], olds) else unchanged(news[i])
  {
    var a, b := 0, 0;
    while a < |olds| && b < |news|
      invariant Apart(olds, news, a, b)
      invariant forall j :: 0 <= j < |olds| ==> unchanged(olds[j])
      invariant forall i :: b <= i < |news| ==> unchanged(news[i])
      invariant forall i :: 0 <= i < b ==>
        if WasSync(olds, news[i].name) then Kept(news[i], olds) else unchanged(news[i])
      decreases |olds| - a + |news| - b
    {
      ApartStep(olds, news, a, b);
      ApartNames(olds, news, a, b, b);
      if Less(olds[a].name, news[b].name) {
        a := a + 1;
      } else if olds[a].name == news[b].name {
        LessIsIrreflexive(olds[a].name);
        if olds[a].state == Sync {
          news[b].children := olds[a].children;
          news[b].lastUpdated := olds[a].lastUpdated;
          news[b].state := olds[a].state;
        }
        a, b := a + 1, b + 1;
      } else {
        b := b + 1;
      }
    }
    forall i | b <= i < |news|
      ensures !WasSync(olds, news[i].name)
    {
      ApartNames(olds, news, a, b, i);
    }
  }

  /** After a reload: what was in step is kept, and everything else is new. */
  ghost predicate Reloaded(news: seq<FsNode>, olds: seq<FsNode>, until: nat)
    reads news, olds
  {
    forall i :: 0 <= i < |news| ==>
      if WasSync(olds, news[i].name) then Kept(news[i], olds) else Untouched(news[i], until)
  }

  // ----- The cache -----

  /** The level of a node says how far above the depth limit it is; a limit of 0 is none. */
  predicate LevelOk(n: FsNode, limit: nat) {
    if limit == 0 then n.cachingLevel == 0
    else Depth(n.path) < limit && n.cachingLevel == limit - Depth(n.path)
  }

  /** The shape of the tree at a node: depth, order, and nothing below the limit. */
  ghost predicate ShapeOk(limit: nat, n: FsNode)
    reads n
  {
    && LevelOk(n, limit)
    && Siblings(n.children, n.path, LevelBelow(n.cachingLevel))
    && (n.cachingLevel == 1 ==> n.children == [] && n.state != Sync)
  }

  /** What a node promises at a moment: in state sync, every name that is not among its
      children was missing at some moment since its last update; in any state, its children
      were there at some moment since then, or it was no directory. */
  ghost predicate NodeOk(h: History, limit: nat, n: FsNode, clock: nat)
    reads n
  {
    && ShapeOk(limit, n)
    && n.lastUpdated <= clock
    && (n.state == Sync ==> MissesTrue(h, n.path, n.children, n.lastUpdated, clock))
    && (n.state == Init ==> n.children == [])
    && HitsTrue(h, n.children, n.lastUpdated, clock)
    && (n.path.Under? ==> Existed(h, n.path, clock))
  }

  lemma NoHits(h: History, n: FsNode, clock: nat)
    ensures n.children == [] ==> HitsTrue(h, n.children, n.lastUpdated, clock)
  {
  }

  lemma NodeOkLater(h: History, limit: nat, n: FsNode, clock: nat, clock': nat)
    requires NodeOk(h, limit, n, clock) && clock <= clock'
    ensures NodeOk(h, limit, n, clock')
  {
    HitsLater(h, n.children, n.lastUpdated, clock, n.lastUpdated, clock');
    if n.state == Sync {
      MissesLater(h, n.path, n.children, n.lastUpdated, clock, n.lastUpdated, clock');
    }
    if n.path.Under? {
      var t: nat :| t <= clock && h.at(t, n.path) != Absent;
    }
  }

  class FsCache {
    const world: World
    const root: FsNode
    const maxCachingLevel: nat
    const invalidationTime: nat
    ghost var nodes: set<FsNode>

    ghost predicate NodesOk(clock: nat)
      reads nodes, this
    {
      forall n :: n in nodes ==> NodeOk(world.history, maxCachingLevel, n, clock)
    }

    ghost predicate Closed()
      reads nodes, this
    {
      forall n, c :: n in nodes && c in n.children ==> c in nodes
    }

    ghost predicate Valid()
      reads this, nodes, world
    {
      && HistoryOk(world.history)
      && root in nodes && root.path == Root
      && NodesOk(world.clock)
      && Closed()
    }

    constructor (w: World, maxCachingLevel: nat, invalidationTime: nat)
      requires HistoryOk(w.history)
      modifies w
      ensures Valid() && world == w && fresh(nodes)
      ensures this.maxCachingLevel == maxCachingLevel && this.invalidationTime == invalidationTime
    {
      var now := w.Now();
      var r := new FsNode(Root, "", maxCachingLevel, now);
      world, root := w, r;
      this.maxCachingLevel, this.invalidationTime := maxCachingLevel, invalidationTime;
      nodes := {r};
    }

    /** Everything but the promises of n about its children. */
    ghost predicate ValidBut(n: FsNode)
      reads this, nodes, world
    {
      && HistoryOk(world.history)
      && root in nodes && root.path == Root
      && n in nodes && ShapeOk(maxCachingLevel, n) && (n.state == Init ==> n.children == [])
      && n.lastUpdated <= world.clock
      && (n.path.Under? ==> Existed(world.history, n.path, world.clock))
      && (forall m :: m in nodes && m != n ==> NodeOk(world.history, maxCachingLevel, m, world.clock))
      && Closed()
    }

    /** Time passes, and nothing in the tree changes. */
    twostate lemma ValidLater(n: FsNode)
      requires old(ValidBut(n)) && old(world.clock) <= world.clock
      requires nodes == old(nodes) && forall m :: m in nodes ==> unchanged(m)
      ensures ValidBut(n)
    {
      forall m | m in nodes && m != n
        ensures NodeOk(world.history, maxCachingLevel, m, world.clock)
      {
        NodeOkLater(world.history, maxCachingLevel, m, old(world.clock), world.clock);
      }
      if n.path.Under? {
        var t: nat :| t <= old(world.clock) && world.history.at(t, n.path) != Absent;
      }
    }

    /** The new children of a node: the entries of its directory, merged with the old
        children. Nothing in the tree changes yet. */
    method NewChildren(n: FsNode) returns (news: seq<FsNode>)
      requires ValidBut(n) && n.cachingLevel != 1
      modifies world
      ensures ValidBut(n) && old(world.clock) <= world.clock
      ensures Siblings(news, n.path, LevelBelow(n.cachingLevel))
      ensures forall i :: 0 <= i < |news| ==> fresh(news[i])
      ensures Reloaded(news, n.children, world.clock)
      ensures exists t: nat :: old(world.clock) <= t <= world.clock && ListedAt(world.history, n.path, news, t)
      ensures forall i :: 0 <= i < |news| ==> NodeOk(world.history, maxCachingLevel, news[i], world.clock)
      ensures forall i, c :: 0 <= i < |news| && c in news[i].children ==> c in nodes
      ensures MissesTrue(world.history, n.path, news, old(world.clock), world.clock)
      ensures HitsTrue(world.history, news, old(world.clock), world.clock)
    {
      var names, _ := world.List(n.path);
      ghost var listed := world.clock;
      news := FreshChildren(world, n.path, names, LevelBelow(n.cachingLevel));
      forall i | 0 <= i < |news|
        ensures Existed(world.history, news[i].path, world.clock)
        ensures Present(world.history, news[i].path, old(world.clock), world.clock)
      {
        assert HasName(news, news[i].name);
        assert world.history.at(listed, news[i].path) != Absent;
      }
      ghost var until := world.clock;
      assert HitsTrue(world.history, news, old(world.clock), until);
      assert ListedAt(world.history, n.path, news, listed);
      ListedMisses(world.history, n.path, news, names, listed, old(world.clock), world.clock);
      forall i, j | 0 <= i < |n.children| && 0 <= j < |news|
        ensures n.children[i] != news[j]
      {
        assert n.children[i] in nodes;
      }
      Merge(n.children, news);
      ValidLater(n);
      forall i | 0 <= i < |news|
        ensures NodeOk(world.history, maxCachingLevel, news[i], world.clock)
        ensures forall c :: c in news[i].children ==> c in nodes
      {
        NewChildOk(world.history, maxCachingLevel, n, news[i], world.clock);
      }
    }

    /** Reloads the children of a node; `kind` is what the directory entry just said. */
    method Load(n: FsNode, kind: Kind)
      requires ValidBut(n) && kind == world.history.at(world.clock, n.path)
      modifies n, world, `nodes
      ensures Valid() && old(world.clock) <= world.clock
      ensures old(nodes) <= nodes && fresh(nodes - old(nodes))
      ensures n.lastUpdated == old(n.lastUpdated)
      ensures n.cachingLevel != 1 ==>
        MissesTrue(world.history, n.path, n.children, old(world.clock), world.clock)
      ensures kind == Dir && n.cachingLevel != 1 ==>
        && n.state == Sync && Reloaded(n.children, old(n.children), world.clock)
        && exists t: nat :: old(world.clock) <= t <= world.clock && ListedAt(world.history, n.path, n.children, t)
      ensures kind != Dir || n.cachingLevel == 1 ==> n.children == old(n.children) && n.state == old(n.state)
    {
      hide ListedAt, MissesTrue, HitTrue, HitsTrue, Existed, LevelOk, HistoryOk, Less, Kept, WasSync, Untouched;
      if kind != Dir || n.cachingLevel == 1 {
        NoHits(world.history, n, world.clock);
        if kind != Dir {
          HitsWithout(world.history, n.path, n.children, world.clock, n.lastUpdated, world.clock);
          NothingBelow(world.history, n.path, n.children, world.clock, world.clock, world.clock);
          MissesLater(world.history, n.path, n.children, world.clock, world.clock, n.lastUpdated, world.clock);
        }
        return;
      }
      ghost var since := world.clock;
      var news := NewChildren(n);
      assert forall i :: 0 <= i < |n.children| ==> n.children[i] in nodes && n.children[i] != n;
      MissesLater(world.history, n.path, news, since, world.clock, n.lastUpdated, world.clock);
      HitsLater(world.history, news, since, world.clock, n.lastUpdated, world.clock);
      n.children := news;
      n.state := Sync;
      nodes := nodes + set c | c in news;
    }

    /** The part of fs_node::update that looks at the file system. */
    method Refresh(n: FsNode, now: nat)
      requires Valid() && n in nodes && now == world.clock
      modifies n, world, `nodes
      ensures Valid() && old(world.clock) <= world.clock
      ensures old(nodes) <= nodes && fresh(nodes - old(nodes))
      ensures n.lastUpdated == now
      ensures NeverDirectory(world.history, n.path, now) ==> n.children == old(n.children)
      ensures n.cachingLevel != 1 ==>
        MissesTrue(world.history, n.path, n.children, old(world.clock), world.clock)
    {
      hide MissesTrue, HitTrue, HitsTrue, Existed, LevelOk, HistoryOk, Reloaded, ListedAt;
      var kind := world.Status(n.path);
      ValidLater(n);
      n.lastUpdated := now;
      ghost var since := world.clock;
      if kind == Absent {
        NothingBelow(world.history, n.path, n.children, since, since, since);
        HitsWithout(world.history, n.path, n.children, since, now, since);
        n.state := Deleted;
      } else {
        Load(n, kind);
      }
      if n.cachingLevel != 1 {
        MissesLater(world.history, n.path, n.children, since, world.clock, old(world.clock), world.clock);
      }
    }

    /** fs_node::update. Afterwards every name the node does not have was missing within
        the invalidation time; if the node was not in step or was too old, since the call. */
    method Update(n: FsNode, force: bool)
      requires Valid() && n in nodes
      modifies n, world, `nodes
      ensures Valid() && old(world.clock) <= world.clock
      ensures old(nodes) <= nodes && fresh(nodes - old(nodes))
      ensures n.lastUpdated >= old(n.lastUpdated)
      ensures n.lastUpdated >= old(world.clock) - Staleness(invalidationTime)
      ensures NeverDirectory(world.history, n.path, old(world.clock)) ==> n.children == old(n.children)
      ensures (force || old(n.state) != Sync || old(world.clock) - old(n.lastUpdated) >= invalidationTime) ==>
        n.lastUpdated >= old(world.clock)
      ensures n.cachingLevel != 1 ==>
        MissesTrue(world.history, n.path, n.children, old(world.clock) - Staleness(invalidationTime), world.clock)
      ensures (n.cachingLevel != 1 &&
        (force || old(n.state) != Sync || old(world.clock) - old(n.lastUpdated) >= invalidationTime)) ==>
          MissesTrue(world.history, n.path, n.children, old(world.clock), world.clock)
    {
      hide MissesTrue, HistoryOk, NodesOk, Closed;
      var now := world.Now();
      AllLater();
      SyncMisses(n);
      NeverLater(world.history, n.path, old(world.clock), now);
      hide NeverDirectory;
      ghost var since := world.clock;
      if n.state == Sync && !force && now - n.lastUpdated < invalidationTime {
        MissesLater(world.history, n.path, n.children, n.lastUpdated, world.clock,
                    old(world.clock) - Staleness(invalidationTime), world.clock);
        return;
      }
      Refresh(n, now);
      if n.cachingLevel != 1 {
        MissesLater(world.history, n.path, n.children, since, world.clock, old(world.clock), world.clock);
        MissesLater(world.history, n.path, n.children, since, world.clock,
                    old(world.clock) - Staleness(invalidationTime), world.clock);
      }
    }

    lemma SyncMisses(n: FsNode)
      requires Valid() && n in nodes
      ensures n.lastUpdated <= world.clock
      ensures n.state == Sync ==> MissesTrue(world.history, n.path, n.children, n.lastUpdated, world.clock)
    {
      assert NodeOk(world.history, maxCachingLevel, n, world.clock);
    }

    /** fs_node::invalidate */
    method Invalidate(n: FsNode)
      requires Valid() && n in nodes
      modifies n`state
      ensures Valid() && n.state == Modified
    {
      n.state := Modified;
    }

    /** fs_node::remove; what becomes of the files is up to the world. */
    method Remove(n: FsNode)
      requires Valid() && n in nodes
      modifies n, world
      ensures Valid() && old(world.clock) <= world.clock
      ensures n.state == Deleted && n.children == []
    {
      var _ := world.Now();
      ValidLater(n);
      n.children := [];
      n.state := Deleted;
    }

    /** One step of the walk of find: the child of that name, with an update before the
        lookup when the node is due, or after a lookup that failed. */
    method Step(current: FsNode, name: string, due: bool) returns (found: bool, child: FsNode)
      requires Valid() && current in nodes && current.cachingLevel != 1
      modifies current, world, `nodes
      ensures Valid() && old(world.clock) <= world.clock
      ensures old(nodes) <= nodes && fresh(nodes - old(nodes))
      ensures found ==>
        child in current.children && child in nodes && child.path == Under(current.path, name)
      ensures due && (old(current.state) == Init || old(world.clock) - old(current.lastUpdated) >= invalidationTime) ==>
        current.lastUpdated >= old(world.clock)
      ensures current.lastUpdated >= old(current.lastUpdated)
      ensures
        && HasName(old(current.children), name)
        && (!due || NeverDirectory(world.history, current.path, old(world.clock)))
        ==> found && child in old(current.children) && child.name == name
      ensures HasName(old(current.children), name) && !due ==>
        nodes == old(nodes) && unchanged(current) && unchanged(world)
      ensures found ==> child.name == name
      ensures !found ==> Missing(world.history, Under(current.path, name),
                                 old(world.clock) - Staleness(invalidationTime), world.clock)
      ensures !found && old(current.state) != Sync ==>
        Missing(world.history, Under(current.path, name), old(world.clock), world.clock)
    {
      hide HistoryOk, NodesOk, Closed;
      var updated := false;
      if due {
        Update(current, false);
        updated := true;
      }
      var k := FindChild(current.children, name);
      if k == |current.children| && !updated {
        Update(current, false);
        updated := true;
        k := FindChild(current.children, name);
      }
      found := k < |current.children|;
      child := if found then current.children[k] else current;
      if found {
        ChildOf(current, k);
      }
    }

    lemma ChildOf(n: FsNode, k: nat)
      requires Valid() && n in nodes && k < |n.children|
      ensures n.children[k] in nodes && n.children[k].path == Under(n.path, n.children[k].name)
    {
      assert NodeOk(world.history, maxCachingLevel, n, world.clock);
      assert n.children[k] in n.children;
    }

    /** Looks for the last part in the real directory. */
    method Scan(parts: seq<string>) returns (found: bool)
      requires Valid() && parts != []
      modifies world
      ensures Valid() && old(world.clock) <= world.clock
      ensures found <==> world.history.at(world.clock, PathTo(parts, |parts|)) != Absent
    {
      var last := parts[|parts| - 1];
      var names, isDir := world.List(PathTo(parts, |parts| - 1));
      AllLater();
      assert last in names <==> isDir && world.history.at(world.clock, PathTo(parts, |parts|)) != Absent;
      if !isDir {
        return false;
      }
      var k := 0;
      while k < |names| && names[k] != last
        invariant k <= |names| && last !in names[..k]
      {
        k := k + 1;
      }
      return k < |names|;
    }

    twostate lemma AllLater()
      requires old(Valid()) && old(world.clock) <= world.clock
      requires nodes == old(nodes) && forall m :: m in nodes ==> unchanged(m)
      ensures Valid()
    {
      forall m | m in nodes
        ensures NodeOk(world.history, maxCachingLevel, m, world.clock)
      {
        assert old(NodeOk(world.history, maxCachingLevel, m, world.clock));
        NodeOkLater(world.history, maxCachingLevel, m, old(world.clock), world.clock);
      }
    }

    /** The tree has a place of this name below n, as deep as the parts go. */
    ghost predicate Leads(n: FsNode, parts: seq<string>, d: nat)
      requires d <= |parts|
      reads nodes, this
      decreases |parts| - d
    {
      n in nodes && (d == |parts| || exists c ::
        c in nodes && c in n.children && c.name == parts[d] && Leads(c, parts, d + 1))
    }

    /** The way on is the only child of that name. */
    lemma LeadsOn(n: FsNode, parts: seq<string>, d: nat)
      requires Valid() && d < |parts| && Leads(n, parts, d)
      ensures HasName(n.children, parts[d]) && n.state != Init
      ensures forall c :: c in n.children && c.name == parts[d] ==> Leads(c, parts, d + 1)
    {
      assert NodeOk(world.history, maxCachingLevel, n, world.clock);
      var c :| c in nodes && c in n.children && c.name == parts[d] && Leads(c, parts, d + 1);
      forall e | e in n.children && e.name == c.name
        ensures e == c
      {
        LessIsIrreflexive(c.name);
      }
    }

    lemma ShortWay(name: string)
      requires Valid()
      ensures HasName(root.children, name) <==> Leads(root, [name], 0)
    {
      if i :| 0 <= i < |root.children| && root.children[i].name == name {
        assert root.children[i] in nodes && Leads(root.children[i], [name], 1);
      }
    }

    /** Nothing is asked of the cache for a while. */
    method Wait(delay: nat)
      requires Valid()
      modifies world
      ensures Valid() && world.clock == old(world.clock) + delay
    {
      world.clock := world.clock + delay;
      AllLater();
    }

    /** fs_cache::find. A miss is true of some moment within the invalidation time before
        the call, or during it. With a depth limit so is a hit, unless the directory that
        the place is in was no directory at some moment in that time; without one, a place
        in the tree is a hit whatever has become of it. "/" always yields the root. */
    method Find(parts: seq<string>) returns (r: FindResult)
      requires Valid()
      modifies this, world, nodes
      ensures Valid() && old(world.clock) <= world.clock
      ensures old(nodes) <= nodes && fresh(nodes - old(nodes))
      ensures r.End? ==> Missing(world.history, PathTo(parts, |parts|),
                                 old(world.clock) - Staleness(invalidationTime), world.clock)
      ensures !r.End? && parts != [] ==> Existed(world.history, PathTo(parts, |parts|), world.clock)
      ensures r.Cached? ==> r.node in nodes && r.node.path == PathTo(parts, |parts|)
      ensures parts == [] ==> r == Cached(root)
      ensures r.Cached? && parts != [] && maxCachingLevel != 0 ==>
        HitTrue(world.history, PathTo(parts, |parts|), old(world.clock) - invalidationTime, world.clock)
      ensures r.Scanned? ==> Present(world.history, PathTo(parts, |parts|), old(world.clock), world.clock)
      ensures maxCachingLevel == 0 && old(Leads(root, parts, 0)) ==> r.Cached?
      ensures |parts| == 1 && r.End? && old(root.state) == Modified && maxCachingLevel != 1 ==>
        Missing(world.history, PathTo(parts, 1), old(world.clock), world.clock)
      ensures |parts| == 1 && r.Cached? ==> HasName(root.children, parts[0])
      ensures
        && |parts| == 1 && maxCachingLevel > 1 && HasName(old(root.children), parts[0])
        && NeverDirectory(world.history, Root, old(world.clock))
        ==> r.Cached?
      ensures r.Scanned? ==> maxCachingLevel != 0 && |parts| >= maxCachingLevel
      ensures r.Cached? && maxCachingLevel != 0 ==> |parts| < maxCachingLevel
    {
      hide HistoryOk, NodesOk, Closed, HitTrue, Leads, NeverDirectory, HasName;
      ghost var start := world.clock;
      ghost var known := maxCachingLevel == 0 && Leads(root, parts, 0);
      var now := world.Now();
      AllLater();
      var depth := 0;
      var current := root;
      var parent := root;
      while depth < |parts|
        invariant depth <= |parts| && (maxCachingLevel != 0 ==> depth < maxCachingLevel)
        invariant Valid() && start <= world.clock
        invariant old(nodes) <= nodes && fresh(nodes - old(nodes))
        invariant current in nodes && current.path == PathTo(parts, depth) && (depth == 0 ==> current == root)
        invariant depth > 0 ==> parent in nodes && current in parent.children
        invariant depth == 1 ==> parent == root && current.name == parts[0]
        invariant depth == 0 ==> root.children == old(root.children) && root.state == old(root.state)
        invariant known ==>
          nodes == old(nodes) && (forall m :: m in nodes ==> unchanged(m)) && Leads(current, parts, depth)
        invariant depth > 0 && maxCachingLevel != 0 ==> parent.lastUpdated >= start - invalidationTime
      {
        var part := parts[depth];
        depth := depth + 1;
        NodeLevel(current, parts, depth - 1);
        var due := (now - current.lastUpdated > invalidationTime && depth <= maxCachingLevel) || current.state == Init;
        if depth == maxCachingLevel {
          if due {
            Update(current, false);
          }
          var found := Scan(parts);
          return if found then Scanned else End;
        }
        ghost var clock := world.clock;
        if known {
          LeadsOn(current, parts, depth - 1);
        }
        NeverLater(world.history, Root, start, clock);
        var found, child := Step(current, part, due);
        if !found {
          MissingBelow(world.history, parts, depth, clock - Staleness(invalidationTime),
                       start - Staleness(invalidationTime), world.clock);
          return End;
        }
        parent := current;
        current := child;
      }
      if parts != [] {
        ChildPromises(parent, current);
        if maxCachingLevel != 0 {
          HitLater(world.history, current.path, parent.lastUpdated, world.clock, start - invalidationTime, world.clock);
        }
      }
      return Cached(current);
    }

    /** One operation on the cache: find, or find and then update, invalidate or remove
        the node found, as the file operations of fs_cache and its iterators do; or an
        update of the root, as begin does, or its invalidation. */
    method Perform(op: Op) returns (answer: Answer)
      requires Valid()
      modifies this, world, nodes
      ensures Valid() && old(world.clock) <= world.clock
      ensures old(nodes) <= nodes && fresh(nodes - old(nodes))
      ensures Answers(answer, op) && old(world.clock) == answer.began <= answer.ended <= world.clock
      ensures AnswerTrue(world.history, maxCachingLevel, invalidationTime, answer)
    {
      var began := world.clock;
      match op {
        case AtRoot(force) =>
          Update(root, force);
          answer := Listing(began, world.clock, set i | 0 <= i < |root.children| :: root.children[i].name);
          RootListed(answer.names, began - Staleness(invalidationTime));
        case MarkRootModified =>
          Invalidate(root);
          answer := NoQuestion(began, world.clock);
        case AtPath(parts, action) =>
          var r := Find(parts);
          answer := Answer(parts, began, world.clock, !r.End?);
          if r.Cached? {
            match action
            case Lookup =>
            case Renew(force) => Update(r.node, force);
            case MarkModified => Invalidate(r.node);
            case Delete => Remove(r.node);
          }
      }
    }

    lemma ChildPromises(p: FsNode, c: FsNode)
      requires Valid() && p in nodes && c in p.children
      ensures HasName(p.children, c.name) && c.path == Under(p.path, c.name)
      ensures Existed(world.history, c.path, world.clock)
      ensures HitTrue(world.history, c.path, p.lastUpdated, world.clock)
    {
      assert NodeOk(world.history, maxCachingLevel, p, world.clock);
      var i :| 0 <= i < |p.children| && p.children[i] == c;
      ChildOf(p, i);
      NodeExisted(c);
    }

    lemma RootListed(names: set<string>, since: int)
      requires Valid() && names == set i | 0 <= i < |root.children| :: root.children[i].name
      requires maxCachingLevel != 1 ==> MissesTrue(world.history, Root, root.children, since, world.clock)
      requires since <= root.lastUpdated
      ensures maxCachingLevel == 1 ==> names == {}
      ensures maxCachingLevel != 1 ==> forall name: string ::
        if name in names then HitTrue(world.history, Under(Root, name), since, world.clock)
        else Missing(world.history, Under(Root, name), since, world.clock)
    {
      hide HitTrue;
      assert NodeOk(world.history, maxCachingLevel, root, world.clock);
      forall name: string
        ensures if name in names then HitTrue(world.history, Under(Root, name), since, world.clock)
                else !HasName(root.children, name)
      {
        if name in names {
          var i :| 0 <= i < |root.children| && root.children[i].name == name;
          ChildPromises(root, root.children[i]);
          HitLater(world.history, Under(Root, name), root.lastUpdated, world.clock, since, world.clock);
        }
      }
    }

    /** Any run of operations, over any history of the file system: every answer is true
        of the file system, up to the invalidation time. */
    method RunAll(ops: seq<Op>) returns (answers: seq<Answer>)
      requires Valid()
      modifies this, world, nodes
      ensures Valid()
      ensures |answers| == |ops| && forall i :: 0 <= i < |ops| ==>
        && Answers(answers[i], ops[i])
        && old(world.clock) <= answers[i].began <= answers[i].ended <= world.clock
        && AnswerTrue(world.history, maxCachingLevel, invalidationTime, answers[i])
      ensures forall i, j :: 0 <= i < j < |ops| ==> answers[i].ended <= answers[j].began
    {
      hide HistoryOk, NodesOk, Closed, AnswerTrue;
      answers := [];
      for k := 0 to |ops|
        invariant Valid() && old(nodes) <= nodes && fresh(nodes - old(nodes))
        invariant |answers| == k && old(world.clock) <= world.clock
        invariant forall i :: 0 <= i < k ==>
          && Answers(answers[i], ops[i])
          && old(world.clock) <= answers[i].began <= answers[i].ended <= world.clock
          && AnswerTrue(world.history, maxCachingLevel, invalidationTime, answers[i])
        invariant forall i, j :: 0 <= i < j < k ==> answers[i].ended <= answers[j].began
      {
        var answer := Perform(ops[k]);
        answers := answers + [answer];
      }
    }

    lemma NodeLevel(n: FsNode, parts: seq<string>, depth: nat)
      requires Valid() && n in nodes && depth < |parts| && n.path == PathTo(parts, depth)
      requires maxCachingLevel != 0 ==> depth < maxCachingLevel
      ensures n.cachingLevel == 1 <==> depth + 1 == maxCachingLevel
    {
      assert NodeOk(world.history, maxCachingLevel, n, world.clock);
      DepthOfPathTo(parts, depth);
    }

    lemma NodeExisted(n: FsNode)
      requires Valid() && n in nodes && n.path.Under?
      ensures Existed(world.history, n.path, world.clock)
    {
      assert NodeOk(world.history, maxCachingLevel, n, world.clock);
    }
  }

  datatype Action = Lookup | Renew(force: bool) | MarkModified | Delete

  datatype Op = AtPath(parts: seq<string>, action: Action) | AtRoot(force: bool) | MarkRootModified

  /** What an operation was told about a place, or the names below the root, and when. */
  datatype Answer =
    | Answer(parts: seq<string>, began: nat, ended: nat, found: bool)
    | Listing(began: nat, ended: nat, names: set<string>)
    | NoQuestion(began: nat, ended: nat)

  predicate Answers(a: Answer, op: Op) {
    match op
    case AtPath(parts, _) => a.Answer? && a.parts == parts
    case AtRoot(_) => a.Listing?
    case MarkRootModified => a.NoQuestion?
  }

  /** A miss was true at some moment from the invalidation time before the question to
      the answer; so a place that exists all that time is found, and listed if it lies
      below the root. A hit was true once. With a depth limit, and in a listing always, the
      place was there at some moment from the invalidation time before, or the directory it
      is in was none; at or below the limit it was there while it was asked for. The root
      is always found. With a depth limit of 1 nothing is ever listed. */
  ghost predicate AnswerTrue(h: History, limit: nat, invalidationTime: nat, a: Answer) {
    match a
    case Answer(parts, began, ended, found) =>
      var p := PathTo(parts, |parts|);
      if parts == [] then found
      else if !found then Missing(h, p, began - Staleness(invalidationTime), ended)
      else
        && Existed(h, p, ended)
        && (0 < limit ==> HitTrue(h, p, began - invalidationTime, ended))
        && (0 < limit <= |parts| ==> Present(h, p, began, ended))
    case Listing(began, ended, names) =>
      if limit == 1 then names == {}
      else forall name: string ::
        if name in names then HitTrue(h, Under(Root, name), began - Staleness(invalidationTime), ended)
        else Missing(h, Under(Root, name), began - Staleness(invalidationTime), ended)
    case NoQuestion(_, _) => true
  }

  datatype FindResult = End | Cached(node: FsNode) | Scanned

  /** The lookup in the ordered children. */
  method FindChild(nodes: seq<FsNode>, name: string) returns (k: nat)
    ensures k <= |nodes|
    ensures k < |nodes| ==> nodes[k].name == name
    ensures k == |nodes| ==> !HasName(nodes, name)
  {
    k := 0;
    while k < |nodes| && nodes[k].name != name
      invariant k <= |nodes| && forall i :: 0 <= i < k ==> nodes[i].name != name
    {
      k := k + 1;
    }
  }

  /** Where a directory is missing, everything further down the path is missing too. */
  lemma {:induction false} AbsentBelow(h: History, parts: seq<string>, m: nat, n: nat, t: nat)
    requires HistoryOk(h) && m <= n <= |parts| && h.at(t, PathTo(parts, m)) == Absent
    ensures h.at(t, PathTo(parts, n)) == Absent
  {
    if m < n {
      AbsentBelow(h, parts, m, n - 1, t);
      assert PathTo(parts, n) == Under(PathTo(parts, n - 1), parts[n - 1]);
    }
  }

  lemma MissingBelow(h: History, parts: seq<string>, m: nat, since: int, since': int, until: nat)
    requires HistoryOk(h) && m <= |parts| && Missing(h, PathTo(parts, m), since, until) && since' <= since
    ensures Missing(h, PathTo(parts, |parts|), since', until)
  {
    var t: nat :| since <= t <= until && h.at(t, PathTo(parts, m)) == Absent;
    AbsentBelow(h, parts, m, |parts|, t);
  }

  /** A merged child: either as it was created, or with everything from an old sibling. */
  lemma NewChildOk(h: History, limit: nat, n: FsNode, c: FsNode, clock: nat)
    requires ShapeOk(limit, n) && n.cachingLevel != 1
    requires c.path == Under(n.path, c.name) && c.cachingLevel == LevelBelow(n.cachingLevel)
    requires Existed(h, c.path, clock)
    requires forall o :: o in n.children ==> NodeOk(h, limit, o, clock)
    requires Kept(c, n.children) || Untouched(c, clock)
    ensures NodeOk(h, limit, c, clock)
  {
    if j :| 0 <= j < |n.children| && SameAs(c, n.children[j]) {
      var o := n.children[j];
      assert o in n.children && NodeOk(h, limit, o, clock) && o.path == c.path;
    } else {
      assert Untouched(c, clock);
    }
  }

  lemma ListedMisses(h: History, p: Path, nodes: seq<FsNode>, names: seq<string>, t: nat, since: nat, until: nat)
    requires HistoryOk(h) && names == h.listing(t, p) && since <= t <= until
    requires forall name :: HasName(nodes, name) <==> name in names
    ensures MissesTrue(h, p, nodes, since, until)
  {
    forall name: string | !HasName(nodes, name)
      ensures Missing(h, Under(p, name), since, until)
    {
      assert name !in h.listing(t, p);
      assert h.at(t, Under(p, name)) == Absent;
    }
  }

  // ----- Hits that are long out of date -----

  /** A directory "a" below the root, until both vanish; with `stays` the root does not. */
  function Vanishing(vanish: nat, stays: bool): History {
    History(
      (t, p) => if (p == Root && (t < vanish || stays)) || (p == PathTo(["a"], 1) && t < vanish) then Dir else Absent,
      (t, p) => if p == Root && t < vanish then ["a"] else [])
  }

  lemma VanishingOk(vanish: nat, stays: bool)
    ensures HistoryOk(Vanishing(vanish, stays))
  {
    assert PathTo(["a"], 0) == Root;
    assert PathTo(["a"], 1) == Under(Root, "a");
  }

  /** The place "/a" is found once, vanishes, and is found again after any time, however
      short the invalidation time: without a depth limit always, with one when the root
      vanishes too. */
  method StaleHit(limit: nat, invalidationTime: nat, vanish: nat, wait: nat)
    returns (ended: nat, began: nat, second: FindResult, h: History)
    requires limit != 1
    ensures HistoryOk(h) && forall t: nat :: vanish <= t ==> h.at(t, PathTo(["a"], 1)) == Absent
    ensures vanish + wait <= began
    ensures ended < vanish ==> second.Cached?
  {
    hide HistoryOk, FsCache.Valid, Existed, Present, HitTrue, HasName, FsCache.Leads;
    h := Vanishing(vanish, limit == 0);
    VanishingOk(vanish, limit == 0);
    var world := new World(h, 0);
    var cache := new FsCache(world, limit, invalidationTime);
    var first := cache.Find(["a"]);
    ended := world.clock;
    cache.Wait(vanish + wait);
    began := world.clock;
    cache.ShortWay("a");
    second := cache.Find(["a"]);
  }
}
