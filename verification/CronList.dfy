// The list of cron entries that cis_cron prints, and its parser: parse_cron_list in
// cis_manager.cpp. An entry is a line "project/job expression".

module CronList {

  datatype Entry = Entry(project: string, job: string, expr: string)

  predicate EntryOk(e: Entry) {
    && e.project != "" && '/' !in e.project
    && e.job != "" && ' ' !in e.job
    && e.expr != "" && '\n' !in e.expr
  }

  function Line(e: Entry): string {
    e.project + "/" + e.job + " " + e.expr + "\n"
  }

  function Printed(entries: seq<Entry>): string {
    if entries == [] then ""
    else Printed(entries[..|entries| - 1]) + Line(entries[|entries| - 1])
  }

  /** The line stands at this point of the text. */
  ghost predicate LineAt(text: string, pos: nat, e: Entry) {
    pos <= |text| && Line(e) <= text[pos..]
  }

  /** How far entries can be read off a text: all of them are good, and no good one
    * stands where they end. */
  ghost predicate ReadsAs(text: string, entries: seq<Entry>) {
    && (forall e :: e in entries ==> EntryOk(e))
    && Printed(entries) <= text
    && (forall e :: EntryOk(e) ==> !LineAt(text, |Printed(entries)|, e))
  }

  /** The first such character from a point on, if there is one. */
  ghost predicate FirstIs(text: string, c: char, from: nat, i: nat) {
    && from <= i <= |text| && (i < |text| ==> text[i] == c)
    && (forall n :: from <= n < i ==> text[n] != c)
  }

  /** The three places that delimit an entry, as far as they are there. */
  ghost predicate Delimits(text: string, pos: nat, i: nat, j: nat, k: nat) {
    FirstIs(text, '/', pos, i) && FirstIs(text, ' ', i, j) && FirstIs(text, '\n', j, k)
  }

  lemma DelimitsOnce(text: string, pos: nat, i: nat, j: nat, k: nat, i': nat, j': nat, k': nat)
    requires Delimits(text, pos, i, j, k) && Delimits(text, pos, i', j', k')
    ensures i == i' && j == j' && k == k'
  {
  }

  function Cut(text: string, pos: nat, i: nat, j: nat, k: nat): Entry
    requires pos <= i < j < k <= |text|
  {
    Entry(text[pos..i], text[i + 1..j], text[j + 1..k])
  }

  /** What is cut out at its delimiters is the line that stands there. */
  lemma CutIsLine(text: string, pos: nat, i: nat, j: nat, k: nat)
    requires Delimits(text, pos, i, j, k) && k < |text| && i < j < k
    ensures LineAt(text, pos, Cut(text, pos, i, j, k)) && |Line(Cut(text, pos, i, j, k))| == k + 1 - pos
  {
    assert text[pos..][..k + 1 - pos] == Line(Cut(text, pos, i, j, k));
  }

  lemma PartsOfLine(e: Entry)
    ensures var i := |e.project|; var j := i + 1 + |e.job|; var k := j + 1 + |e.expr|;
      && |Line(e)| == k + 1 && Line(e)[i] == '/' && Line(e)[j] == ' ' && Line(e)[k] == '\n'
      && Line(e)[..i] == e.project && Line(e)[i + 1..j] == e.job && Line(e)[j + 1..k] == e.expr
  {
    var i := |e.project|;
    var j := i + 1 + |e.job|;
    assert Line(e)[j + 1..j + 1 + |e.expr|] == e.expr;
  }

  lemma PartOfLine(text: string, pos: nat, line: string, m: nat, n: nat)
    requires pos <= |text| && line <= text[pos..] && m <= n <= |line|
    ensures pos + |line| <= |text| && text[pos + m..pos + n] == line[m..n]
    ensures n < |line| ==> text[pos + n] == line[n]
  {
    assert forall x :: 0 <= x < |line| ==> text[pos..][x] == line[x];
  }

  lemma LineIsCut(text: string, pos: nat, e: Entry) returns (i: nat, j: nat, k: nat)
    requires EntryOk(e) && LineAt(text, pos, e)
    ensures Delimits(text, pos, i, j, k) && pos < i && i + 1 < j && j + 1 < k < |text|
    ensures e == Cut(text, pos, i, j, k)
  {
    PartsOfLine(e);
    i := pos + |e.project|;
    j := i + 1 + |e.job|;
    k := j + 1 + |e.expr|;
    PartOfLine(text, pos, Line(e), 0, i - pos);
    PartOfLine(text, pos, Line(e), i + 1 - pos, j - pos);
    PartOfLine(text, pos, Line(e), j + 1 - pos, k - pos);
    hide Line;
    NoneIn(text, pos, i, '/');
    NoneIn(text, i + 1, j, ' ');
    NoneIn(text, j + 1, k, '\n');
  }

  lemma NoneIn(text: string, a: nat, b: nat, c: char)
    requires a <= b <= |text| && c !in text[a..b]
    ensures forall n :: a <= n < b ==> text[n] != c
  {
    assert forall n :: a <= n < b ==> text[n] == text[a..b][n - a];
  }

  lemma OnlyCut(text: string, pos: nat, i: nat, j: nat, k: nat, e: Entry)
    requires EntryOk(e) && LineAt(text, pos, e) && Delimits(text, pos, i, j, k)
    ensures pos < i && i + 1 < j && j + 1 < k < |text| && e == Cut(text, pos, i, j, k)
  {
    var i', j', k' := LineIsCut(text, pos, e);
    DelimitsOnce(text, pos, i, j, k, i', j', k');
  }

  /** The end of the buffer is as good as a newline; past it there is nothing. */
  function Past(buffer: string, i: nat): nat {
    if i < |buffer| then i else |buffer| + 1
  }

  lemma FoundInText(buffer: string, it: nat, i: nat, j: nat, k: nat) returns (k': nat)
    requires Delimits(buffer, it, i, j, k)
    ensures it <= i <= j <= k <= |buffer| && k' == if j == |buffer| then |buffer| + 1 else k
    ensures Delimits(buffer + "\n", it, Past(buffer, i), Past(buffer, j), k')
    ensures i < |buffer| && j < |buffer| ==> i < j && j < k
  {
    k' := if j == |buffer| then |buffer| + 1 else k;
  }

  /** Entries that are followed by no line are all there is to read. */
  lemma Stops(buffer: string, entries: seq<Entry>, i: nat, j: nat, k: nat)
    requires (forall e :: e in entries ==> EntryOk(e)) && Printed(entries) <= buffer + "\n"
    requires Delimits(buffer + "\n", |Printed(entries)|, i, j, k)
    requires i == |buffer| + 1 || j == |buffer| + 1 || i == |Printed(entries)| || j == i + 1 || k == j + 1
    ensures ReadsAs(buffer + "\n", entries)
  {
    forall e | EntryOk(e) && LineAt(buffer + "\n", |Printed(entries)|, e)
      ensures false
    {
      OnlyCut(buffer + "\n", |Printed(entries)|, i, j, k, e);
    }
  }

  /** std::find. */
  method Find(buffer: string, from: nat, c: char) returns (i: nat)
    requires from <= |buffer|
    ensures FirstIs(buffer, c, from, i)
  {
    i := from;
    while i < |buffer| && buffer[i] != c
      invariant from <= i <= |buffer| && forall n :: from <= n < i ==> buffer[n] != c
    {
      i := i + 1;
    }
  }

  lemma PrintedSnoc(entries: seq<Entry>, e: Entry)
    ensures Printed(entries + [e]) == Printed(entries) + Line(e)
  {
    assert (entries + [e])[..|entries|] == entries;
  }

  /** The entries taken so far print the text up to here. */
  ghost predicate SoFar(buffer: string, entries: seq<Entry>, it: nat) {
    && it <= |buffer| && (forall e :: e in entries ==> EntryOk(e))
    && Printed(entries) <= buffer + "\n"
    && (|Printed(entries)| == it || (it == |buffer| && |Printed(entries)| == it + 1))
  }

  lemma Extends(a: string, b: string, text: string)
    requires a <= text && b <= text[|a|..]
    ensures a + b <= text
  {
    assert text == a + text[|a|..];
  }

  /** What is cut out of the buffer is the same, and good, as what is cut out of the text. */
  lemma CutIsOk(buffer: string, pos: nat, i: nat, j: nat, k: nat)
    requires pos < i && i + 1 < j && j + 1 < k <= |buffer| && Delimits(buffer + "\n", pos, i, j, k)
    ensures Cut(buffer, pos, i, j, k) == Cut(buffer + "\n", pos, i, j, k)
    ensures EntryOk(Cut(buffer, pos, i, j, k))
  {
    var text := buffer + "\n";
    assert buffer[pos..i] == text[pos..i] && buffer[i + 1..j] == text[i + 1..j] && buffer[j + 1..k] == text[j + 1..k];
  }

  lemma OneMore(buffer: string, entries: seq<Entry>, i: nat, j: nat, k: nat)
    requires |Printed(entries)| < i && i + 1 < j && j + 1 < k <= |buffer| && SoFar(buffer, entries, |Printed(entries)|)
    requires Delimits(buffer + "\n", |Printed(entries)|, i, j, k)
    ensures SoFar(buffer, entries + [Cut(buffer, |Printed(entries)|, i, j, k)], if k == |buffer| then k else k + 1)
  {
    hide Printed, Line, Cut, EntryOk, FirstIs;
    var text, it := buffer + "\n", |Printed(entries)|;
    var e := Cut(buffer, it, i, j, k);
    CutIsOk(buffer, it, i, j, k);
    CutIsLine(text, it, i, j, k);
    PrintedSnoc(entries, e);
    Extends(Printed(entries), Line(e), text);
  }

  lemma AtEnd(buffer: string, entries: seq<Entry>)
    requires SoFar(buffer, entries, |buffer|)
    ensures ReadsAs(buffer + "\n", entries)
  {
  }

  method ParseCronList(buffer: string) returns (entries: seq<Entry>)
    ensures ReadsAs(buffer + "\n", entries)
  {
    hide ReadsAs, FirstIs;
    ghost var text := buffer + "\n";
    entries := [];
    var it := 0;
    while it != |buffer|
      invariant SoFar(buffer, entries, it)
      decreases |buffer| - it
    {
      var it1 := Find(buffer, it, '/');
      var it2 := Find(buffer, it1, ' ');
      var it3 := Find(buffer, it2, '\n');
      ghost var k := FoundInText(buffer, it, it1, it2, it3);
      if it1 == |buffer| || it2 == |buffer| {
        Stops(buffer, entries, Past(buffer, it1), Past(buffer, it2), k);
        return;
      }
      if it1 - it == 0 || it2 - (it1 + 1) == 0 || it3 - (it2 + 1) == 0 {
        Stops(buffer, entries, it1, it2, it3);
        return;
      }
      OneMore(buffer, entries, it1, it2, it3);
      entries := entries + [Entry(buffer[it..it1], buffer[it1 + 1..it2], buffer[it2 + 1..it3])];
      if it3 != |buffer| {
        it3 := it3 + 1;
      }
      it := it3;
    }
    AtEnd(buffer, entries);
  }

  /** Good entries that stand at the same point are the same. */
  lemma SameLine(text: string, pos: nat, e: Entry, f: Entry)
    requires EntryOk(e) && EntryOk(f) && LineAt(text, pos, e) && LineAt(text, pos, f)
    ensures e == f
  {
    var i, j, k := LineIsCut(text, pos, e);
    OnlyCut(text, pos, i, j, k, f);
  }

  /** Each entry of a list that is printed in a text stands where those before it end. */
  lemma {:induction false} EntryStands(text: string, entries: seq<Entry>, n: nat)
    requires n < |entries| && Printed(entries) <= text
    ensures Printed(entries[..n]) <= text && LineAt(text, |Printed(entries[..n])|, entries[n])
  {
    var init := entries[..|entries| - 1];
    if n < |init| {
      assert init[..n] == entries[..n];
      EntryStands(text, init, n);
    }
  }

  /** There is one way to read a text. */
  lemma {:induction false} ReadsOnce(text: string, a: seq<Entry>, b: seq<Entry>, n: nat)
    requires ReadsAs(text, a) && ReadsAs(text, b) && n <= |a| && n <= |b|
    ensures a[..n] == b[..n]
    ensures n == |a| || n == |b| ==> a == b
  {
    hide Printed, LineAt, EntryOk;
    if n > 0 {
      ReadsOnce(text, a, b, n - 1);
      EntryStands(text, a, n - 1);
      EntryStands(text, b, n - 1);
      SameLine(text, |Printed(a[..n - 1])|, a[n - 1], b[n - 1]);
      assert a[..n] == a[..n - 1] + [a[n - 1]] && b[..n] == b[..n - 1] + [b[n - 1]];
    }
    assert a[..|a|] == a && b[..|b|] == b;
    if n == |a| && n < |b| {
      EntryStands(text, b, n);
    } else if n == |b| && n < |a| {
      EntryStands(text, a, n);
    }
  }

  /** What was printed reads as it was, with or without its last newline. */
  lemma PrintedReads(entries: seq<Entry>)
    requires forall e :: e in entries ==> EntryOk(e)
    ensures ReadsAs(Printed(entries), entries) && ReadsAs(Printed(entries) + "\n", entries)
  {
  }

  /** Printing and parsing gives the entries back. */
  method RoundTrip(entries: seq<Entry>) returns (parsed: seq<Entry>)
    requires forall e :: e in entries ==> EntryOk(e)
    ensures parsed == entries
  {
    parsed := ParseCronList(Printed(entries));
    PrintedReads(entries);
    ReadsOnce(Printed(entries) + "\n", parsed, entries, if |parsed| < |entries| then |parsed| else |entries|);
  }

  /** Two lines as cis_cron prints them, the second with or without its newline. */
  method ParseLines(a: Entry, b: Entry, newline: bool) returns (parsed: seq<Entry>)
    requires a.project != "" && '/' !in a.project && a.job != "" && ' ' !in a.job && a.expr != "" && '\n' !in a.expr
    requires b.project != "" && '/' !in b.project && b.job != "" && ' ' !in b.job && b.expr != "" && '\n' !in b.expr
    ensures parsed == [a, b]
  {
    var buffer := a.project + "/" + a.job + " " + a.expr + "\n" + (b.project + "/" + b.job + " " + b.expr);
    buffer := if newline then buffer + "\n" else buffer;
    parsed := ParseCronList(buffer);
    TwoLines(a, b);
    PrintedReads([a, b]);
    hide ReadsAs, Printed, Line;
    assert parsed[..|parsed|] == parsed;
    ReadsOnce(buffer + "\n", parsed, [a, b], if |parsed| < 2 then |parsed| else 2);
  }

  lemma TwoLines(a: Entry, b: Entry)
    ensures Printed([a, b]) ==
      a.project + "/" + a.job + " " + a.expr + "\n" + (b.project + "/" + b.job + " " + b.expr) + "\n"
  {
    PrintedSnoc([], a);
    PrintedSnoc([a], b);
    assert [] + [a] == [a] && [a] + [b] == [a, b];
    assert Printed([]) + Line(a) == Line(a);
  }
}
