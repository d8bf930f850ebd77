// Uploads that come in several calls: when the bytes carried over from call to call are
// the right ones, and what happens when they are not.

module FormChunks {
  import opened Folding
  import opened KnuthMorrisPratt
  import opened Matching
  import opened MultipartLayout
  import opened FormSpec
  import opened FormRoundTrip
  import opened FormReader
  import opened FormUpload
  import H = HeaderParser
  import M = MultipartParser

  ghost function Flatten(chunks: seq<string>): string {
    if chunks == [] then "" else Flatten(chunks[..|chunks| - 1]) + chunks[|chunks| - 1]
  }

  /** One call: everything is read, and Carry chooses the bytes that are kept. */
  ghost function Called(env: Env, d: M.Delims, r: Reading, chunk: string): Reading {
    var fed := Feed(env, d, r, chunk);
    if r.Failed? || fed.Failed? then Failed
    else
      FedTail(env, d, r, chunk);
      Fine(Scanner(fed.scanner.scan, Carry(r.scanner.pending, chunk, |fed.scanner.pending|)), fed.form)
  }

  /** The calls one after the other. */
  ghost function Chain(env: Env, d: M.Delims, r: Reading, chunks: seq<string>): Reading {
    if chunks == [] then r else Called(env, d, Chain(env, d, r, chunks[..|chunks| - 1]), chunks[|chunks| - 1])
  }

  /** The bytes that are undecided are the last ones. */
  lemma {:induction false} FedTail(env: Env, d: M.Delims, r: Reading, s: string)
    requires r.Fine? && Feed(env, d, r, s).Fine?
    ensures IsTail(Feed(env, d, r, s).scanner.pending, r.scanner.pending + s)
  {
    hide FeedChar, Feed, IsTail;
    if s == "" {
      FeedNothing(env, d, r);
      WholeTail(r.scanner.pending);
    } else {
      var n := |s| - 1;
      assert s == s[..n] + [s[n]];
      FeedSnoc(env, d, r, s[..n], s[n]);
      var mid := Feed(env, d, r, s[..n]);
      ByteTail(env, d, mid, s[n]);
      FedTail(env, d, r, s[..n]);
      TailOfTail(mid.scanner.pending, r.scanner.pending + s[..n], s[n], Feed(env, d, r, s).scanner.pending);
      assert r.scanner.pending + s == (r.scanner.pending + s[..n]) + [s[n]];
    }
  }

  lemma ByteTail(env: Env, d: M.Delims, r: Reading, c: char)
    requires FeedChar(env, d, r, c).Fine?
    ensures r.Fine? && IsTail(FeedChar(env, d, r, c).scanner.pending, r.scanner.pending + [c])
  {
    hide Absorb, M.StepOn, ByteStep, EventTokens;
    if r.Fine? && ScannerValid(d, r.scanner) {
      DecidedBytes(d, r.scanner, c);
    }
  }

  lemma WholeTail(s: string)
    ensures IsTail(s, s + "")
  {
    assert s + "" == s;
  }

  lemma TailOfTail(t: string, s: string, c: char, u: string)
    requires IsTail(t, s) && IsTail(u, t + [c])
    ensures IsTail(u, s + [c])
  {
  }

  lemma {:induction false} ChainStays(env: Env, d: M.Delims, r: Reading, chunks: seq<string>, k: nat)
    requires k <= |chunks| && Chain(env, d, r, chunks[..k]).Failed?
    ensures Chain(env, d, r, chunks).Failed?
    decreases |chunks|
  {
    hide Called;
    if k < |chunks| {
      assert chunks[..|chunks| - 1][..k] == chunks[..k];
      ChainStays(env, d, r, chunks[..|chunks| - 1], k);
      CalledFailed(env, d, chunks[|chunks| - 1]);
    } else {
      assert chunks[..k] == chunks;
    }
  }

  lemma CalledFailed(env: Env, d: M.Delims, chunk: string)
    ensures Called(env, d, Failed, chunk) == Failed
  {
  }

  /** The reader, in as many calls as the upload comes in: the chain of calls decides
      whether it is accepted and what is stored. */
  method UploadChunks(boundary: string, env: Env, chunks: seq<string>)
    returns (ec: bool, values: seq<Value>, files: seq<StoredFile>)
    requires env.texts == H.FORM_DATA
    ensures var r := Chain(env, M.DelimsFor(boundary), FreshReading(), chunks);
      && (ec <==> r.Failed? || r.form.target != Name)
      && (r.Fine? ==> values == r.form.values && files == r.form.files)
  {
    hide FormOk, Feed, Coupled, ScannerValid, Carry, PutResult, Called;
    ghost var d, start := M.DelimsFor(boundary), FreshReading();
    var reader := new Reader(boundary, env);
    ec := false;
    var k := 0;
    while k < |chunks| && !ec
      invariant k <= |chunks|
      invariant reader.env == env && reader.multipartParser.DelimsSet() && reader.D() == d
      invariant fresh(reader) && fresh(reader.messageParser)
      invariant fresh(reader.multipartParser) && fresh(reader.multipartParser.kmp)
      invariant !ec ==> reader.Valid() && Chain(env, d, start, chunks[..k]) == reader.State()
      invariant ec ==> Chain(env, d, start, chunks).Failed?
      decreases |chunks| - k, !ec
    {
      ghost var before := reader.State();
      var nwritten;
      nwritten, ec := reader.Put(chunks[k]);
      assert chunks[..k + 1][..k] == chunks[..k];
      CalledIs(env, d, before, chunks[k], nwritten, ec, reader.State());
      if ec {
        ChainStays(env, d, start, chunks, k + 1);
      }
      k := k + 1;
    }
    assert chunks[..|chunks|] == chunks;
    if !ec {
      ec := reader.Finish();
    }
    values, files := reader.values, reader.files;
  }

  lemma CalledIs(env: Env, d: M.Delims, before: Reading, chunk: string, nwritten: nat, ec: bool, after: Reading)
    requires before.Fine? && after.Fine?
    requires ec ==> nwritten < |chunk| && Feed(env, d, before, chunk[..nwritten + 1]).Failed?
    requires !ec ==> PutResult(Feed(env, d, before, chunk), before.scanner.pending, chunk, after)
    ensures Called(env, d, before, chunk) == if ec then Failed else after
  {
    hide Feed, Carry;
    if ec {
      FeedPrefixFailed(env, d, before, chunk, nwritten + 1);
    }
  }

  // ----- When the chain of calls is one call -----

  /** After every call, no more bytes are undecided than that call brought. */
  ghost predicate CarriesWell(env: Env, d: M.Delims, r: Reading, chunks: seq<string>)
    decreases |chunks|
  {
    chunks != [] ==>
      && CarriesWell(env, d, r, chunks[..|chunks| - 1])
      && var fed := Feed(env, d, r, Flatten(chunks));
         fed.Fine? ==> |fed.scanner.pending| <= |chunks[|chunks| - 1]|
  }

  lemma FeedConcat(env: Env, d: M.Delims, r: Reading, a: string, b: string)
    ensures Feed(env, d, r, a + b) == Feed(env, d, Feed(env, d, r, a), b)
  {
    FoldConcat(Feeder(env, d), r, a, b);
  }

  lemma FeedNothing(env: Env, d: M.Delims, r: Reading)
    ensures Feed(env, d, r, "") == r
  {
  }

  /** Then the calls come to the same as one call with everything. */
  lemma {:induction false} ChainIsFeed(env: Env, d: M.Delims, r: Reading, chunks: seq<string>)
    requires CarriesWell(env, d, r, chunks) && r.Fine?
    ensures Chain(env, d, r, chunks) == Feed(env, d, r, Flatten(chunks))
    decreases |chunks|
  {
    hide Feed, Carry;
    if chunks == [] {
      FeedNothing(env, d, r);
    } else {
      var init, last := chunks[..|chunks| - 1], chunks[|chunks| - 1];
      ChainIsFeed(env, d, r, init);
      FeedConcat(env, d, r, Flatten(init), last);
      CalledWell(env, d, Chain(env, d, r, init), last);
    }
  }

  lemma CalledWell(env: Env, d: M.Delims, r: Reading, chunk: string)
    requires r.Fine? && Feed(env, d, r, chunk).Fine? ==> |Feed(env, d, r, chunk).scanner.pending| <= |chunk|
    ensures Called(env, d, r, chunk) == Feed(env, d, r, chunk)
  {
    hide Feed, Carry;
    if r.Failed? {
      FeedFails(env, d, chunk);
    } else if Feed(env, d, r, chunk).Fine? {
      FedTail(env, d, r, chunk);
      CarryIsExact(r.scanner.pending, chunk, |Feed(env, d, r, chunk).scanner.pending|);
    }
  }

  lemma FeedFails(env: Env, d: M.Delims, s: string)
    ensures Feed(env, d, Failed, s) == Failed
  {
    FoldToStays(Feeder(env, d), Failed, s, |s|);
  }

  /** At most one byte less than a delimiter is ever undecided. */
  lemma PendingBound(env: Env, boundary: string, s: string)
    requires Feed(env, M.DelimsFor(boundary), FreshReading(), s).Fine?
    ensures |Feed(env, M.DelimsFor(boundary), FreshReading(), s).scanner.pending| <= |boundary| + 3
  {
    var d := M.DelimsFor(boundary);
    FeedIsRun(env, d, Scanner(M.Scan(M.Start, 0), ""), EMPTY_FORM, s);
    ByteConservation(d, s, |s|);
  }

  /** Calls that bring at least three bytes more than the boundary has carry well. */
  lemma {:induction false} BigChunksCarryWell(env: Env, boundary: string, chunks: seq<string>)
    requires forall i :: 0 <= i < |chunks| ==> |chunks[i]| >= |boundary| + 3
    ensures CarriesWell(env, M.DelimsFor(boundary), FreshReading(), chunks)
    decreases |chunks|
  {
    hide Feed;
    if chunks != [] {
      BigChunksCarryWell(env, boundary, chunks[..|chunks| - 1]);
      if Feed(env, M.DelimsFor(boundary), FreshReading(), Flatten(chunks)).Fine? {
        PendingBound(env, boundary, Flatten(chunks));
      }
    }
  }

  /** So a printed form that comes in calls of that size, the last one of any size, is
      stored as it was printed. */
  lemma BigChunks(env: Env, boundary: string, chunks: seq<string>, parts: seq<FormPart>, epilogue: string)
    requires forall i :: 0 <= i < |chunks| - 1 ==> |chunks[i]| >= |boundary| + 3
    requires FormOk(env.texts, boundary, parts) && (parts == [] ==> epilogue == "")
    requires Flatten(chunks) == PrintForm(env.texts, boundary, parts) + epilogue
    ensures StoredAs(env, Chain(env, M.DelimsFor(boundary), FreshReading(), chunks), parts)
  {
    hide Feed, FormOk, PrintForm, StoreForm, Carry, CarriesWell;
    var d, start := M.DelimsFor(boundary), FreshReading();
    RoundTrip(env, boundary, parts, epilogue);
    if chunks == [] {
      FeedNothing(env, d, start);
    } else {
      var init, last := chunks[..|chunks| - 1], chunks[|chunks| - 1];
      BigChunksCarryWell(env, boundary, init);
      ChainIsFeed(env, d, start, init);
      FeedConcat(env, d, start, Flatten(init), last);
      if Chain(env, d, start, init).Failed? {
        FeedFails(env, d, last);
      }
    }
  }

  // ----- When the carry is right -----

  /** While a part is read and the boundary has no CR, the bytes kept after a call that
      brought something are right exactly when no more bytes are undecided than the call
      brought. */
  lemma CarryInPart(boundary: string, pending: string, chunk: string, rest: nat)
    requires '\r' !in boundary && chunk != "" && rest <= |pending| + |chunk|
    requires rest <= |M.DelimsFor(boundary).encapsulation|
    requires (pending + chunk)[|pending| + |chunk| - rest..] == M.DelimsFor(boundary).encapsulation[..rest]
    ensures Carry(pending, chunk, rest) == (pending + chunk)[|pending| + |chunk| - rest..] <==> rest <= |chunk|
  {
    hide Carry;
    CarryIsExact(pending, chunk, rest);
    if rest > |chunk| {
      var delim := M.DelimsFor(boundary).encapsulation;
      assert delim == "\r\n" + "--" + boundary;
      var undecided := (pending + chunk)[|pending| + |chunk| - rest..];
      assert undecided[rest - |chunk|] == chunk[0];
      assert undecided[..|chunk|][0] == undecided[0] == '\r';
      assert delim[rest - |chunk|] != '\r';
    }
  }

  // ----- Smaller calls lose bytes -----

  /** The first character of the delimiter occurs in it only once. */
  predicate Unbordered(p: string) {
    p != "" && forall i :: 1 <= i < |p| ==> p[i] != p[0]
  }

  /** Where the first character of the delimiter is not, no overlap starts. */
  lemma OverlapStarts(p: string, s: string, e: int, j: nat)
    requires Agree(p, s, e, j) && j > 0
    ensures 0 <= e - j < |s| && s[e - j] == p[0]
    ensures forall x :: e - j <= x < e ==> s[x] == p[x - (e - j)]
  {
    forall x | e - j <= x < e
      ensures s[x] == p[x - (e - j)]
    {
      AgreeAt(p, s, e, j, x - (e - j));
    }
  }

  /** What comes before has the first character of the delimiter only at two places, from
      which it cannot go on. */
  predicate Harmless(p: string, head: string) {
    && |p| >= 4 && |head| >= 4
    && (forall x :: 0 <= x < |head| && head[x] == p[0] ==> x == |head| - 4 || x == |head| - 2)
    && head[|head| - 2] == p[0]
  }

  /** After such a text, a beginning of the delimiter is the longest overlap, and there is
      no occurrence. */
  lemma BeginningIsLongest(p: string, head: string, j: nat)
    requires Unbordered(p) && Harmless(p, head) && 1 <= j < |p|
    ensures Longest(p, head + p[..j]) == j && Absent(p, head + p[..j])
  {
    var s := head + p[..j];
    assert s[|s| - j..|s|] == p[..j];
    AgreeIsEquality(p, s, |s|, j);
    LongestMax(p, s, j);
    OverlapStarts(p, s, |s|, Longest(p, s));
    forall e
      ensures !OccursAt(p, s, e)
    {
      OccursLate(p, head, s, e);
    }
  }

  /** An occurrence does not start in the harmless text. */
  lemma OccursLate(p: string, head: string, s: string, e: int)
    requires Unbordered(p) && Harmless(p, head) && head <= s && |head| < |s| && s[|head|] == p[0]
    ensures OccursAt(p, s, e) ==> |head| + |p| <= e <= |s|
  {
    if OccursAt(p, s, e) {
      OverlapStarts(p, s, e, |p|);
      OccurrenceStarts(p, head, s, e);
    }
  }

  lemma OccurrenceStarts(p: string, head: string, s: string, e: int)
    requires Unbordered(p) && Harmless(p, head) && head <= s && |head| < |s| && s[|head|] == p[0]
    requires |p| <= e <= |s| && forall x :: e - |p| <= x < e ==> s[x] == p[x - (e - |p|)]
    ensures e - |p| >= |head|
  {
    var b := e - |p|;
    assert s[b] == p[0] && s[b + 2] == p[2];
    assert b < |head| ==> head[b] == s[b];
    assert s[|head| - 2] == p[0];
  }

  /** A beginning of the delimiter, another character, and then the delimiter: only the
      last one is an occurrence. */
  lemma BrokenOff(p: string, head: string, j: nat, c: char)
    requires Unbordered(p) && Harmless(p, head) && 1 <= j < |p| && c != p[0] && c != p[j]
    ensures FirstAtEnd(p, head + (p[..j] + [c]))
  {
    var x := head + (p[..j] + [c]);
    var s := x + p;
    forall e | OccursAt(p, s, e)
      ensures e == |x| + |p|
    {
      OccursLate(p, head, s, e);
      OverlapStarts(p, s, e, |p|);
      var b: nat := e - |p|;
      assert s[b] == p[0] && s[b + j] == p[j];
      assert x[|head| + j] == c == s[|head| + j];
      assert forall i :: 0 <= i < j ==> x[|head| + i] == p[i];
      PlaceIn(x, p, b);
    }
  }

  lemma PlaceIn(x: string, y: string, i: nat)
    requires i < |x| + |y|
    ensures (x + y)[i] == if i < |x| then x[i] else y[i - |x|]
  {
  }

  /** Nothing of a beginning of the delimiter is left when another character breaks it off. */
  lemma BreaksOff(p: string, j: nat, c: char)
    requires Unbordered(p) && 1 <= j < |p| && c != p[0] && c != p[j]
    ensures Delta(p, j, c) == 0
  {
    forall k: nat | 0 < k <= j + 1
      ensures !Extends(p, j, c, k)
    {
      if Agree(p, p, j, k - 1) && 1 < k <= j {
        OverlapStarts(p, p, j, k - 1);
      }
    }
    PassOver(p, j, c, 0, j + 1);
  }

  // The upload that shows it: one field whose value begins like the delimiter.

  /** The character that breaks the delimiter off after j characters. */
  function Breaker(p: string, j: nat): char
    requires j < |p|
  {
    if p[j] == 'x' then 'y' else 'x'
  }

  /** The value of the field. */
  function FieldValue(p: string, k: nat): string
    requires k + 1 < |p|
  {
    p[..k + 1] + [Breaker(p, k + 1)]
  }

  /** What is stored instead: the second call is read once less its end, after the first
      character of the delimiter has come twice. */
  function Garbled(p: string, k: nat): string
    requires k + 1 < |p|
  {
    Carry(p[..1], p[1..k + 1], k + 1) + [Breaker(p, k + 1)]
  }

  lemma GarbledDiffers(p: string, k: nat)
    requires Unbordered(p) && 1 <= k && k + 1 < |p|
    ensures |Garbled(p, k)| == |FieldValue(p, k)| && Garbled(p, k)[1] != FieldValue(p, k)[1]
  {
    var data := p[..1] + p[1..k + 1];
    assert data == p[..k + 1];
    assert p[..1][0..] == p[..1];
    assert Carry(p[..1], p[1..k + 1], k + 1) == p[..1] + data[0..k];
  }

  function Head(t: H.Texts): string {
    PrintPart(t, FieldPart("", ""))
  }

  /** Three calls: up to the first character of the value, k more characters, the others. */
  function Calls(t: H.Texts, boundary: string, k: nat): seq<string>
    requires k < |boundary| + 3
  {
    var d := M.DelimsFor(boundary);
    [d.preamble + (Head(t) + d.encapsulation[..1]),
     d.encapsulation[1..k + 1],
     [Breaker(d.encapsulation, k + 1)] + (d.encapsulation + "--")]
  }

  lemma CallsAreForm(t: H.Texts, boundary: string, k: nat)
    requires 1 <= k < |boundary| + 3
    ensures Flatten(Calls(t, boundary, k)) ==
      PrintForm(t, boundary, [FieldPart("", FieldValue(M.DelimsFor(boundary).encapsulation, k))])
  {
    hide PrintPart;
    var d := M.DelimsFor(boundary);
    var p := d.encapsulation;
    var chunks := Calls(t, boundary, k);
    FlattenThree(chunks[0], chunks[1], chunks[2]);
    assert p[..1] + p[1..k + 1] == p[..k + 1];
    RegroupCalls(d.preamble, Head(t), p[..1], p[1..k + 1], [Breaker(p, k + 1)], p + "--");
    PrintsOne(t, boundary, FieldValue(p, k));
  }

  lemma FlattenThree(a: string, b: string, c: string)
    ensures Flatten([a, b, c]) == a + b + c
  {
    assert [a, b, c][..2] == [a, b] && [a, b][..1] == [a] && [a][..0] == [];
    assert Flatten([a]) == "" + a == a;
  }

  lemma RegroupCalls(pre: string, head: string, a: string, b: string, c: string, rest: string)
    ensures (pre + (head + a)) + b + (c + rest) == pre + (head + (a + b + c)) + rest
  {
  }

  lemma PrintsOne(t: H.Texts, boundary: string, value: string)
    ensures var d := M.DelimsFor(boundary);
      PrintForm(t, boundary, [FieldPart("", value)]) == d.preamble + (Head(t) + value) + (d.encapsulation + "--")
  {
    var d := M.DelimsFor(boundary);
    var parts := [FieldPart("", value)];
    assert parts[1..] == [];
    assert PrintPart(t, parts[0]) == Head(t) + value;
    assert d.encapsulation + "--" == "\r\n" + ("--" + boundary + "--");
  }

  /** The header and the delimiter fit together as the upload needs them. */
  predicate Fits(t: H.Texts, boundary: string) {
    var p := M.DelimsFor(boundary).encapsulation;
    Unbordered(p) && p[0] == '\r' && Harmless(p, Head(t))
  }

  /** Searching the first part, after the text before it. */
  ghost function InFirst(d: M.Delims, j: nat, pending: string): Scanner {
    Scanner(M.Scan(M.FirstMessage, j), pending)
  }

  // One byte at a time: a CR and an LF that arrive in calls of their own.

  /** One byte of the first part, which does not complete the delimiter. */
  lemma FirstByte(d: M.Delims, j: nat, pending: string, c: char)
    requires j < |d.encapsulation| && |pending| == j && Delta(d.encapsulation, j, c) < |d.encapsulation|
    ensures var m := Delta(d.encapsulation, j, c); var data := pending + [c];
      && m <= j + 1
      && ByteStep(d, InFirst(d, j, pending), c) ==
           Accepted(InFirst(d, m, data[j + 1 - m..]), Bytes(data[..j + 1 - m]))
  {
  }

  /** A byte that goes on with the delimiter is kept with those before it. */
  lemma GoesOn(d: M.Delims, j: nat, pending: string)
    requires j + 1 < |d.encapsulation| && |pending| == j
    ensures ByteStep(d, InFirst(d, j, pending), d.encapsulation[j]) ==
      Accepted(InFirst(d, j + 1, pending + [d.encapsulation[j]]), [])
  {
    hide ByteStep;
    var p := d.encapsulation;
    AgreeIsEquality(p, p, j, j);
    assert Extends(p, j, p[j], j + 1);
    FirstByte(d, j, pending, p[j]);
    var data := pending + [p[j]];
    assert data[0..] == data && data[..0] == "";
  }

  /** A byte that breaks the delimiter off is delivered behind the bytes that were kept,
      whatever they were. */
  lemma Delivers(d: M.Delims, j: nat, pending: string, c: char)
    requires Unbordered(d.encapsulation) && 1 <= j < |d.encapsulation| && |pending| == j
    requires c != d.encapsulation[0] && c != d.encapsulation[j]
    ensures ByteStep(d, InFirst(d, j, pending), c) == Accepted(InFirst(d, 0, ""), Bytes(pending + [c]))
  {
    hide ByteStep, Delta, Unbordered;
    BreaksOff(d.encapsulation, j, c);
    FirstByte(d, j, pending, c);
    var data := pending + [c];
    assert data[j + 1..] == "" && data[..j + 1] == data;
  }

  /** The LF is lost, and a second CR is delivered in its place when the delimiter does
      not follow. */
  lemma CarryCorrupts(boundary: string, c: char)
    requires '\r' !in boundary && c != '\r' && c != '-'
    ensures var d := M.DelimsFor(boundary);
      && ByteStep(d, InFirst(d, 1, "\r"), '\n') == Accepted(InFirst(d, 2, "\r\n"), [])
      && Carry("\r", "\n", 2) == "\r\r"
      && ByteStep(d, InFirst(d, 2, "\r\n"), c) == Accepted(InFirst(d, 0, ""), Bytes("\r\n" + [c]))
      && ByteStep(d, InFirst(d, 2, "\r\r"), c) == Accepted(InFirst(d, 0, ""), Bytes("\r\r" + [c]))
  {
    hide ByteStep, Bytes;
    var d := M.DelimsFor(boundary);
    assert d.encapsulation == "\r\n--" + boundary;
    assert "\r" + ['\n'] == "\r\n";
    GoesOn(d, 1, "\r");
    Delivers(d, 2, "\r\n", c);
    Delivers(d, 2, "\r\r", c);
  }

  /** The first call: the part has begun, and one byte is undecided. */
  lemma FirstCall(t: H.Texts, boundary: string, k: nat)
    requires Fits(t, boundary) && 1 <= k < |boundary| + 3
    ensures var d := M.DelimsFor(boundary);
      Run(d, Fresh(), Calls(t, boundary, k)[0]) ==
        Accepted(InFirst(d, 1, d.encapsulation[..1]), Bytes(d.preamble) + [Begin] + Bytes(Head(t)))
  {
    hide Run, Head;
    var d := M.DelimsFor(boundary);
    var s := Head(t) + d.encapsulation[..1];
    FreshIsPreamble(d, d.preamble + s);
    FoundRuns(d, M.Preamble, "");
    assert "" + d.preamble == d.preamble;
    RunConcat(d, Searching0(M.Preamble), d.preamble, s);
    RunAfter(d, InFirst(d, 0, ""), Bytes(d.preamble) + [Begin], s);
    SearchedTo(d, Head(t), 1);
  }

  /** After the header and a beginning of the delimiter. */
  lemma SearchedTo(d: M.Delims, head: string, j: nat)
    requires Unbordered(d.encapsulation) && Harmless(d.encapsulation, head) && 1 <= j < |d.encapsulation|
    ensures Run(d, Searching0(M.FirstMessage), head + d.encapsulation[..j]) ==
      Accepted(InFirst(d, j, d.encapsulation[..j]), Bytes(head))
  {
    hide Run;
    var s := head + d.encapsulation[..j];
    BeginningIsLongest(d.encapsulation, head, j);
    SearchRuns(d, M.FirstMessage, s);
    assert s[|s| - j..] == d.encapsulation[..j] && s[..|s| - j] == head;
  }

  /** The second call: everything stays undecided. */
  lemma SecondCall(t: H.Texts, boundary: string, k: nat)
    requires Fits(t, boundary) && 1 <= k < |boundary| + 3
    ensures var d := M.DelimsFor(boundary); var p := d.encapsulation;
      Run(d, Accepted(InFirst(d, 1, p[..1]), []), p[1..k + 1]) == Accepted(InFirst(d, k + 1, p[..k + 1]), [])
  {
    hide Run, Head;
    var d := M.DelimsFor(boundary);
    var p, head := d.encapsulation, Head(t);
    SearchedTo(d, head, 1);
    SearchedTo(d, head, k + 1);
    assert p[..1] + p[1..k + 1] == p[..k + 1];
    assert head + p[..k + 1] == (head + p[..1]) + p[1..k + 1];
    RunConcat(d, Searching0(M.FirstMessage), head + p[..1], p[1..k + 1]);
    RunAfter(d, InFirst(d, 1, p[..1]), Bytes(head), p[1..k + 1]);
    var out := Run(d, Accepted(InFirst(d, 1, p[..1]), []), p[1..k + 1]);
    assert Extend(Bytes(head), out) == Accepted(InFirst(d, k + 1, p[..k + 1]), Bytes(head));
    assert |out.tokens| == 0;
  }

  /** The third call, whatever bytes have been kept. */
  lemma ThirdCall(boundary: string, k: nat, kept: string)
    requires var p := M.DelimsFor(boundary).encapsulation; Unbordered(p) && p[0] == '\r'
    requires 1 <= k < |boundary| + 3 && |kept| == k + 1
    ensures var d := M.DelimsFor(boundary); var c := Breaker(d.encapsulation, k + 1);
      && Run(d, Accepted(InFirst(d, k + 1, kept), []), [c] + (d.encapsulation + "--")) ==
           Accepted(Scanner(M.Scan(M.Epilogue, |d.encapsulation|), ""),
                    Bytes(kept + [c]) + [End] + Bytes(d.encapsulation) + Bytes("--"))
  {
    hide Run, Then;
    var d := M.DelimsFor(boundary);
    var p := d.encapsulation;
    var c := Breaker(p, k + 1);
    var start := Accepted(InFirst(d, k + 1, kept), []);
    var s := [c] + (p + "--");
    RunFirst(d, start, s);
    assert s[1..] == p + "--";
    BrokenStep(d, k + 1, kept, c);
    hide Unbordered, Bytes;
    RunAfter(d, InFirst(d, 0, ""), Bytes(kept + [c]), p + "--");
    ClosingRun(d);
    assert Bytes(kept + [c]) + ([End] + Bytes(p) + Bytes("--")) == Bytes(kept + [c]) + [End] + Bytes(p) + Bytes("--");
  }

  /** The delimiter, right at the start of a part, and the two dashes that close the form. */
  lemma ClosingRun(d: M.Delims)
    ensures Run(d, Accepted(InFirst(d, 0, ""), []), d.encapsulation + "--") ==
      Accepted(Scanner(M.Scan(M.Epilogue, |d.encapsulation|), ""), [End] + Bytes(d.encapsulation) + Bytes("--"))
  {
    hide Run, Then;
    var p := d.encapsulation;
    RunConcat(d, Searching0(M.FirstMessage), p, "--");
    FoundRuns(d, M.FirstMessage, "");
    assert "" + p == p && Bytes("") == [];
    var end := [End] + Bytes(p);
    assert Bytes("") + [End] + Bytes(p) == end;
    RunAfter(d, BetweenParts(d), end, "--");
    TwoBytes(d, '-', '-');
  }

  lemma BrokenStep(d: M.Delims, j: nat, kept: string, c: char)
    requires Unbordered(d.encapsulation) && 1 <= j < |d.encapsulation| && |kept| == j
    requires c != d.encapsulation[0] && c != d.encapsulation[j]
    ensures Then(d, Accepted(InFirst(d, j, kept), []), c) == Accepted(InFirst(d, 0, ""), Bytes(kept + [c]))
  {
    hide ByteStep, Unbordered;
    Delivers(d, j, kept, c);
    assert [] + Bytes(kept + [c]) == Bytes(kept + [c]);
  }

  lemma CalledTo(env: Env, d: M.Delims, st: Scanner, f: Form, chunk: string, out: Outcome, f': Form)
    requires out == Run(d, Accepted(st, []), chunk) && out.Accepted?
    requires Absorb(env, Effect(f, false), out.tokens) == Effect(f', false)
    requires |out.state.pending| <= |st.pending| + |chunk|
    ensures Called(env, d, Fine(st, f), chunk) ==
      Fine(Scanner(out.state.scan, Carry(st.pending, chunk, |out.state.pending|)), f')
  {
    hide Run, Absorb, Carry, Feed;
    FeedIsRun(env, d, st, f, chunk);
  }

  lemma ChainOfThree(env: Env, d: M.Delims, r: Reading, a: string, b: string, c: string)
    ensures Chain(env, d, r, [a, b, c]) == Called(env, d, Called(env, d, Called(env, d, r, a), b), c)
  {
    hide Called;
    assert [a, b, c][..2] == [a, b] && [a, b][..1] == [a] && [a][..0] == [];
    assert Chain(env, d, r, [a]) == Called(env, d, r, a);
  }

  /** The form while the field is open, with nothing of its value written. */
  function FieldOpen(env: Env): Form {
    PartDone(env, EMPTY_FORM.(message := true), FieldPart("", ""))
  }

  lemma HeadAbsorbed(env: Env, d: M.Delims)
    ensures Absorb(env, Effect(EMPTY_FORM, false), Bytes(d.preamble) + [Begin] + Bytes(Head(env.texts))) ==
      Effect(FieldOpen(env), false)
  {
    hide Absorb;
    BeginAbsorbed(env, EMPTY_FORM, d.preamble);
    AbsorbConcat(env, EMPTY_FORM, Bytes(d.preamble) + [Begin], Bytes(Head(env.texts)));
    PartReads(env, EMPTY_FORM.(message := true), FieldPart("", ""));
  }

  /** What the third call delivers completes the field. */
  lemma ValueAbsorbed(env: Env, d: M.Delims, value: string)
    ensures StoresAll(env, EMPTY_FORM, [FieldPart("", value)],
      Absorb(env, Effect(FieldOpen(env), false), Bytes(value) + [End] + Bytes(d.encapsulation) + Bytes("--")))
  {
    hide Absorb;
    var f := EMPTY_FORM.(message := true);
    var parts := [FieldPart("", value)];
    var head, rest := Head(env.texts), Bytes(value) + [End] + Bytes(d.encapsulation) + Bytes("--");
    PartReads(env, f, FieldPart("", ""));
    AbsorbConcat(env, f, Bytes(head), rest);
    BytesConcat(head, value);
    assert PrintPart(env.texts, parts[0]) == head + value;
    assert M.DDASH + "" == "--";
    assert BodyTokens(d, BodyFor(env.texts, parts, "")) ==
      Bytes(head + value) + [End] + Bytes(d.encapsulation) + Bytes("--");
    assert Bytes(head) + rest == Bytes(head + value) + [End] + Bytes(d.encapsulation) + Bytes("--");
    PartsAbsorbed(env, d, f, parts, "");
  }

  /** The three calls: the upload is accepted, and another value is stored. */
  lemma CallsStore(env: Env, boundary: string, k: nat)
    requires Fits(env.texts, boundary) && 1 <= k < |boundary| + 3
    ensures StoredAs(env, Chain(env, M.DelimsFor(boundary), FreshReading(), Calls(env.texts, boundary, k)),
                     [FieldPart("", Garbled(M.DelimsFor(boundary).encapsulation, k))])
  {
    hide Run, Absorb, Called, Head, Carry;
    var d := M.DelimsFor(boundary);
    var p, t := d.encapsulation, env.texts;
    var chunks := Calls(t, boundary, k);
    var a, b, c := chunks[0], chunks[1], chunks[2];
    var open := FieldOpen(env);
    ChainOfThree(env, d, FreshReading(), a, b, c);
    FirstCall(t, boundary, k);
    HeadAbsorbed(env, d);
    CalledTo(env, d, Scanner(M.Scan(M.Start, 0), ""), EMPTY_FORM, a, Run(d, Fresh(), a), open);
    CarryIsExact("", a, 1);
    assert ("" + a)[|a| - 1..] == p[..1];
    SecondCall(t, boundary, k);
    AbsorbNothing(env, open);
    CalledTo(env, d, InFirst(d, 1, p[..1]), open, b, Run(d, Accepted(InFirst(d, 1, p[..1]), []), b), open);
    var kept := Carry(p[..1], b, k + 1);
    ThirdCall(boundary, k, kept);
    ValueAbsorbed(env, d, Garbled(p, k));
    var out := Run(d, Accepted(InFirst(d, k + 1, kept), []), c);
    var last := Absorb(env, Effect(open, false), out.tokens).form;
    CalledTo(env, d, InFirst(d, k + 1, kept), open, c, out, last);
  }

  lemma AbsorbNothing(env: Env, f: Form)
    ensures Absorb(env, Effect(f, false), []) == Effect(f, false)
  {
  }

  /** The bound on the size of calls cannot be lowered: for every smaller one there is a
      printed form that comes in calls of at least that size and is stored with another
      value, without an error. */
  lemma SmallChunks(env: Env, boundary: string, k: nat)
    requires env.texts == H.FORM_DATA && '\r' !in boundary && 1 <= k < |boundary| + 3
    ensures var chunks := Calls(env.texts, boundary, k);
      var p := M.DelimsFor(boundary).encapsulation;
      var value, garbled := FieldValue(p, k), Garbled(p, k);
      var r := Chain(env, M.DelimsFor(boundary), FreshReading(), chunks);
      && (forall i :: 0 <= i < |chunks| ==> |chunks[i]| >= k) && |chunks[1]| == k
      && FormOk(env.texts, boundary, [FieldPart("", value)])
      && Flatten(chunks) == PrintForm(env.texts, boundary, [FieldPart("", value)])
      && garbled != value && StoredAs(env, r, [FieldPart("", garbled)]) && !StoredAs(env, r, [FieldPart("", value)])
  {
    hide Run, Absorb, Called, Head, Carry, Chain;
    var p := M.DelimsFor(boundary).encapsulation;
    var value, garbled := FieldValue(p, k), Garbled(p, k);
    FormDataFits(boundary);
    CallsAreForm(env.texts, boundary, k);
    BrokenOff(p, Head(env.texts), k + 1, Breaker(p, k + 1));
    PrintsHead(env.texts, value);
    CallsStore(env, boundary, k);
    GarbledDiffers(p, k);
    StoresOne(env, value);
    StoresOne(env, garbled);
  }

  lemma PrintsHead(t: H.Texts, value: string)
    ensures PrintPart(t, FieldPart("", value)) == Head(t) + value
  {
  }

  lemma StoresOne(env: Env, value: string)
    ensures StoreForm(env, Store([], []), [FieldPart("", value)]) == Store([Value("", false, true, value)], [])
  {
    assert [FieldPart("", value)][1..] == [];
    assert [] + [Value("", false, true, value)] == [Value("", false, true, value)];
  }

  lemma NoReturn()
    ensures forall x :: 0 <= x < |H.FORM_DATA.contentDisposition| ==> H.FORM_DATA.contentDisposition[x] != '\r'
  {
  }

  lemma FormDataFits(boundary: string)
    requires '\r' !in boundary
    ensures Fits(H.FORM_DATA, boundary)
  {
    NoReturn();
    var p := M.DelimsFor(boundary).encapsulation;
    var head, disposition := Head(H.FORM_DATA), H.FORM_DATA.contentDisposition;
    var end := [H.QUOTE] + "\r\n\r\n";
    assert "" + [H.QUOTE] == [H.QUOTE] && "\r\n\r\n" + "" == "\r\n\r\n";
    assert head == disposition + end;
    forall x | 0 <= x < |head| && head[x] == '\r'
      ensures x == |head| - 4 || x == |head| - 2
    {
      PlaceIn(disposition, end, x);
    }
    assert p == "\r\n--" + boundary;
    forall i | 1 <= i < |p|
      ensures p[i] != '\r'
    {
      PlaceIn("\r\n--", boundary, i);
    }
  }
}
