// Whole runs of the boundary parser: what a text must look like to be accepted, and
// where its parts are. The parser is compared with a description of the text that
// mentions only the delimiters and their first occurrences.

module MultipartLayout {
  import opened Matching
  import opened MultipartParser
  import opened Folding

  /** What the layers above the boundary parser see, in order: every decided byte, and
      the points where a part begins or ends. */
  datatype Token = Begin | End | Byte(c: char)

  /** The boundary parser and the bytes waiting for its decision. */
  datatype Scanner = Scanner(scan: Scan, pending: string)

  datatype Outcome = Rejected | Accepted(state: Scanner, tokens: seq<Token>)

  function Bytes(s: string): (tokens: seq<Token>)
    ensures |tokens| == |s|
  {
    seq(|s|, i requires 0 <= i < |s| => Byte(s[i]))
  }

  function EventTokens(event: Event, bytes: string): seq<Token> {
    match event
    case NoEvent => Bytes(bytes)
    case MessageBegin => Bytes(bytes) + [Begin]
    case MessageEnd => [End] + Bytes(bytes)
  }

  ghost predicate ScannerValid(d: Delims, st: Scanner) {
    ScanValid(d, st.scan) && |st.pending| == |Held(d, st.scan)|
  }

  /** The waiting bytes are the right ones. */
  ghost predicate InSync(d: Delims, st: Scanner) {
    ScanValid(d, st.scan) && st.pending == Held(d, st.scan)
  }

  ghost function ByteStep(d: Delims, st: Scanner, c: char): (out: Outcome)
    requires ScannerValid(d, st)
  {
    StepIsConserving(d, st.scan, c);
    match StepOn(d, st.scan, c)
    case Malformed => Rejected
    case Decided(next, advancement, event) =>
      var data := st.pending + [c];
      Accepted(Scanner(next, data[advancement..]), EventTokens(event, data[..advancement]))
  }

  /** The effect of one character on what has been accepted so far. */
  ghost function Then(d: Delims, before: Outcome, c: char): (out: Outcome) {
    if before.Rejected? || !ScannerValid(d, before.state) then Rejected
    else Extend(before.tokens, ByteStep(d, before.state, c))
  }

  function Extend(tokens: seq<Token>, out: Outcome): Outcome {
    if out.Rejected? then Rejected else Accepted(out.state, tokens + out.tokens)
  }

  ghost function Stepper(d: Delims): (Outcome, char) -> Outcome {
    (before, c) => Then(d, before, c)
  }

  /** The whole text s, after what has been accepted so far. */
  ghost function Run(d: Delims, before: Outcome, s: string): Outcome {
    Fold(Stepper(d), before, s)
  }

  lemma RunSnoc(d: Delims, before: Outcome, s: string, c: char)
    ensures Run(d, before, s + [c]) == Then(d, Run(d, before, s), c)
  {
    FoldSnoc(Stepper(d), before, s, c);
  }

  /** Feeding a text in two pieces is feeding it at once. */
  lemma RunConcat(d: Delims, before: Outcome, a: string, b: string)
    ensures Run(d, before, a + b) == Run(d, Run(d, before, a), b)
  {
    FoldConcat(Stepper(d), before, a, b);
  }

  /** The waiting bytes stay as many as the parser holds back, and stay the right ones. */
  lemma ByteStepKeeps(d: Delims, st: Scanner, c: char)
    requires ScannerValid(d, st)
    ensures var out := ByteStep(d, st, c); out.Accepted? ==>
      ScannerValid(d, out.state) && (InSync(d, st) ==> InSync(d, out.state))
  {
    StepIsConserving(d, st.scan, c);
  }

  function Written(text: string, token: Token): string {
    if token.Byte? then text + [token.c] else text
  }

  /** The bytes of a token sequence. */
  ghost function Text(tokens: seq<Token>): string {
    Fold(Written, "", tokens)
  }

  lemma TextConcat(a: seq<Token>, b: seq<Token>)
    ensures Text(a + b) == Text(a) + Text(b)
  {
    var t := Text(a);
    var h := (x: string) => t + x;
    forall x, token
      ensures Written(h(x), token) == h(Written(x, token))
    {
      if token.Byte? {
        assert (t + x) + [token.c] == t + (x + [token.c]);
      }
    }
    FoldConcat(Written, "", a, b);
    FoldToMap(Written, Written, h, "", b, |b|);
    assert h("") == t;
  }

  lemma TextOfBytes(s: string)
    ensures Text(Bytes(s)) == s
  {
    var g := (k: nat) => if k <= |s| then s[..k] else "";
    forall k: nat | k < |s|
      ensures Written(g(k), Bytes(s)[k]) == g(k + 1)
    {
      assert s[..k] + [s[k]] == s[..k + 1];
    }
    FoldToIs(Written, g, Bytes(s), |s|);
    assert s[..|s|] == s && s[..0] == "";
  }

  lemma TextOfEvent(event: Event, bytes: string)
    ensures Text(EventTokens(event, bytes)) == bytes
  {
    TextOfBytes(bytes);
    TextConcat(Bytes(bytes), [Begin]);
    TextConcat([End], Bytes(bytes));
    FoldOne(Written, "", Begin);
    FoldOne(Written, "", End);
  }

  lemma BytesConcat(a: string, b: string)
    ensures Bytes(a + b) == Bytes(a) + Bytes(b)
  {
  }

  // ----- The description of accepted texts -----

  datatype Layout =
    | Unstarted(text: string)
    | Started(preamble: string, first: Body)

  datatype Body =
    | Open(text: string)
    | Part(text: string, after: After)

  datatype After =
    | Undecided(text: string)
    | Final(epilogue: string)
    | Next(body: Body)

  function Render(d: Delims, layout: Layout): string {
    match layout
    case Unstarted(text) => text
    case Started(preamble, first) => preamble + d.preamble + RenderBody(d, first)
  }

  function RenderBody(d: Delims, body: Body): string {
    match body
    case Open(text) => text
    case Part(text, after) => text + d.encapsulation + RenderAfter(d, after)
  }

  function RenderAfter(d: Delims, after: After): string {
    match after
    case Undecided(text) => text
    case Final(epilogue) => DDASH + epilogue
    case Next(body) => CRLF + RenderBody(d, body)
  }

  /** Every delimiter in the description is the first one that could stand there. */
  ghost predicate LayoutOk(d: Delims, layout: Layout) {
    match layout
    case Unstarted(text) => Absent(d.preamble, text)
    case Started(preamble, first) => FirstAtEnd(d.preamble, preamble) && BodyOk(d, first)
  }

  ghost predicate BodyOk(d: Delims, body: Body) {
    match body
    case Open(text) => Absent(d.encapsulation, text)
    case Part(text, after) => FirstAtEnd(d.encapsulation, text) && AfterOk(d, after)
  }

  ghost predicate AfterOk(d: Delims, after: After) {
    match after
    case Undecided(text) => text == "" || text == "-" || text == "\r"
    case Final(_) => true
    case Next(body) => BodyOk(d, body)
  }

  /** The closing delimiter has come. */
  predicate Closed(layout: Layout) {
    layout.Started? && ClosedBody(layout.first)
  }

  predicate ClosedBody(body: Body) {
    body.Part? && ClosedAfter(body.after)
  }

  predicate ClosedAfter(after: After) {
    match after
    case Undecided(_) => false
    case Final(_) => true
    case Next(body) => ClosedBody(body)
  }

  /** The bytes of s that are decided when s is searched for p and has none. */
  ghost function Settled(p: string, s: string): string {
    LongestFits(p, s);
    s[..|s| - Longest(p, s)]
  }

  ghost function LayoutTokens(d: Delims, layout: Layout): seq<Token> {
    match layout
    case Unstarted(text) => Bytes(Settled(d.preamble, text))
    case Started(preamble, first) => Bytes(preamble + d.preamble) + [Begin] + BodyTokens(d, first)
  }

  /** A finished part is delivered whole, between its Begin and its End. */
  ghost function BodyTokens(d: Delims, body: Body): seq<Token> {
    match body
    case Open(text) => Bytes(Settled(d.encapsulation, text))
    case Part(text, after) => Bytes(text) + [End] + Bytes(d.encapsulation) + AfterTokens(d, after)
  }

  ghost function AfterTokens(d: Delims, after: After): seq<Token> {
    match after
    case Undecided(_) => []
    case Final(epilogue) => Bytes(DDASH + epilogue)
    case Next(body) => Bytes(CRLF) + [Begin] + BodyTokens(d, body)
  }

  // ----- Searching one stretch of text -----

  lemma AbsentPrefix(p: string, s: string, t: string)
    requires Absent(p, s + t)
    ensures Absent(p, s)
  {
    forall e
      ensures !OccursAt(p, s, e)
    {
      if 0 <= e <= |s| {
        AgreePrefix(p, s, t, e, |p|);
        assert !OccursAt(p, s + t, e);
      }
    }
  }

  function Searching0(phase: Phase): Outcome {
    Accepted(Scanner(Scan(phase, 0), ""), [])
  }

  /** The state after searching s, without finding the delimiter of the phase. */
  ghost function SearchState(d: Delims, phase: Phase, s: string): (st: Scanner)
    requires Searching(phase)
  {
    var p := Delim(d, phase);
    LongestFits(p, s);
    Scanner(Scan(phase, Longest(p, s)), s[|s| - Longest(p, s)..])
  }

  /** One more character that does not complete the delimiter. */
  lemma SearchNext(d: Delims, phase: Phase, s: string, c: char)
    requires Searching(phase)
    requires Longest(Delim(d, phase), s) < |Delim(d, phase)|
    requires Longest(Delim(d, phase), s + [c]) < |Delim(d, phase)|
    ensures var p := Delim(d, phase);
      && ScannerValid(d, SearchState(d, phase, s))
      && Then(d, Accepted(SearchState(d, phase, s), Bytes(Settled(p, s))), c) ==
           Accepted(SearchState(d, phase, s + [c]), Bytes(Settled(p, s + [c])))
  {
    var p, t := Delim(d, phase), s + [c];
    LongestSnoc(p, s, c);
    LongestFits(p, s);
    LongestFits(p, t);
    SearchAdvances(d, phase, s[|s| - Longest(p, s)..], c);
    hide Delta, Longest, ByteStep, ScanValid, Bytes;
    Resettle(s, c, |s| - Longest(p, s), |t| - Longest(p, t));
  }

  /** One character while the delimiter is searched for and not completed. */
  lemma SearchAdvances(d: Delims, phase: Phase, pending: string, c: char)
    requires Searching(phase)
    requires |pending| < |Delim(d, phase)| && Delta(Delim(d, phase), |pending|, c) < |Delim(d, phase)|
    ensures var m := Delta(Delim(d, phase), |pending|, c); var data := pending + [c];
      && ScannerValid(d, Scanner(Scan(phase, |pending|), pending))
      && ByteStep(d, Scanner(Scan(phase, |pending|), pending), c) ==
           Accepted(Scanner(Scan(phase, m), data[|data| - m..]), Bytes(data[..|data| - m]))
  {
    hide Delta;
  }

  /** Settling the bytes of s + [c] up to b, when those of s were settled up to a. */
  lemma Resettle(s: string, c: char, a: nat, b: nat)
    requires a <= |s| && a <= b <= |s| + 1
    ensures var data := s[a..] + [c];
      && data[b - a..] == (s + [c])[b..]
      && Bytes(s[..a]) + Bytes(data[..b - a]) == Bytes((s + [c])[..b])
  {
    var t := s + [c];
    assert s[a..] + [c] == t[a..];
    assert t[a..][b - a..] == t[b..];
    assert t[a..][..b - a] == t[a..b];
    assert s[..a] == t[..a];
    assert t[..a] + t[a..b] == t[..b];
    BytesConcat(t[..a], t[a..b]);
  }

  lemma {:induction false} SearchRuns(d: Delims, phase: Phase, s: string)
    requires Searching(phase) && Absent(Delim(d, phase), s)
    ensures Longest(Delim(d, phase), s) < |Delim(d, phase)|
    ensures Run(d, Searching0(phase), s) ==
      Accepted(SearchState(d, phase, s), Bytes(Settled(Delim(d, phase), s)))
  {
    var p := Delim(d, phase);
    FullOccurrence(p, s);
    if s == "" {
      LongestMax(p, s, 0);
    } else {
      var s', c := s[..|s| - 1], s[|s| - 1];
      assert s == s' + [c];
      AbsentPrefix(p, s', [c]);
      SearchRuns(d, phase, s');
      RunSnoc(d, Searching0(phase), s', c);
      SearchNext(d, phase, s', c);
    }
  }

  /** The character that completes the first occurrence of the delimiter. */
  lemma HitMatch(p: string, x: string, s: string, c: char)
    requires x + p == s + [c] && Longest(p, s) < |p|
    ensures Longest(p, s) == |p| - 1 && Delta(p, |p| - 1, c) == |p|
  {
    var t := s + [c];
    assert t[|t| - |p|..|t|] == p && p[..|p|] == p;
    AgreeIsEquality(p, t, |t|, |p|);
    FullOccurrence(p, t);
    LongestSnoc(p, s, c);
  }

  lemma SearchHit(d: Delims, phase: Phase, x: string, s: string, c: char)
    requires Searching(phase) && x + Delim(d, phase) == s + [c]
    requires Longest(Delim(d, phase), s) < |Delim(d, phase)|
    ensures Then(d, Accepted(SearchState(d, phase, s), Bytes(Settled(Delim(d, phase), s))), c) ==
      FoundState(d, phase, x)
  {
    var p := Delim(d, phase);
    HitMatch(p, x, s, c);
    HitSlices(x, p, s, c);
    var scan := Scan(phase, |p| - 1);
    assert SearchState(d, phase, s) == Scanner(scan, s[|x|..]) && Settled(p, s) == x;
    assert StepOn(d, scan, c) == SearchMove(|p|, scan, |p|);
  }

  lemma HitSlices(x: string, p: string, s: string, c: char)
    requires x + p == s + [c] && p != ""
    ensures |x| <= |s| && s[|x|..] + [c] == p && s[..|x|] == x
    ensures p[..|p|] == p && p[|p|..] == ""
    ensures Bytes(x + p) == Bytes(x) + Bytes(p)
  {
    var t := s + [c];
    assert t[|x|..] == p && t[..|x|] == x;
    BytesConcat(x, p);
  }

  ghost function FoundState(d: Delims, phase: Phase, x: string): Outcome
    requires Searching(phase)
  {
    var p := Delim(d, phase);
    if phase == Preamble then
      Accepted(Scanner(Scan(FirstMessage, 0), ""), Bytes(x + p) + [Begin])
    else
      Accepted(Scanner(Scan(MaybeEndOrEncapsulation, |p|), ""), Bytes(x) + [End] + Bytes(p))
  }

  /** Reaching the first occurrence of the delimiter. */
  lemma FoundRuns(d: Delims, phase: Phase, x: string)
    requires Searching(phase) && FirstAtEnd(Delim(d, phase), x)
    ensures Run(d, Searching0(phase), x + Delim(d, phase)) == FoundState(d, phase, x)
  {
    var p := Delim(d, phase);
    var s := x + p;
    var s', c := s[..|s| - 1], s[|s| - 1];
    assert s == s' + [c];
    forall e
      ensures !OccursAt(p, s', e)
    {
      if 0 <= e <= |s'| {
        AgreePrefix(p, s', [c], e, |p|);
        assert OccursAt(p, s, e) ==> e == |s|;
      }
    }
    SearchRuns(d, phase, s');
    RunSnoc(d, Searching0(phase), s', c);
    SearchHit(d, phase, x, s', c);
  }

  // ----- Accepted texts are exactly the renderings of layouts -----

  lemma ThenAfter(d: Delims, a: seq<Token>, before: Outcome, c: char)
    ensures Then(d, Extend(a, before), c) == Extend(a, Then(d, before, c))
  {
    if before.Accepted? && ScannerValid(d, before.state) {
      var out := ByteStep(d, before.state, c);
      if out.Accepted? {
        assert (a + before.tokens) + out.tokens == a + (before.tokens + out.tokens);
      }
    }
  }

  /** Tokens already delivered are only carried along. */
  lemma RunAfter(d: Delims, st: Scanner, tokens: seq<Token>, s: string)
    ensures Run(d, Accepted(st, tokens), s) == Extend(tokens, Run(d, Accepted(st, []), s))
  {
    var h := (out: Outcome) => Extend(tokens, out);
    forall before, c
      ensures Stepper(d)(h(before), c) == h(Stepper(d)(before, c))
    {
      ThenAfter(d, tokens, before, c);
    }
    assert tokens + [] == tokens;
    FoldToMap(Stepper(d), Stepper(d), h, Accepted(st, []), s, |s|);
  }

  lemma RunRejected(d: Delims, s: string)
    ensures Run(d, Rejected, s) == Rejected
  {
    FoldToStays(Stepper(d), Rejected, s, |s|);
  }

  /** The first character of a text, then the others. */
  lemma RunFirst(d: Delims, before: Outcome, s: string)
    requires s != ""
    ensures Run(d, before, s) == Run(d, Then(d, before, s[0]), s[1..])
  {
    assert s == [s[0]] + s[1..];
    RunConcat(d, before, [s[0]], s[1..]);
    FoldOne(Stepper(d), before, s[0]);
  }

  predicate InPart(phase: Phase) {
    phase == FirstMessage || phase == Encapsulation
  }

  /** Just after a delimiter between parts. */
  function BetweenParts(d: Delims): Scanner {
    Scanner(Scan(MaybeEndOrEncapsulation, |d.encapsulation|), "")
  }

  /** After the closing delimiter every byte is decided at once. */
  lemma EpilogueRuns(d: Delims, k: nat, s: string)
    ensures Run(d, Accepted(Scanner(Scan(Epilogue, k), ""), []), s) ==
      Accepted(Scanner(Scan(Epilogue, k), ""), Bytes(s))
  {
    var st := Scanner(Scan(Epilogue, k), "");
    var g := (n: nat) => if n <= |s| then Accepted(st, Bytes(s[..n])) else Rejected;
    forall n: nat | n < |s|
      ensures Stepper(d)(g(n), s[n]) == g(n + 1)
    {
      EpilogueStep(d, k, s[..n], s[n]);
      assert s[..n] + [s[n]] == s[..n + 1];
    }
    FoldToIs(Stepper(d), g, s, |s|);
    assert s[..|s|] == s && Bytes(s[..0]) == [];
  }

  lemma EpilogueStep(d: Delims, k: nat, x: string, c: char)
    ensures Then(d, Accepted(Scanner(Scan(Epilogue, k), ""), Bytes(x)), c) ==
      Accepted(Scanner(Scan(Epilogue, k), ""), Bytes(x + [c]))
  {
    var data := "" + [c];
    assert data[1..] == "" && data[..1] == [c];
    BytesConcat(x, [c]);
  }

  lemma OneByte(d: Delims, a: char)
    ensures Then(d, Accepted(BetweenParts(d), []), a) ==
      if a == '-' then Accepted(Scanner(Scan(MaybeEnd, |d.encapsulation|), "-"), [])
      else if a == '\r' then Accepted(Scanner(Scan(MaybeEncapsulation, |d.encapsulation|), "\r"), [])
      else Rejected
  {
    var data := "" + [a];
    assert data[0..] == [a] && data[..0] == "";
  }

  lemma SecondByte(d: Delims, k: nat, b: char)
    ensures Then(d, Accepted(Scanner(Scan(MaybeEnd, k), "-"), []), b) ==
      if b == '-' then Accepted(Scanner(Scan(Epilogue, k), ""), Bytes("--")) else Rejected
    ensures Then(d, Accepted(Scanner(Scan(MaybeEncapsulation, k), "\r"), []), b) ==
      if b == '\n' then Accepted(Scanner(Scan(Encapsulation, 0), ""), Bytes("\r\n") + [Begin]) else Rejected
  {
    var data, data' := "-" + [b], "\r" + [b];
    assert data[2..] == "" && data[..2] == data && data'[2..] == "" && data'[..2] == data';
  }

  lemma TwoBytes(d: Delims, a: char, b: char)
    ensures Run(d, Accepted(BetweenParts(d), []), [a, b]) ==
      if a == '-' && b == '-' then Accepted(Scanner(Scan(Epilogue, |d.encapsulation|), ""), Bytes("--"))
      else if a == '\r' && b == '\n' then
        Accepted(Scanner(Scan(Encapsulation, 0), ""), Bytes("\r\n") + [Begin])
      else Rejected
  {
    var start := Accepted(BetweenParts(d), []);
    OneByte(d, a);
    SecondByte(d, |d.encapsulation|, b);
    RunFirst(d, start, [a, b]);
    assert [a, b][1..] == [b];
    FoldOne(Stepper(d), Then(d, start, a), b);
  }

  lemma {:induction false} AfterRuns(d: Delims, after: After)
    requires AfterOk(d, after)
    ensures var out := Run(d, Accepted(BetweenParts(d), []), RenderAfter(d, after));
      && out.Accepted? && out.tokens == AfterTokens(d, after)
      && (out.state.scan.phase == Epilogue <==> ClosedAfter(after))
    decreases after, 0
  {
    var start := Accepted(BetweenParts(d), []);
    match after
    case Undecided(text) =>
      if text != "" {
        assert text == [text[0]];
        OneByte(d, text[0]);
        FoldOne(Stepper(d), start, text[0]);
      }
    case Final(epilogue) =>
      TwoBytes(d, '-', '-');
      RunConcat(d, start, "--", epilogue);
      var st := Scanner(Scan(Epilogue, |d.encapsulation|), "");
      RunAfter(d, st, Bytes("--"), epilogue);
      EpilogueRuns(d, |d.encapsulation|, epilogue);
      BytesConcat("--", epilogue);
    case Next(body) =>
      TwoBytes(d, '\r', '\n');
      RunConcat(d, start, "\r\n", RenderBody(d, body));
      BodyRuns(d, Encapsulation, body);
      RunAfter(d, Scanner(Scan(Encapsulation, 0), ""), Bytes("\r\n") + [Begin], RenderBody(d, body));
  }

  lemma {:induction false} BodyRuns(d: Delims, phase: Phase, body: Body)
    requires InPart(phase) && BodyOk(d, body)
    ensures var out := Run(d, Searching0(phase), RenderBody(d, body));
      && out.Accepted? && out.tokens == BodyTokens(d, body)
      && (out.state.scan.phase == Epilogue <==> ClosedBody(body))
    decreases body, 1
  {
    match body
    case Open(text) =>
      SearchRuns(d, phase, text);
    case Part(text, after) =>
      FoundRuns(d, phase, text);
      var upto, rest := text + d.encapsulation, RenderAfter(d, after);
      RunConcat(d, Searching0(phase), upto, rest);
      AfterRuns(d, after);
      RunAfter(d, BetweenParts(d), Bytes(text) + [End] + Bytes(d.encapsulation), rest);
  }

  function Fresh(): Outcome {
    Accepted(Scanner(Scan(Start, 0), ""), [])
  }

  /** The first byte initialises the search, and nothing else is different. */
  lemma FreshIsPreamble(d: Delims, s: string)
    requires s != ""
    ensures Run(d, Fresh(), s) == Run(d, Searching0(Preamble), s)
  {
    RunFirst(d, Fresh(), s);
    RunFirst(d, Searching0(Preamble), s);
    assert Then(d, Fresh(), s[0]) == Then(d, Searching0(Preamble), s[0]);
  }

  /** A text described by a layout is accepted, and delivered as the layout says. */
  lemma LayoutRuns(d: Delims, layout: Layout)
    requires LayoutOk(d, layout)
    ensures var out := Run(d, Fresh(), Render(d, layout));
      && out.Accepted? && out.tokens == LayoutTokens(d, layout)
      && (out.state.scan.phase == Epilogue <==> Closed(layout))
  {
    var s := Render(d, layout);
    if s == "" {
      LongestFits(d.preamble, s);
    } else {
      FreshIsPreamble(d, s);
      match layout
      case Unstarted(text) =>
        SearchRuns(d, Preamble, text);
      case Started(preamble, first) =>
        FoundRuns(d, Preamble, preamble);
        var upto := preamble + d.preamble;
        RunConcat(d, Searching0(Preamble), upto, RenderBody(d, first));
        BodyRuns(d, FirstMessage, first);
        RunAfter(d, Scanner(Scan(FirstMessage, 0), ""), Bytes(upto) + [Begin], RenderBody(d, first));
    }
  }

  /** The leftmost occurrence splits the text. */
  lemma {:induction false} SplitAtFirst(p: string, s: string, n: nat) returns (x: string, rest: string)
    requires n <= |s| && OccursAt(p, s, n)
    ensures s == x + p + rest && FirstAtEnd(p, x)
    decreases n
  {
    if e: nat :| e < n && OccursAt(p, s, e) {
      x, rest := SplitAtFirst(p, s, e);
    } else {
      AgreeIsEquality(p, s, n, |p|);
      x, rest := s[..n - |p|], s[n..];
      assert s == x + p + rest;
      forall e | OccursAt(p, x + p, e)
        ensures e == |x| + |p|
      {
        AgreePrefix(p, x + p, rest, e, |p|);
        var e': nat := e;
        assert OccursAt(p, s, e');
      }
    }
  }

  lemma {:induction false} FindAfter(d: Delims, s: string) returns (after: After)
    requires Run(d, Accepted(BetweenParts(d), []), s).Accepted?
    ensures AfterOk(d, after) && RenderAfter(d, after) == s
    decreases |s|
  {
    var start := Accepted(BetweenParts(d), []);
    if s == "" {
      after := Undecided("");
    } else if |s| == 1 {
      assert s == [s[0]];
      OneByte(d, s[0]);
      FoldOne(Stepper(d), start, s[0]);
      after := Undecided(s);
    } else {
      var two, rest := [s[0], s[1]], s[2..];
      assert s == two + rest;
      TwoBytes(d, s[0], s[1]);
      RunConcat(d, start, two, rest);
      RunRejected(d, rest);
      if s[0] == '-' {
        after := Final(rest);
      } else {
        RunAfter(d, Scanner(Scan(Encapsulation, 0), ""), Bytes("\r\n") + [Begin], rest);
        var body := FindBody(d, Encapsulation, rest);
        after := Next(body);
      }
    }
  }

  lemma {:induction false} FindBody(d: Delims, phase: Phase, s: string) returns (body: Body)
    requires InPart(phase) && Run(d, Searching0(phase), s).Accepted?
    ensures BodyOk(d, body) && RenderBody(d, body) == s
    decreases |s|
  {
    if e: nat :| e <= |s| && OccursAt(d.encapsulation, s, e) {
      var text, rest := SplitAtFirst(d.encapsulation, s, e);
      var upto := text + d.encapsulation;
      FoundRuns(d, phase, text);
      RunConcat(d, Searching0(phase), upto, rest);
      RunAfter(d, BetweenParts(d), Bytes(text) + [End] + Bytes(d.encapsulation), rest);
      var after := FindAfter(d, rest);
      body := Part(text, after);
    } else {
      body := Open(s);
    }
  }

  /** Every accepted text is described by a layout. */
  lemma FindLayout(d: Delims, s: string) returns (layout: Layout)
    requires Run(d, Fresh(), s).Accepted?
    ensures LayoutOk(d, layout) && Render(d, layout) == s
  {
    if e: nat :| e <= |s| && OccursAt(d.preamble, s, e) {
      var preamble, rest := SplitAtFirst(d.preamble, s, e);
      var upto := preamble + d.preamble;
      FreshIsPreamble(d, s);
      FoundRuns(d, Preamble, preamble);
      RunConcat(d, Searching0(Preamble), upto, rest);
      RunAfter(d, Scanner(Scan(FirstMessage, 0), ""), Bytes(upto) + [Begin], rest);
      var body := FindBody(d, FirstMessage, rest);
      layout := Started(preamble, body);
    } else {
      layout := Unstarted(s);
    }
  }

  /** The boundary parser accepts exactly the texts that have a layout, and what it
      delivers is what any such layout says. */
  lemma PartSplitting(d: Delims, s: string)
    ensures var out := Run(d, Fresh(), s);
      && (out.Accepted? <==> exists layout :: LayoutOk(d, layout) && Render(d, layout) == s)
      && (forall layout :: LayoutOk(d, layout) && Render(d, layout) == s ==>
            out.Accepted? && out.tokens == LayoutTokens(d, layout))
  {
    forall layout | LayoutOk(d, layout) && Render(d, layout) == s
      ensures var out := Run(d, Fresh(), s); out.Accepted? && out.tokens == LayoutTokens(d, layout)
    {
      LayoutRuns(d, layout);
    }
    if Run(d, Fresh(), s).Accepted? {
      var layout := FindLayout(d, s);
    }
  }

  /** What is true of the bytes after every accepted prefix of s: delivered and waiting
      bytes together are exactly the bytes given. */
  ghost predicate Balanced(d: Delims, out: Outcome, s: string) {
    out.Accepted? ==> InSync(d, out.state) && Text(out.tokens) + out.state.pending == s
  }

  lemma MoveBalanced(tokens: seq<Token>, pending: string, s: string, c: char, event: Event, k: nat)
    requires Text(tokens) + pending == s && k <= |pending| + 1
    ensures var data := pending + [c];
      Text(tokens + EventTokens(event, data[..k])) + data[k..] == s + [c]
  {
    var data := pending + [c];
    TextConcat(tokens, EventTokens(event, data[..k]));
    TextOfEvent(event, data[..k]);
    Regroup(Text(tokens), pending, c, k);
  }

  lemma Regroup(t: string, pending: string, c: char, k: nat)
    requires k <= |pending| + 1
    ensures var data := pending + [c]; (t + data[..k]) + data[k..] == (t + pending) + [c]
  {
  }

  lemma ThenBalanced(d: Delims, before: Outcome, s: string, c: char)
    requires Balanced(d, before, s)
    ensures Balanced(d, Then(d, before, c), s + [c])
  {
    if before.Accepted? {
      var st := before.state;
      ByteStepKeeps(d, st, c);
      StepIsConserving(d, st.scan, c);
      var step := StepOn(d, st.scan, c);
      if step.Decided? {
        MoveBalanced(before.tokens, st.pending, s, c, step.event, step.advancement);
      }
    }
  }

  lemma FreshBalanced(d: Delims)
    ensures Balanced(d, Fresh(), "")
  {
  }

  /** Byte conservation over every run: nothing is lost, invented or reordered, and the
      waiting bytes are the proper prefix of a delimiter that the parser holds back. */
  lemma {:induction false} ByteConservation(d: Delims, s: string, n: nat)
    requires n <= |s|
    ensures Balanced(d, FoldTo(Stepper(d), Fresh(), s, n), s[..n])
  {
    hide Then, ByteStep, Balanced, StepOn, Text, Held;
    if n == 0 {
      FreshBalanced(d);
    } else {
      ByteConservation(d, s, n - 1);
      ThenBalanced(d, FoldTo(Stepper(d), Fresh(), s, n - 1), s[..n - 1], s[n - 1]);
      assert s[..n - 1] + [s[n - 1]] == s[..n];
    }
  }

  lemma LongestFits(p: string, s: string)
    ensures Longest(p, s) <= |s|
  {
    LongestMax(p, s, 0);
  }
}
