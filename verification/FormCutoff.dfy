// Parts that end before they are complete: which of them are reported, which are not,
// and what an upload must look like when none is cut off.

module FormCutoff {
  import opened Folding
  import opened Matching
  import opened MultipartLayout
  import opened FormSpec
  import opened FormReader
  import opened FormRoundTrip
  import opened FormUpload
  import H = HeaderParser
  import M = MultipartParser

  // ----- A part that is cut off anywhere -----

  /** A text that completes the part at this point of its header. */
  function Rest(t: H.Texts, h: H.Header): string
    requires H.HeaderValid(t, h)
  {
    match h.state
    case Start => t.contentDisposition + (Quoted("") + t.preBody)
    case ContentDisposition => t.contentDisposition[h.at..] + (Quoted("") + t.preBody)
    case Name => Quoted("") + t.preBody
    case MaybeFilename | ContentTypeBody => t.preBody
    case Filename => t.filename[h.at..] + (Quoted("") + (t.contentType + t.preBody))
    case FilenameBody => Quoted("") + (t.contentType + t.preBody)
    case ContentType => t.contentType[h.at..] + t.preBody
    case PreBody => t.preBody[h.at..]
    case Body => ""
  }

  /** How far a state is from the body. */
  function Stage(state: H.State): nat {
    match state
    case Start | ContentDisposition => 6
    case Name => 5
    case Filename => 4
    case FilenameBody => 3
    case ContentType => 2
    case MaybeFilename | ContentTypeBody | PreBody => 1
    case Body => 0
  }

  lemma StartIsCoupled(env: Env, f: Form)
    requires AtStart(f)
    ensures Coupled(env, f)
  {
  }

  predicate PastName(state: H.State) {
    !(state == H.Start || state == H.ContentDisposition || state == H.Name)
  }

  /** Once the name is complete it stays complete; until then nothing is stored. */
  ghost predicate StillIn(env: Env, f: Form, g: Form) {
    && Coupled(env, g) && g.message && (PastName(f.header.state) ==> PastName(g.header.state))
    && (!PastName(g.header.state) ==> g.values == f.values && g.files == f.files && g.target == Target.Name)
  }

  lemma ByteStillIn(env: Env, f: Form, g: Form, c: char)
    requires StillIn(env, f, g)
    ensures StillIn(env, f, OnToken(env, g, Byte(c)).form)
  {
    TokenKeepsCoupling(env, g, Byte(c));
  }

  lemma {:induction false} ReadsKeeps(env: Env, f: Form, s: string)
    requires Coupled(env, f) && f.message
    ensures StillIn(env, f, Reads(env, f, s).form)
  {
    hide OnToken, Coupled, StillIn;
    if s == "" {
      ReadsNone(env, f);
      StillInItself(env, f);
    } else {
      var n := |s| - 1;
      var g := Reads(env, f, s[..n]).form;
      assert s == s[..n] + [s[n]];
      assert Bytes(s) == Bytes(s[..n]) + [Byte(s[n])];
      ReadsKeeps(env, f, s[..n]);
      FoldSnoc(Absorber(env), Effect(f, false), Bytes(s[..n]), Byte(s[n]));
      ByteStillIn(env, f, g, s[n]);
    }
  }

  lemma StillInItself(env: Env, f: Form)
    requires Coupled(env, f) && f.message
    ensures StillIn(env, f, f)
  {
  }

  lemma AcceptsAfter(env: Env, f: Form, a: string, b: string)
    requires !Reads(env, f, a).ec && Accepts(env, Reads(env, f, a).form, b)
    ensures Accepts(env, f, a + b)
  {
    ReadsConcat(env, f, a, b);
  }

  /** Whatever has been read without an error can be completed. */
  lemma {:induction false} Completes(env: Env, f: Form)
    requires Coupled(env, f) && f.message
    ensures Accepts(env, f, Rest(env.texts, f.header))
    decreases Stage(f.header.state)
  {
    hide Absorb, OnToken;
    var t, h := env.texts, f.header;
    match h.state
    case Body => ReadsNone(env, f);
    case Start | ContentDisposition =>
      var at := if h.state == H.Start then 0 else h.at;
      LiteralReads(env, f, H.ContentDisposition, at);
      assert t.contentDisposition[0..] == t.contentDisposition;
      CompletesFrom(env, f, t.contentDisposition[at..], Quoted("") + t.preBody);
    case Name =>
      QuoteReads(env, f);
      CompletesFrom(env, f, Quoted(""), t.preBody);
    case MaybeFilename | ContentTypeBody =>
      PreBodyReads(env, f);
      ReadsNone(env, Reads(env, f, t.preBody).form);
    case Filename =>
      LiteralReads(env, f, H.Filename, h.at);
      CompletesFrom(env, f, t.filename[h.at..], Quoted("") + (t.contentType + t.preBody));
    case FilenameBody =>
      QuoteReads(env, f);
      assert t.contentType[0..] == t.contentType;
      CompletesFrom(env, f, Quoted(""), t.contentType + t.preBody);
    case ContentType =>
      LiteralReads(env, f, H.ContentType, h.at);
      CompletesFrom(env, f, t.contentType[h.at..], t.preBody);
    case PreBody =>
      LiteralReads(env, f, H.PreBody, h.at);
  }

  lemma QuoteReads(env: Env, f: Form)
    requires Coupled(env, f) && f.message && (f.header.state == H.Name || f.header.state == H.FilenameBody)
    ensures !Reads(env, f, Quoted("")).ec
    ensures Reads(env, f, Quoted("")).form.header ==
      if f.header.state == H.Name then H.Header(H.MaybeFilename, f.header.at) else H.Header(H.ContentType, 0)
  {
    assert Quoted("") == [H.QUOTE];
    ReadsOne(env, f, H.QUOTE);
  }

  lemma {:induction false} CompletesFrom(env: Env, f: Form, a: string, b: string)
    requires Coupled(env, f) && f.message && !Reads(env, f, a).ec
    requires H.HeaderValid(env.texts, Reads(env, f, a).form.header)
    requires b == Rest(env.texts, Reads(env, f, a).form.header)
    requires Stage(Reads(env, f, a).form.header.state) < Stage(f.header.state)
    ensures Accepts(env, f, a + b)
    decreases Stage(f.header.state), 0
  {
    ReadsKeeps(env, f, a);
    Completes(env, Reads(env, f, a).form);
    AcceptsAfter(env, f, a, b);
  }

  /** A text is read without an error exactly when it is the beginning of a printed part. */
  lemma PrefixIff(env: Env, f: Form, s: string)
    requires AtStart(f)
    ensures !Reads(env, f, s).ec <==>
      exists p, n: nat :: PartOk(p) && n <= |PrintPart(env.texts, p)| && s == PrintPart(env.texts, p)[..n]
  {
    hide Absorb, PartOk, PrintPart, Accepts, Rest;
    if !Reads(env, f, s).ec {
      StartIsCoupled(env, f);
      ReadsKeeps(env, f, s);
      var g := Reads(env, f, s).form;
      Completes(env, g);
      var rest := Rest(env.texts, g.header);
      AcceptsAfter(env, f, s, rest);
      var p := FindPart(env, f, s + rest);
      assert s == PrintPart(env.texts, p)[..|s|];
    }
    forall p, n: nat | PartOk(p) && n <= |PrintPart(env.texts, p)| && s == PrintPart(env.texts, p)[..n]
      ensures !Reads(env, f, s).ec
    {
      PartReads(env, f, p);
      ReadsConcat(env, f, s, PrintPart(env.texts, p)[n..]);
      assert PrintPart(env.texts, p) == s + PrintPart(env.texts, p)[n..];
    }
  }

  // ----- Which cut-off parts finish lets through -----

  /** The text ends before the name of the part does. */
  predicate BeforeNameEnds(t: H.Texts, s: string) {
    s <= t.contentDisposition || (t.contentDisposition <= s && H.QUOTE !in s[|t.contentDisposition|..])
  }

  /** A text that ends before the name does is read, and the name is not complete. */
  lemma NameReadsOn(env: Env, f: Form, s: string)
    requires AtStart(f) && BeforeNameEnds(env.texts, s)
    ensures !Reads(env, f, s).ec && !PastName(Reads(env, f, s).form.header.state)
  {
    hide Absorb, OnToken;
    var lit := env.texts.contentDisposition;
    var name := if lit <= s then s[|lit|..] else "";
    var whole := lit + name;
    var g := f.(header := H.Header(H.Name, |lit|), writable := true);
    assert lit[0..] == lit;
    LiteralReads(env, f, H.ContentDisposition, 0);
    ReadsConcat(env, f, lit, name);
    CopyReads(env, g, name);
    WriteFrame(g, name);
    var rest := whole[|s|..];
    assert whole == s + rest;
    ReadsConcat(env, f, s, rest);
    StartIsCoupled(env, f);
    ReadsKeeps(env, f, s);
    ReadsKeeps(env, Reads(env, f, s).form, rest);
  }

  /** The only texts read without an error that stop before the name is complete. */
  lemma NameIff(env: Env, f: Form, s: string)
    requires AtStart(f)
    ensures !Reads(env, f, s).ec && !PastName(Reads(env, f, s).form.header.state) <==> BeforeNameEnds(env.texts, s)
  {
    hide Absorb, OnToken;
    if BeforeNameEnds(env.texts, s) {
      NameReadsOn(env, f, s);
    } else if !Reads(env, f, s).ec {
      PrefixIff(env, f, s);
      var p, n: nat :| PartOk(p) && n <= |PrintPart(env.texts, p)| && s == PrintPart(env.texts, p)[..n];
      var head := env.texts.contentDisposition + Quoted(p.name);
      HeadIn(env.texts, p, n);
      var rest := s[|head|..];
      NameReads(env, f, p.name);
      ReadsConcat(env, f, head, rest);
      StartIsCoupled(env, f);
      ReadsKeeps(env, f, head);
      ReadsKeeps(env, Reads(env, f, head).form, rest);
    }
  }

  /** A beginning of a printed part stops before the name ends, or has all of the name. */
  lemma HeadIn(t: H.Texts, p: FormPart, n: nat)
    requires PartOk(p) && n <= |PrintPart(t, p)|
    ensures var s, head := PrintPart(t, p)[..n], t.contentDisposition + Quoted(p.name);
      if n < |head| then BeforeNameEnds(t, s) else s == head + s[|head|..]
  {
    var s, lit := PrintPart(t, p)[..n], t.contentDisposition;
    var head := lit + Quoted(p.name);
    assert head <= PrintPart(t, p);
    if n <= |lit| {
      assert s == lit[..n];
    } else if n < |head| {
      assert s == head[..n] == lit + p.name[..n - |lit|];
      assert s[|lit|..] == p.name[..n - |lit|];
    }
  }

  /** A part that ends here is let through by finish, were it the last, exactly if it is
    * complete or ends before its name does; and then nothing of it is stored. */
  lemma FinishIff(env: Env, f: Form, s: string)
    requires AtStart(f) && !Reads(env, f, s).ec
    ensures var g := OnToken(env, Reads(env, f, s).form, End).form;
      && (g.target == Target.Name <==>
            BeforeNameEnds(env.texts, s) || exists p :: PartOk(p) && s == PrintPart(env.texts, p))
      && (BeforeNameEnds(env.texts, s) ==> g.values == f.values && g.files == f.files)
  {
    hide Absorb;
    NameIff(env, f, s);
    PartIff(env, f, s);
    StartIsCoupled(env, f);
    ReadsKeeps(env, f, s);
  }

  // ----- Whole uploads in which no part is cut off -----

  /** Every part ends while its body is being read. */
  ghost predicate EndsInBodies(env: Env, e: Effect, tokens: seq<Token>) {
    forall i: nat :: i < |tokens| && tokens[i] == End ==>
      FoldTo(Absorber(env), e, tokens, i).form.header.state == H.Body
  }

  /** A stricter reading, to which the end of a part outside its body is an error. */
  function StrictNext(env: Env, before: Effect, token: Token): Effect {
    var after := NextEffect(env, before, token);
    after.(ec := after.ec || (token == End && before.form.header.state != H.Body))
  }

  ghost function Stricter(env: Env): (Effect, Token) -> Effect {
    (before, token) => StrictNext(env, before, token)
  }

  ghost function Strict(env: Env, f: Form, tokens: seq<Token>): Effect {
    Fold(Stricter(env), Effect(f, false), tokens)
  }

  lemma {:induction false} StrictTo(env: Env, f: Form, tokens: seq<Token>, n: nat)
    requires n <= |tokens|
    ensures var strict, plain := FoldTo(Stricter(env), Effect(f, false), tokens, n),
                                 FoldTo(Absorber(env), Effect(f, false), tokens, n);
      && strict.form == plain.form
      && (!strict.ec <==> !plain.ec && forall i: nat :: i < n && tokens[i] == End ==>
            FoldTo(Absorber(env), Effect(f, false), tokens, i).form.header.state == H.Body)
  {
    hide OnToken;
    if n > 0 {
      StrictTo(env, f, tokens, n - 1);
    }
  }

  lemma StrictIs(env: Env, f: Form, tokens: seq<Token>)
    ensures Strict(env, f, tokens).form == Absorb(env, Effect(f, false), tokens).form
    ensures !Strict(env, f, tokens).ec <==>
      !Absorb(env, Effect(f, false), tokens).ec && EndsInBodies(env, Effect(f, false), tokens)
  {
    StrictTo(env, f, tokens, |tokens|);
  }

  lemma StrictConcat(env: Env, f: Form, a: seq<Token>, b: seq<Token>)
    ensures !Strict(env, f, a).ec ==> Strict(env, f, a + b) == Strict(env, Strict(env, f, a).form, b)
    ensures Strict(env, f, a).ec ==> Strict(env, f, a + b).ec
  {
    FoldConcat(Stricter(env), Effect(f, false), a, b);
    var e := Strict(env, f, a);
    if e.ec {
      FoldToKeeps(Stricter(env), (x: Effect) => x.ec, e, b, |b|);
    } else {
      assert e == Effect(e.form, false);
    }
  }

  /** One part with its end and the delimiter after it passes if and only if it is the
    * print of some part. */
  lemma StrictPart(env: Env, f: Form, text: string, delim: string)
    requires AtStart(f)
    ensures var tokens := Bytes(text) + [End] + Bytes(delim);
      !Strict(env, f, tokens).ec <==> exists p :: PartOk(p) && text == PrintPart(env.texts, p)
    ensures forall p :: PartOk(p) && text == PrintPart(env.texts, p) ==>
      Strict(env, f, Bytes(text) + [End] + Bytes(delim)) == Effect(PartEnded(env, f, p), false)
  {
    hide Absorb, OnToken, PrintPart, PartOk;
    var tokens := Bytes(text) + [End] + Bytes(delim);
    StrictIs(env, f, Bytes(text));
    StrictConcat(env, f, Bytes(text) + [End], Bytes(delim));
    NoEnds(env, f, text);
    FoldSnoc(Stricter(env), Effect(f, false), Bytes(text), End);
    PartIff(env, f, text);
    StrictIs(env, f, tokens);
    forall p | PartOk(p) && text == PrintPart(env.texts, p)
      ensures Strict(env, f, tokens) == Effect(PartEnded(env, f, p), false)
    {
      PartAbsorbed(env, f, p, delim);
      PartEndedIs(env, f, p);
      var g := PartEnded(env, f, p);
      assert Strict(env, f, Bytes(text)) == Effect(PartDone(env, f, p), false);
      assert Strict(env, f, Bytes(text) + [End]) == Effect(g, false);
      NoEnds(env, g, delim);
      StrictIs(env, g, Bytes(delim));
      SkipBytes(env, g, delim);
    }
  }

  lemma NoEnds(env: Env, f: Form, s: string)
    ensures EndsInBodies(env, Effect(f, false), Bytes(s))
  {
  }

  lemma StrictBegin(env: Env, f: Form, bytes: string, rest: seq<Token>)
    requires Idle(f)
    ensures Strict(env, f, Bytes(bytes) + [Begin] + rest) == Strict(env, f.(message := true), rest)
  {
    hide OnToken;
    var tokens := Bytes(bytes) + [Begin];
    BeginAbsorbed(env, f, bytes);
    StrictIs(env, f, tokens);
    StrictConcat(env, f, tokens, rest);
  }

  lemma StrictEpilogue(env: Env, f: Form, s: string)
    requires Idle(f)
    ensures Strict(env, f, Bytes(s)) == Effect(f, false)
  {
    NoEnds(env, f, s);
    StrictIs(env, f, Bytes(s));
    SkipBytes(env, f, s);
  }

  function EpilogueOf(body: Body): string
    requires ClosedBody(body)
  {
    assert ClosedAfter(body.after);
    if body.after.Final? then body.after.epilogue else EpilogueOf(body.after.body)
  }

  predicate AllPartsOk(parts: seq<FormPart>) {
    forall i :: 0 <= i < |parts| ==> PartOk(parts[i])
  }

  /** A closed body passes the stricter reading if and only if it is a list of printed parts. */
  lemma {:induction false} FindParts(env: Env, d: M.Delims, f: Form, body: Body) returns (parts: seq<FormPart>)
    requires AtStart(f) && ClosedBody(body) && !Strict(env, f, BodyTokens(d, body)).ec
    ensures parts != [] && AllPartsOk(parts) && body == BodyFor(env.texts, parts, EpilogueOf(body))
    decreases body
  {
    hide Absorb, OnToken, PrintPart, PartOk, PartEnded;
    var first := Bytes(body.text) + [End] + Bytes(d.encapsulation);
    StrictPart(env, f, body.text, d.encapsulation);
    StrictConcat(env, f, first, AfterTokens(d, body.after));
    assert BodyTokens(d, body) == first + AfterTokens(d, body.after);
    var p :| PartOk(p) && body.text == PrintPart(env.texts, p);
    var g := PartEnded(env, f, p);
    PartEndedIs(env, f, p);
    assert ClosedAfter(body.after);
    if body.after.Final? {
      parts := [p];
    } else {
      var next := body.after.body;
      StrictBegin(env, g, M.CRLF, BodyTokens(d, next));
      var rest := FindParts(env, d, g.(message := true), next);
      parts := [p] + rest;
      assert parts[1..] == rest;
    }
  }

  lemma {:induction false} PartsPass(env: Env, d: M.Delims, f: Form, parts: seq<FormPart>, epilogue: string)
    requires AtStart(f) && parts != [] && AllPartsOk(parts)
    ensures !Strict(env, f, BodyTokens(d, BodyFor(env.texts, parts, epilogue))).ec
    decreases |parts|
  {
    hide Absorb, OnToken, PrintPart, PartOk, PartEnded;
    var p, rest := parts[0], parts[1..];
    var body := BodyFor(env.texts, parts, epilogue);
    var first := Bytes(body.text) + [End] + Bytes(d.encapsulation);
    var g := PartEnded(env, f, p);
    StrictPart(env, f, body.text, d.encapsulation);
    StrictConcat(env, f, first, AfterTokens(d, body.after));
    assert BodyTokens(d, body) == first + AfterTokens(d, body.after);
    PartEndedIs(env, f, p);
    if rest == [] {
      StrictEpilogue(env, g, M.DDASH + epilogue);
    } else {
      StrictBegin(env, g, M.CRLF, BodyTokens(d, BodyFor(env.texts, rest, epilogue)));
      PartsPass(env, d, g.(message := true), rest, epilogue);
    }
  }

  /** The text is a printed form between a preamble and an epilogue. */
  ghost predicate IsForm(t: H.Texts, boundary: string, s: string, preamble: string, parts: seq<FormPart>,
                         epilogue: string)
  {
    && parts != [] && FormOk(t, boundary, parts)
    && FirstAtEnd(M.DelimsFor(boundary).preamble, preamble)
    && s == preamble + PrintForm(t, boundary, parts) + epilogue
  }

  /** The upload is read without an error, it is closed, and every part ends in its body. */
  ghost predicate ReadsWhole(env: Env, boundary: string, s: string) {
    var d := M.DelimsFor(boundary);
    var fed := Feed(env, d, FreshReading(), s);
    var out := Run(d, Fresh(), s);
    && fed.Fine? && fed.scanner.scan.phase == M.Epilogue
    && out.Accepted? && EndsInBodies(env, Effect(EMPTY_FORM, false), out.tokens)
  }

  /** An upload passes in this way if and only if it is a printed form, and what it then
    * stores is that form: the converse of the round trip. */
  lemma UploadIff(env: Env, boundary: string, s: string)
    ensures ReadsWhole(env, boundary, s) <==>
      exists preamble, parts, epilogue :: IsForm(env.texts, boundary, s, preamble, parts, epilogue)
    ensures forall preamble, parts, epilogue :: IsForm(env.texts, boundary, s, preamble, parts, epilogue) ==>
      StoredAs(env, Feed(env, M.DelimsFor(boundary), FreshReading(), s), parts)
  {
    if ReadsWhole(env, boundary, s) {
      var preamble, parts, epilogue := FindForm(env, boundary, s);
    }
    forall preamble, parts, epilogue | IsForm(env.texts, boundary, s, preamble, parts, epilogue)
      ensures ReadsWhole(env, boundary, s)
      ensures StoredAs(env, Feed(env, M.DelimsFor(boundary), FreshReading(), s), parts)
    {
      FormReadsWhole(env, boundary, s, preamble, parts, epilogue);
    }
  }

  lemma FindForm(env: Env, boundary: string, s: string)
    returns (preamble: string, parts: seq<FormPart>, epilogue: string)
    requires ReadsWhole(env, boundary, s)
    ensures IsForm(env.texts, boundary, s, preamble, parts, epilogue)
  {
    hide Absorb, Run, BodyTokens, OnToken, PrintPart, PrintForm;
    var d := M.DelimsFor(boundary);
    FeedIsRun(env, d, Scanner(M.Scan(M.Start, 0), ""), EMPTY_FORM, s);
    var layout := FindLayout(d, s);
    LayoutRuns(d, layout);
    var body := layout.first;
    preamble := layout.preamble;
    StrictIs(env, EMPTY_FORM, LayoutTokens(d, layout));
    assert LayoutTokens(d, layout) == Bytes(preamble + d.preamble) + [Begin] + BodyTokens(d, body);
    StrictBegin(env, EMPTY_FORM, preamble + d.preamble, BodyTokens(d, body));
    parts := FindParts(env, d, EMPTY_FORM.(message := true), body);
    epilogue := EpilogueOf(body);
    LaidOutForm(env.texts, boundary, preamble, parts, epilogue);
  }

  lemma LaidOutForm(t: H.Texts, boundary: string, preamble: string, parts: seq<FormPart>, epilogue: string)
    requires parts != [] && AllPartsOk(parts)
    requires LayoutOk(M.DelimsFor(boundary), Started(preamble, BodyFor(t, parts, epilogue)))
    ensures IsForm(t, boundary, Render(M.DelimsFor(boundary), Started(preamble, BodyFor(t, parts, epilogue))),
                   preamble, parts, epilogue)
  {
    hide PrintPart, PrintForm, BodyFor;
    var d, body := M.DelimsFor(boundary), BodyFor(t, parts, epilogue);
    PrintedBody(t, boundary, parts, epilogue);
    BodyPartsOk(t, boundary, parts, epilogue);
    var printed, rendered := PrintForm(t, boundary, parts), RenderBody(d, body);
    assert (preamble + printed) + epilogue == preamble + (printed + epilogue);
    assert (preamble + d.preamble) + rendered == preamble + (d.preamble + rendered);
  }

  lemma {:induction false} BodyPartsOk(t: H.Texts, boundary: string, parts: seq<FormPart>, epilogue: string)
    requires parts != [] && AllPartsOk(parts) && BodyOk(M.DelimsFor(boundary), BodyFor(t, parts, epilogue))
    ensures FormOk(t, boundary, parts)
    decreases |parts|
  {
    hide PrintPart, PartOk;
    if |parts| > 1 {
      BodyPartsOk(t, boundary, parts[1..], epilogue);
      assert forall i :: 1 <= i < |parts| ==> parts[i] == parts[1..][i - 1];
    }
  }

  lemma FormReadsWhole(env: Env, boundary: string, s: string, preamble: string, parts: seq<FormPart>, epilogue: string)
    requires IsForm(env.texts, boundary, s, preamble, parts, epilogue)
    ensures ReadsWhole(env, boundary, s)
    ensures StoredAs(env, Feed(env, M.DelimsFor(boundary), FreshReading(), s), parts)
  {
    hide Absorb, Run, BodyTokens, OnToken, PrintPart, PrintForm;
    var d := M.DelimsFor(boundary);
    var body := BodyFor(env.texts, parts, epilogue);
    var layout := Started(preamble, body);
    PrintedBody(env.texts, boundary, parts, epilogue);
    PrintedBodyOk(env.texts, boundary, parts, epilogue);
    var printed, rendered := PrintForm(env.texts, boundary, parts), RenderBody(d, body);
    assert (preamble + printed) + epilogue == preamble + (printed + epilogue);
    assert (preamble + d.preamble) + rendered == preamble + (d.preamble + rendered);
    ClosedFor(env.texts, parts, epilogue);
    LayoutRuns(d, layout);
    FeedIsRun(env, d, Scanner(M.Scan(M.Start, 0), ""), EMPTY_FORM, s);
    var f := EMPTY_FORM.(message := true);
    StrictIs(env, EMPTY_FORM, LayoutTokens(d, layout));
    assert LayoutTokens(d, layout) == Bytes(preamble + d.preamble) + [Begin] + BodyTokens(d, body);
    StrictBegin(env, EMPTY_FORM, preamble + d.preamble, BodyTokens(d, body));
    PartsPass(env, d, f, parts, epilogue);
    PartsAbsorbed(env, d, f, parts, epilogue);
    StrictIs(env, f, BodyTokens(d, body));
  }

  lemma {:induction false} ClosedFor(t: H.Texts, parts: seq<FormPart>, epilogue: string)
    requires parts != []
    ensures ClosedBody(BodyFor(t, parts, epilogue))
    decreases |parts|
  {
    if |parts| > 1 {
      ClosedFor(t, parts[1..], epilogue);
    }
  }

  // ----- A part that is lost -----

  /** Bytes between parts are no error and leave the target; nothing but a name that was
    * cut off changes if the target is a name. */
  lemma {:induction false} BetweenPartsStored(env: Env, f: Form, s: string)
    requires !f.message
    ensures var e := Absorb(env, Effect(f, false), Bytes(s));
      && !e.ec && !e.form.message && e.form.target == f.target
      && (f.target == Target.Name ==> e.form.values == f.values && e.form.files == f.files)
  {
    if s != "" {
      var n := |s| - 1;
      assert Bytes(s) == Bytes(s[..n]) + [Byte(s[n])];
      BetweenPartsStored(env, f, s[..n]);
      FoldSnoc(Absorber(env), Effect(f, false), Bytes(s[..n]), Byte(s[n]));
    }
  }

  lemma CutEnd(env: Env, g: Form)
    requires !PastName(g.header.state)
    ensures OnToken(env, g, End) == Effect(g.(message := false), false)
  {
  }

  /** The tokens of a part that ends before its name does, and of what follows it. */
  lemma LostTokens(env: Env, f: Form, s: string, delim: string)
    requires AtStart(f) && BeforeNameEnds(env.texts, s)
    ensures var e := Absorb(env, Effect(f, false), Bytes(s) + [End] + Bytes(delim));
      !e.ec && e.form.target == Target.Name && e.form.values == f.values && e.form.files == f.files
  {
    hide OnToken, BeforeNameEnds;
    NameIff(env, f, s);
    FinishIff(env, f, s);
    StartIsCoupled(env, f);
    ReadsKeeps(env, f, s);
    var g := Reads(env, f, s).form;
    CutEnd(env, g);
    FoldSnoc(Absorber(env), Effect(f, false), Bytes(s), End);
    AbsorbConcat(env, f, Bytes(s) + [End], Bytes(delim));
    BetweenPartsStored(env, g.(message := false), delim);
  }
}
