// Uploads whose last part may be cut off: which of them are accepted, and what they store.

module FormLastPart {
  import opened Folding
  import opened Matching
  import opened MultipartLayout
  import opened FormSpec
  import opened FormReader
  import opened FormRoundTrip
  import opened FormUpload
  import opened FormCutoff
  import H = HeaderParser
  import M = MultipartParser

  /** The text of printed parts and one more part, whatever that is. */
  function PrintWith(t: H.Texts, boundary: string, parts: seq<FormPart>, last: string): string
    decreases |parts|
  {
    if parts == [] then "--" + boundary + "\r\n" + last + "\r\n" + ("--" + boundary + "--")
    else "--" + boundary + "\r\n" + PrintPart(t, parts[0]) + "\r\n" + PrintWith(t, boundary, parts[1..], last)
  }

  function BodyWith(t: H.Texts, parts: seq<FormPart>, last: string, epilogue: string): (body: Body)
    ensures ClosedBody(body)
    decreases |parts|
  {
    if parts == [] then Part(last, Final(epilogue))
    else Part(PrintPart(t, parts[0]), Next(BodyWith(t, parts[1..], last, epilogue)))
  }

  lemma {:induction false} PrintedWith(t: H.Texts, boundary: string, parts: seq<FormPart>, last: string, epilogue: string)
    ensures "--" + boundary + "\r\n" + RenderBody(M.DelimsFor(boundary), BodyWith(t, parts, last, epilogue)) ==
      PrintWith(t, boundary, parts, last) + epilogue
    decreases |parts|
  {
    var d := M.DelimsFor(boundary);
    if parts == [] {
      RegroupLast(last, boundary, epilogue);
    } else {
      var text, rest := PrintPart(t, parts[0]), parts[1..];
      PrintedWith(t, boundary, rest, last, epilogue);
      RegroupNext(text, boundary, RenderBody(d, BodyWith(t, rest, last, epilogue)),
                  PrintWith(t, boundary, rest, last), epilogue);
    }
  }

  lemma {:induction false} BodyWithOk(t: H.Texts, boundary: string, parts: seq<FormPart>, last: string, epilogue: string)
    requires AllPartsOk(parts)
    ensures BodyOk(M.DelimsFor(boundary), BodyWith(t, parts, last, epilogue)) <==>
      FormOk(t, boundary, parts) && FirstAtEnd(M.DelimsFor(boundary).encapsulation, last)
    decreases |parts|
  {
    hide PrintPart, PartOk;
    if parts != [] {
      var rest := parts[1..];
      BodyWithOk(t, boundary, rest, last, epilogue);
      assert forall i :: 1 <= i < |parts| ==> parts[i] == rest[i - 1];
      assert forall i :: 0 <= i < |rest| ==> rest[i] == parts[i + 1];
    }
  }

  // ----- The tokens up to the last part -----

  ghost function HeadTokens(d: M.Delims, body: Body): seq<Token>
    requires ClosedBody(body)
  {
    assert ClosedAfter(body.after);
    if body.after.Final? then []
    else
      (Bytes(body.text) + [End] + Bytes(d.encapsulation)) + (Bytes(M.CRLF) + [Begin] + HeadTokens(d, body.after.body))
  }

  function LastText(body: Body): string
    requires ClosedBody(body)
  {
    assert ClosedAfter(body.after);
    if body.after.Final? then body.text else LastText(body.after.body)
  }

  /** The last part, its end, and everything behind it. */
  ghost function TailTokens(d: M.Delims, last: string, epilogue: string): seq<Token> {
    Bytes(last) + [End] + Bytes(d.encapsulation + (M.DDASH + epilogue))
  }

  lemma {:induction false} SplitTokens(d: M.Delims, body: Body)
    requires ClosedBody(body)
    ensures BodyTokens(d, body) == HeadTokens(d, body) + TailTokens(d, LastText(body), EpilogueOf(body))
    decreases body
  {
    assert ClosedAfter(body.after);
    if body.after.Final? {
      BytesConcat(d.encapsulation, M.DDASH + body.after.epilogue);
    } else {
      SplitTokens(d, body.after.body);
    }
  }

  lemma {:induction false} BodyWithIs(t: H.Texts, parts: seq<FormPart>, last: string, epilogue: string)
    ensures var body := BodyWith(t, parts, last, epilogue); LastText(body) == last && EpilogueOf(body) == epilogue
    decreases |parts|
  {
    if parts != [] {
      BodyWithIs(t, parts[1..], last, epilogue);
    }
  }

  /** Where every part but the last ends in its body, these are printed parts. */
  lemma {:induction false} FindHead(env: Env, d: M.Delims, f: Form, body: Body) returns (parts: seq<FormPart>)
    requires AtStart(f) && ClosedBody(body) && !Strict(env, f, HeadTokens(d, body)).ec
    ensures AllPartsOk(parts) && body == BodyWith(env.texts, parts, LastText(body), EpilogueOf(body))
    decreases body
  {
    hide Absorb, OnToken, PrintPart, PartOk, PartEnded;
    assert ClosedAfter(body.after);
    if body.after.Final? {
      parts := [];
    } else {
      var next := body.after.body;
      var first := Bytes(body.text) + [End] + Bytes(d.encapsulation);
      StrictConcat(env, f, first, Bytes(M.CRLF) + [Begin] + HeadTokens(d, next));
      StrictPart(env, f, body.text, d.encapsulation);
      var p :| PartOk(p) && body.text == PrintPart(env.texts, p);
      var g := PartEnded(env, f, p);
      PartEndedIs(env, f, p);
      StrictBegin(env, g, M.CRLF, HeadTokens(d, next));
      var rest := FindHead(env, d, g.(message := true), next);
      parts := [p] + rest;
      assert parts[1..] == rest;
    }
  }

  /** Printed parts are read and stored, and the next one may start. */
  ghost predicate HeadStored(env: Env, f: Form, parts: seq<FormPart>, e: Effect) {
    && !e.ec && AtStart(e.form)
    && Store(e.form.values, e.form.files) == StoreForm(env, Store(f.values, f.files), parts)
  }

  lemma {:induction false} HeadPasses(env: Env, d: M.Delims, f: Form, parts: seq<FormPart>, last: string, epilogue: string)
    requires AtStart(f) && AllPartsOk(parts)
    ensures HeadStored(env, f, parts, Strict(env, f, HeadTokens(d, BodyWith(env.texts, parts, last, epilogue))))
    decreases |parts|
  {
    hide Absorb, OnToken, PrintPart, PartOk, PartEnded;
    if parts == [] {
      StrictNothing(env, f);
    } else {
      var p, rest := parts[0], parts[1..];
      var body := BodyWith(env.texts, parts, last, epilogue);
      var first := Bytes(body.text) + [End] + Bytes(d.encapsulation);
      var g := PartEnded(env, f, p);
      StrictPart(env, f, body.text, d.encapsulation);
      StrictConcat(env, f, first, Bytes(M.CRLF) + [Begin] + HeadTokens(d, body.after.body));
      PartEndedIs(env, f, p);
      StrictBegin(env, g, M.CRLF, HeadTokens(d, body.after.body));
      HeadPasses(env, d, g.(message := true), rest, last, epilogue);
    }
  }

  lemma StrictNothing(env: Env, f: Form)
    ensures Strict(env, f, []) == Effect(f, false)
  {
  }

  // ----- The last part -----

  /** The last part is complete, or ends before its name does. */
  ghost predicate MayBeLast(t: H.Texts, last: string) {
    BeforeNameEnds(t, last) || exists p :: PartOk(p) && last == PrintPart(t, p)
  }

  lemma EndIs(env: Env, f: Form)
    ensures !OnToken(env, f, End).ec && !OnToken(env, f, End).form.message
  {
  }

  lemma StaysRefused(env: Env, f: Form, a: seq<Token>, b: seq<Token>)
    requires Absorb(env, Effect(f, false), a).ec
    ensures Absorb(env, Effect(f, false), a + b).ec
  {
    FoldConcat(Absorber(env), Effect(f, false), a, b);
    FoldToKeeps(Absorber(env), (x: Effect) => x.ec, Absorb(env, Effect(f, false), a), b, |b|);
  }

  /** put reads the last part to the end of the upload and finish accepts if and only if it
      is complete or ends before its name does. */
  lemma LastIff(env: Env, f: Form, last: string, behind: string)
    requires AtStart(f)
    ensures var e := Absorb(env, Effect(f, false), Bytes(last) + [End] + Bytes(behind));
      !e.ec && e.form.target == Target.Name <==> MayBeLast(env.texts, last)
  {
    hide OnToken, BeforeNameEnds;
    NameIff(env, f, last);
    PartIff(env, f, last);
    var r := Reads(env, f, last);
    if r.ec {
      StaysRefused(env, f, Bytes(last), [End] + Bytes(behind));
      assert Bytes(last) + ([End] + Bytes(behind)) == Bytes(last) + [End] + Bytes(behind);
    } else {
      FinishIff(env, f, last);
      FoldSnoc(Absorber(env), Effect(f, false), Bytes(last), End);
      EndIs(env, r.form);
      var g := OnToken(env, r.form, End).form;
      assert Absorb(env, Effect(f, false), Bytes(last) + [End]) == Effect(g, false);
      AbsorbConcat(env, f, Bytes(last) + [End], Bytes(behind));
      BetweenPartsStored(env, g, behind);
    }
  }

  /** What is stored then: the part if it is complete, and nothing otherwise. */
  lemma LastStored(env: Env, f: Form, last: string, behind: string)
    requires AtStart(f)
    ensures var e := Absorb(env, Effect(f, false), Bytes(last) + [End] + Bytes(behind));
      && (BeforeNameEnds(env.texts, last) ==> e.form.values == f.values && e.form.files == f.files)
      && (forall p :: PartOk(p) && last == PrintPart(env.texts, p) ==>
            Store(e.form.values, e.form.files) == StorePart(env, Store(f.values, f.files), p))
  {
    hide Absorb, OnToken, BeforeNameEnds, PartOk, PrintPart, PartEnded;
    if BeforeNameEnds(env.texts, last) {
      LostTokens(env, f, last, behind);
    }
    forall p | PartOk(p) && last == PrintPart(env.texts, p)
      ensures Absorb(env, Effect(f, false), Bytes(last) + [End] + Bytes(behind)).form == PartEnded(env, f, p)
      ensures Store(PartEnded(env, f, p).values, PartEnded(env, f, p).files) ==
        StorePart(env, Store(f.values, f.files), p)
    {
      PartAbsorbed(env, f, p, behind);
      PartEndedIs(env, f, p);
    }
  }

  // ----- Whole uploads -----

  /** Every part but the last ends while its body is being read. */
  ghost predicate AllButLast(env: Env, e: Effect, tokens: seq<Token>) {
    exists k: nat :: k < |tokens| && IsLastEnd(tokens, k) && EndsInBodies(env, e, tokens[..k])
  }

  ghost predicate IsLastEnd(tokens: seq<Token>, k: nat)
    requires k < |tokens|
  {
    tokens[k] == End && End !in tokens[k + 1..]
  }

  lemma AllButLastIs(env: Env, e: Effect, head: seq<Token>, d: M.Delims, last: string, epilogue: string)
    ensures AllButLast(env, e, head + TailTokens(d, last, epilogue)) <==> EndsInBodies(env, e, head + Bytes(last))
  {
    hide EndsInBodies;
    var tokens := head + TailTokens(d, last, epilogue);
    var n := |head| + |last|;
    LastEndIs(head, d, last, epilogue);
    forall k: nat | k < |tokens| && IsLastEnd(tokens, k)
      ensures k == n
    {
      OneLastEnd(tokens, k, n);
    }
  }

  lemma OneLastEnd(tokens: seq<Token>, j: nat, k: nat)
    requires j < |tokens| && k < |tokens| && IsLastEnd(tokens, j) && IsLastEnd(tokens, k)
    ensures j == k
  {
    assert forall i :: j < i < |tokens| ==> tokens[i] == tokens[j + 1..][i - j - 1];
    assert forall i :: k < i < |tokens| ==> tokens[i] == tokens[k + 1..][i - k - 1];
  }

  lemma LastEndIs(head: seq<Token>, d: M.Delims, last: string, epilogue: string)
    ensures var tokens := head + TailTokens(d, last, epilogue); var n := |head| + |last|;
      n < |tokens| && IsLastEnd(tokens, n) && tokens[..n] == head + Bytes(last)
  {
    var tokens, n := head + TailTokens(d, last, epilogue), |head| + |last|;
    var behind := Bytes(d.encapsulation + (M.DDASH + epilogue));
    assert tokens == (head + Bytes(last)) + [End] + behind;
    assert tokens[n + 1..] == behind;
  }

  /** put and finish accept the upload, it is closed, and every part but the last ends in
      its body. */
  ghost predicate IsAccepted(env: Env, boundary: string, s: string) {
    var d := M.DelimsFor(boundary);
    var fed := Feed(env, d, FreshReading(), s);
    var out := Run(d, Fresh(), s);
    && fed.Fine? && fed.form.target == Target.Name && fed.scanner.scan.phase == M.Epilogue
    && out.Accepted? && AllButLast(env, Effect(EMPTY_FORM, false), out.tokens)
  }

  /** The text is a form that is printed but for its last part, which is complete or ends
      before its name does. */
  ghost predicate IsCutForm(t: H.Texts, boundary: string, s: string, preamble: string, parts: seq<FormPart>,
                            last: string, epilogue: string)
  {
    && FormOk(t, boundary, parts) && MayBeLast(t, last)
    && FirstAtEnd(M.DelimsFor(boundary).encapsulation, last)
    && FirstAtEnd(M.DelimsFor(boundary).preamble, preamble)
    && s == preamble + PrintWith(t, boundary, parts, last) + epilogue
  }

  function LayoutWith(t: H.Texts, preamble: string, parts: seq<FormPart>, last: string, epilogue: string): Layout {
    Started(preamble, BodyWith(t, parts, last, epilogue))
  }

  /** What put makes of all parts but the last. */
  lemma UpToLast(env: Env, d: M.Delims, preamble: string, parts: seq<FormPart>, last: string, epilogue: string)
    returns (head: seq<Token>, g: Form)
    requires AllPartsOk(parts)
    ensures LayoutTokens(d, LayoutWith(env.texts, preamble, parts, last, epilogue)) ==
      head + TailTokens(d, last, epilogue)
    ensures Strict(env, EMPTY_FORM, head) == Effect(g, false)
    ensures AtStart(g) && Store(g.values, g.files) == StoreForm(env, Store([], []), parts)
  {
    hide Absorb, OnToken, HeadTokens, TailTokens, Strict, BodyWith, PartOk;
    var f := EMPTY_FORM.(message := true);
    var body := BodyWith(env.texts, parts, last, epilogue);
    var bytes := preamble + d.preamble;
    head := Bytes(bytes) + [Begin] + HeadTokens(d, body);
    SplitTokens(d, body);
    BodyWithIs(env.texts, parts, last, epilogue);
    StrictBegin(env, EMPTY_FORM, bytes, HeadTokens(d, body));
    HeadPasses(env, d, f, parts, last, epilogue);
    g := Strict(env, f, HeadTokens(d, body)).form;
    assert LayoutTokens(d, Started(preamble, body)) == Bytes(bytes) + [Begin] + BodyTokens(d, body);
  }

  /** The tokens of such an upload: what is accepted, and what is stored. */
  lemma CutTokens(env: Env, d: M.Delims, preamble: string, parts: seq<FormPart>, last: string, epilogue: string)
    requires AllPartsOk(parts)
    ensures var tokens := LayoutTokens(d, LayoutWith(env.texts, preamble, parts, last, epilogue));
      var e := Absorb(env, Effect(EMPTY_FORM, false), tokens);
      && (!e.ec && e.form.target == Target.Name <==> MayBeLast(env.texts, last))
      && (MayBeLast(env.texts, last) ==> AllButLast(env, Effect(EMPTY_FORM, false), tokens))
      && (BeforeNameEnds(env.texts, last) ==>
            Store(e.form.values, e.form.files) == StoreForm(env, Store([], []), parts))
      && (forall p :: PartOk(p) && last == PrintPart(env.texts, p) ==>
            Store(e.form.values, e.form.files) == StoreForm(env, Store([], []), parts + [p]))
  {
    hide Absorb, OnToken, MayBeLast, BeforeNameEnds, PartOk, PrintPart, AllButLast, Strict, LayoutTokens;
    var head, g := UpToLast(env, d, preamble, parts, last, epilogue);
    var behind := d.encapsulation + (M.DDASH + epilogue);
    StrictIs(env, EMPTY_FORM, head);
    AbsorbConcat(env, EMPTY_FORM, head, TailTokens(d, last, epilogue));
    LastIff(env, g, last, behind);
    LastStored(env, g, last, behind);
    forall p
      ensures StoreForm(env, Store([], []), parts + [p]) == StorePart(env, StoreForm(env, Store([], []), parts), p)
    {
      StoreSnoc(env, Store([], []), parts, p);
    }
    if MayBeLast(env.texts, last) {
      LastReads(env, g, last);
      StrictConcat(env, EMPTY_FORM, head, Bytes(last));
      NoEnds(env, g, last);
      StrictIs(env, g, Bytes(last));
      StrictIs(env, EMPTY_FORM, head + Bytes(last));
      AllButLastIs(env, Effect(EMPTY_FORM, false), head, d, last, epilogue);
    }
  }

  lemma LastReads(env: Env, f: Form, last: string)
    requires AtStart(f) && MayBeLast(env.texts, last)
    ensures !Reads(env, f, last).ec
  {
    NameIff(env, f, last);
    PartIff(env, f, last);
  }

  /** Among closed uploads whose parts before the last end in their bodies, put and finish
      accept exactly these, and store what is complete. */
  lemma AcceptedIff(env: Env, boundary: string, s: string)
    ensures IsAccepted(env, boundary, s) <==>
      exists preamble, parts, last, epilogue :: IsCutForm(env.texts, boundary, s, preamble, parts, last, epilogue)
    ensures forall preamble, parts, last, epilogue ::
      IsCutForm(env.texts, boundary, s, preamble, parts, last, epilogue) ==>
        StoresCut(env, Feed(env, M.DelimsFor(boundary), FreshReading(), s), parts, last)
  {
    hide IsAccepted, IsCutForm, StoresCut;
    if IsAccepted(env, boundary, s) {
      var preamble, parts, last, epilogue := FindCutForm(env, boundary, s);
    }
    forall preamble, parts, last, epilogue | IsCutForm(env.texts, boundary, s, preamble, parts, last, epilogue)
      ensures IsAccepted(env, boundary, s)
      ensures StoresCut(env, Feed(env, M.DelimsFor(boundary), FreshReading(), s), parts, last)
    {
      CutFormAccepted(env, boundary, s, preamble, parts, last, epilogue);
    }
  }

  /** The complete parts are stored; a part that ends before its name does is lost. */
  ghost predicate StoresCut(env: Env, r: Reading, parts: seq<FormPart>, last: string) {
    && (BeforeNameEnds(env.texts, last) ==> StoredAs(env, r, parts))
    && (forall p :: PartOk(p) && last == PrintPart(env.texts, p) ==> StoredAs(env, r, parts + [p]))
  }

  lemma CutFormAccepted(env: Env, boundary: string, s: string, preamble: string, parts: seq<FormPart>, last: string,
                        epilogue: string)
    requires IsCutForm(env.texts, boundary, s, preamble, parts, last, epilogue)
    ensures IsAccepted(env, boundary, s)
    ensures StoresCut(env, Feed(env, M.DelimsFor(boundary), FreshReading(), s), parts, last)
  {
    hide Absorb, Run, LayoutTokens, OnToken, PrintPart, PrintWith, BodyWith;
    hide MayBeLast, BeforeNameEnds, AllButLast, PartOk;
    var d := M.DelimsFor(boundary);
    CutLayout(env.texts, boundary, preamble, parts, last, epilogue);
    LayoutRuns(d, LayoutWith(env.texts, preamble, parts, last, epilogue));
    FeedIsRun(env, d, Scanner(M.Scan(M.Start, 0), ""), EMPTY_FORM, s);
    CutTokens(env, d, preamble, parts, last, epilogue);
  }

  lemma CutLayout(t: H.Texts, boundary: string, preamble: string, parts: seq<FormPart>, last: string, epilogue: string)
    requires AllPartsOk(parts)
    ensures var d, layout := M.DelimsFor(boundary), LayoutWith(t, preamble, parts, last, epilogue);
      && Closed(layout)
      && Render(d, layout) == preamble + PrintWith(t, boundary, parts, last) + epilogue
      && (LayoutOk(d, layout) <==>
            FormOk(t, boundary, parts) && FirstAtEnd(d.encapsulation, last) && FirstAtEnd(d.preamble, preamble))
  {
    hide PrintPart, PrintWith, BodyWith, PartOk, FormOk, BodyOk;
    var d, body := M.DelimsFor(boundary), BodyWith(t, parts, last, epilogue);
    PrintedWith(t, boundary, parts, last, epilogue);
    BodyWithOk(t, boundary, parts, last, epilogue);
    var printed, rendered := PrintWith(t, boundary, parts, last), RenderBody(d, body);
    assert (preamble + printed) + epilogue == preamble + (printed + epilogue);
    assert (preamble + d.preamble) + rendered == preamble + (d.preamble + rendered);
  }

  lemma FindCutForm(env: Env, boundary: string, s: string)
    returns (preamble: string, parts: seq<FormPart>, last: string, epilogue: string)
    requires IsAccepted(env, boundary, s)
    ensures IsCutForm(env.texts, boundary, s, preamble, parts, last, epilogue)
  {
    hide Absorb, Run, LayoutTokens, OnToken, PrintPart, PrintWith, BodyWith, MayBeLast, AllButLast, PartOk, FormOk;
    var d := M.DelimsFor(boundary);
    FeedIsRun(env, d, Scanner(M.Scan(M.Start, 0), ""), EMPTY_FORM, s);
    var layout := FindLayout(d, s);
    LayoutRuns(d, layout);
    preamble, last, epilogue := layout.preamble, LastText(layout.first), EpilogueOf(layout.first);
    parts := PartsBefore(env, d, layout);
    CutTokens(env, d, preamble, parts, last, epilogue);
    CutLayout(env.texts, boundary, preamble, parts, last, epilogue);
  }

  lemma PartsBefore(env: Env, d: M.Delims, layout: Layout) returns (parts: seq<FormPart>)
    requires Closed(layout) && !Absorb(env, Effect(EMPTY_FORM, false), LayoutTokens(d, layout)).ec
    requires AllButLast(env, Effect(EMPTY_FORM, false), LayoutTokens(d, layout))
    ensures AllPartsOk(parts)
    ensures layout == LayoutWith(env.texts, layout.preamble, parts, LastText(layout.first), EpilogueOf(layout.first))
  {
    hide Absorb, OnToken, HeadTokens, TailTokens, Strict, BodyWith, PartOk, AllButLast, EndsInBodies;
    var body, bytes := layout.first, layout.preamble + d.preamble;
    var last, epilogue := LastText(body), EpilogueOf(body);
    var head := Bytes(bytes) + [Begin] + HeadTokens(d, body);
    SplitTokens(d, body);
    assert LayoutTokens(d, layout) == head + TailTokens(d, last, epilogue);
    AllButLastIs(env, Effect(EMPTY_FORM, false), head, d, last, epilogue);
    NotRefused(env, head, d, last, epilogue);
    StrictIs(env, EMPTY_FORM, head + Bytes(last));
    StrictConcat(env, EMPTY_FORM, head, Bytes(last));
    StrictBegin(env, EMPTY_FORM, bytes, HeadTokens(d, body));
    parts := FindHead(env, d, EMPTY_FORM.(message := true), body);
  }

  lemma NotRefused(env: Env, head: seq<Token>, d: M.Delims, last: string, epilogue: string)
    requires !Absorb(env, Effect(EMPTY_FORM, false), head + TailTokens(d, last, epilogue)).ec
    ensures !Absorb(env, Effect(EMPTY_FORM, false), head + Bytes(last)).ec
  {
    hide Absorb;
    var rest := [End] + Bytes(d.encapsulation + (M.DDASH + epilogue));
    assert head + TailTokens(d, last, epilogue) == (head + Bytes(last)) + rest;
    if Absorb(env, Effect(EMPTY_FORM, false), head + Bytes(last)).ec {
      StaysRefused(env, EMPTY_FORM, head + Bytes(last), rest);
    }
  }

  /** So a last part that ends before its name does is lost without an error. */
  lemma LostPart(env: Env, boundary: string, preamble: string, parts: seq<FormPart>, last: string, epilogue: string)
    requires FormOk(env.texts, boundary, parts) && BeforeNameEnds(env.texts, last)
    requires FirstAtEnd(M.DelimsFor(boundary).encapsulation, last)
    requires FirstAtEnd(M.DelimsFor(boundary).preamble, preamble)
    ensures StoredAs(env, Feed(env, M.DelimsFor(boundary), FreshReading(),
                               preamble + PrintWith(env.texts, boundary, parts, last) + epilogue), parts)
  {
    var s := preamble + PrintWith(env.texts, boundary, parts, last) + epilogue;
    CutFormAccepted(env, boundary, s, preamble, parts, last, epilogue);
  }

  /** The smallest such upload: an empty part. */
  lemma EmptyPart(env: Env)
    ensures StoredAs(env, Feed(env, M.DelimsFor("b"), FreshReading(), "--b\r\n" + "\r\n--b--"), [])
  {
    EmptyPrint(env.texts);
    hide PrintWith, StoredAs, Feed;
    NothingBefore(M.DelimsFor("b").encapsulation);
    NothingBefore(M.DelimsFor("b").preamble);
    LostPart(env, "b", "", [], "", "");
  }

  lemma EmptyPrint(t: H.Texts)
    ensures "" + PrintWith(t, "b", [], "") + "" == "--b\r\n" + "\r\n--b--"
  {
  }
}
