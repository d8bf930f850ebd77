// Whole uploads: what a printed form leaves in the reader, in one call.

module FormUpload {
  import opened Folding
  import opened Matching
  import opened MultipartLayout
  import opened FormSpec
  import opened FormRoundTrip
  import opened FormReader
  import H = HeaderParser
  import M = MultipartParser

  /** The form as a browser sends it: section 4.1 of RFC 7578. */
  function PrintForm(t: H.Texts, boundary: string, parts: seq<FormPart>): string {
    if parts == [] then "--" + boundary + "--"
    else "--" + boundary + "\r\n" + PrintPart(t, parts[0]) + "\r\n" + PrintForm(t, boundary, parts[1..])
  }

  /** No quote or CR where the header syntax ends on one, and the boundary delimiter does
      not occur in a part, nor start in it. */
  ghost predicate FormOk(t: H.Texts, boundary: string, parts: seq<FormPart>) {
    forall i :: 0 <= i < |parts| ==>
      PartOk(parts[i]) && FirstAtEnd(M.DelimsFor(boundary).encapsulation, PrintPart(t, parts[i]))
  }

  /** What is stored. */
  datatype Store = Store(values: seq<Value>, files: seq<StoredFile>)

  function StorePart(env: Env, s: Store, p: FormPart): Store {
    match p
    case FieldPart(name, body) => Store(s.values + [Value(name, false, true, body)], s.files)
    case FilePart(name, filename, _, body) =>
      var opens := Opens(env, |s.files|, filename);
      Store(s.values + [Value(name, true, opens, filename)],
            s.files + [StoredFile(filename, false, if opens then body else "")])
  }

  function StoreForm(env: Env, s: Store, parts: seq<FormPart>): Store
    decreases |parts|
  {
    if parts == [] then s else StoreForm(env, StorePart(env, s, parts[0]), parts[1..])
  }

  // ----- The layout of a printed form -----

  function BodyFor(t: H.Texts, parts: seq<FormPart>, epilogue: string): Body
    requires parts != []
    decreases |parts|
  {
    Part(PrintPart(t, parts[0]),
         if |parts| == 1 then Final(epilogue) else Next(BodyFor(t, parts[1..], epilogue)))
  }

  lemma {:induction false} PrintedBody(t: H.Texts, boundary: string, parts: seq<FormPart>, epilogue: string)
    requires parts != []
    ensures "--" + boundary + "\r\n" + RenderBody(M.DelimsFor(boundary), BodyFor(t, parts, epilogue)) ==
      PrintForm(t, boundary, parts) + epilogue
  {
    var d := M.DelimsFor(boundary);
    var text, rest := PrintPart(t, parts[0]), parts[1..];
    if rest == [] {
      RegroupLast(text, boundary, epilogue);
    } else {
      PrintedBody(t, boundary, rest, epilogue);
      RegroupNext(text, boundary, RenderBody(d, BodyFor(t, rest, epilogue)), PrintForm(t, boundary, rest), epilogue);
    }
  }

  lemma RegroupLast(text: string, boundary: string, epilogue: string)
    ensures "--" + boundary + "\r\n" + (text + ("\r\n" + "--" + boundary) + ("--" + epilogue)) ==
      ("--" + boundary + "\r\n" + text + "\r\n" + ("--" + boundary + "--")) + epilogue
  {
  }

  lemma RegroupNext(text: string, boundary: string, inner: string, rest: string, epilogue: string)
    requires "--" + boundary + "\r\n" + inner == rest + epilogue
    ensures "--" + boundary + "\r\n" + (text + ("\r\n" + "--" + boundary) + ("\r\n" + inner)) ==
      ("--" + boundary + "\r\n" + text + "\r\n" + rest) + epilogue
  {
    assert text + ("\r\n" + "--" + boundary) + ("\r\n" + inner) ==
      text + "\r\n" + ("--" + boundary + "\r\n" + inner);
  }

  lemma {:induction false} PrintedBodyOk(t: H.Texts, boundary: string, parts: seq<FormPart>, epilogue: string)
    requires parts != [] && FormOk(t, boundary, parts)
    ensures BodyOk(M.DelimsFor(boundary), BodyFor(t, parts, epilogue))
  {
    assert PartOk(parts[0]);
    if |parts| > 1 {
      assert forall i :: 0 <= i < |parts[1..]| ==> parts[1..][i] == parts[i + 1];
      PrintedBodyOk(t, boundary, parts[1..], epilogue);
    }
  }

  lemma NothingBefore(p: string)
    ensures FirstAtEnd(p, "")
  {
    assert "" + p == p;
  }

  // ----- Absorbing the tokens of a printed form -----

  predicate Idle(f: Form) {
    !f.message && !f.writable
  }

  lemma {:induction false} SkipBytes(env: Env, f: Form, s: string)
    requires Idle(f)
    ensures Absorb(env, Effect(f, false), Bytes(s)) == Effect(f, false)
  {
    var g := (k: nat) => Effect(f, false);
    forall k: nat | k < |s|
      ensures Absorber(env)(g(k), Bytes(s)[k]) == g(k + 1)
    {
    }
    FoldToIs(Absorber(env), g, Bytes(s), |s|);
  }

  /** The form after the end of a part. */
  function PartEnded(env: Env, f: Form, p: FormPart): Form {
    OnToken(env, PartDone(env, f, p), End).form
  }

  lemma PartEndedIs(env: Env, f: Form, p: FormPart)
    requires AtStart(f) && PartOk(p)
    ensures var g := PartEnded(env, f, p);
      && OnToken(env, PartDone(env, f, p), End) == Effect(g, false)
      && Idle(g) && AtStart(g.(message := true)) && OnToken(env, g, Begin) == Effect(g.(message := true), false)
      && Store(g.values, g.files) == StorePart(env, Store(f.values, f.files), p)
  {
    match p
    case FieldPart(_, _) =>
    case FilePart(_, filename, _, body) =>
      var opens := Opens(env, |f.files|, filename);
      var file := StoredFile(filename, opens, if opens then body else "");
      assert (f.files + [file])[|f.files| := file.(isOpen := false)] == f.files + [file.(isOpen := false)];
  }

  /** One part, its end, and the delimiter after it. */
  lemma PartAbsorbed(env: Env, f: Form, p: FormPart, delim: string)
    requires AtStart(f) && PartOk(p)
    ensures Absorb(env, Effect(f, false), Bytes(PrintPart(env.texts, p)) + [End] + Bytes(delim)) ==
      Effect(PartEnded(env, f, p), false)
  {
    hide OnToken, PartOk, PrintPart;
    var text := Bytes(PrintPart(env.texts, p));
    PartReads(env, f, p);
    PartEndedIs(env, f, p);
    FoldSnoc(Absorber(env), Effect(f, false), text, End);
    FoldConcat(Absorber(env), Effect(f, false), text + [End], Bytes(delim));
    SkipBytes(env, PartEnded(env, f, p), delim);
  }

  lemma BeginAbsorbed(env: Env, f: Form, bytes: string)
    requires Idle(f)
    ensures Absorb(env, Effect(f, false), Bytes(bytes) + [Begin]) == Effect(f.(message := true), false)
  {
    SkipBytes(env, f, bytes);
    FoldSnoc(Absorber(env), Effect(f, false), Bytes(bytes), Begin);
  }

  /** The parts are stored one after the other. */
  ghost predicate StoresAll(env: Env, f: Form, parts: seq<FormPart>, e: Effect) {
    && !e.ec && e.form.target == Target.Name
    && Store(e.form.values, e.form.files) == StoreForm(env, Store(f.values, f.files), parts)
  }

  lemma {:induction false} PartsAbsorbed(env: Env, d: M.Delims, f: Form, parts: seq<FormPart>, epilogue: string)
    requires AtStart(f) && parts != [] && forall i :: 0 <= i < |parts| ==> PartOk(parts[i])
    ensures StoresAll(env, f, parts,
      Absorb(env, Effect(f, false), BodyTokens(d, BodyFor(env.texts, parts, epilogue))))
    decreases |parts|
  {
    hide Absorb, PartEnded, PartOk, OnToken, PrintPart;
    var p, rest := parts[0], parts[1..];
    var first := Bytes(PrintPart(env.texts, p)) + [End] + Bytes(d.encapsulation);
    var g := PartEnded(env, f, p);
    PartAbsorbed(env, f, p, d.encapsulation);
    PartEndedIs(env, f, p);
    if rest == [] {
      AbsorbConcat(env, f, first, Bytes(M.DDASH + epilogue));
      SkipBytes(env, g, M.DDASH + epilogue);
      assert BodyTokens(d, BodyFor(env.texts, parts, epilogue)) == first + Bytes(M.DDASH + epilogue);
      assert Absorb(env, Effect(f, false), first + Bytes(M.DDASH + epilogue)) == Effect(g, false);
      assert StoreForm(env, Store(f.values, f.files), parts) == Store(g.values, g.files);
    } else {
      var begin := Bytes(M.CRLF) + [Begin];
      var inner := BodyTokens(d, BodyFor(env.texts, rest, epilogue));
      AbsorbConcat(env, f, first, begin + inner);
      BeginAbsorbed(env, g, M.CRLF);
      AbsorbConcat(env, g, begin, inner);
      assert forall i :: 0 <= i < |rest| ==> rest[i] == parts[i + 1];
      PartsAbsorbed(env, d, g.(message := true), rest, epilogue);
    }
  }

  lemma AbsorbConcat(env: Env, f: Form, a: seq<Token>, b: seq<Token>)
    ensures var first := Absorb(env, Effect(f, false), a);
      !first.ec ==> Absorb(env, Effect(f, false), a + b) == Absorb(env, Effect(first.form, false), b)
  {
    FoldConcat(Absorber(env), Effect(f, false), a, b);
    var first := Absorb(env, Effect(f, false), a);
    assert !first.ec ==> first == Effect(first.form, false);
  }

  // ----- Whole uploads -----

  ghost function FreshReading(): Reading {
    Fine(Scanner(M.Scan(M.Start, 0), ""), EMPTY_FORM)
  }

  /** The reading of a printed form: everything is stored, and the upload may finish. */
  ghost predicate StoredAs(env: Env, r: Reading, parts: seq<FormPart>) {
    && r.Fine? && r.form.target == Target.Name
    && Store(r.form.values, r.form.files) == StoreForm(env, Store([], []), parts)
  }

  /** Printing a form and reading it gives the form back: every name, file name and body,
      in order and byte for byte. */
  lemma RoundTrip(env: Env, boundary: string, parts: seq<FormPart>, epilogue: string)
    requires FormOk(env.texts, boundary, parts) && (parts == [] ==> epilogue == "")
    ensures StoredAs(env,
      Feed(env, M.DelimsFor(boundary), FreshReading(), PrintForm(env.texts, boundary, parts) + epilogue), parts)
  {
    hide Absorb, Run, BodyTokens, LayoutOk, FormOk;
    var d := M.DelimsFor(boundary);
    var s := PrintForm(env.texts, boundary, parts) + epilogue;
    var layout := LayoutFor(env.texts, boundary, parts, epilogue);
    PrintedLayout(env.texts, boundary, parts, epilogue);
    LayoutRuns(d, layout);
    FeedIsRun(env, d, Scanner(M.Scan(M.Start, 0), ""), EMPTY_FORM, s);
    TokensStored(env, boundary, parts, epilogue);
  }

  function LayoutFor(t: H.Texts, boundary: string, parts: seq<FormPart>, epilogue: string): Layout {
    if parts == [] then Unstarted(PrintForm(t, boundary, parts) + epilogue)
    else Started("", BodyFor(t, parts, epilogue))
  }

  lemma EmptyFormHasNoPart(boundary: string)
    ensures Absent(M.DelimsFor(boundary).preamble, "--" + boundary + "--")
  {
    var p, s := M.DelimsFor(boundary).preamble, "--" + boundary + "--";
    var n := |p|;
    assert n == |s| && p[n - 1] == '\n' && s[n - 1] == '-';
    forall e
      ensures !OccursAt(p, s, e)
    {
      AgreeIsEquality(p, s, e, n);
      if e == n {
        assert s[0..n][n - 1] == '-';
      }
    }
  }

  lemma PrintedLayout(t: H.Texts, boundary: string, parts: seq<FormPart>, epilogue: string)
    requires FormOk(t, boundary, parts) && (parts == [] ==> epilogue == "")
    ensures var layout := LayoutFor(t, boundary, parts, epilogue);
      && LayoutOk(M.DelimsFor(boundary), layout)
      && Render(M.DelimsFor(boundary), layout) == PrintForm(t, boundary, parts) + epilogue
  {
    var d := M.DelimsFor(boundary);
    if parts == [] {
      EmptyFormHasNoPart(boundary);
      assert PrintForm(t, boundary, parts) + epilogue == "--" + boundary + "--";
    } else {
      hide FormOk, BodyOk, PrintForm;
      NothingBefore(d.preamble);
      PrintedBody(t, boundary, parts, epilogue);
      PrintedBodyOk(t, boundary, parts, epilogue);
      assert "" + d.preamble == d.preamble;
    }
  }

  lemma TokensStored(env: Env, boundary: string, parts: seq<FormPart>, epilogue: string)
    requires FormOk(env.texts, boundary, parts)
    ensures var e := Absorb(env, Effect(EMPTY_FORM, false),
        LayoutTokens(M.DelimsFor(boundary), LayoutFor(env.texts, boundary, parts, epilogue)));
      StoresAll(env, EMPTY_FORM, parts, e)
  {
    var d := M.DelimsFor(boundary);
    var s := PrintForm(env.texts, boundary, parts) + epilogue;
    if parts == [] {
      SkipBytes(env, EMPTY_FORM, Settled(d.preamble, s));
    } else {
      var begin := Bytes("" + d.preamble) + [Begin];
      var f := EMPTY_FORM.(message := true);
      BeginAbsorbed(env, EMPTY_FORM, "" + d.preamble);
      AbsorbConcat(env, EMPTY_FORM, begin, BodyTokens(d, BodyFor(env.texts, parts, epilogue)));
      PartsAbsorbed(env, d, f, parts, epilogue);
    }
  }

  // ----- The form in plain bytes, and what is stored in plain terms -----

  /** A part as a browser sends it: section 4.2 of RFC 7578. */
  function BrowserPart(p: FormPart): string {
    match p
    case FieldPart(name, body) =>
      "Content-Disposition: form-data; name=\"" + name + "\"\r\n\r\n" + body
    case FilePart(name, filename, contentType, body) =>
      "Content-Disposition: form-data; name=\"" + name + "\"; filename=\"" + filename + "\"\r\nContent-Type: " +
      contentType + "\r\n\r\n" + body
  }

  function BrowserForm(boundary: string, parts: seq<FormPart>): string {
    if parts == [] then "--" + boundary + "--"
    else "--" + boundary + "\r\n" + BrowserPart(parts[0]) + "\r\n" + BrowserForm(boundary, parts[1..])
  }

  predicate StandsAt(delim: string, text: string, i: nat) {
    i + |delim| <= |text| && text[i..i + |delim|] == delim
  }

  /** A delimiter behind the text stands nowhere before. */
  predicate OnlyBehind(delim: string, text: string) {
    forall i: nat :: i < |text| ==> !StandsAt(delim, text + delim, i)
  }

  predicate BrowserOk(boundary: string, parts: seq<FormPart>) {
    forall i :: 0 <= i < |parts| ==>
      && '\"' !in parts[i].name && OnlyBehind("\r\n--" + boundary, BrowserPart(parts[i]))
      && (parts[i].FilePart? ==> '\"' !in parts[i].filename && '\r' !in parts[i].contentType)
  }

  /** How many of the first n parts are files. */
  function FilesIn(parts: seq<FormPart>, n: nat): nat
    requires n <= |parts|
  {
    if n == 0 then 0 else FilesIn(parts, n - 1) + if parts[n - 1].FilePart? then 1 else 0
  }

  /** The value of a part, and the n-th file if it is one, which is written exactly when
      the mode of the form and the files that exist allow it. */
  predicate KeptPart(env: Env, p: FormPart, n: nat, v: Value, files: seq<StoredFile>) {
    match p
    case FieldPart(name, body) => v.name == name && !v.isFile && v.written && v.content == body
    case FilePart(name, filename, _, body) =>
      && v.name == name && v.isFile && v.content == filename
      && n < |files| && files[n].filename == filename && !files[n].isOpen
      && files[n].bytes == (if v.written then body else "")
      && (env.mode == Add ==> (v.written <==> !env.fileExists(n, filename)))
      && (env.mode == Replace ==> (v.written <==> env.fileExists(n, filename)))
      && (env.mode == AddOrReplace ==> v.written)
      && (env.mode == Ignore ==> !v.written)
  }

  predicate Kept(env: Env, parts: seq<FormPart>, values: seq<Value>, files: seq<StoredFile>) {
    && |values| == |parts| && |files| == FilesIn(parts, |parts|)
    && forall i :: 0 <= i < |parts| ==> KeptPart(env, parts[i], FilesIn(parts, i), values[i], files)
  }

  lemma QuotedTexts()
    ensures [H.QUOTE] + H.FORM_DATA.preBody == "\"\r\n\r\n"
    ensures [H.QUOTE] + (";" + H.FORM_DATA.filename) == "\"; filename=\""
    ensures [H.QUOTE] + H.FORM_DATA.contentType == "\"\r\nContent-Type: "
  {
  }

  lemma BrowserPartIs(p: FormPart)
    ensures BrowserPart(p) == PrintPart(H.FORM_DATA, p)
  {
    var t := H.FORM_DATA;
    QuotedTexts();
    hide Quoted;
    match p
    case FieldPart(name, body) =>
      Quote(t.contentDisposition, name, t.preBody, body);
    case FilePart(name, filename, contentType, body) =>
      QuoteTwice(t.contentDisposition, name, t.filename, filename, t.contentType, contentType, t.preBody, body);
  }

  lemma Quote(a: string, name: string, b: string, body: string)
    ensures a + Quoted(name) + (b + body) == a + name + ([H.QUOTE] + b) + body
  {
  }

  lemma QuoteTwice(a: string, name: string, b: string, filename: string, c: string, kind: string, d: string, body: string)
    ensures a + Quoted(name) + (";" + b + Quoted(filename) + c + kind + d + body) ==
      a + name + ([H.QUOTE] + (";" + b)) + filename + ([H.QUOTE] + c) + kind + d + body
  {
  }

  lemma {:induction false} BrowserFormIs(boundary: string, parts: seq<FormPart>)
    ensures BrowserForm(boundary, parts) == PrintForm(H.FORM_DATA, boundary, parts)
    decreases |parts|
  {
    hide BrowserPart, PrintPart;
    if parts != [] {
      BrowserPartIs(parts[0]);
      BrowserFormIs(boundary, parts[1..]);
    }
  }

  lemma OnlyBehindIs(delim: string, text: string)
    ensures OnlyBehind(delim, text) <==> FirstAtEnd(delim, text)
  {
    var whole := text + delim;
    forall e
      ensures OccursAt(delim, whole, e) <==> e >= |delim| && StandsAt(delim, whole, e - |delim|)
    {
      AgreeIsEquality(delim, whole, e, |delim|);
      assert delim[..|delim|] == delim;
    }
    forall i: nat
      ensures StandsAt(delim, whole, i) <==> OccursAt(delim, whole, i + |delim|)
    {
      assert i + |delim| - |delim| == i;
    }
    hide OccursAt, StandsAt;
  }

  lemma BrowserOkIs(boundary: string, parts: seq<FormPart>)
    ensures BrowserOk(boundary, parts) <==> FormOk(H.FORM_DATA, boundary, parts)
  {
    var delim := M.DelimsFor(boundary).encapsulation;
    assert delim == "\r\n--" + boundary;
    forall i | 0 <= i < |parts|
      ensures BrowserPart(parts[i]) == PrintPart(H.FORM_DATA, parts[i])
      ensures OnlyBehind(delim, BrowserPart(parts[i])) <==> FirstAtEnd(delim, PrintPart(H.FORM_DATA, parts[i]))
    {
      BrowserPartIs(parts[i]);
      OnlyBehindIs(delim, BrowserPart(parts[i]));
    }
    hide BrowserPart, PrintPart, OnlyBehind, FirstAtEnd;
  }

  lemma {:induction false} StoreSnoc(env: Env, s: Store, parts: seq<FormPart>, p: FormPart)
    ensures StoreForm(env, s, parts + [p]) == StorePart(env, StoreForm(env, s, parts), p)
    decreases |parts|
  {
    if parts != [] {
      assert (parts + [p])[1..] == parts[1..] + [p];
      StoreSnoc(env, StorePart(env, s, parts[0]), parts[1..], p);
    } else {
      assert (parts + [p])[1..] == [];
    }
  }

  lemma {:induction false} FilesInPrefix(parts: seq<FormPart>, p: FormPart, n: nat)
    requires n <= |parts|
    ensures FilesIn(parts + [p], n) == FilesIn(parts, n)
  {
    if n > 0 {
      FilesInPrefix(parts, p, n - 1);
    }
  }

  lemma NewPartKept(env: Env, s: Store, p: FormPart) returns (v: Value, more: seq<StoredFile>)
    ensures var s' := StorePart(env, s, p);
      && s'.values == s.values + [v] && s'.files == s.files + more
      && |more| == (if p.FilePart? then 1 else 0) && KeptPart(env, p, |s.files|, v, s'.files)
  {
    var s' := StorePart(env, s, p);
    v := s'.values[|s.values|];
    more := s'.files[|s.files|..];
  }

  /** What is stored of a part stays when more is stored. */
  lemma KeptLonger(env: Env, p: FormPart, n: nat, v: Value, files: seq<StoredFile>, more: seq<StoredFile>)
    requires KeptPart(env, p, n, v, files)
    ensures KeptPart(env, p, n, v, files + more)
  {
  }

  lemma KeptWith(env: Env, parts: seq<FormPart>, s: Store, p: FormPart)
    requires Kept(env, parts, s.values, s.files)
    ensures var s' := StorePart(env, s, p); Kept(env, parts + [p], s'.values, s'.files)
  {
    var v, more := NewPartKept(env, s, p);
    forall n: nat | n <= |parts|
      ensures FilesIn(parts + [p], n) == FilesIn(parts, n)
    {
      FilesInPrefix(parts, p, n);
    }
    assert FilesIn(parts + [p], |parts| + 1) == FilesIn(parts, |parts|) + |more|;
    hide KeptPart, StorePart, FilesIn;
    forall i | 0 <= i < |parts|
      ensures KeptPart(env, parts[i], FilesIn(parts, i), (s.values + [v])[i], s.files + more)
    {
      KeptLonger(env, parts[i], FilesIn(parts, i), s.values[i], s.files, more);
    }
  }

  lemma {:induction false} StoreFormKeeps(env: Env, parts: seq<FormPart>)
    ensures var s := StoreForm(env, Store([], []), parts); Kept(env, parts, s.values, s.files)
    decreases |parts|
  {
    if parts != [] {
      var init, p := parts[..|parts| - 1], parts[|parts| - 1];
      assert parts == init + [p];
      StoreFormKeeps(env, init);
      StoreSnoc(env, Store([], []), init, p);
      hide StoreForm, Kept, StorePart;
      KeptWith(env, init, StoreForm(env, Store([], []), init), p);
    }
  }

  /** One call of put on a fresh reader, then finish. */
  method Upload(boundary: string, env: Env, body: string)
    returns (nwritten: nat, ec: bool, values: seq<Value>, files: seq<StoredFile>)
    requires env.texts == H.FORM_DATA
    ensures forall parts, epilogue ::
      FormOk(env.texts, boundary, parts) && (parts == [] ==> epilogue == "") &&
      body == PrintForm(env.texts, boundary, parts) + epilogue ==>
        && !ec && nwritten == |body|
        && Store(values, files) == StoreForm(env, Store([], []), parts)
    ensures forall parts, epilogue ::
      BrowserOk(boundary, parts) && (parts == [] ==> epilogue == "") &&
      body == BrowserForm(boundary, parts) + epilogue ==>
        !ec && nwritten == |body| && Kept(env, parts, values, files)
  {
    hide FormOk, Feed, Coupled, ScannerValid, BrowserOk, Kept, BrowserForm;
    var reader := new Reader(boundary, env);
    ghost var fed := Feed(env, M.DelimsFor(boundary), FreshReading(), body);
    nwritten, ec := reader.Put(body);
    if ec {
      FeedPrefixFailed(env, M.DelimsFor(boundary), FreshReading(), body, nwritten + 1);
      assert fed.Failed?;
    } else {
      ec := reader.Finish();
    }
    values, files := reader.values, reader.files;
    forall parts, epilogue |
      FormOk(env.texts, boundary, parts) && (parts == [] ==> epilogue == "") &&
      body == PrintForm(env.texts, boundary, parts) + epilogue
      ensures !ec && nwritten == |body| && Store(values, files) == StoreForm(env, Store([], []), parts)
    {
      RoundTrip(env, boundary, parts, epilogue);
    }
    forall parts, epilogue |
      BrowserOk(boundary, parts) && (parts == [] ==> epilogue == "") &&
      body == BrowserForm(boundary, parts) + epilogue
      ensures !ec && nwritten == |body| && Kept(env, parts, values, files)
    {
      BrowserFormIs(boundary, parts);
      BrowserOkIs(boundary, parts);
      StoreFormKeeps(env, parts);
    }
  }

  lemma FeedPrefixFailed(env: Env, d: M.Delims, r: Reading, s: string, n: nat)
    requires n <= |s| && Feed(env, d, r, s[..n]).Failed?
    ensures Feed(env, d, r, s).Failed?
  {
    assert s == s[..n] + s[n..];
    FeedFailed(env, d, r, s[..n], s[n..]);
  }
}
