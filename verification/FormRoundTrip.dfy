// Printing the parts of a form and reading them back.

module FormRoundTrip {
  import opened Folding
  import opened MultipartLayout
  import opened FormSpec
  import H = HeaderParser

  datatype FormPart =
    | FieldPart(name: string, body: string)
    | FilePart(name: string, filename: string, contentType: string, body: string)

  function Quoted(s: string): string {
    s + [H.QUOTE]
  }

  /** The part as a browser writes it. */
  function PrintPart(t: H.Texts, p: FormPart): string {
    t.contentDisposition + Quoted(p.name) +
    match p
    case FieldPart(_, body) => t.preBody + body
    case FilePart(_, filename, contentType, body) =>
      ";" + t.filename + Quoted(filename) + t.contentType + contentType + t.preBody + body
  }

  predicate PartOk(p: FormPart) {
    && H.QUOTE !in p.name
    && (p.FilePart? ==> H.QUOTE !in p.filename && '\r' !in p.contentType)
  }

  // ----- Reading the characters of one part -----

  /** The effect of the text s on the form, inside a part. */
  ghost function Reads(env: Env, f: Form, s: string): Effect {
    Absorb(env, Effect(f, false), Bytes(s))
  }

  lemma ReadsConcat(env: Env, f: Form, a: string, b: string)
    ensures !Reads(env, f, a).ec ==> Reads(env, f, a + b) == Reads(env, Reads(env, f, a).form, b)
    ensures Reads(env, f, a).ec ==> Reads(env, f, a + b).ec
  {
    BytesConcat(a, b);
    FoldConcat(Absorber(env), Effect(f, false), Bytes(a), Bytes(b));
    if Reads(env, f, a).ec {
      FoldToKeeps(Absorber(env), (e: Effect) => e.ec, Reads(env, f, a), Bytes(b), |b|);
    } else {
      assert Reads(env, f, a) == Effect(Reads(env, f, a).form, false);
    }
  }

  lemma ReadsOne(env: Env, f: Form, c: char)
    ensures Reads(env, f, [c]) == OnToken(env, f, Byte(c))
  {
    assert Bytes([c]) == [Byte(c)];
    FoldOne(Absorber(env), Effect(f, false), Byte(c));
  }

  lemma ReadsNone(env: Env, f: Form)
    ensures Reads(env, f, "") == Effect(f, false)
  {
  }

  /** Where the fixed text of a state leads. */
  function AfterLiteral(state: H.State): (H.State, H.Event)
    requires H.InLiteral(state)
  {
    match state
    case ContentDisposition => (H.Name, H.BeginName)
    case Filename => (H.FilenameBody, H.BeginFilename)
    case ContentType => (H.ContentTypeBody, H.NoEvent)
    case PreBody => (H.Body, H.BeginBody)
  }

  predicate AtLiteral(env: Env, f: Form, state: H.State, at: nat) {
    && f.message && !f.writable && H.InLiteral(state) && at < |H.Literal(env.texts, state)|
    && (f.header == H.Header(state, at) ||
        (f.header.state == H.Start && state == H.ContentDisposition && at == 0))
  }

  lemma LiteralChar(env: Env, f: Form, state: H.State, at: nat, c: char)
    requires AtLiteral(env, f, state, at)
    ensures var lit := H.Literal(env.texts, state);
      var (next, event) := AfterLiteral(state);
      && (c != lit[at] ==> Reads(env, f, [c]).ec)
      && (c == lit[at] && at + 1 < |lit| ==>
            Reads(env, f, [c]) == Effect(f.(header := H.Header(state, at + 1)), false))
      && (c == lit[at] && at + 1 == |lit| ==>
            Reads(env, f, [c]) ==
              Effect(OnHeaderEvent(env, f.(header := H.Header(next, |lit|)), event), false))
  {
    ReadsOne(env, f, c);
  }

  /** A fixed text is passed in one piece ... */
  lemma {:induction false} LiteralReads(env: Env, f: Form, state: H.State, at: nat)
    requires AtLiteral(env, f, state, at)
    ensures var lit := H.Literal(env.texts, state);
      var (next, event) := AfterLiteral(state);
      Reads(env, f, lit[at..]) == Effect(OnHeaderEvent(env, f.(header := H.Header(next, |lit|)), event), false)
    decreases |H.Literal(env.texts, state)| - at
  {
    hide OnToken, OnHeaderEvent, Absorb;
    var lit := H.Literal(env.texts, state);
    LiteralChar(env, f, state, at, lit[at]);
    assert lit[at..] == [lit[at]] + lit[at + 1..];
    ReadsConcat(env, f, [lit[at]], lit[at + 1..]);
    if at + 1 < |lit| {
      LiteralReads(env, f.(header := H.Header(state, at + 1)), state, at + 1);
    } else {
      assert lit[at + 1..] == "";
      ReadsNone(env, Reads(env, f, [lit[at]]).form);
    }
  }

  predicate Copying(state: H.State, s: string) {
    state == H.Body || ((state == H.Name || state == H.FilenameBody) && H.QUOTE !in s)
  }

  lemma CopyChar(env: Env, f: Form, c: char)
    requires f.message && f.writable && CanWrite(f) && Copying(f.header.state, [c])
    ensures OnToken(env, f, Byte(c)) == Effect(Write(f, [c]), false)
  {
    assert [c][0] == c;
  }

  /** Names, file names and bodies go where they belong. */
  lemma {:induction false} CopyReads(env: Env, f: Form, s: string)
    requires f.message && f.writable && CanWrite(f) && Copying(f.header.state, s)
    ensures Reads(env, f, s) == Effect(Write(f, s), false)
  {
    hide OnToken, Absorb;
    if s == "" {
      ReadsNone(env, f);
      WriteNothing(f);
    } else {
      var n := |s| - 1;
      var s', c := s[..n], s[n];
      assert s == s' + [c];
      CopyReads(env, f, s');
      ReadsConcat(env, f, s', [c]);
      WriteTwice(f, s', [c]);
      WriteFrame(f, s');
      ReadsOne(env, Write(f, s'), c);
      CopyChar(env, Write(f, s'), c);
    }
  }

  lemma WriteFrame(f: Form, s: string)
    requires CanWrite(f)
    ensures var g := Write(f, s);
      && g.header == f.header && g.message == f.message && g.writable == f.writable && g.target == f.target
      && CanWrite(g)
  {
  }

  lemma {:induction false} TypeReads(env: Env, f: Form, s: string)
    requires f.message && !f.writable && f.header.state == H.ContentTypeBody && '\r' !in s
    ensures Reads(env, f, s) == Effect(f, false)
  {
    hide Absorb;
    if s == "" {
      ReadsNone(env, f);
    } else {
      assert s == [s[0]] + s[1..];
      ReadsOne(env, f, s[0]);
      ReadsConcat(env, f, [s[0]], s[1..]);
      TypeReads(env, f, s[1..]);
    }
  }

  // ----- The stages of a part -----

  /** Between parts, or before the first one, once the part has begun. */
  predicate AtStart(f: Form) {
    && f.header.state == H.Start && f.message && !f.writable && f.target == Target.Name && f.nameBuffer == ""
  }

  function NameDone(env: Env, f: Form, name: string): Form {
    f.(header := H.Header(H.MaybeFilename, |env.texts.contentDisposition|), target := Content, nameBuffer := name)
  }

  lemma NameReads(env: Env, f: Form, name: string)
    requires AtStart(f) && H.QUOTE !in name
    ensures Reads(env, f, env.texts.contentDisposition + Quoted(name)) == Effect(NameDone(env, f, name), false)
  {
    hide Absorb;
    var lit := env.texts.contentDisposition;
    var g := f.(header := H.Header(H.Name, |lit|), writable := true);
    assert lit[0..] == lit;
    LiteralReads(env, f, H.ContentDisposition, 0);
    ReadsConcat(env, f, lit, Quoted(name));
    CopyReads(env, g, name);
    assert "" + name == name;
    ReadsConcat(env, g, name, [H.QUOTE]);
    ReadsOne(env, g.(nameBuffer := name), H.QUOTE);
  }

  predicate AfterName(f: Form) {
    f.header.state == H.MaybeFilename && f.message && !f.writable && f.target == Content
  }

  function FilenameDone(env: Env, f: Form, filename: string): Form {
    var opens := Opens(env, |f.files|, filename);
    f.(header := H.Header(H.ContentType, 0),
       values := f.values + [Value(f.nameBuffer, true, opens, filename)],
       currentContent := At(|f.values|),
       nameBuffer := "",
       files := f.files + [StoredFile(filename, opens, "")],
       currentFile := At(|f.files|),
       target := File)
  }

  lemma FilenameReads(env: Env, f: Form, filename: string)
    requires AfterName(f) && H.QUOTE !in filename
    ensures Reads(env, f, ";" + env.texts.filename + Quoted(filename)) == Effect(FilenameDone(env, f, filename), false)
  {
    hide Absorb;
    var lit := env.texts.filename;
    var g := f.(header := H.Header(H.Filename, 0));
    var g' := OnHeaderEvent(env, f.(header := H.Header(H.FilenameBody, |lit|)), H.BeginFilename);
    assert ";" + lit + Quoted(filename) == ";" + (lit + Quoted(filename));
    ReadsConcat(env, f, ";", lit + Quoted(filename));
    ReadsOne(env, f, ';');
    assert lit[0..] == lit;
    LiteralReads(env, g, H.Filename, 0);
    ReadsConcat(env, g, lit, Quoted(filename));
    CopyReads(env, g', filename);
    assert "" + filename == filename;
    ReadsConcat(env, g', filename, [H.QUOTE]);
    FilenameQuote(env, f, filename);
  }

  lemma FilenameQuote(env: Env, f: Form, filename: string)
    requires AfterName(f)
    ensures var g := OnHeaderEvent(env, f.(header := H.Header(H.FilenameBody, |env.texts.filename|)), H.BeginFilename);
      && CanWrite(g)
      && Reads(env, Write(g, filename), [H.QUOTE]) == Effect(FilenameDone(env, f, filename), false)
  {
    var g := OnHeaderEvent(env, f.(header := H.Header(H.FilenameBody, |env.texts.filename|)), H.BeginFilename);
    assert "" + filename == filename;
    ReadsOne(env, Write(g, filename), H.QUOTE);
  }

  predicate BeforeBody(f: Form) {
    (f.header.state == H.MaybeFilename || f.header.state == H.ContentTypeBody) && f.message && !f.writable
  }

  function BodyOpen(env: Env, f: Form): Form {
    OnHeaderEvent(env, f.(header := H.Header(H.Body, |env.texts.preBody|)), H.BeginBody)
  }

  lemma PreBodyReads(env: Env, f: Form)
    requires BeforeBody(f)
    ensures Reads(env, f, env.texts.preBody) == Effect(BodyOpen(env, f), false)
  {
    hide Absorb, OnHeaderEvent;
    var lit := env.texts.preBody;
    assert lit == [lit[0]] + lit[1..];
    ReadsConcat(env, f, [lit[0]], lit[1..]);
    ReadsOne(env, f, '\r');
    LiteralReads(env, f.(header := H.Header(H.PreBody, 1)), H.PreBody, 1);
  }

  /** The form at the end of the text of a part. */
  function PartDone(env: Env, f: Form, p: FormPart): Form {
    match p
    case FieldPart(name, body) =>
      f.(header := H.Header(H.Body, |env.texts.preBody|),
         writable := true,
         target := Content,
         values := f.values + [Value(name, false, true, body)],
         currentContent := At(|f.values|))
    case FilePart(name, filename, _, body) =>
      var opens := Opens(env, |f.files|, filename);
      f.(header := H.Header(H.Body, |env.texts.preBody|),
         writable := true,
         target := File,
         values := f.values + [Value(name, true, opens, filename)],
         currentContent := At(|f.values|),
         files := f.files + [StoredFile(filename, opens, if opens then body else "")],
         currentFile := At(|f.files|))
  }

  /** Reading a printed part gives its name, file name and body. */
  lemma PartReads(env: Env, f: Form, p: FormPart)
    requires AtStart(f) && PartOk(p)
    ensures Reads(env, f, PrintPart(env.texts, p)) == Effect(PartDone(env, f, p), false)
  {
    hide Absorb;
    var t := env.texts;
    var head := t.contentDisposition + Quoted(p.name);
    var g := NameDone(env, f, p.name);
    NameReads(env, f, p.name);
    match p
    case FieldPart(_, body) =>
      ReadsConcat(env, f, head, t.preBody + body);
      PreBodyReads(env, g);
      ReadsConcat(env, g, t.preBody, body);
      CopyReads(env, BodyOpen(env, g), body);
      FieldDone(env, f, p);
    case FilePart(_, filename, contentType, body) =>
      var rest := ";" + t.filename + Quoted(filename) + t.contentType + contentType + t.preBody + body;
      ReadsConcat(env, f, head, rest);
      FileReads(env, g, filename, contentType, body);
      FileDone(env, f, p);
  }

  lemma FieldDone(env: Env, f: Form, p: FormPart)
    requires AtStart(f) && p.FieldPart?
    ensures var g := BodyOpen(env, NameDone(env, f, p.name));
      CanWrite(g) && Write(g, p.body) == PartDone(env, f, p)
  {
    var v := Value(p.name, false, true, "");
    assert "" + p.body == p.body;
    assert (f.values + [v])[|f.values| := v.(content := p.body)] == f.values + [v.(content := p.body)];
  }

  lemma FileDone(env: Env, f: Form, p: FormPart)
    requires AtStart(f) && p.FilePart?
    ensures var g := BodyOpen(env, FilenameDone(env, NameDone(env, f, p.name), p.filename));
      CanWrite(g) && Write(g, p.body) == PartDone(env, f, p)
  {
    var opens := Opens(env, |f.files|, p.filename);
    var file := StoredFile(p.filename, opens, "");
    assert "" + p.body == p.body;
    assert (f.files + [file])[|f.files| := file.(bytes := p.body)] == f.files + [file.(bytes := p.body)];
  }

  lemma FileReads(env: Env, f: Form, filename: string, contentType: string, body: string)
    requires AfterName(f) && H.QUOTE !in filename && '\r' !in contentType
    ensures var t := env.texts;
      var g := BodyOpen(env, FilenameDone(env, f, filename));
      && CanWrite(g)
      && Reads(env, f, ";" + t.filename + Quoted(filename) + t.contentType + contentType + t.preBody + body) ==
           Effect(Write(g, body), false)
  {
    hide Absorb;
    var t := env.texts;
    var a := ";" + t.filename + Quoted(filename);
    var g := FilenameDone(env, f, filename);
    var g' := g.(header := H.Header(H.ContentTypeBody, |t.contentType|));
    assert a + t.contentType + contentType + t.preBody + body ==
      a + (t.contentType + (contentType + (t.preBody + body)));
    FilenameReads(env, f, filename);
    ReadsConcat(env, f, a, t.contentType + (contentType + (t.preBody + body)));
    assert t.contentType[0..] == t.contentType;
    LiteralReads(env, g, H.ContentType, 0);
    ReadsConcat(env, g, t.contentType, contentType + (t.preBody + body));
    TypeReads(env, g', contentType);
    ReadsConcat(env, g', contentType, t.preBody + body);
    PreBodyReads(env, g');
    ReadsConcat(env, g', t.preBody, body);
    CopyReads(env, BodyOpen(env, g'), body);
  }

  // ----- Only printed parts are read -----

  /** The text s is read without an error, and ends in the body of a part. */
  ghost predicate Accepts(env: Env, f: Form, s: string) {
    !Reads(env, f, s).ec && Reads(env, f, s).form.header.state == H.Body
  }

  lemma AcceptsRest(env: Env, f: Form, a: string, b: string)
    requires Accepts(env, f, a + b)
    ensures !Reads(env, f, a).ec && Accepts(env, Reads(env, f, a).form, b)
    ensures Reads(env, f, a + b) == Reads(env, Reads(env, f, a).form, b)
  {
    ReadsConcat(env, f, a, b);
  }

  /** A fixed text cannot be avoided. */
  lemma {:induction false} LiteralNeeded(env: Env, f: Form, state: H.State, at: nat, s: string) returns (rest: string)
    requires AtLiteral(env, f, state, at) && Accepts(env, f, s)
    ensures s == H.Literal(env.texts, state)[at..] + rest
    decreases |s|
  {
    hide Absorb;
    var lit := H.Literal(env.texts, state);
    if s == "" {
      ReadsNone(env, f);
      assert false;
    }
    assert s == [s[0]] + s[1..];
    AcceptsRest(env, f, [s[0]], s[1..]);
    LiteralChar(env, f, state, at, s[0]);
    if at + 1 < |lit| {
      rest := LiteralNeeded(env, f.(header := H.Header(state, at + 1)), state, at + 1, s[1..]);
      assert lit[at..] == [lit[at]] + lit[at + 1..];
    } else {
      rest := s[1..];
      assert lit[at..] == [lit[at]];
    }
  }

  /** The text before the first c, and the text after it. */
  lemma {:induction false} SplitAtChar(s: string, c: char) returns (a: string, b: string)
    requires c in s
    ensures s == a + [c] + b && c !in a
  {
    if s[0] == c {
      a, b := "", s[1..];
      assert s == a + [c] + b;
    } else {
      a, b := SplitAtChar(s[1..], c);
      a := [s[0]] + a;
      assert s == [s[0]] + s[1..];
    }
  }

  /** A name or file name ends with a quote. */
  lemma QuoteNeeded(env: Env, f: Form, s: string) returns (a: string, b: string)
    requires f.message && f.writable && CanWrite(f) && (f.header.state == H.Name || f.header.state == H.FilenameBody)
    requires Accepts(env, f, s)
    ensures s == Quoted(a) + b && H.QUOTE !in a
  {
    if H.QUOTE !in s {
      CopyReads(env, f, s);
      WriteFrame(f, s);
      assert false;
    }
    a, b := SplitAtChar(s, H.QUOTE);
  }

  lemma FindBody(env: Env, f: Form, s: string) returns (body: string)
    requires BeforeBody(f) && Accepts(env, f, s) && (f.header.state == H.MaybeFilename ==> s != "" && s[0] != ';')
    requires f.header.state == H.ContentTypeBody ==> s != "" && s[0] == '\r'
    ensures s == env.texts.preBody + body
  {
    hide Absorb, OnHeaderEvent;
    if s == "" {
      assert false;
    }
    assert s == [s[0]] + s[1..];
    AcceptsRest(env, f, [s[0]], s[1..]);
    ReadsOne(env, f, s[0]);
    body := LiteralNeeded(env, f.(header := H.Header(H.PreBody, 1)), H.PreBody, 1, s[1..]);
    var lit := env.texts.preBody;
    assert lit == [lit[0]] + lit[1..];
  }

  lemma FindFilename(env: Env, f: Form, s: string) returns (filename: string, rest: string)
    requires AfterName(f) && Accepts(env, f, ";" + s)
    ensures s == env.texts.filename + Quoted(filename) + rest && H.QUOTE !in filename
  {
    hide Absorb;
    var t := env.texts;
    var g := f.(header := H.Header(H.Filename, 0));
    AcceptsRest(env, f, ";", s);
    ReadsOne(env, f, ';');
    hide Accepts;
    rest := LiteralNeeded(env, g, H.Filename, 0, s);
    assert t.filename[0..] == t.filename;
    LiteralReads(env, g, H.Filename, 0);
    AcceptsRest(env, g, t.filename, rest);
    var g' := OnHeaderEvent(env, f.(header := H.Header(H.FilenameBody, |t.filename|)), H.BeginFilename);
    filename, rest := QuoteNeeded(env, g', rest);
  }

  lemma FindFile(env: Env, f: Form, s: string) returns (filename: string, contentType: string, body: string)
    requires AfterName(f) && Accepts(env, f, ";" + s)
    ensures var t := env.texts;
      s == t.filename + Quoted(filename) + t.contentType + contentType + t.preBody + body
    ensures H.QUOTE !in filename && '\r' !in contentType
  {
    hide Absorb, Accepts;
    var t := env.texts;
    var rest;
    filename, rest := FindFilename(env, f, s);
    var a := ";" + t.filename + Quoted(filename);
    FilenameReads(env, f, filename);
    assert ";" + s == a + rest;
    AcceptsRest(env, f, a, rest);
    var g := FilenameDone(env, f, filename);
    var rest' := LiteralNeeded(env, g, H.ContentType, 0, rest);
    assert t.contentType[0..] == t.contentType;
    LiteralReads(env, g, H.ContentType, 0);
    AcceptsRest(env, g, t.contentType, rest');
    contentType, body := FindType(env, g.(header := H.Header(H.ContentTypeBody, |t.contentType|)), rest');
  }

  lemma FindType(env: Env, f: Form, s: string) returns (contentType: string, body: string)
    requires f.header.state == H.ContentTypeBody && f.message && !f.writable && Accepts(env, f, s)
    ensures s == contentType + env.texts.preBody + body && '\r' !in contentType
  {
    hide Absorb;
    if '\r' !in s {
      TypeReads(env, f, s);
      assert false;
    }
    var rest;
    contentType, rest := SplitAtChar(s, '\r');
    assert s == contentType + ("\r" + rest);
    AcceptsRest(env, f, contentType, "\r" + rest);
    TypeReads(env, f, contentType);
    body := FindBody(env, f, "\r" + rest);
  }

  lemma FindPart(env: Env, f: Form, s: string) returns (p: FormPart)
    requires AtStart(f) && Accepts(env, f, s)
    ensures PartOk(p) && s == PrintPart(env.texts, p)
  {
    hide Absorb;
    var t := env.texts;
    var rest := LiteralNeeded(env, f, H.ContentDisposition, 0, s);
    assert t.contentDisposition[0..] == t.contentDisposition;
    LiteralReads(env, f, H.ContentDisposition, 0);
    AcceptsRest(env, f, t.contentDisposition, rest);
    var g := f.(header := H.Header(H.Name, |t.contentDisposition|), writable := true);
    var name, rest2 := QuoteNeeded(env, g, rest);
    var head := t.contentDisposition + Quoted(name);
    NameReads(env, f, name);
    assert s == head + rest2;
    AcceptsRest(env, f, head, rest2);
    var h := NameDone(env, f, name);
    if rest2 == "" {
      ReadsNone(env, h);
      assert false;
    }
    if rest2[0] == ';' {
      assert rest2 == ";" + rest2[1..];
      var filename, contentType, body := FindFile(env, h, rest2[1..]);
      p := FilePart(name, filename, contentType, body);
      assert rest2 == ";" + t.filename + Quoted(filename) + t.contentType + contentType + t.preBody + body;
    } else {
      var body := FindBody(env, h, rest2);
      p := FieldPart(name, body);
    }
  }

  /** A part is read through to its body exactly when it is the print of some part, and
      what has been stored by then is that part. */
  lemma PartIff(env: Env, f: Form, s: string)
    requires AtStart(f)
    ensures Accepts(env, f, s) <==> exists p :: PartOk(p) && s == PrintPart(env.texts, p)
    ensures forall p :: PartOk(p) && s == PrintPart(env.texts, p) ==>
      Reads(env, f, s) == Effect(PartDone(env, f, p), false)
  {
    hide Absorb, Accepts;
    if Accepts(env, f, s) {
      var p := FindPart(env, f, s);
    }
    forall p | PartOk(p) && s == PrintPart(env.texts, p)
      ensures Reads(env, f, s) == Effect(PartDone(env, f, p), false) && Accepts(env, f, s)
    {
      PartReads(env, f, p);
      AcceptsDone(env, f, s, p);
    }
  }

  lemma AcceptsDone(env: Env, f: Form, s: string, p: FormPart)
    requires Reads(env, f, s) == Effect(PartDone(env, f, p), false)
    ensures Accepts(env, f, s)
  {
  }
}
