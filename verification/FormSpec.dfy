// What the form reader of basic_multipart_form_body.h does with each decided byte.
// The reader itself cuts slices out of its buffers; here every byte goes to its
// destination at once.

module FormSpec {
  import opened Folding
  import opened MultipartLayout
  import H = HeaderParser

  datatype Mode = Add | Replace | AddOrReplace | Ignore

  /** Surroundings of a reader: its mode, whether a file of that name already exists when
      the n-th file name of the form is complete, and the texts of part headers. */
  datatype Env = Env(mode: Mode, fileExists: (nat, string) -> bool, texts: H.Texts)

  datatype Target = Name | Filename | Content | File

  datatype Value = Value(name: string, isFile: bool, written: bool, content: string)

  datatype StoredFile = StoredFile(filename: string, isOpen: bool, bytes: string)

  /** An iterator into one of the containers. */
  datatype Cursor = Unset | At(index: nat)

  datatype Form = Form(
    header: H.Header,
    message: bool,
    writable: bool,
    target: Target,
    nameBuffer: string,
    values: seq<Value>,
    files: seq<StoredFile>,
    currentContent: Cursor,
    currentFile: Cursor)

  const EMPTY_FORM := Form(H.Header(H.Start, 0), false, false, Name, "", [], [], Unset, Unset)

  predicate ContentSet(f: Form) {
    f.currentContent.At? && f.currentContent.index < |f.values|
  }

  predicate FileSet(f: Form) {
    f.currentFile.At? && f.currentFile.index < |f.files|
  }

  /** The destination of written bytes exists. */
  predicate CanWrite(f: Form) {
    match f.target
    case Name => true
    case Content | Filename => ContentSet(f)
    case File => FileSet(f)
  }

  /** Appends bytes to the current destination; a file that is not open drops them. */
  function Write(f: Form, s: string): Form
    requires CanWrite(f)
  {
    match f.target
    case Name => f.(nameBuffer := f.nameBuffer + s)
    case Content | Filename =>
      var v := f.values[f.currentContent.index];
      f.(values := f.values[f.currentContent.index := v.(content := v.content + s)])
    case File =>
      var file := f.files[f.currentFile.index];
      if file.isOpen
      then f.(files := f.files[f.currentFile.index := file.(bytes := file.bytes + s)])
      else f
  }

  /** Bytes that pass while the reader is writing. */
  function Pass(f: Form, s: string): Form {
    if f.writable && CanWrite(f) then Write(f, s) else f
  }

  /** A file is opened for writing when the mode allows it. */
  predicate Opens(env: Env, index: nat, filename: string) {
    match env.mode
    case Ignore => false
    case Replace => env.fileExists(index, filename)
    case Add => !env.fileExists(index, filename)
    case AddOrReplace => true
  }

  function OnHeaderEvent(env: Env, f: Form, event: H.Event): Form {
    match event
    case NoEvent => f
    case BeginName => f.(writable := true)
    case EndName => f.(writable := false, target := Content)
    case BeginFilename =>
      f.(values := f.values + [Value(f.nameBuffer, true, true, "")],
         currentContent := At(|f.values|),
         nameBuffer := "",
         target := Filename,
         writable := true)
    case EndFilename =>
      if !ContentSet(f) then f else
      var i := f.currentContent.index;
      var filename := f.values[i].content;
      var opens := Opens(env, |f.files|, filename);
      f.(files := f.files + [StoredFile(filename, opens, "")],
         currentFile := At(|f.files|),
         values := f.values[i := f.values[i].(written := f.values[i].written && opens)],
         target := File,
         writable := false)
    case BeginBody =>
      if f.target == Content then
        f.(values := f.values + [Value(f.nameBuffer, false, true, "")],
           currentContent := At(|f.values|),
           nameBuffer := "",
           writable := true)
      else f.(writable := true)
    case EndBody =>
      if f.target == File && FileSet(f) then
        f.(files := f.files[f.currentFile.index := f.files[f.currentFile.index].(isOpen := false)],
           target := Name,
           writable := false)
      else f.(target := Name, writable := false)
  }

  datatype Effect = Effect(form: Form, ec: bool)

  /** One token; ec is the error code that stops the upload. */
  function OnToken(env: Env, f: Form, token: Token): Effect {
    match token
    case Begin => Effect(f.(message := true), false)
    case End =>
      var step := H.OnEnd(f.header);
      // The error of a part that ends inside its header is not reported.
      Effect(OnHeaderEvent(env, f.(header := step.next), step.event).(message := false), false)
    case Byte(c) =>
      if !f.message || !H.HeaderValid(env.texts, f.header) then Effect(Pass(f, [c]), false)
      else
        var step := H.OnChar(env.texts, f.header, c);
        var g := f.(header := step.next);
        Effect(if step.event == H.NoEvent then Pass(g, [c]) else OnHeaderEvent(env, g, step.event), step.ec)
  }

  function NextEffect(env: Env, before: Effect, token: Token): Effect {
    var after := OnToken(env, before.form, token);
    after.(ec := before.ec || after.ec)
  }

  ghost function Absorber(env: Env): (Effect, Token) -> Effect {
    (before, token) => NextEffect(env, before, token)
  }

  ghost function Absorb(env: Env, before: Effect, tokens: seq<Token>): Effect {
    Fold(Absorber(env), before, tokens)
  }

  // ----- The coupling of the reader with the header parser -----

  predicate Writing(state: H.State) {
    state == H.Name || state == H.FilenameBody || state == H.Body
  }

  predicate TargetFits(state: H.State, target: Target) {
    match state
    case Start | ContentDisposition | Name => target == Target.Name
    case MaybeFilename | Filename => target == Content
    case FilenameBody => target == Target.Filename
    case ContentType | ContentTypeBody => target == File
    case PreBody | Body => target == Content || target == File
  }

  predicate Coupled(env: Env, f: Form) {
    && H.HeaderValid(env.texts, f.header)
    && (f.writable <==> Writing(f.header.state))
    && TargetFits(f.header.state, f.target)
    && (f.target == Filename ==> ContentSet(f))
    && (f.target == Content && f.header.state == H.Body ==> ContentSet(f))
    && (f.target == File ==> FileSet(f))
  }

  /** The state changes of the header parser, by the event they report. */
  predicate Moves(state: H.State, next: H.State, event: H.Event) {
    match event
    case NoEvent =>
      || next == state
      || (state == H.Start && next == H.ContentDisposition)
      || (state == H.MaybeFilename && (next == H.Filename || next == H.PreBody))
      || (state == H.ContentType && next == H.ContentTypeBody)
      || (state == H.ContentTypeBody && next == H.PreBody)
    case BeginName => (state == H.Start || state == H.ContentDisposition) && next == H.Name
    case EndName => state == H.Name && next == H.MaybeFilename
    case BeginFilename => state == H.Filename && next == H.FilenameBody
    case EndFilename => state == H.FilenameBody && next == H.ContentType
    case BeginBody => state == H.PreBody && next == H.Body
    case EndBody => state == H.Body && next == H.Start
  }

  lemma CharMoves(t: H.Texts, h: H.Header, c: char)
    requires H.HeaderValid(t, h)
    ensures var step := H.OnChar(t, h, c); Moves(h.state, step.next.state, step.event)
  {
  }

  lemma EventKeepsCoupling(env: Env, f: Form, next: H.Header, event: H.Event)
    requires Coupled(env, f) && H.HeaderValid(env.texts, next) && Moves(f.header.state, next.state, event)
    ensures Coupled(env, OnHeaderEvent(env, f.(header := next), event))
  {
  }

  lemma PassKeepsCoupling(env: Env, f: Form, s: string)
    requires Coupled(env, f)
    ensures Coupled(env, Pass(f, s)) && (f.writable ==> CanWrite(f))
  {
  }

  /** The two machines stay coupled on every token, whatever the upload contains. */
  lemma TokenKeepsCoupling(env: Env, f: Form, token: Token)
    requires Coupled(env, f)
    ensures Coupled(env, OnToken(env, f, token).form)
  {
    match token
    case Begin =>
    case End =>
      var step := H.OnEnd(f.header);
      EventKeepsCoupling(env, f, step.next, step.event);
    case Byte(c) =>
      PassKeepsCoupling(env, f, [c]);
      CharMoves(env.texts, f.header, c);
      var step := H.OnChar(env.texts, f.header, c);
      EventKeepsCoupling(env, f, step.next, step.event);
      if step.event == H.NoEvent {
        PassKeepsCoupling(env, f.(header := step.next), [c]);
      }
  }

  lemma CouplingAlwaysHolds(env: Env, tokens: seq<Token>)
    ensures Coupled(env, Absorb(env, Effect(EMPTY_FORM, false), tokens).form)
  {
    var keeps := (e: Effect) => Coupled(env, e.form);
    forall e, token | keeps(e)
      ensures keeps(Absorber(env)(e, token))
    {
      TokenKeepsCoupling(env, e.form, token);
    }
    FoldToKeeps(Absorber(env), keeps, Effect(EMPTY_FORM, false), tokens, |tokens|);
  }

  lemma WriteTwice(f: Form, a: string, b: string)
    requires CanWrite(f)
    ensures CanWrite(Write(f, a)) && Write(Write(f, a), b) == Write(f, a + b)
  {
    match f.target
    case Name =>
      assert (f.nameBuffer + a) + b == f.nameBuffer + (a + b);
    case Content | Filename =>
      var v := f.values[f.currentContent.index];
      assert (v.content + a) + b == v.content + (a + b);
    case File =>
      var file := f.files[f.currentFile.index];
      assert (file.bytes + a) + b == file.bytes + (a + b);
  }

  lemma WriteNothing(f: Form)
    requires CanWrite(f)
    ensures Write(f, "") == f
  {
    match f.target
    case Name =>
      assert f.nameBuffer + "" == f.nameBuffer;
    case Content | Filename =>
      var v := f.values[f.currentContent.index];
      assert v.content + "" == v.content;
    case File =>
      var file := f.files[f.currentFile.index];
      assert file.bytes + "" == file.bytes;
  }
}
