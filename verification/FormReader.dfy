// The reader of basic_multipart_form_body.h: it feeds the boundary parser byte by byte,
// cuts names, file names and bodies out of its buffers by position, and carries the
// undecided bytes over to the next call.

module FormReader {
  import opened Folding
  import opened MultipartLayout
  import opened FormSpec
  import H = HeaderParser
  import M = MultipartParser

  // ----- What a stretch of input does to the reader, byte by byte -----

  datatype Reading = Failed | Fine(scanner: Scanner, form: Form)

  ghost function FeedChar(env: Env, d: M.Delims, r: Reading, c: char): Reading {
    if r.Failed? || !ScannerValid(d, r.scanner) then Failed
    else
      var out := ByteStep(d, r.scanner, c);
      if out.Rejected? then Failed
      else
        var effect := Absorb(env, Effect(r.form, false), out.tokens);
        if effect.ec then Failed else Fine(out.state, effect.form)
  }

  ghost function Feeder(env: Env, d: M.Delims): (Reading, char) -> Reading {
    (r, c) => FeedChar(env, d, r, c)
  }

  ghost function Feed(env: Env, d: M.Delims, r: Reading, s: string): Reading {
    Fold(Feeder(env, d), r, s)
  }

  /** The reading that corresponds to a run of the boundary parser alone. */
  ghost function Absorbed(env: Env, form: Form, out: Outcome): Reading {
    if out.Rejected? then Failed
    else
      var effect := Absorb(env, Effect(form, false), out.tokens);
      if effect.ec then Failed else Fine(out.state, effect.form)
  }

  lemma ErrorsStay(env: Env, before: Effect, tokens: seq<Token>)
    requires before.ec
    ensures Absorb(env, before, tokens).ec
  {
    FoldToKeeps(Absorber(env), (e: Effect) => e.ec, before, tokens, |tokens|);
  }

  lemma AbsorbedThen(env: Env, d: M.Delims, form: Form, out: Outcome, c: char)
    ensures FeedChar(env, d, Absorbed(env, form, out), c) == Absorbed(env, form, Then(d, out, c))
  {
    if out.Accepted? && ScannerValid(d, out.state) {
      var next := ByteStep(d, out.state, c);
      var first := Absorb(env, Effect(form, false), out.tokens);
      if next.Accepted? {
        FoldConcat(Absorber(env), Effect(form, false), out.tokens, next.tokens);
        if first.ec {
          ErrorsStay(env, first, next.tokens);
        } else {
          assert first == Effect(first.form, false);
        }
      }
    }
  }

  /** Working byte by byte comes to the same as splitting the whole text into tokens
      first and absorbing them afterwards. */
  lemma FeedIsRun(env: Env, d: M.Delims, scanner: Scanner, form: Form, s: string)
    ensures Feed(env, d, Fine(scanner, form), s) == Absorbed(env, form, Run(d, Accepted(scanner, []), s))
  {
    var h := (out: Outcome) => Absorbed(env, form, out);
    forall out, c
      ensures Feeder(env, d)(h(out), c) == h(Stepper(d)(out, c))
    {
      AbsorbedThen(env, d, form, out, c);
    }
    FoldToMap(Stepper(d), Feeder(env, d), h, Accepted(scanner, []), s, |s|);
    AbsorbedNothing(env, form, scanner);
  }

  lemma AbsorbedNothing(env: Env, form: Form, scanner: Scanner)
    ensures Absorbed(env, form, Accepted(scanner, [])) == Fine(scanner, form)
  {
    assert Absorb(env, Effect(form, false), []) == Effect(form, false);
  }

  // ----- Carrying undecided bytes over to the next call -----

  /** The bytes kept for the next call, when `rest` of the old pending bytes and the
      new ones are still undecided. */
  function Carry(pending: string, chunk: string, rest: nat): (kept: string)
    requires rest <= |pending| + |chunk|
    ensures |kept| == rest
  {
    var data := pending + chunk;
    var advanced := |data| - rest;
    if |pending| <= advanced then data[advanced..]
    else pending[advanced..] + data[advanced..advanced + |chunk|]
  }

  /** Exactly when the kept bytes are the undecided ones. */
  lemma CarryIsExact(pending: string, chunk: string, rest: nat)
    requires rest <= |pending| + |chunk|
    ensures var undecided := (pending + chunk)[|pending| + |chunk| - rest..];
      Carry(pending, chunk, rest) == undecided <==>
        rest <= |chunk| || undecided[..|chunk|] == chunk
  {
    var data := pending + chunk;
    var advanced := |data| - rest;
    if rest > |chunk| {
      FromPending(pending, chunk, advanced);
      SameBehind(pending[advanced..], data[advanced..][..|chunk|], chunk);
    }
  }

  lemma FromPending(pending: string, chunk: string, n: nat)
    requires n <= |pending|
    ensures var data := pending + chunk;
      data[n..] == pending[n..] + chunk && data[n..n + |chunk|] == data[n..][..|chunk|]
  {
  }

  lemma SameBehind(a: string, b: string, c: string)
    ensures a + b == a + c <==> b == c
  {
    assert (a + b)[|a|..] == b && (a + c)[|a|..] == c;
  }

  // ----- Slices that are not written yet -----

  /** The form as it will be once the slice from part to msg is written. */
  function Lag(f: Form, data: string, part: nat, msg: nat): Form {
    if part <= msg <= |data| then Pass(f, data[part..msg]) else f
  }

  predicate Lagging(env: Env, f: Form, data: string, part: nat, msg: nat) {
    Coupled(env, f) && msg <= |data| && (f.writable ==> part <= msg)
  }

  lemma LagFrame(env: Env, f: Form, data: string, part: nat, msg: nat, h: H.Header)
    requires Lagging(env, f, data, part, msg)
    ensures Lag(f, data, part, msg).header == f.header
    ensures Lag(f, data, part, msg).message == f.message
    ensures Lag(f, data, part, msg).writable == f.writable
    ensures Lag(f, data, part, msg).(header := h) == Lag(f.(header := h), data, part, msg)
  {
  }

  lemma LagGrows(f: Form, data: string, part: nat, msg: nat)
    requires msg < |data| && (f.writable ==> CanWrite(f) && part <= msg)
    ensures Pass(Lag(f, data, part, msg), [data[msg]]) == Lag(f, data, part, msg + 1)
  {
    if f.writable {
      WriteTwice(f, data[part..msg], [data[msg]]);
      assert data[part..msg] + [data[msg]] == data[part..msg + 1];
    }
  }

  lemma LagStarts(f: Form, data: string, msg: nat)
    requires msg <= |data| && (f.writable ==> CanWrite(f))
    ensures Lag(f, data, msg, msg) == f
  {
    assert data[msg..msg] == "";
    if f.writable {
      WriteNothing(f);
    }
  }

  lemma LagInit(env: Env, f: Form, data: string)
    requires Coupled(env, f)
    ensures Lagging(env, f, data, 0, 0) && Lag(f, data, 0, 0) == f
  {
    PassKeepsCoupling(env, f, "");
    LagStarts(f, data, 0);
  }

  predicate Begins(event: H.Event) {
    event == H.BeginName || event == H.BeginFilename || event == H.BeginBody
  }

  predicate Ends(event: H.Event) {
    event == H.EndName || event == H.EndFilename || event == H.EndBody
  }

  /** What an event finds when it arrives. */
  predicate EventReady(f: Form, event: H.Event) {
    && (Begins(event) ==> !f.writable)
    && (Ends(event) ==> f.writable && CanWrite(f))
    && (event == H.EndFilename ==> f.target == Filename)
  }

  lemma EventArrives(env: Env, f: Form, next: H.Header, event: H.Event)
    requires Coupled(env, f) && Moves(f.header.state, next.state, event)
    ensures EventReady(f.(header := next), event)
  {
  }

  /** An event changes nothing but the form, and a finished slice is written before it. */
  function AfterEvent(env: Env, f: Form, event: H.Event, slice: string): Form {
    OnHeaderEvent(env, if Ends(event) && CanWrite(f) then Write(f, slice) else f, event)
  }

  function NextPart(event: H.Event, part: nat, msg: nat): nat {
    if Begins(event) then msg + 1 else if Ends(event) then msg else part
  }

  /** One advanced byte, seen from the specification. */
  lemma LagByte(env: Env, f: Form, data: string, part: nat, msg: nat)
    requires Lagging(env, f, data, part, msg) && msg < |data|
    ensures var effect := OnToken(env, Lag(f, data, part, msg), Byte(data[msg]));
      if !f.message then effect == Effect(Lag(f, data, part, msg + 1), false)
      else
        var step := H.OnChar(env.texts, f.header, data[msg]);
        var slice := if part <= msg then data[part..msg] else "";
        var g := AfterEvent(env, f.(header := step.next), step.event, slice);
        && effect == Effect(Lag(g, data, NextPart(step.event, part, msg), msg + 1), step.ec)
        && Lagging(env, g, data, NextPart(step.event, part, msg), msg + 1)
  {
    PassKeepsCoupling(env, f, "");
    LagFrame(env, f, data, part, msg, f.header);
    if !f.message {
      LagGrows(f, data, part, msg);
    } else {
      var step := H.OnChar(env.texts, f.header, data[msg]);
      CharMoves(env.texts, f.header, data[msg]);
      EventArrives(env, f, step.next, step.event);
      LagFrame(env, f, data, part, msg, step.next);
      EventKeepsCoupling(env, f, step.next, step.event);
      LagEvent(env, f, data, part, msg, step.next, step.event);
    }
  }

  lemma LagEvent(env: Env, f: Form, data: string, part: nat, msg: nat, next: H.Header, event: H.Event)
    requires Lagging(env, f, data, part, msg) && msg < |data|
    requires H.HeaderValid(env.texts, next) && Moves(f.header.state, next.state, event) && event != H.EndBody
    ensures var slice := if part <= msg then data[part..msg] else "";
      var g := AfterEvent(env, f.(header := next), event, slice);
      var lagged := Lag(f.(header := next), data, part, msg);
      && (if event == H.NoEvent then Pass(lagged, [data[msg]]) else OnHeaderEvent(env, lagged, event))
           == Lag(g, data, NextPart(event, part, msg), msg + 1)
      && Lagging(env, g, data, NextPart(event, part, msg), msg + 1)
  {
    var f' := f.(header := next);
    EventArrives(env, f, next, event);
    if event == H.NoEvent {
      EventKeepsCoupling(env, f, next, event);
      LagGrows(f', data, part, msg);
    } else if Begins(event) {
      EventKeepsCoupling(env, f, next, event);
      LagStarts(OnHeaderEvent(env, f', event), data, msg + 1);
    } else {
      PassKeepsCoupling(env, f, data[part..msg]);
      EventKeepsCoupling(env, Pass(f, data[part..msg]), next, event);
      assert Pass(f, data[part..msg]).(header := next) == Write(f', data[part..msg]);
    }
  }

  /** The end of a part, seen from the specification. */
  lemma LagEnd(env: Env, f: Form, data: string, part: nat, msg: nat)
    requires Lagging(env, f, data, part, msg)
    ensures var step := H.OnEnd(f.header);
      var slice := if part <= msg then data[part..msg] else "";
      var g := AfterEvent(env, f.(header := step.next), step.event, slice).(message := false);
      && EventReady(f.(header := step.next), step.event)
      && OnToken(env, Lag(f, data, part, msg), End) == Effect(Lag(g, data, NextPart(step.event, part, msg), msg), false)
      && Lagging(env, g, data, NextPart(step.event, part, msg), msg)
  {
    var step := H.OnEnd(f.header);
    var slice := if part <= msg then data[part..msg] else "";
    PassKeepsCoupling(env, f, slice);
    LagFrame(env, f, data, part, msg, step.next);
    EventArrives(env, f, step.next, step.event);
    EventKeepsCoupling(env, Pass(f, slice), step.next, step.event);
    if step.event == H.EndBody {
      assert Pass(f, slice).(header := step.next) == Write(f.(header := step.next), slice);
    }
  }

  lemma FeedSnoc(env: Env, d: M.Delims, r: Reading, s: string, c: char)
    ensures Feed(env, d, r, s + [c]) == FeedChar(env, d, Feed(env, d, r, s), c)
  {
    FoldSnoc(Feeder(env, d), r, s, c);
  }

  lemma FeedFailed(env: Env, d: M.Delims, r: Reading, a: string, b: string)
    requires Feed(env, d, r, a).Failed?
    ensures Feed(env, d, r, a + b).Failed?
  {
    FoldConcat(Feeder(env, d), r, a, b);
    FoldToStays(Feeder(env, d), Failed, b, |b|);
  }

  function AfterParserEvent(env: Env, f: Form, event: M.Event): Form {
    match event
    case NoEvent => f
    case MessageBegin => OnToken(env, f, Begin).form
    case MessageEnd => OnToken(env, f, End).form
  }

  /** What put leaves behind, given the reading of the bytes alone: the same parser state
      and form, with the undecided bytes chosen by Carry. */
  ghost predicate PutResult(fed: Reading, pending: string, chunk: string, after: Reading) {
    && fed.Fine? && after.Fine?
    && after.form == fed.form
    && after.scanner.scan == fed.scanner.scan
    && IsTail(fed.scanner.pending, pending + chunk)
    && after.scanner.pending == Carry(pending, chunk, |fed.scanner.pending|)
  }

  predicate IsTail(t: string, s: string) {
    |t| <= |s| && t == s[|s| - |t|..]
  }

  class Reader {
    const env: Env
    const multipartParser: M.MultipartStreamParser
    const messageParser: H.MessageStreamParser

    var message: bool
    var isWritable: bool
    var target: Target
    var nameBuffer: string
    var currentContent: Cursor
    var currentFile: Cursor
    var pendingBuffer: string

    // The body that is being filled.
    var values: seq<Value>
    var files: seq<StoredFile>

    ghost function View(): Form
      reads this, messageParser
    {
      Form(messageParser.View(), message, isWritable, target, nameBuffer, values, files, currentContent, currentFile)
    }

    ghost function D(): M.Delims
      requires multipartParser.DelimsSet()
    {
      multipartParser.D()
    }

    ghost predicate Wired() {
      messageParser.texts == env.texts
    }

    ghost predicate Valid()
      reads this, multipartParser, multipartParser.kmp, messageParser
    {
      && multipartParser.Valid()
      && Wired()
      && Coupled(env, View())
      && ScannerValid(D(), Scanner(multipartParser.State(), pendingBuffer))
    }

    ghost function State(): Reading
      reads this, multipartParser, multipartParser.kmp, messageParser
    {
      Fine(Scanner(multipartParser.State(), pendingBuffer), View())
    }

    constructor (boundary: string, env: Env)
      requires env.texts == H.FORM_DATA
      ensures Valid() && fresh(multipartParser) && fresh(multipartParser.kmp) && fresh(messageParser)
      ensures this.env == env && D() == M.DelimsFor(boundary)
      ensures State() == Fine(Scanner(M.Scan(M.Start, 0), ""), EMPTY_FORM)
    {
      this.env := env;
      multipartParser := new M.MultipartStreamParser(boundary);
      messageParser := new H.MessageStreamParser();
      message, isWritable, target := false, false, Name;
      nameBuffer, pendingBuffer := "", "";
      currentContent, currentFile := Unset, Unset;
      values, files := [], [];
      new;
      assert View() == EMPTY_FORM;
    }

    method WritePart(data: string, part: nat, partEnd: nat) returns (part': nat)
      requires CanWrite(View()) && part <= partEnd <= |data|
      modifies `nameBuffer, `values, `files
      ensures View() == Write(old(View()), data[part..partEnd]) && part' == partEnd
    {
      match target {
        case Name =>
          nameBuffer := nameBuffer + data[part..partEnd];
        case Content | Filename =>
          var value := values[currentContent.index];
          values := values[currentContent.index := value.(content := value.content + data[part..partEnd])];
        case File =>
          var file := files[currentFile.index];
          if file.isOpen {
            files := files[currentFile.index := file.(bytes := file.bytes + data[part..partEnd])];
          }
      }
      part' := partEnd;
    }

    /** The file of a complete file name; whether it is opened depends on the mode. */
    method OpenFile()
      requires ContentSet(View())
      modifies `values, `files, `currentFile, `target
      ensures View() == OnHeaderEvent(env, old(View()), H.EndFilename).(writable := old(isWritable))
      ensures
        var i, n := old(currentContent).index, |old(files)|;
        var filename := old(values)[i].content;
        var open := |files| == n + 1 && files[n].isOpen;
        && files == old(files) + [StoredFile(filename, open, "")]
        && values == old(values)[i := old(values)[i].(written := old(values)[i].written && open)]
        && (env.mode == Add ==> (open <==> !env.fileExists(n, filename)))
        && (env.mode == Replace ==> (open <==> env.fileExists(n, filename)))
        && (env.mode == AddOrReplace ==> open) && (env.mode == Ignore ==> !open)
      ensures pendingBuffer == old(pendingBuffer)
    {
      var index := currentContent.index;
      var filename := values[index].content;
      var fileExists := env.fileExists(|files|, filename);
      currentFile := At(|files|);
      var isOpen := false;
      if env.mode == Ignore {
        values := values[index := values[index].(written := false)];
      } else if env.mode == Replace && !fileExists {
        values := values[index := values[index].(written := false)];
      } else if env.mode == Add && fileExists {
        values := values[index := values[index].(written := false)];
      } else {
        isOpen := true;
      }
      files := files + [StoredFile(filename, isOpen, "")];
      target := File;
    }

    method MessagePartEvent(event: H.Event, data: string, part: nat, msg: nat) returns (part': nat)
      requires EventReady(View(), event) && msg <= |data| && (Ends(event) ==> part <= msg)
      modifies `isWritable, `target, `nameBuffer, `currentContent, `currentFile, `values, `files
      ensures View() ==
        AfterEvent(env, old(View()), event, if part <= msg then data[part..msg] else "")
      ensures part' == NextPart(event, part, msg)
      ensures pendingBuffer == old(pendingBuffer)
    {
      part' := part;
      match event
      case NoEvent =>
      case BeginName =>
        isWritable := true;
        part' := msg + 1;
      case EndName =>
        isWritable := false;
        part' := WritePart(data, part, msg);
        target := Content;
      case BeginFilename =>
        currentContent := At(|values|);
        values := values + [Value(nameBuffer, true, true, "")];
        nameBuffer := "";
        target := Filename;
        isWritable := true;
        part' := msg + 1;
      case EndFilename =>
        isWritable := false;
        part' := WritePart(data, part, msg);
        OpenFile();
      case BeginBody =>
        if target == Content {
          currentContent := At(|values|);
          values := values + [Value(nameBuffer, false, true, "")];
          nameBuffer := "";
        }
        isWritable := true;
        part' := msg + 1;
      case EndBody =>
        isWritable := false;
        part' := WritePart(data, part, msg);
        if target == File {
          files := files[currentFile.index := files[currentFile.index].(isOpen := false)];
        }
        target := Name;
    }

    /** message_begin and message_end; the error of a misplaced end is dropped. */
    method OnParserEvent(event: M.Event, data: string, part: nat, msg: nat) returns (part': nat)
      requires Lagging(env, View(), data, part, msg)
      modifies this, messageParser
      ensures pendingBuffer == old(pendingBuffer)
      ensures Lagging(env, View(), data, part', msg)
      ensures Lag(View(), data, part', msg) == AfterParserEvent(env, old(Lag(View(), data, part, msg)), event)
    {
      part' := part;
      match event {
        case NoEvent =>
        case MessageBegin =>
          message := true;
        case MessageEnd =>
          LagEnd(env, View(), data, part, msg);
          var ev, ec := messageParser.HandleMessageEnd();
          part' := MessagePartEvent(ev, data, part, msg);
          message := false;
      }
    }

    /** One decided byte. */
    method AdvanceByte(data: string, part: nat, msg: nat) returns (part': nat, ec: bool)
      requires Wired()
      requires Lagging(env, View(), data, part, msg) && msg < |data|
      modifies this, messageParser
      ensures pendingBuffer == old(pendingBuffer)
      ensures Lagging(env, View(), data, part', msg + 1)
      ensures Effect(Lag(View(), data, part', msg + 1), ec) ==
        OnToken(env, old(Lag(View(), data, part, msg)), Byte(data[msg]))
    {
      part', ec := part, false;
      LagByte(env, View(), data, part, msg);
      if message {
        CharMoves(env.texts, View().header, data[msg]);
        EventArrives(env, View(), H.OnChar(env.texts, View().header, data[msg]).next, H.OnChar(env.texts, View().header, data[msg]).event);
        var event;
        event, ec := messageParser.HandleMessageChar(data[msg]);
        part' := MessagePartEvent(event, data, part, msg);
      }
    }

    method Advance(adv: nat, data: string, part: nat, msg: nat) returns (part': nat, msg': nat, ec: bool)
      requires Wired()
      requires Lagging(env, View(), data, part, msg) && msg + adv <= |data|
      modifies this, messageParser
      ensures pendingBuffer == old(pendingBuffer)
      ensures msg' == msg + adv && Lagging(env, View(), data, part', msg')
      ensures Effect(Lag(View(), data, part', msg'), ec) ==
        AbsorbSlice(env, Effect(old(Lag(View(), data, part, msg)), false), data, msg, msg')
    {
      hide Lag, Lagging, AbsorbSlice, OnToken;
      part', msg', ec := part, msg, false;
      ghost var start := Effect(Lag(View(), data, part, msg), false);
      AbsorbStart(env, start, data, msg);
      for i := 0 to adv
        invariant msg' == msg + i && pendingBuffer == old(pendingBuffer)
        invariant Lagging(env, View(), data, part', msg')
        invariant Effect(Lag(View(), data, part', msg'), ec) ==
          AbsorbSlice(env, start, data, msg, msg')
      {
        AbsorbNext(env, start, data, msg, msg');
        var failed;
        part', failed := AdvanceByte(data, part', msg');
        ec := ec || failed;
        msg' := msg' + 1;
      }
    }

    /** The bytes decided by one byte of input, and the event that comes with them. */
    method Dispatch(adv: nat, event: M.Event, data: string, part: nat, msg: nat)
      returns (part': nat, msg': nat, ec: bool)
      requires Wired()
      requires Lagging(env, View(), data, part, msg) && msg + adv <= |data|
      modifies this, messageParser
      ensures pendingBuffer == old(pendingBuffer)
      ensures msg' == msg + adv && Lagging(env, View(), data, part', msg')
      ensures Effect(Lag(View(), data, part', msg'), ec) ==
        AbsorbStep(env, old(Lag(View(), data, part, msg)), event, data, msg, msg + adv)
    {
      hide Lag, Lagging, AbsorbSlice, AfterParserEvent;
      ghost var before := Lag(View(), data, part, msg);
      if event == M.MessageBegin {
        part', msg', ec := Advance(adv, data, part, msg);
        ghost var first := Effect(Lag(View(), data, part', msg'), ec);
        assert first == AbsorbSlice(env, Effect(before, false), data, msg, msg + adv);
        part' := OnParserEvent(event, data, part', msg');
        assert Effect(Lag(View(), data, part', msg'), ec) == first.(form := AfterParserEvent(env, first.form, event));
      } else {
        part' := OnParserEvent(event, data, part, msg);
        ghost var first := Effect(Lag(View(), data, part', msg), false);
        assert first == Effect(AfterParserEvent(env, before, event), false);
        part', msg', ec := Advance(adv, data, part', msg);
      }
    }

    /** The body of the loop of put: one byte of input, after `held` undecided ones. */
    method PutByte(c: char, data: string, part: nat, msg: nat, held: nat)
      returns (part': nat, msg': nat, ec: bool, ghost step: M.Step)
      requires Wired()
      requires multipartParser.Valid() && Lagging(env, View(), data, part, msg)
      requires held == |M.Held(D(), multipartParser.State())| && msg + held < |data|
      modifies this, messageParser, multipartParser, multipartParser.kmp
      ensures pendingBuffer == old(pendingBuffer)
      ensures multipartParser.Valid() && Lagging(env, View(), data, part', msg') && Coupled(env, View())
      ensures step == M.StepOn(D(), old(multipartParser.State()), c)
      ensures step.Malformed? ==> ec
      ensures step.Decided? ==>
        && multipartParser.State() == step.next
        && msg' == msg + step.advancement <= |data|
        && Effect(Lag(View(), data, part', msg'), ec) ==
             AbsorbStep(env, old(Lag(View(), data, part, msg)), step.event, data, msg, msg')
    {
      hide M.StepOn, AbsorbStep, Lag, M.Held;
      part', msg' := part, msg;
      AdvancementBound(D(), multipartParser.State(), c);
      var adv, event;
      adv, event, ec := multipartParser.HandleChar(c);
      if ec {
        step := M.Malformed;
      } else {
        step := M.Decided(multipartParser.State(), adv, event);
        part', msg', ec := Dispatch(adv, event, data, part, msg);
      }
    }

    /** The slice that is still open when the input ends. */
    method Flush(data: string, part: nat, msg: nat) returns (part': nat)
      requires Lagging(env, View(), data, part, msg)
      modifies `nameBuffer, `values, `files
      ensures View() == old(Lag(View(), data, part, msg)) && Coupled(env, View())
    {
      PassKeepsCoupling(env, View(), if part <= msg then data[part..msg] else "");
      part' := part;
      if isWritable {
        part' := WritePart(data, part, msg);
      }
    }

    /** The source's put. On success the form is what byte-by-byte reading makes of it,
        and the bytes kept for the next call are those of Carry. On an error the call
        ends at the byte that caused it. */
    method Put(chunk: string) returns (nwritten: nat, ec: bool)
      requires Valid()
      modifies this, messageParser, multipartParser, multipartParser.kmp
      ensures multipartParser.Valid() && Coupled(env, View())
      ensures ec ==>
        && nwritten < |chunk|
        && Feed(env, D(), old(State()), chunk[..nwritten]).Fine?
        && Feed(env, D(), old(State()), chunk[..nwritten + 1]).Failed?
      ensures !ec ==>
        && nwritten == |chunk| && Valid()
        && PutResult(Feed(env, D(), old(State()), chunk), old(pendingBuffer), chunk, State())
    {
      hide Reached, Feed, AbsorbStep, PutResult, Carry, Lag, Lagging, Coupled;
      hide M.StepOn, M.Held, M.ScanValid, ScannerValid;
      ghost var start := State();
      var data := pendingBuffer + chunk;
      var parsedOffset: nat, msg: nat, part: nat := 0, 0, 0;
      nwritten := 0;
      PutStart(env, D(), start, pendingBuffer, chunk);
      LagInit(env, View(), data);
      while nwritten < |chunk|
        invariant nwritten <= |chunk| && parsedOffset == msg && pendingBuffer == old(pendingBuffer)
        invariant multipartParser.Valid() && Lagging(env, View(), data, part, msg)
        invariant Reached(env, D(), start, pendingBuffer, chunk, nwritten, msg,
                          multipartParser.State(), Lag(View(), data, part, msg))
      {
        ghost var scan, before, from := multipartParser.State(), Lag(View(), data, part, msg), msg;
        ReachedHeld(env, D(), start, pendingBuffer, chunk, nwritten, msg, scan, before);
        ghost var step;
        part, msg, ec, step :=
          PutByte(chunk[nwritten], data, part, msg, |pendingBuffer| + nwritten - msg);
        ReachedNext(env, D(), start, pendingBuffer, chunk, nwritten, from, scan, step, before);
        if ec {
          return;
        }
        parsedOffset := msg;
        nwritten := nwritten + 1;
      }
      part := Flush(data, part, msg);
      ReachedEnd(env, D(), start, pendingBuffer, chunk, msg, multipartParser.State(), View());
      var consumed := if parsedOffset < |pendingBuffer| then parsedOffset else |pendingBuffer|;
      var bufSize := nwritten + consumed - parsedOffset;
      pendingBuffer := (pendingBuffer + data[msg..msg + bufSize])[consumed..];
      ec := false;
    }

    /** The upload is accepted unless it stopped inside a part whose name was complete. */
    method Finish() returns (ec: bool)
      requires Valid()
      ensures ec <==> target != Name
      ensures ec <==> !(messageParser.View().state in {H.Start, H.ContentDisposition, H.Name})
    {
      ec := target != Name;
    }
  }

  // ----- Which boundary a reader is made for -----

  /** What stands behind the first '=' of a Content-Type header; nothing without one. */
  function BoundaryOf(contentType: string): string {
    if contentType == "" then ""
    else if contentType[0] == '=' then contentType[1..]
    else BoundaryOf(contentType[1..])
  }

  /** The first '=' counts. */
  lemma {:induction false} BehindFirst(before: string, rest: string)
    ensures '=' !in before ==> BoundaryOf(before + "=" + rest) == rest
    ensures '=' in before ==> |BoundaryOf(before + "=" + rest)| > |rest|
  {
    var text := before + "=" + rest;
    if before == "" {
      assert text[1..] == rest;
    } else {
      assert text[1..] == before[1..] + "=" + rest;
      BehindFirst(before[1..], rest);
      assert '=' in before <==> before[0] == '=' || '=' in before[1..];
    }
  }

  /** The boundary parameter is found if and only if no '=' stands before its own and
      nothing behind it. */
  lemma BoundaryIff(before: string, boundary: string, after: string)
    ensures BoundaryOf(before + "=" + boundary + after) == boundary <==> '=' !in before && after == ""
  {
    BehindFirst(before, boundary + after);
    assert before + "=" + boundary + after == before + "=" + (boundary + after);
    assert after == "" <==> boundary + after == boundary;
  }

  /** Quotes around the boundary are never taken off. */
  lemma QuotesStay(before: string, boundary: string)
    ensures BoundaryOf(before + "=" + ([H.QUOTE] + boundary + [H.QUOTE])) != boundary
  {
    BehindFirst(before, [H.QUOTE] + boundary + [H.QUOTE]);
  }

  /** A header for each cause: a parameter before, a parameter after, quotes. */
  lemma WrongBoundaries()
    ensures BoundaryOf("multipart/form-data; charset" + "=" + "utf-8; boundary=abc") == "utf-8; boundary=abc"
    ensures BoundaryOf("multipart/form-data; boundary" + "=" + "abc; charset=utf-8") == "abc; charset=utf-8"
    ensures BoundaryOf("multipart/form-data; boundary" + "=" + "\"abc\"") == "\"abc\""
  {
    hide BoundaryOf;
    BehindFirst("multipart/form-data; charset", "utf-8; boundary=abc");
    BehindFirst("multipart/form-data; boundary", "abc; charset=utf-8");
    BehindFirst("multipart/form-data; boundary", "\"abc\"");
  }

  /** A reader for a request; null stands for the error of init. */
  method OpenReader(contentType: string, env: Env) returns (reader: Reader?)
    requires env.texts == H.FORM_DATA
    ensures reader == null <==> BoundaryOf(contentType) == ""
    ensures reader != null ==>
      && fresh(reader) && fresh(reader.multipartParser) && fresh(reader.multipartParser.kmp)
      && fresh(reader.messageParser) && reader.Valid() && reader.env == env
      && reader.D() == M.DelimsFor(BoundaryOf(contentType))
      && reader.State() == Fine(Scanner(M.Scan(M.Start, 0), ""), EMPTY_FORM)
  {
    var i := 0;
    while i < |contentType| && contentType[i] != '='
      invariant i <= |contentType|
      invariant BoundaryOf(contentType) == BoundaryOf(contentType[i..])
    {
      assert contentType[i..][1..] == contentType[i + 1..];
      i := i + 1;
    }
    var boundary := if i < |contentType| then contentType[i + 1..] else "";
    assert i < |contentType| ==> contentType[i..][1..] == boundary;
    if boundary == "" {
      reader := null;
    } else {
      reader := new Reader(boundary, env);
    }
  }

  lemma AdvancementBound(d: M.Delims, scan: M.Scan, c: char)
    requires M.ScanValid(d, scan)
    ensures var step := M.StepOn(d, scan, c); step.Decided? ==> step.advancement <= |M.Held(d, scan)| + 1
  {
    M.StepIsConserving(d, scan, c);
  }

  /** One byte of input, when the answer of the boundary parser is known. */
  lemma FeedStep(env: Env, d: M.Delims, scan: M.Scan, step: M.Step, f: Form, data: string, msg: nat, limit: nat)
    requires msg <= limit < |data| && ScannerValid(d, Scanner(scan, data[msg..limit]))
    requires M.StepOn(d, scan, data[limit]) == step
    ensures step.Decided? ==> msg + step.advancement <= limit + 1
    ensures FeedChar(env, d, Fine(Scanner(scan, data[msg..limit]), f), data[limit]) ==
      if step.Malformed? then Failed
      else
        var to := msg + step.advancement;
        var effect := AbsorbStep(env, f, step.event, data, msg, to);
        if effect.ec then Failed else Fine(Scanner(step.next, data[to..limit + 1]), effect.form)
  {
    hide M.StepOn, M.ScanValid, M.Held, ByteStep, FeedChar, AbsorbStep, Absorb, EventTokens;
    SliceStep(d, scan, step, data, msg, limit);
    var st, c := Scanner(scan, data[msg..limit]), data[limit];
    FeedOutcome(env, d, st, f, c, ByteStep(d, st, c));
    if step.Decided? {
      AbsorbEvent(env, f, step.event, data, msg, msg + step.advancement);
    }
  }

  lemma SliceStep(d: M.Delims, scan: M.Scan, step: M.Step, data: string, msg: nat, limit: nat)
    requires msg <= limit < |data| && ScannerValid(d, Scanner(scan, data[msg..limit]))
    requires M.StepOn(d, scan, data[limit]) == step
    ensures step.Decided? ==> msg + step.advancement <= limit + 1
    ensures ByteStep(d, Scanner(scan, data[msg..limit]), data[limit]) ==
      if step.Malformed? then Rejected
      else
        var to := msg + step.advancement;
        Accepted(Scanner(step.next, data[to..limit + 1]), EventTokens(step.event, data[msg..to]))
  {
    hide M.StepOn, M.ScanValid, M.Held, ByteStep, EventTokens;
    DecidedBytes(d, Scanner(scan, data[msg..limit]), data[limit]);
    if step.Decided? {
      WindowStep(data, msg, limit, step.advancement);
    }
  }

  lemma FeedOutcome(env: Env, d: M.Delims, st: Scanner, f: Form, c: char, out: Outcome)
    requires ScannerValid(d, st) && out == ByteStep(d, st, c)
    ensures FeedChar(env, d, Fine(st, f), c) ==
      if out.Rejected? then Failed
      else
        var effect := Absorb(env, Effect(f, false), out.tokens);
        if effect.ec then Failed else Fine(out.state, effect.form)
  {
  }

  lemma DecidedBytes(d: M.Delims, st: Scanner, c: char)
    requires ScannerValid(d, st)
    ensures M.StepOn(d, st.scan, c).Malformed? ==> ByteStep(d, st, c) == Rejected
    ensures var step := M.StepOn(d, st.scan, c); step.Decided? ==>
      && step.advancement <= |st.pending| + 1
      && ByteStep(d, st, c) ==
           var data := st.pending + [c];
           Accepted(Scanner(step.next, data[step.advancement..]), EventTokens(step.event, data[..step.advancement]))
  {
    AdvancementBound(d, st.scan, c);
  }

  lemma WindowStep(data: string, msg: nat, limit: nat, adv: nat)
    requires msg <= limit < |data| && adv <= limit + 1 - msg
    ensures var window := data[msg..limit] + [data[limit]];
      window[..adv] == data[msg..msg + adv] && window[adv..] == data[msg + adv..limit + 1]
  {
    assert data[msg..limit] + [data[limit]] == data[msg..limit + 1];
  }

  /** The effect of the bytes of data from a to b. */
  ghost function AbsorbSlice(env: Env, start: Effect, data: string, a: nat, b: nat): Effect
    requires a <= b <= |data|
  {
    Absorb(env, start, Bytes(data[a..b]))
  }

  lemma AbsorbStart(env: Env, start: Effect, data: string, a: nat)
    requires a <= |data|
    ensures AbsorbSlice(env, start, data, a, a) == start
  {
    assert Bytes(data[a..a]) == [];
  }

  lemma AbsorbNext(env: Env, start: Effect, data: string, a: nat, b: nat)
    requires a <= b < |data|
    ensures AbsorbSlice(env, start, data, a, b + 1) ==
      NextEffect(env, AbsorbSlice(env, start, data, a, b), Byte(data[b]))
  {
    assert Bytes(data[a..b + 1]) == Bytes(data[a..b]) + [Byte(data[b])];
    FoldSnoc(Absorber(env), start, Bytes(data[a..b]), Byte(data[b]));
  }

  /** The effect of one byte of input: decided bytes and event in their order. */
  ghost function AbsorbStep(env: Env, f: Form, event: M.Event, data: string, a: nat, b: nat): Effect
    requires a <= b <= |data|
  {
    if event == M.MessageBegin then
      var first := AbsorbSlice(env, Effect(f, false), data, a, b);
      first.(form := AfterParserEvent(env, first.form, event))
    else
      AbsorbSlice(env, Effect(AfterParserEvent(env, f, event), false), data, a, b)
  }

  lemma AbsorbEvent(env: Env, f: Form, event: M.Event, data: string, a: nat, b: nat)
    requires a <= b <= |data|
    ensures Absorb(env, Effect(f, false), EventTokens(event, data[a..b])) == AbsorbStep(env, f, event, data, a, b)
  {
    var start, bytes := Effect(f, false), Bytes(data[a..b]);
    match event
    case NoEvent =>
    case MessageBegin =>
      FoldSnoc(Absorber(env), start, bytes, Begin);
    case MessageEnd =>
      FoldConcat(Absorber(env), start, [End], bytes);
      FoldOne(Absorber(env), start, End);
  }

  /** The state of the loop of put after n bytes of the chunk: `msg` bytes of all the
      data are decided, and the form is f once the open slice is written. */
  ghost predicate Reached(env: Env, d: M.Delims, start: Reading, pending: string, chunk: string, n: nat,
                          msg: nat, scan: M.Scan, f: Form)
  {
    && n <= |chunk| && msg <= |pending| + n
    && var waiting := (pending + chunk)[msg..|pending| + n];
    && ScannerValid(d, Scanner(scan, waiting))
    && Feed(env, d, start, chunk[..n]) == Fine(Scanner(scan, waiting), f)
  }

  lemma PutStart(env: Env, d: M.Delims, start: Reading, pending: string, chunk: string)
    requires start.Fine? && start.scanner.pending == pending && ScannerValid(d, start.scanner)
    ensures Reached(env, d, start, pending, chunk, 0, 0, start.scanner.scan, start.form)
  {
    assert (pending + chunk)[0..|pending|] == pending && chunk[..0] == "";
  }

  lemma ReachedHeld(env: Env, d: M.Delims, start: Reading, pending: string, chunk: string, n: nat,
                    msg: nat, scan: M.Scan, f: Form)
    requires Reached(env, d, start, pending, chunk, n, msg, scan, f)
    ensures M.ScanValid(d, scan) && msg <= |pending| + n && |M.Held(d, scan)| == |pending| + n - msg
  {
  }

  lemma ReachedNext(env: Env, d: M.Delims, start: Reading, pending: string, chunk: string, n: nat,
                    msg: nat, scan: M.Scan, step: M.Step, f: Form)
    requires Reached(env, d, start, pending, chunk, n, msg, scan, f) && n < |chunk|
    requires M.ScanValid(d, scan) && M.StepOn(d, scan, chunk[n]) == step
    ensures Feed(env, d, start, chunk[..n]).Fine?
    ensures step.Malformed? ==> Feed(env, d, start, chunk[..n + 1]).Failed?
    ensures step.Decided? && msg + step.advancement <= |pending| + |chunk| ==>
      var to := msg + step.advancement;
      var effect := AbsorbStep(env, f, step.event, pending + chunk, msg, to);
      && (effect.ec ==> Feed(env, d, start, chunk[..n + 1]).Failed?)
      && (!effect.ec ==> Reached(env, d, start, pending, chunk, n + 1, to, step.next, effect.form))
  {
    hide M.StepOn, AbsorbStep, ByteStep, FeedChar;
    var data, limit := pending + chunk, |pending| + n;
    assert data[limit] == chunk[n];
    assert chunk[..n + 1] == chunk[..n] + [chunk[n]];
    FeedSnoc(env, d, start, chunk[..n], chunk[n]);
    FeedStep(env, d, scan, step, f, data, msg, limit);
    SliceStep(d, scan, step, data, msg, limit);
    ByteStepKeeps(d, Scanner(scan, data[msg..limit]), chunk[n]);
  }

  /** The end of put: what is kept is what Carry says. */
  lemma ReachedEnd(env: Env, d: M.Delims, start: Reading, pending: string, chunk: string, msg: nat,
                   scan: M.Scan, f: Form)
    requires Reached(env, d, start, pending, chunk, |chunk|, msg, scan, f)
    ensures var data := pending + chunk;
      var consumed := if msg < |pending| then msg else |pending|;
      var bufSize := |chunk| + consumed - msg;
      && 0 <= bufSize && msg + bufSize <= |data|
      && var kept := (pending + data[msg..msg + bufSize])[consumed..];
      && ScannerValid(d, Scanner(scan, kept))
      && PutResult(Feed(env, d, start, chunk), pending, chunk, Fine(Scanner(scan, kept), f))
  {
    assert chunk[..|chunk|] == chunk;
    CarryIs(pending, chunk, msg);
  }

  lemma CarryIs(pending: string, chunk: string, msg: nat)
    requires msg <= |pending| + |chunk|
    ensures var data := pending + chunk;
      var consumed := if msg < |pending| then msg else |pending|;
      var bufSize := |chunk| + consumed - msg;
      && 0 <= bufSize && msg + bufSize <= |data|
      && (pending + data[msg..msg + bufSize])[consumed..] == Carry(pending, chunk, |data| - msg)
  {
    hide Carry;
    var data := pending + chunk;
    if msg < |pending| {
      CarryIsSplit(pending, chunk, msg);
      DropFirst(pending, data[msg..msg + |chunk|], msg);
    } else {
      CarryIsTail(pending, chunk, msg);
      DropPrefix(pending, data[msg..msg + (|chunk| + |pending| - msg)]);
    }
  }

  lemma CarryIsSplit(pending: string, chunk: string, msg: nat)
    requires msg < |pending|
    ensures var data := pending + chunk;
      Carry(pending, chunk, |data| - msg) == pending[msg..] + data[msg..msg + |chunk|]
  {
  }

  lemma CarryIsTail(pending: string, chunk: string, msg: nat)
    requires |pending| <= msg <= |pending| + |chunk|
    ensures var data := pending + chunk;
      Carry(pending, chunk, |data| - msg) == data[msg..msg + (|chunk| + |pending| - msg)]
  {
  }

  lemma DropFirst(a: string, b: string, n: nat)
    requires n <= |a|
    ensures (a + b)[n..] == a[n..] + b
  {
  }

  lemma DropPrefix(a: string, b: string)
    ensures (a + b)[|a|..] == b
  {
  }
}
