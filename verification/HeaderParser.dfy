// The parser of one body part, message_stream_parser.cpp: the header of a form-data
// part (section 4.2 of RFC 7578), then its body.

module HeaderParser {

  /** The fixed texts of a part header. */
  datatype TextSet = TextSet(contentDisposition: string, filename: string, contentType: string, preBody: string)

  type Texts = t: TextSet |
      && t.contentDisposition != "" && t.filename != "" && t.contentType != ""
      && |t.preBody| > 1 && t.preBody[0] == '\r'
    witness TextSet("n", "f", "t", "\r\n")

  const FORM_DATA: Texts := TextSet(
    "Content-Disposition: form-data; name=\"",
    " filename=\"",
    "\r\nContent-Type: ",
    "\r\n\r\n")

  const QUOTE := '\"'

  datatype State =
    | Start
    | ContentDisposition
    | Name
    | MaybeFilename
    | Filename
    | FilenameBody
    | ContentType
    | ContentTypeBody
    | PreBody
    | Body

  datatype Event =
    | NoEvent
    | BeginName
    | EndName
    | BeginFilename
    | EndFilename
    | BeginBody
    | EndBody

  /** The parser's state and its position in the fixed text it is matching, if any. */
  datatype Header = Header(state: State, at: nat)

  datatype HeaderStep = HeaderStep(next: Header, event: Event, ec: bool)

  predicate InLiteral(state: State) {
    state == ContentDisposition || state == Filename || state == ContentType || state == PreBody
  }

  function Literal(t: Texts, state: State): string
    requires InLiteral(state)
  {
    match state
    case ContentDisposition => t.contentDisposition
    case Filename => t.filename
    case ContentType => t.contentType
    case PreBody => t.preBody
  }

  predicate HeaderValid(t: Texts, h: Header) {
    InLiteral(h.state) ==> h.at < |Literal(t, h.state)|
  }

  /** One character of a fixed text; after the last one the given state and event. */
  function LiteralStep(t: Texts, h: Header, c: char, state: State, event: Event): HeaderStep
    requires InLiteral(h.state) && HeaderValid(t, h)
  {
    if c != Literal(t, h.state)[h.at] then HeaderStep(h, NoEvent, true)
    else if h.at + 1 == |Literal(t, h.state)| then HeaderStep(Header(state, h.at + 1), event, false)
    else HeaderStep(Header(h.state, h.at + 1), NoEvent, false)
  }

  function OnChar(t: Texts, h: Header, c: char): (step: HeaderStep)
    requires HeaderValid(t, h)
    ensures HeaderValid(t, step.next)
  {
    match h.state
    case Start => LiteralStep(t, Header(ContentDisposition, 0), c, Name, BeginName)
    case ContentDisposition => LiteralStep(t, h, c, Name, BeginName)
    case Name =>
      if c == QUOTE then HeaderStep(Header(MaybeFilename, h.at), EndName, false)
      else HeaderStep(h, NoEvent, false)
    case MaybeFilename =>
      if c == ';' then HeaderStep(Header(Filename, 0), NoEvent, false)
      else if c == '\r' then HeaderStep(Header(PreBody, 1), NoEvent, false)
      else HeaderStep(h, NoEvent, true)
    case Filename => LiteralStep(t, h, c, FilenameBody, BeginFilename)
    case FilenameBody =>
      if c == QUOTE then HeaderStep(Header(ContentType, 0), EndFilename, false)
      else HeaderStep(h, NoEvent, false)
    case ContentType => LiteralStep(t, h, c, ContentTypeBody, NoEvent)
    case ContentTypeBody =>
      if c == '\r' then HeaderStep(Header(PreBody, 1), NoEvent, false)
      else HeaderStep(h, NoEvent, false)
    case PreBody => LiteralStep(t, h, c, Body, BeginBody)
    case Body => HeaderStep(h, NoEvent, false)
  }

  function OnEnd(h: Header): HeaderStep {
    if h.state != Body then HeaderStep(h, NoEvent, true)
    else HeaderStep(Header(Start, h.at), EndBody, false)
  }

  class MessageStreamParser {
    const texts: Texts
    var messageParserState: State
    var transition: nat

    ghost function View(): Header
      reads this
    {
      Header(messageParserState, transition)
    }

    constructor ()
      ensures View() == Header(Start, 0) && texts == FORM_DATA
    {
      texts := FORM_DATA;
      messageParserState, transition := Start, 0;
    }

    function TrGetChar(): char
      requires InLiteral(messageParserState) && HeaderValid(texts, View())
      reads this
    {
      Literal(texts, messageParserState)[transition]
    }

    method TrReset()
      modifies `transition
      ensures transition == 0
    {
      transition := 0;
    }

    method TrNext() returns (ended: bool)
      requires InLiteral(messageParserState) && HeaderValid(texts, View())
      modifies `transition
      ensures transition == old(transition) + 1
      ensures ended <==> transition == |Literal(texts, messageParserState)|
    {
      transition := transition + 1;
      ended := transition == |Literal(texts, messageParserState)|;
    }

    method HandleMessageChar(c: char) returns (event: Event, ec: bool)
      requires HeaderValid(texts, View())
      modifies this
      ensures OnChar(texts, old(View()), c) == HeaderStep(View(), event, ec)
    {
      event, ec := NoEvent, false;
      if messageParserState == Start {
        messageParserState := ContentDisposition;
        TrReset();
      }
      match messageParserState
      case ContentDisposition =>
        if c == TrGetChar() {
          var ended := TrNext();
          if ended {
            messageParserState := Name;
            event := BeginName;
          }
        } else {
          ec := true;
        }
      case Name =>
        if c == QUOTE {
          messageParserState := MaybeFilename;
          event := EndName;
        }
      case MaybeFilename =>
        if c == ';' {
          messageParserState := Filename;
          TrReset();
        } else if c == '\r' {
          messageParserState := PreBody;
          TrReset();
          var _ := TrNext();
        } else {
          ec := true;
        }
      case Filename =>
        if c == TrGetChar() {
          var ended := TrNext();
          if ended {
            messageParserState := FilenameBody;
            event := BeginFilename;
          }
        } else {
          ec := true;
        }
      case FilenameBody =>
        if c == QUOTE {
          messageParserState := ContentType;
          TrReset();
          event := EndFilename;
        }
      case ContentType =>
        if c == TrGetChar() {
          var ended := TrNext();
          if ended {
            messageParserState := ContentTypeBody;
          }
        } else {
          ec := true;
        }
      case ContentTypeBody =>
        if c == '\r' {
          messageParserState := PreBody;
          TrReset();
          var _ := TrNext();
        }
      case PreBody =>
        if c == TrGetChar() {
          var ended := TrNext();
          if ended {
            messageParserState := Body;
            event := BeginBody;
          }
        } else {
          ec := true;
        }
      case Body =>
    }

    method HandleMessageEnd() returns (event: Event, ec: bool)
      modifies `messageParserState
      ensures OnEnd(old(View())) == HeaderStep(View(), event, ec)
    {
      if messageParserState != Body {
        return NoEvent, true;
      }
      messageParserState := Start;
      return EndBody, false;
    }
  }
}
