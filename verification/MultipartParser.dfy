// The boundary parser of multipart_stream_parser.cpp. For every byte it says how
// many bytes are now decided, and whether a body part begins or ends there.

module MultipartParser {
  import opened Matching
  import opened KnuthMorrisPratt

  const CRLF := "\r\n"
  const DDASH := "--"

  datatype Phase =
    | Start
    | Preamble
    | FirstMessage
    | MaybeEndOrEncapsulation
    | MaybeEnd
    | MaybeEncapsulation
    | Encapsulation
    | Epilogue

  datatype Event = NoEvent | MessageBegin | MessageEnd

  /** Everything the parser remembers: its phase and the length of the current match. */
  datatype Scan = Scan(phase: Phase, matched: nat)

  datatype Step = Malformed | Decided(next: Scan, advancement: nat, event: Event)

  /** The two delimiters, both longer than one byte for every boundary. */
  datatype DelimPair = DelimPair(preamble: string, encapsulation: string)
  type Delims = d: DelimPair | |d.preamble| >= 4 && |d.encapsulation| >= 4
    witness DelimPair("--\r\n", "\r\n--")

  function DelimsFor(boundary: string): Delims {
    DelimPair(DDASH + boundary + CRLF, CRLF + DDASH + boundary)
  }

  predicate Searching(phase: Phase) {
    phase == Preamble || phase == FirstMessage || phase == Encapsulation
  }

  function Delim(d: Delims, phase: Phase): string
    requires Searching(phase)
  {
    if phase == Preamble then d.preamble else d.encapsulation
  }

  /** While searching, a full match leaves the phase at once. */
  ghost predicate ScanValid(d: Delims, scan: Scan) {
    Searching(scan.phase) ==> scan.matched < |Delim(d, scan.phase)|
  }

  /** The bytes given to the parser and not yet decided. */
  function Held(d: Delims, scan: Scan): string
    requires ScanValid(d, scan)
  {
    match scan.phase
    case Preamble | FirstMessage | Encapsulation => Delim(d, scan.phase)[..scan.matched]
    case MaybeEnd => "-"
    case MaybeEncapsulation => "\r"
    case Start | MaybeEndOrEncapsulation | Epilogue => ""
  }

  /** One byte while searching for a delimiter of the given size, once the new match
      length is known: bytes that fell out of the match are decided. */
  function SearchMove(size: nat, scan: Scan, matched: nat): (step: Step)
    requires matched <= scan.matched + 1
  {
    var advancement := scan.matched + 1 - matched;
    if matched != size then
      Decided(Scan(scan.phase, matched), advancement, NoEvent)
    else if scan.phase == Preamble then
      Decided(Scan(FirstMessage, 0), advancement + size, MessageBegin)
    else
      Decided(Scan(MaybeEndOrEncapsulation, matched), advancement + size, MessageEnd)
  }

  ghost function SearchStep(d: Delims, scan: Scan, c: char): (step: Step)
    requires Searching(scan.phase) && ScanValid(d, scan)
  {
    var delim := Delim(d, scan.phase);
    SearchMove(|delim|, scan, Delta(delim, scan.matched, c))
  }

  /** One byte in any phase. */
  ghost function StepOn(d: Delims, scan: Scan, c: char): (step: Step)
    requires ScanValid(d, scan)
  {
    match scan.phase
    case Start =>
      SearchStep(d, Scan(Preamble, 0), c)
    case Preamble | FirstMessage | Encapsulation =>
      SearchStep(d, scan, c)
    case MaybeEndOrEncapsulation =>
      if c == '-' then Decided(Scan(MaybeEnd, scan.matched), 0, NoEvent)
      else if c == '\r' then Decided(Scan(MaybeEncapsulation, scan.matched), 0, NoEvent)
      else Malformed
    case MaybeEnd =>
      if c == '-' then Decided(Scan(Epilogue, scan.matched), 2, NoEvent) else Malformed
    case MaybeEncapsulation =>
      if c == '\n' then Decided(Scan(Encapsulation, 0), 2, MessageBegin) else Malformed
    case Epilogue =>
      Decided(scan, 1, NoEvent)
  }

  /** Byte conservation: the decided bytes are taken from the front of the undecided
      ones and the new byte, and exactly the others are held back. */
  ghost predicate Conserves(held: string, c: char, advancement: nat, rest: string) {
    && advancement + |rest| == |held| + 1
    && forall i :: 0 <= i < |rest| ==>
         rest[i] == if advancement + i < |held| then held[advancement + i] else c
  }

  ghost predicate StepConserves(d: Delims, scan: Scan, c: char, step: Step)
    requires ScanValid(d, scan)
  {
    step.Decided? ==>
      && ScanValid(d, step.next)
      && Conserves(Held(d, scan), c, step.advancement, Held(d, step.next))
  }

  lemma SearchStepIsConserving(d: Delims, scan: Scan, c: char)
    requires Searching(scan.phase) && ScanValid(d, scan)
    ensures StepConserves(d, scan, c, SearchStep(d, scan, c))
  {
    var delim := Delim(d, scan.phase);
    var matched := Delta(delim, scan.matched, c);
    if 0 < matched < |delim| {
      forall i | 0 <= i < matched - 1
        ensures delim[i] == delim[scan.matched + 1 - matched + i]
      {
        AgreeAt(delim, delim, scan.matched, matched - 1, i);
      }
    }
  }

  lemma StepIsConserving(d: Delims, scan: Scan, c: char)
    requires ScanValid(d, scan)
    ensures StepConserves(d, scan, c, StepOn(d, scan, c))
  {
    if scan.phase == Start {
      SearchStepIsConserving(d, Scan(Preamble, 0), c);
    } else if Searching(scan.phase) {
      SearchStepIsConserving(d, scan, c);
    }
  }

  class MultipartStreamParser {
    var parserState: Phase
    const kmp: Searcher
    const preambleDelim: string
    const encapsulationDelim: string
    var lastMatched: nat

    ghost predicate DelimsSet() {
      |preambleDelim| >= 4 && |encapsulationDelim| >= 4
    }

    ghost function D(): Delims
      requires DelimsSet()
    {
      DelimPair(preambleDelim, encapsulationDelim)
    }

    ghost function State(): Scan
      reads this
    {
      Scan(parserState, if parserState == Start then 0 else lastMatched)
    }

    /** In every searching phase the searcher follows the current delimiter, so a
        full match is never followed by another search without a reset. */
    ghost predicate Valid()
      reads this, kmp
    {
      && DelimsSet()
      && kmp.Valid()
      && (Searching(parserState) ==> Following())
    }

    ghost predicate Following()
      requires DelimsSet() && Searching(parserState)
      reads this, kmp
    {
      kmp.Tracking() && kmp.pattern == Delim(D(), parserState) && kmp.i == lastMatched
    }

    /** The default members followed by a call of init. */
    constructor (boundary: string)
      ensures Valid() && fresh(kmp) && D() == DelimsFor(boundary) && State() == Scan(Start, 0)
    {
      parserState := Start;
      kmp := new Searcher();
      preambleDelim := DDASH + boundary + CRLF;
      encapsulationDelim := CRLF + DDASH + boundary;
      lastMatched := 0;
    }

    function TrDelim(): string
      requires Searching(parserState)
      reads this
    {
      match parserState
      case Preamble => preambleDelim
      case _ => encapsulationDelim
    }

    method TrInit()
      requires DelimsSet() && kmp.Valid() && Searching(parserState)
      modifies this`lastMatched, kmp
      ensures Valid() && lastMatched == 0
    {
      lastMatched := 0;
      kmp.Init(TrDelim());
    }

    method TrCheck(c: char) returns (advancement: nat, result: bool)
      requires Valid() && Searching(parserState)
      modifies this`lastMatched, kmp
      ensures kmp.Valid() && (!result ==> Valid())
      ensures lastMatched == Delta(Delim(D(), parserState), old(lastMatched), c)
      ensures result <==> lastMatched == |Delim(D(), parserState)|
      ensures advancement == old(lastMatched) + 1 - lastMatched + if result then lastMatched else 0
    {
      var matched := kmp.PartialSearch(c);
      result := matched == |TrDelim()|;
      advancement := 0;
      if lastMatched + 1 != matched {
        advancement := advancement + (lastMatched + 1 - matched);
      }
      if result {
        advancement := advancement + |TrDelim()|;
      }
      lastMatched := matched;
    }

    method HandleChar(c: char) returns (advancement: nat, event: Event, ec: bool)
      requires Valid()
      modifies this, kmp
      ensures Valid()
      ensures StepOn(D(), old(State()), c) ==
        if ec then Malformed else Decided(State(), advancement, event)
      ensures ec ==> State() == old(State())
    {
      advancement, event, ec := 0, NoEvent, false;
      if parserState == Start {
        parserState := Preamble;
        TrInit();
      }
      match parserState
      case Preamble =>
        var result;
        advancement, result := TrCheck(c);
        if result {
          parserState := FirstMessage;
          TrInit();
          event := MessageBegin;
        }
      case FirstMessage =>
        var result;
        advancement, result := TrCheck(c);
        if result {
          parserState := MaybeEndOrEncapsulation;
          event := MessageEnd;
        }
      case MaybeEndOrEncapsulation =>
        if c == '-' {
          parserState := MaybeEnd;
        } else if c == '\r' {
          parserState := MaybeEncapsulation;
        } else {
          ec := true;
        }
      case MaybeEnd =>
        if c == '-' {
          parserState := Epilogue;
          advancement := 2;
        } else {
          ec := true;
        }
      case MaybeEncapsulation =>
        if c == '\n' {
          parserState := Encapsulation;
          TrInit();
          advancement, event := 2, MessageBegin;
        } else {
          ec := true;
        }
      case Encapsulation =>
        var result;
        advancement, result := TrCheck(c);
        if result {
          parserState := MaybeEndOrEncapsulation;
          event := MessageEnd;
        }
      case Epilogue =>
        advancement := 1;
    }
  }
}
