/**
 * The page extractor `read_page` of src/main.rs: a six-state machine that
 * folds the XML events of the dump into one page, into "no more pages" at
 * the end of the document, or into an error.
 *
 * The XML tokenizer, the bzip2 decoders and entity unescaping are library
 * code and are not modelled: the reader's output is a finite sequence of
 * `Event`s, and each text event carries the result of unescaping it.
 */
module PageReader {
  import opened Wrappers

  /** One result of `read_event_into`. Tag names are the raw names of the elements. */
  datatype Event =
    | Start(name: string)                 // an opening tag
    | End(name: string)                   // a closing tag
    | Text(unescaped: Option<string>)     // character data; `None` when unescaping fails
    | Eof                                 // the end of the document
    | Other                               // any other event (comments, empty elements, declarations, ...)
    | Unreadable                          // the reader itself reported an error

  datatype Page = Page(title: string, text: string)

  /** The states of `read_page`; the payloads are the title and text captured so far. */
  datatype State =
    | Limbo1
    | TitleStarted
    | Title(title: string)
    | Limbo2(title: string)
    | TextStarted(title: string)
    | Text(title: string, text: string)

  datatype Error =
    | ReadFailed                              // the reader returned an error
    | UnescapeFailed                          // the text of the title or of the body could not be unescaped
    | Unexpected(state: State, event: Event)  // an event the current state does not accept

  /** What one event does to the machine. */
  datatype StepResult =
    | Continue(next: State)
    | Emit(page: Page)
    | Done
    | Fail(error: Error)

  /**
   * What one call of `read_page` returns: a page, `None` (end of the
   * document), an error, or, since the model's event sequence is finite,
   * the state the machine was in when the events ran out.
   */
  datatype Outcome =
    | Found(page: Page)
    | EndOfInput
    | Failed(error: Error)
    | Exhausted(state: State)

  /** The outcome of a run together with the number of events it consumed. */
  datatype RunResult = RunResult(outcome: Outcome, used: nat)

  const TitleTag: string := "title"
  const TextTag: string := "text"

  /** The machine's progress through a page: the states are visited in this order. */
  function Rank(s: State): nat {
    match s
    case Limbo1 => 0
    case TitleStarted => 1
    case Title(_) => 2
    case Limbo2(_) => 3
    case TextStarted(_) => 4
    case Text(_, _) => 5
  }

  /** The states in which a title has been captured. */
  predicate HasTitle(s: State) {
    s.Title? || s.Limbo2? || s.TextStarted? || s.Text?
  }

  /**
   * The transition of `read_page` for one event. A reader error ends the
   * call before the state is looked at.
   */
  function Step(s: State, e: Event): (r: StepResult)
    // The machine never goes back within a page and moves forward one state at a time.
    ensures r.Continue? ==> Rank(r.next) == Rank(s) || Rank(r.next) == Rank(s) + 1
    // Once captured, the title is carried unchanged until the page is emitted.
    ensures r.Continue? && HasTitle(s) ==> HasTitle(r.next) && r.next.title == s.title
    // Only the end of the text element emits, and it emits what was captured.
    ensures r.Emit? ==> s.Text? && e == End(TextTag) && r.page == Page(s.title, s.text)
    // Only the end of the document, seen outside any page, ends the extraction.
    ensures r.Done? <==> s == Limbo1 && e == Eof
    // Limbo2 never fails except on a reader error.
    ensures s.Limbo2? && r.Fail? ==> e == Unreadable
    // A reader error fails the call whatever the state.
    ensures e == Unreadable ==> r == Fail(ReadFailed)
    // Text that cannot be unescaped fails the call where a title or a text is expected.
    ensures (s == TitleStarted || s.TextStarted?) && e == Event.Text(None) ==> r == Fail(UnescapeFailed)
  {
    if e == Unreadable then Fail(ReadFailed)
    else match s
      case Limbo1 =>
        if e == Eof then Done
        else if e == Start(TitleTag) then Continue(TitleStarted)
        else Continue(Limbo1)
      case TitleStarted =>
        if e.Text? then
          if e.unescaped.Some? then Continue(Title(e.unescaped.value)) else Fail(UnescapeFailed)
        else Fail(Unexpected(s, e))
      case Title(title) =>
        if e == End(TitleTag) then Continue(Limbo2(title)) else Fail(Unexpected(s, e))
      case Limbo2(title) =>
        if e == Start(TextTag) then Continue(TextStarted(title)) else Continue(s)
      case TextStarted(title) =>
        if e.Text? then
          if e.unescaped.Some? then Continue(State.Text(title, e.unescaped.value)) else Fail(UnescapeFailed)
        else Fail(Unexpected(s, e))
      case Text(title, text) =>
        if e == End(TextTag) then Emit(Page(title, text)) else Fail(Unexpected(s, e))
  }

  /** The run of the machine from state `s` over `events`, stopping at the first outcome. */
  function Run(s: State, events: seq<Event>): (r: RunResult)
    ensures r.used <= |events|
    ensures r.outcome.Exhausted? ==> r.used == |events|
    ensures !r.outcome.Exhausted? ==> r.used >= 1
    // The last event consumed is the one that decided the outcome.
    ensures r.outcome == EndOfInput ==> events[r.used - 1] == Eof
    ensures r.outcome.Found? ==> events[r.used - 1] == End(TextTag)
    decreases |events|
  {
    if events == [] then RunResult(Exhausted(s), 0)
    else match Step(s, events[0])
      case Continue(next) =>
        var rest := Run(next, events[1..]);
        RunResult(rest.outcome, rest.used + 1)
      case Emit(page) => RunResult(Found(page), 1)
      case Done => RunResult(EndOfInput, 1)
      case Fail(error) => RunResult(Failed(error), 1)
  }

  /**
   * One call of `read_page` on a reader positioned at `start`: a fresh
   * machine in `Limbo1` consumes events until it has an outcome. `next` is
   * where the reader stands afterwards, so that the following call goes on
   * from there.
   */
  method ReadPage(events: seq<Event>, start: nat) returns (outcome: Outcome, next: nat)
    requires start <= |events|
    ensures outcome == Run(Limbo1, events[start..]).outcome
    ensures next == start + Run(Limbo1, events[start..]).used
  {
    var state := Limbo1;
    var i := start;
    while i < |events|
      invariant start <= i <= |events|
      invariant Run(Limbo1, events[start..]) == Shifted(Run(state, events[i..]), i - start)
      decreases |events| - i
    {
      var event := events[i];
      assert events[i..][1..] == events[i + 1..];
      match Step(state, event)
      case Continue(s) =>
        state := s;
        i := i + 1;
      case Emit(page) =>
        return Found(page), i + 1;
      case Done =>
        return EndOfInput, i + 1;
      case Fail(error) =>
        return Failed(error), i + 1;
    }
    return Exhausted(state), i;
  }

  /** A run result preceded by `n` more consumed events. */
  function Shifted(r: RunResult, n: nat): RunResult {
    RunResult(r.outcome, r.used + n)
  }
}
