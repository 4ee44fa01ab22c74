/**
 * What `read_page` (src/main.rs) does with the event streams it meets: the
 * events the two limbo states skip, the page a well-formed run produces, and
 * the events that abort a page once the machine has committed to it.
 */
module PageReaderProperties {
  import opened Wrappers
  import opened PageReader

  /** The events `Limbo1` passes over without leaving the state. */
  predicate SkippedInLimbo1(e: Event) {
    e != Eof && e != Start(TitleTag) && e != Unreadable
  }

  /** The events `Limbo2` passes over without leaving the state, the end of the document included. */
  predicate SkippedInLimbo2(e: Event) {
    e != Start(TextTag) && e != Unreadable
  }

  /** The states in which the machine is capturing a title or a text and accepts exactly one kind of event. */
  predicate Committed(s: State) {
    s.TitleStarted? || s.Title? || s.TextStarted? || s.Text?
  }

  /** The one kind of event a committed state expects. */
  predicate Expected(s: State, e: Event)
    requires Committed(s)
  {
    match s
    case TitleStarted => e.Text?
    case Title(_) => e == End(TitleTag)
    case TextStarted(_) => e.Text?
    case Text(_, _) => e == End(TextTag)
  }

  /** The events of one `<title>` element followed by one `<text>` element. */
  function PageEvents(p: Page): seq<Event> {
    [Start(TitleTag), Event.Text(Some(p.title)), End(TitleTag),
     Start(TextTag), Event.Text(Some(p.text)), End(TextTag)]
  }

  /** One event that keeps the machine running: the run goes on from the next state. */
  lemma RunContinues(s: State, events: seq<Event>)
    requires events != [] && Step(s, events[0]).Continue?
    ensures Run(s, events) == Shifted(Run(Step(s, events[0]).next, events[1..]), 1)
  {
  }

  lemma {:induction false} Limbo1Skips(pre: seq<Event>, rest: seq<Event>)
    requires forall i :: 0 <= i < |pre| ==> SkippedInLimbo1(pre[i])
    ensures Run(Limbo1, pre + rest) == Shifted(Run(Limbo1, rest), |pre|)
    decreases |pre|
  {
    if pre != [] {
      assert (pre + rest)[0] == pre[0] && (pre + rest)[1..] == pre[1..] + rest;
      RunContinues(Limbo1, pre + rest);
      Limbo1Skips(pre[1..], rest);
    } else {
      assert pre + rest == rest;
    }
  }

  lemma {:induction false} Limbo2Skips(title: string, mid: seq<Event>, rest: seq<Event>)
    requires forall i :: 0 <= i < |mid| ==> SkippedInLimbo2(mid[i])
    ensures Run(Limbo2(title), mid + rest) == Shifted(Run(Limbo2(title), rest), |mid|)
    decreases |mid|
  {
    if mid != [] {
      assert (mid + rest)[0] == mid[0] && (mid + rest)[1..] == mid[1..] + rest;
      RunContinues(Limbo2(title), mid + rest);
      Limbo2Skips(title, mid[1..], rest);
    } else {
      assert mid + rest == rest;
    }
  }

  /** The end of the document reached in `Limbo1` ends the extraction: `read_page` returns `None`. */
  lemma EofInLimbo1(pre: seq<Event>, rest: seq<Event>)
    requires forall i :: 0 <= i < |pre| ==> SkippedInLimbo1(pre[i])
    ensures Run(Limbo1, pre + [Eof] + rest) == RunResult(EndOfInput, |pre| + 1)
  {
    assert pre + [Eof] + rest == pre + ([Eof] + rest);
    Limbo1Skips(pre, [Eof] + rest);
  }

  /**
   * Without an opening `title` tag (and without a reader error) no page and no
   * error can come out: the run ends at the end of the document, or the events
   * run out while the machine is still in `Limbo1`.
   */
  lemma {:induction false} NoTitleNoPage(events: seq<Event>)
    requires forall i :: 0 <= i < |events| ==> events[i] != Start(TitleTag) && events[i] != Unreadable
    ensures Run(Limbo1, events).outcome == EndOfInput || Run(Limbo1, events).outcome == Exhausted(Limbo1)
    decreases |events|
  {
    if events != [] && events[0] != Eof {
      NoTitleNoPage(events[1..]);
    }
  }

  /**
   * `Limbo2` ignores every event but the opening `text` tag, the end of the
   * document included: after a title, a stream with no `text` element never
   * ends the call. On a reader that keeps answering `Eof`, `read_page` loops.
   */
  lemma Limbo2NeverEnds(title: string, mid: seq<Event>)
    requires forall i :: 0 <= i < |mid| ==> SkippedInLimbo2(mid[i])
    ensures Run(Limbo2(title), mid) == RunResult(Exhausted(Limbo2(title)), |mid|)
  {
    assert mid + [] == mid;
    Limbo2Skips(title, mid, []);
  }

  /**
   * A title element with no text element after it is not reported as
   * malformed: the machine stays in `Limbo2` holding the title, whatever
   * follows, end of document included.
   */
  lemma TitleWithoutText(pre: seq<Event>, title: string, mid: seq<Event>)
    requires forall i :: 0 <= i < |pre| ==> SkippedInLimbo1(pre[i])
    requires forall i :: 0 <= i < |mid| ==> SkippedInLimbo2(mid[i])
    ensures Run(Limbo1, pre + [Start(TitleTag), Event.Text(Some(title)), End(TitleTag)] + mid)
         == RunResult(Exhausted(Limbo2(title)), |pre| + 3 + |mid|)
  {
    var head := [Start(TitleTag), Event.Text(Some(title)), End(TitleTag)];
    assert pre + head + mid == pre + (head + mid);
    Limbo1Skips(pre, head + mid);
    TitleElement(title, mid);
    Limbo2NeverEnds(title, mid);
  }

  /** The three events of a title element take `Limbo1` to `Limbo2` holding the title. */
  lemma TitleElement(title: string, rest: seq<Event>)
    ensures Run(Limbo1, [Start(TitleTag), Event.Text(Some(title)), End(TitleTag)] + rest)
         == Shifted(Run(Limbo2(title), rest), 3)
  {
    var x := [Start(TitleTag), Event.Text(Some(title)), End(TitleTag)] + rest;
    assert x[0] == Start(TitleTag) && x[1..][0] == Event.Text(Some(title)) && x[1..][1..][0] == End(TitleTag);
    assert x[1..][1..][1..] == rest;
    RunContinues(Limbo1, x);
    RunContinues(TitleStarted, x[1..]);
    RunContinues(Title(title), x[1..][1..]);
  }

  /** The three events of a text element, met in `Limbo2`, emit the page. */
  lemma TextElement(title: string, text: string, rest: seq<Event>)
    ensures Run(Limbo2(title), [Start(TextTag), Event.Text(Some(text)), End(TextTag)] + rest)
         == RunResult(Found(Page(title, text)), 3)
  {
    var x := [Start(TextTag), Event.Text(Some(text)), End(TextTag)] + rest;
    assert x[0] == Start(TextTag) && x[1..][0] == Event.Text(Some(text)) && x[1..][1..][0] == End(TextTag);
    RunContinues(Limbo2(title), x);
    RunContinues(TextStarted(title), x[1..]);
  }

  /**
   * A well-formed page: whatever `Limbo1` skips, a title element, whatever
   * `Limbo2` skips, and a text element. The call returns exactly that title
   * and text, and leaves the reader just after the closing `text` tag.
   */
  lemma WellFormedPage(pre: seq<Event>, title: string, mid: seq<Event>, text: string, rest: seq<Event>)
    requires forall i :: 0 <= i < |pre| ==> SkippedInLimbo1(pre[i])
    requires forall i :: 0 <= i < |mid| ==> SkippedInLimbo2(mid[i])
    ensures Run(Limbo1, pre + [Start(TitleTag), Event.Text(Some(title)), End(TitleTag)] + mid
                        + [Start(TextTag), Event.Text(Some(text)), End(TextTag)] + rest)
         == RunResult(Found(Page(title, text)), |pre| + |mid| + 6)
  {
    var head := [Start(TitleTag), Event.Text(Some(title)), End(TitleTag)];
    var tail := [Start(TextTag), Event.Text(Some(text)), End(TextTag)];
    assert pre + head + mid + tail + rest == pre + (head + (mid + (tail + rest)));
    Limbo1Skips(pre, head + (mid + (tail + rest)));
    TitleElement(title, mid + (tail + rest));
    Limbo2Skips(title, mid, tail + rest);
    TextElement(title, text, rest);
  }

  /** The events of a page, with nothing around them, give back that page. */
  lemma PageEventsRead(p: Page, rest: seq<Event>)
    ensures Run(Limbo1, PageEvents(p) + rest) == RunResult(Found(p), 6)
  {
    var head := [Start(TitleTag), Event.Text(Some(p.title)), End(TitleTag)];
    var tail := [Start(TextTag), Event.Text(Some(p.text)), End(TextTag)];
    assert PageEvents(p) + rest == [] + head + [] + tail + rest;
    WellFormedPage([], p.title, [], p.text, rest);
  }

  /**
   * In a committed state the one expected kind of event is the only way
   * forward: any other event (short of a reader error, which wins in every
   * state) fails the call with an error naming that state and that event,
   * and the expected one never does, unless its text cannot be unescaped.
   */
  lemma CommittedStateRejects(s: State, e: Event, rest: seq<Event>)
    requires Committed(s)
    ensures Step(s, e) == Fail(Unexpected(s, e)) <==> !Expected(s, e) && e != Unreadable
    ensures !Expected(s, e) && e != Unreadable ==> Run(s, [e] + rest) == RunResult(Failed(Unexpected(s, e)), 1)
    ensures Expected(s, e) && e != Event.Text(None) ==> Step(s, e).Continue? || Step(s, e).Emit?
  {
    assert ([e] + rest)[0] == e;
  }

  /** An opening `title` tag followed directly by the closing one (an empty title) is an error. */
  lemma EmptyTitleRejected(pre: seq<Event>, rest: seq<Event>)
    requires forall i :: 0 <= i < |pre| ==> SkippedInLimbo1(pre[i])
    ensures Run(Limbo1, pre + [Start(TitleTag), End(TitleTag)] + rest)
         == RunResult(Failed(Unexpected(TitleStarted, End(TitleTag))), |pre| + 2)
  {
    assert pre + [Start(TitleTag), End(TitleTag)] + rest == pre + ([Start(TitleTag), End(TitleTag)] + rest);
    Limbo1Skips(pre, [Start(TitleTag), End(TitleTag)] + rest);
  }

  /** The end of the document right after an opening `text` tag is an error. */
  lemma EofInTextRejected(pre: seq<Event>, title: string, mid: seq<Event>, rest: seq<Event>)
    requires forall i :: 0 <= i < |pre| ==> SkippedInLimbo1(pre[i])
    requires forall i :: 0 <= i < |mid| ==> SkippedInLimbo2(mid[i])
    ensures Run(Limbo1, pre + [Start(TitleTag), Event.Text(Some(title)), End(TitleTag)] + mid
                        + [Start(TextTag), Eof] + rest)
         == RunResult(Failed(Unexpected(TextStarted(title), Eof)), |pre| + |mid| + 5)
  {
    var head := [Start(TitleTag), Event.Text(Some(title)), End(TitleTag)];
    var tail := [Start(TextTag), Eof];
    assert pre + head + mid + tail + rest == pre + (head + (mid + (tail + rest)));
    Limbo1Skips(pre, head + (mid + (tail + rest)));
    TitleElement(title, mid + (tail + rest));
    Limbo2Skips(title, mid, tail + rest);
    var y := tail + rest;
    assert y[0] == Start(TextTag) && y[1..][0] == Eof;
    RunContinues(Limbo2(title), y);
  }

  /**
   * A page takes at least one event per remaining state: from `Limbo1`, at
   * least the six events of a title element and a text element.
   */
  lemma {:induction false} PageNeedsSixEvents(s: State, events: seq<Event>)
    requires Run(s, events).outcome.Found?
    ensures Run(s, events).used >= 6 - Rank(s)
    decreases |events|
  {
    match Step(s, events[0])
    case Continue(next) =>
      PageNeedsSixEvents(next, events[1..]);
    case Emit(_) =>
    case Done =>
    case Fail(_) =>
  }

  /** The title and the text of a page found from `Limbo1` are unescaped payloads of text events it consumed, in that order. */
  lemma PageComesFromEvents(events: seq<Event>)
    requires Run(Limbo1, events).outcome.Found?
    ensures var r := Run(Limbo1, events);
      exists i, j :: 0 <= i < j < r.used &&
        events[i] == Event.Text(Some(r.outcome.page.title)) && events[j] == Event.Text(Some(r.outcome.page.text))
  {
    Origin(Limbo1, events);
  }

  /**
   * The induction behind `PageComesFromEvents`: a title already captured is
   * the one emitted, and one still to be captured comes from a text event of
   * the run; likewise for the text, which comes after the title.
   */
  lemma {:induction false} Origin(s: State, events: seq<Event>)
    requires Run(s, events).outcome.Found?
    ensures var r := Run(s, events); var p := r.outcome.page;
      (HasTitle(s) ==> p.title == s.title) &&
      (s.Text? ==> p.text == s.text) &&
      (!s.Text? ==>
         exists j :: 0 <= j < r.used && events[j] == Event.Text(Some(p.text)) &&
           (!HasTitle(s) ==> exists i :: 0 <= i < j && events[i] == Event.Text(Some(p.title))))
    decreases |events|
  {
    var r := Run(s, events);
    var p := r.outcome.page;
    match Step(s, events[0])
    case Continue(next) =>
      Origin(next, events[1..]);
      var r' := Run(next, events[1..]);
      assert r.used == r'.used + 1 && r'.outcome == r.outcome;
      if !s.Text? {
        if next.Text? {
          assert events[0] == Event.Text(Some(p.text));
          assert HasTitle(s);
        } else {
          var j' :| 0 <= j' < r'.used && events[1..][j'] == Event.Text(Some(p.text)) &&
            (!HasTitle(next) ==> exists i :: 0 <= i < j' && events[1..][i] == Event.Text(Some(p.title)));
          assert events[j' + 1] == Event.Text(Some(p.text));
          if !HasTitle(s) {
            if HasTitle(next) {
              assert events[0] == Event.Text(Some(p.title));
            } else {
              var i' :| 0 <= i' < j' && events[1..][i'] == Event.Text(Some(p.title));
              assert events[i' + 1] == Event.Text(Some(p.title));
            }
          }
        }
      }
    case Emit(_) =>
    case Done =>
    case Fail(_) =>
  }

  /**
   * A run over events that end with `Eof` runs out only in `Limbo2`: every
   * other state either stops on `Eof` or fails on it.
   */
  lemma {:induction false} ExhaustedOnlyInLimbo2(s: State, events: seq<Event>)
    requires events != [] && events[|events| - 1] == Eof
    requires Run(s, events).outcome.Exhausted?
    ensures Run(s, events).outcome.state.Limbo2?
    decreases |events|
  {
    match Step(s, events[0])
    case Continue(next) =>
      if |events| == 1 {
        assert events[0] == Eof;
        assert next.Limbo2?;
      } else {
        ExhaustedOnlyInLimbo2(next, events[1..]);
      }
    case Emit(_) =>
    case Done =>
    case Fail(_) =>
  }

  /**
   * A page whose text element is self-closing (`<text/>`, an `Other` event)
   * gets no page of its own: `Limbo2` skips it and the next page's title
   * element too, so the first title is paired with the next page's text.
   */
  lemma SelfClosingTextTakesNextText(pre: seq<Event>, title: string, nextTitle: string, text: string, rest: seq<Event>)
    requires forall i :: 0 <= i < |pre| ==> SkippedInLimbo1(pre[i])
    ensures Run(Limbo1, pre + [Start(TitleTag), Event.Text(Some(title)), End(TitleTag)]
                        + [Other, Start(TitleTag), Event.Text(Some(nextTitle)), End(TitleTag)]
                        + [Start(TextTag), Event.Text(Some(text)), End(TextTag)] + rest)
         == RunResult(Found(Page(title, text)), |pre| + 10)
  {
    var mid := [Other, Start(TitleTag), Event.Text(Some(nextTitle)), End(TitleTag)];
    WellFormedPage(pre, title, mid, text, rest);
  }
}
