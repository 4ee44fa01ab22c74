/**
 * The two loops of `main` in src/main.rs, without the threads and the
 * channel between them: the producer calls `read_page` until it returns
 * `None` (panicking on an error), and the consumer folds every page's links
 * into a map from title to the set of linked titles, then prints how many
 * titles it holds.
 */
module WikiGraph {
  import opened PageReader
  import opened WikiLinks
  import PageReaderProperties

  /** The distinct titles of a sequence of pages. */
  function Titles(pages: seq<Page>): set<string> {
    set i | 0 <= i < |pages| :: pages[i].title
  }

  /** The union of the links of every page carrying `title`. */
  function LinksOf(pages: seq<Page>, title: string): (r: set<string>)
    ensures forall x :: x in r ==> x != [] && NoBrackets(x)
    decreases |pages|
  {
    if pages == [] then {}
    else
      var last := pages[|pages| - 1];
      LinksOf(pages[..|pages| - 1], title) + (if last.title == title then Links(last.text) else {})
  }

  /**
   * `LinksOf` in words: a target is linked from a title exactly when some
   * page with that title links to it.
   */
  lemma {:induction false} LinksOfSpec(pages: seq<Page>, title: string, target: string)
    ensures target in LinksOf(pages, title) <==>
      exists i :: 0 <= i < |pages| && pages[i].title == title && target in Links(pages[i].text)
    decreases |pages|
  {
    if pages != [] {
      var n := |pages| - 1;
      var init := pages[..n];
      LinksOfSpec(init, title, target);
      if target in LinksOf(pages, title) && target !in LinksOf(init, title) {
        assert pages[n].title == title && target in Links(pages[n].text);
      }
      if i :| 0 <= i < |pages| && pages[i].title == title && target in Links(pages[i].text) {
        if i < n {
          assert init[i] == pages[i];
        }
      }
    }
  }

  /** A title no page carries has no links. */
  lemma LinksOfAbsentTitle(pages: seq<Page>, title: string)
    requires title !in Titles(pages)
    ensures LinksOf(pages, title) == {}
  {
    forall target | target in LinksOf(pages, title)
      ensures false
    {
      LinksOfSpec(pages, title, target);
    }
  }

  /** There are never more distinct titles, hence printed pages, than pages read. */
  lemma {:induction false} TitlesBound(pages: seq<Page>)
    ensures |Titles(pages)| <= |pages|
    decreases |pages|
  {
    if pages != [] {
      var n := |pages| - 1;
      TitlesBound(pages[..n]);
      assert Titles(pages) == Titles(pages[..n]) + {pages[n].title} by {
        assert forall j :: 0 <= j < n ==> pages[..n][j] == pages[j];
      }
    }
  }

  /**
   * The consumer: each page's links are added to the set already held for
   * its title (`get_mut` and `extend`), or stored as a new entry (`insert`).
   * The printed number is the size of the map.
   */
  method Aggregate(pages: seq<Page>) returns (wiki: map<string, set<string>>, count: nat)
    ensures wiki.Keys == Titles(pages)
    ensures forall title :: title in wiki ==> wiki[title] == LinksOf(pages, title)
    ensures count == |Titles(pages)|
  {
    wiki := map[];
    for i := 0 to |pages|
      invariant wiki.Keys == Titles(pages[..i])
      invariant forall title :: title in wiki ==> wiki[title] == LinksOf(pages[..i], title)
    {
      var page := pages[i];
      var links := Links(page.text);
      assert pages[..i + 1][..i] == pages[..i];
      assert Titles(pages[..i + 1]) == Titles(pages[..i]) + {page.title} by {
        assert forall j :: 0 <= j < i ==> pages[..i + 1][j] == pages[..i][j];
      }
      forall title
        ensures LinksOf(pages[..i + 1], title) == LinksOf(pages[..i], title) + (if page.title == title then links else {})
      {
      }
      if page.title in wiki {
        wiki := wiki[page.title := wiki[page.title] + links];
      } else {
        LinksOfAbsentTitle(pages[..i], page.title);
        wiki := wiki[page.title := links];
      }
    }
    assert pages[..|pages|] == pages;
    count := |wiki|;
    assert |wiki| == |wiki.Keys|;
  }

  /** How the producer stopped. */
  datatype Stop =
    | Drained                  // `read_page` returned `None`
    | Aborted(error: Error)    // `read_page` returned an error and the producer panicked
    | Stalled(state: State)    // the events ran out inside a call of `read_page`

  /** The pages the producer sends, in order, and how it stopped. */
  datatype Production = Production(pages: seq<Page>, stop: Stop)

  /** The producer's loop as a function: pages are read one call at a time until a call does not return one. */
  function Produce(events: seq<Event>): (r: Production)
    // Every page sent took at least the six events of a title and a text element.
    ensures 6 * |r.pages| <= |events|
    // The producer stops normally only after the reader has reported the end of the document.
    ensures r.stop == Drained ==> Eof in events
    decreases |events|
  {
    var run := Run(Limbo1, events);
    match run.outcome
    case Found(page) =>
      PageReaderProperties.PageNeedsSixEvents(Limbo1, events);
      var rest := Produce(events[run.used..]);
      assert rest.stop == Drained ==> Eof in events by {
        if Eof in events[run.used..] {
          var k :| 0 <= k < |events[run.used..]| && events[run.used..][k] == Eof;
          assert events[run.used + k] == Eof;
        }
      }
      Production([page] + rest.pages, rest.stop)
    case EndOfInput => Production([], Drained)
    case Failed(error) => Production([], Aborted(error))
    case Exhausted(state) => Production([], Stalled(state))
  }

  /** The events of a dump that holds exactly these pages, each a bare title element and text element, then its end. */
  function Document(pages: seq<Page>): seq<Event>
    decreases |pages|
  {
    if pages == [] then [Eof] else PageReaderProperties.PageEvents(pages[0]) + Document(pages[1..])
  }

  /**
   * Reading a document back yields its pages, in order and each exactly
   * once, and then `None`; the empty document yields no page.
   */
  lemma {:induction false} DocumentRoundTrip(pages: seq<Page>)
    ensures Produce(Document(pages)) == Production(pages, Drained)
    decreases |pages|
  {
    if pages == [] {
      assert Run(Limbo1, [Eof]).outcome == EndOfInput;
    } else {
      var rest := Document(pages[1..]);
      PageReaderProperties.PageEventsRead(pages[0], rest);
      assert Document(pages)[6..] == rest;
      DocumentRoundTrip(pages[1..]);
      assert [pages[0]] + pages[1..] == pages;
    }
  }

  /**
   * On reader output that ends with `Eof`, as a real reader's does, the
   * producer can stall only in `Limbo2`: the one state that ignores `Eof`.
   * That is the only way `WikiGraphRun` ends in `Hangs` on such output.
   */
  lemma {:induction false} StallOnlyInLimbo2(events: seq<Event>)
    requires events != [] && events[|events| - 1] == Eof
    requires Produce(events).stop.Stalled?
    ensures Produce(events).stop.state.Limbo2?
    decreases |events|
  {
    var run := Run(Limbo1, events);
    match run.outcome
    case Found(_) =>
      var rest := events[run.used..];
      assert run.used < |events|;
      assert rest[|rest| - 1] == Eof;
      StallOnlyInLimbo2(rest);
    case Exhausted(_) =>
      PageReaderProperties.ExhaustedOnlyInLimbo2(Limbo1, events);
  }

  /** The producer: `while let Some(page) = read_page(..)?` on one reader, collecting what it would send. */
  method ReadPages(events: seq<Event>) returns (pages: seq<Page>, stop: Stop)
    ensures Production(pages, stop) == Produce(events)
  {
    pages := [];
    var pos := 0;
    while true
      invariant pos <= |events|
      invariant Produce(events) == Production(pages + Produce(events[pos..]).pages, Produce(events[pos..]).stop)
      decreases |events| - pos
    {
      var outcome, next := ReadPage(events, pos);
      match outcome
      case Found(page) =>
        assert events[pos..][next - pos..] == events[next..];
        pages := pages + [page];
        pos := next;
      case EndOfInput =>
        stop := Drained;
        return;
      case Failed(error) =>
        stop := Aborted(error);
        return;
      case Exhausted(state) =>
        stop := Stalled(state);
        return;
    }
  }

  /** How the program ends. */
  datatype Exit =
    | Finished(count: nat)                // prints the count and exits normally
    | Panicked(count: nat, error: Error)  // prints the count of the pages received, then the panic ends the process
    | Hangs                               // the producer never finishes, so nothing is printed

  /**
   * `main` without its threads. When the producer panics its end of the
   * channel is dropped, so the consumer still drains what it received and
   * prints its count before the scope propagates the panic.
   */
  method WikiGraphRun(events: seq<Event>) returns (wiki: map<string, set<string>>, exit: Exit)
    ensures wiki.Keys == Titles(Produce(events).pages)
    ensures forall title :: title in wiki ==> wiki[title] == LinksOf(Produce(events).pages, title)
    ensures exit == match Produce(events).stop
      case Drained => Finished(|Titles(Produce(events).pages)|)
      case Aborted(error) => Panicked(|Titles(Produce(events).pages)|, error)
      case Stalled(_) => Hangs
  {
    var pages, stop := ReadPages(events);
    var count;
    wiki, count := Aggregate(pages);
    match stop
    case Drained => exit := Finished(count);
    case Aborted(error) => exit := Panicked(count, error);
    case Stalled(_) => exit := Hangs;
  }
}
