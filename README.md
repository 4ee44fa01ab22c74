# wikigraph core, modelled in Dafny

wikigraph reads a Wikipedia XML dump (raw, bzip2 or multistream bzip2),
extracts every page's title and wikitext, finds the `[[target]]` /
`[[target|display]]` links in the text, and builds an in-memory map from
each title to the set of titles it links to, printing how many titles it
holds. Everything lives in `src/main.rs`. This project models its four
pieces of logic and proves what they do:

- `file_kind.dfy` (module `FileKind`): the file-name classification of
  `read_xml`, ASCII lower-casing followed by two suffix tests.
- `page_reader.dfy` (module `PageReader`): the six-state machine of
  `read_page` as a transition function `Step`, its run `Run` over a finite
  event sequence, and the imperative loop `ReadPage` proved equal to `Run`.
  `page_reader_properties.dfy` (module `PageReaderProperties`) holds the
  lemmas about it.
- `wiki_links.dfy` (module `WikiLinks`): `links`, the regular expression
  `\[\[([^\[\]]+?)(?:\|[^\[\]]*)?\]\]` searched leftmost-first without
  overlap and collected into a set, as a hand-written scanner `Scan`, with a
  declarative statement of the pattern's matches (`IsLinkMatch`).
  `wiki_links_properties.dfy` (module `WikiLinksProperties`) connects the two
  and proves the properties of the result.
- `wiki_graph.dfy` (module `WikiGraph`): the producer loop that calls
  `read_page` until it returns `None`, the consumer loop that folds pages
  into the `HashMap<String, HashSet<String>>`, and `main` with the two
  composed sequentially.
- `wrappers.dfy` (module `Wrappers`): the `Option` type.

Inputs that come from the outside world are parameters: the file name
(already a valid UTF-8 string) and the sequence of XML events the reader
produces. A text event carries the result of unescaping its content
(`None` when unescaping fails). The reader's own failure is the event
`Unreadable`. Tag names are compared exactly with `title` and `text`, as the
raw element names are. Empty elements such as `<title/>`, CDATA, comments
and declarations are all `Other`.

Because the event sequence is finite, a call of `read_page` can run out of
events; the model then returns `Exhausted(state)`. A real reader answers
`Eof` for ever after the end of the document, so the only way this happens
on reader output that ends with `Eof` is the machine sitting in `Limbo2`,
which ignores `Eof`: the program would loop there. `Limbo2NeverEnds`,
`TitleWithoutText`, `ExhaustedOnlyInLimbo2` and `StallOnlyInLimbo2` state
it.

The extractor is lax in a few places, and the model follows the code:
- A title element with no text element after it is not reported as a
  malformed document at the end of input. `Limbo2` swallows `Eof` and the
  call never returns.
- A text element with no title before it is skipped in `Limbo1`, not an
  error.
- The page is emitted on the closing `text` tag, not on the text event.
- A self-closing `<text/>` is not a text element for the extractor: the
  page's title is paired with the text of the next page
  (`SelfClosingTextTakesNextText`).
- Links are collected into a set per page and the map merges pages with the
  same title. There is no edge list, no duplicate edge and no store. The
  printed number is the number of distinct titles.

## Model

| member | source | states |
|---|---|---|
| FileKind.AsciiLower | src/main.rs:77 | the result is never an ASCII capital; a non-capital is unchanged; a capital becomes its small letter |
| FileKind.AsciiLowercase | src/main.rs:76-77 | same length, every ASCII capital becomes its own small letter (`A` to `a` … `Z` to `z`), and every other character is unchanged |
| FileKind.Classify | src/main.rs:76-97 | the lower-cased name is multistream exactly when it ends in `multistream.xml.bz2`, bzip2 exactly when it ends in `.xml.bz2` but not `multistream.xml.bz2`, raw exactly when it does not end in `.xml.bz2` |
| FileKind.MultistreamSuffixIsBzip2Suffix | src/main.rs:79-86 | every multistream name also ends in `.xml.bz2`, so the multistream test must come first |
| FileKind.ClassifyIgnoresAsciiCase | src/main.rs:76-79 | names that agree up to ASCII case are classified alike |
| FileKind.ClassifyLowercased | src/main.rs:76-79 | classifying the lower-cased name gives the same kind as the name itself |
| FileKind.ClassifyMultistreamName | src/main.rs:79-85 | any stem followed by `multistream.xml.bz2` in any ASCII case is multistream |
| FileKind.ClassifyBzip2Name | src/main.rs:86-92 | any stem not ending in `multistream`, followed by `.xml.bz2` in any ASCII case, is bzip2 |
| FileKind.ClassifyDumpName | src/main.rs:79-85 | `enwiki-latest-pages-articles-multistream.xml.bz2` is multistream |
| FileKind.ClassifyMixedCaseName | src/main.rs:76-92 | `dump.XML.Bz2` is bzip2 |
| FileKind.ClassifyRawName | src/main.rs:93-96 | `dump.xml` is raw |
| PageReader.Step | src/main.rs:128-163 | the machine moves forward at most one state per event and never back; a captured title is carried unchanged; only the closing `text` tag in `Text` emits, and it emits the captured title and text; only `Eof` in `Limbo1` ends extraction; `Limbo2` fails only on a reader error; a reader error fails in every state; text that cannot be unescaped fails in `TitleStarted` and `TextStarted` |
| PageReader.Run | src/main.rs:120-166 | a run consumes no more events than it is given, all of them when it runs out, and at least one when it has an outcome; `None` comes on an `Eof` and a page on a closing `text` tag, each the last event consumed |
| PageReader.ReadPage | src/main.rs:106-167 | the loop starting fresh in `Limbo1` at the reader's position returns the outcome of the run and leaves the reader after the events the run consumed |
| PageReaderProperties.Limbo1Skips | src/main.rs:129-135 | `Limbo1` passes over every event other than `Eof`, an opening `title` tag and a reader error |
| PageReaderProperties.Limbo2Skips | src/main.rs:143-148 | `Limbo2` passes over every event other than an opening `text` tag and a reader error, keeping its title |
| PageReaderProperties.EofInLimbo1 | src/main.rs:129-131 | `Eof` reached in `Limbo1` after skipped events returns `None` |
| PageReaderProperties.NoTitleNoPage | src/main.rs:129-135 | without an opening `title` tag and no reader error, no page and no error result: the end of the document or running out in `Limbo1` |
| PageReaderProperties.Limbo2NeverEnds | src/main.rs:143-148 | from `Limbo2`, events with no opening `text` tag and no reader error, `Eof` included, never end the call |
| PageReaderProperties.TitleWithoutText | src/main.rs:132-148 | a title element followed by events with no opening `text` tag and no reader error leaves the machine in `Limbo2` holding the title, never an error |
| PageReaderProperties.TitleElement | src/main.rs:132-142 | opening `title`, text, closing `title` take `Limbo1` to `Limbo2` with that title |
| PageReaderProperties.TextElement | src/main.rs:143-157 | opening `text`, text, closing `text` in `Limbo2` emit the page with the held title and that text |
| PageReaderProperties.WellFormedPage | src/main.rs:132-157 | skipped events, a title element, skipped events and a text element return exactly that title and text and consume exactly those events |
| PageReaderProperties.PageEventsRead | src/main.rs:118-157 | the six events of a page read back as that page |
| PageReaderProperties.CommittedStateRejects | src/main.rs:136-162 | in `TitleStarted`, `Title`, `TextStarted`, `Text` an event fails with an error carrying that state and event exactly when it is not the expected one and not a reader error; the expected one never fails unless unescaping fails |
| PageReaderProperties.EmptyTitleRejected | src/main.rs:132-161 | an opening `title` tag directly followed by the closing one is an error in `TitleStarted` |
| PageReaderProperties.EofInTextRejected | src/main.rs:143-161 | `Eof` directly after an opening `text` tag is an error in `TextStarted` |
| PageReaderProperties.PageNeedsSixEvents | src/main.rs:128-157 | a page found from `Limbo1` consumed at least six events |
| PageReaderProperties.PageComesFromEvents | src/main.rs:136-156 | the title and text of a found page are unescaped payloads of text events of the run, the title's before the text's |
| PageReaderProperties.ExhaustedOnlyInLimbo2 | src/main.rs:129-161 | on events ending with `Eof`, a run that runs out does so in `Limbo2` |
| PageReaderProperties.SelfClosingTextTakesNextText | src/main.rs:143-157 | a title element, a self-closing text element, the next page's title element and its text element give the first title with the second page's text |
| PageReaderProperties.Origin | src/main.rs:136-156 | an already captured title or text is the one emitted; one still to be captured comes from a consumed text event |
| WikiLinks.IsLinkMatch | src/main.rs:171 | a match of the pattern captures a non-empty bracket-free group that sits in the text right after `[[` |
| WikiLinks.Target | src/main.rs:171 | the first group is the shortest non-empty prefix of the interior that is followed by the end or by `\|` |
| WikiLinks.RunEnd | src/main.rs:171 | the end of the bracket-free run from a position: everything before it is bracket-free, and it is the end of the text or a bracket |
| WikiLinks.PipeFrom | src/main.rs:171 | the first `\|` at or after a position, or the end |
| WikiLinks.MatchAt | src/main.rs:171 | a match starting at a position begins with `[` and spans at least five characters |
| WikiLinks.Scan | src/main.rs:173-175 | every capture found is non-empty and bracket-free |
| WikiLinks.Links | src/main.rs:169-177 | every element of the link set is non-empty and bracket-free |
| WikiLinksProperties.RunEndOfClean | src/main.rs:171 | a bracket-free stretch ended by a bracket or the end is exactly the run the scanner measures |
| WikiLinksProperties.MatchAtSound | src/main.rs:171 | the scanner's match is a match of the pattern with the leftmost-first capture |
| WikiLinksProperties.MatchAtComplete | src/main.rs:171 | every match of the pattern at a position is the one the scanner returns there |
| WikiLinksProperties.ScanFindsLeftmost | src/main.rs:173-175 | with no match in between, the search reports the next match's capture and resumes after its end |
| WikiLinksProperties.ScanFindsNothing | src/main.rs:173-175 | where no match of the pattern starts, nothing is found |
| WikiLinksProperties.LinksExactly | src/main.rs:171-176 | a string is in the link set exactly when some match of the pattern anywhere in the text captures it: no match is missed, none invented |
| WikiLinksProperties.LinksOccurInText | src/main.rs:169-177 | every link target is a substring of the text |
| WikiLinksProperties.NoOpenerNoLinks | src/main.rs:169-177 | a text with no `[[` has no links |
| WikiLinksProperties.MatchAtShift | src/main.rs:171 | a match depends only on the text from its start onwards |
| WikiLinksProperties.ScanSuffix | src/main.rs:173-175 | scanning the end of a text is scanning that end alone |
| WikiLinksProperties.PlainThen | src/main.rs:173-175 | text without `[` before the rest adds and hides no link |
| WikiLinksProperties.LinkThen | src/main.rs:171-175 | a complete link before the rest contributes its target and nothing else |
| WikiLinksProperties.TargetWithoutPipe | src/main.rs:171 | without `\|` the whole interior is the target |
| WikiLinksProperties.TargetWithPipe | src/main.rs:171 | the target stops at the first `\|`; the display part is dropped |
| WikiLinksProperties.SingleLink | src/main.rs:169-177 | `[[X]]` yields exactly `{X}` |
| WikiLinksProperties.PipedLink | src/main.rs:169-177 | `[[X\|Y]]` yields exactly `{X}` |
| WikiLinksProperties.RepeatedLinkCollapses | src/main.rs:169-177 | `[[X]][[X\|Y]]` yields `{X}`: repeated targets are one element |
| WikiLinksProperties.TwoLinksInText | src/main.rs:169-177 | two links in running text yield both targets and nothing else |
| WikiLinksProperties.RunningTextExample | src/main.rs:169-177 | `See [[Rust (programming language)\|Rust]] and [[WebAssembly]].` yields `Rust (programming language)` and `WebAssembly` |
| WikiLinksProperties.EmptyInteriorNoLink | src/main.rs:171 | `[[]]` yields nothing |
| WikiLinksProperties.UnclosedNoLink | src/main.rs:171 | `[[a]` yields nothing |
| WikiLinksProperties.ThirdBracketSkipped | src/main.rs:171-175 | `[[[a]]` yields `{a}`: the failed start is retried one position later |
| WikiLinksProperties.FirstPipeEndsTarget | src/main.rs:171 | `[[a\|b\|c]]` yields `{a}` |
| WikiGraph.LinksOf | src/main.rs:45-52 | every target in a title's merged set is non-empty and bracket-free |
| WikiGraph.LinksOfSpec | src/main.rs:45-52 | a target is in a title's merged set exactly when some page with that title links to it |
| WikiGraph.LinksOfAbsentTitle | src/main.rs:45-52 | a title no page carries has no links |
| WikiGraph.TitlesBound | src/main.rs:54 | the number of distinct titles is at most the number of pages |
| WikiGraph.Aggregate | src/main.rs:43-54 | the map's keys are exactly the distinct titles, each value the union of the links of the pages with that title, and the printed count the number of distinct titles |
| WikiGraph.Produce | src/main.rs:37-39 | six events per page sent, in total (`6 * \|pages\| <= \|events\|`), and the producer stops normally only after an `Eof` |
| WikiGraph.StallOnlyInLimbo2 | src/main.rs:37-39 | on events ending with `Eof`, the producer can stall only in `Limbo2` |
| WikiGraph.ReadPages | src/main.rs:37-39 | the producer loop sends exactly the pages of successive `read_page` calls and stops as the first call without a page does |
| WikiGraph.DocumentRoundTrip | src/main.rs:37-39 | a document made of page elements reads back as exactly those pages, then `None`; the empty document yields none |
| WikiGraph.WikiGraphRun | src/main.rs:29-56 | the final map is the aggregate of the produced pages; the count is printed on normal end, and also after a producer panic, once the dropped sender ends the consumer's loop and before the scope re-raises the panic; nothing is printed when the producer never finishes |

## Left out

- Threads, `thread::scope` and the `mpsc` channel: the two loops are composed sequentially, pages passing in order.
- The file-system checks, the file-name extraction and UTF-8 conversion, and opening the file: I/O. The classification takes the file name as a string.
- bzip2 decompression, XML tokenization and entity unescaping: library code. They are replaced by a finite event sequence whose text events carry the unescaping result.
- The `regex` engine: its leftmost-first match semantics for this one pattern are written out as `IsLinkMatch` and implemented by `Scan`.
- The reused event buffer cleared after each event: memory reuse only.
- `clap` argument parsing, `tracing` logging and the `println!` text: glue and output. `WikiGraphRun` returns the printed count.
- Byte-level suffix tests: the classification compares characters, not bytes. Both suffixes are ASCII, so in UTF-8 a byte suffix and a character suffix agree.
