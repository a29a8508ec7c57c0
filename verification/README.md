# gtoapp campaign crawler, modelled in Dafny

gtoapp finds review campaigns on a shopping-review site that a user can still
join. A FastAPI backend walks a range of campaign ids for a session. The
backend is two files:

- `crawler.py` resolves the public directory, evaluates each detail page
  against the user's days, keywords and price floors, and yields
  `hidden`/`public`/`error`/`done` events.
- `main.py` keeps per-session state: observers, buffers, the dedup set and the
  task handle. It relays each event to every WebSocket attached to the
  session.

The React frontend has two pages:

- A form (`App.jsx`) builds the query string.
- A result page (`Result.jsx`) inserts the incoming lines into two sorted,
  de-duplicated tables, and lets the user filter, delete and clear them.

The model keeps the same structure:

| module | file | models |
|---|---|---|
| `Options` | options.dfy | `Option` |
| `Strings` | strings.dfy | Python's and JavaScript's `split`, `join`, `replace`, `strip`, `str(n)` and `int(s)`, plus substring search |
| `Directory` | directory.dfy | `get_public_campaigns`: the three-attempt retry and the `data-csq` scan |
| `Evaluator` | evaluator.dfy | `fetch_campaign_data`: the ordered exclusion rules, the result line and the public/hidden split |
| `Orchestrator` | orchestrator.dfy | `run_crawler_streaming`: the two early errors, the id range, the ascending walk and the final `done` |
| `Broadcast` | broadcast.dfy | `main.py`: parameter normalisation, the three session maps as one immutable `Registry`, attach/detach/relay/stream-end/stream-fail/query as transitions, and a step relation whose invariant is proved over every run from the empty registry |
| `ResultView` | result_view.dfy | `Result.jsx`: `getCsq`, `insertUniqueSorted`, `clearResults`, the keyword filter and `handleDelete` |
| `Form` | form.dfy | `App.jsx`: the day labels, `toggleDay` and `handleSubmit` |

HTTP, HTML parsing and the browser are replaced by parameters:

- A detail page is an `Evaluator.Page`, the record of facts the parser would
  locate.
- A directory fetch is an `Attempt`.
- Per-id fetches are an oracle `pages: int -> Fetch`.
- Which observers' sends fail is a set `failing`.
- `localeCompare` is an arbitrary comparison `le`. Sortedness is proved when
  `le` is a total preorder.

Each backend transition (a connection, a relayed event, the end of the
stream) is taken as one atomic step. "## Left out" lists what the
interleaving of the awaited sends can do that this leaves out.

Behaviours of the code worth knowing:

- **`done` after an early error.** An early error (no directory, or a manual
  range with a bound missing) is followed by a `done`. The stream sends
  `done` after the generator ends (backend/main.py:127-131). See
  `Broadcast.EarlyErrorThenDone`.
- **`done` twice.** A completed run delivers `done` twice: the crawler's own,
  relayed, and then the stream's. See `Broadcast.CompletedRunDoneTwice`.
- **The task handle stays.** It is left in `ongoing_tasks` after the crawl
  finishes, so a new connection does not restart a finished crawl while
  observers remain. See `Broadcast.FinishedNotRestarted`.
- **The query creates nothing.** The results query creates no session state:
  it answers `not_found` exactly for sessions that never connected. See
  `Broadcast.QueryNotFoundIffNeverConnected`.
- **csq 0 is not deduplicated.** The dedup test `if csq` treats csq 0 as "no
  id", so a line with csq 0 is never deduplicated. See `Broadcast.DedupKey`.

## Model

| member | source | states |
|---|---|---|
| Directory.AttrValueAt | backend/crawler.py:21 | a value is read at `i` iff the attribute name occurs there and a digit follows it, after an optional quote; the value is the number that digit run denotes |
| Directory.RenderedIdFound | backend/crawler.py:21 | a script holding `data-csq="<n>"`, with no digit right after the number, yields the id n |
| Directory.PageIds | backend/crawler.py:20-22 | the page's ids are exactly the union of the ids of its script blocks |
| Directory.Resolve | backend/crawler.py:13-27 | at most three attempts; it stops at the first attempt that yields ids and returns those ids; every earlier attempt yielded none; all three are used when none yields any; one back-off sleep per transport failure among the attempts made |
| Evaluator.DayToken | backend/crawler.py:50 | none exactly when `\d\d일` occurs nowhere; otherwise the three characters at the leftmost position where it occurs |
| Evaluator.DayTokenIsFirst | backend/crawler.py:50 | when `\d\d일` first occurs at `i`, the day token is the three characters there |
| Evaluator.DayTokenSplice | backend/crawler.py:50 | around a text that cannot take part in a day token, the token is the left side's if it has one, else the right side's |
| Evaluator.ParticipationTime | backend/crawler.py:39-42 | the shown time holds no "시에" and has the same day token as the stripped button text |
| Evaluator.HourRewriteRemovesMarker | backend/crawler.py:41-42 | after every "시에" is rewritten, none is left |
| Evaluator.HourRewriteKeepsDayToken | backend/crawler.py:41-50 | rewriting "시에" to "시 00분에" never changes the day token, for any text |
| Evaluator.ProductName | backend/crawler.py:44-45 | the product name never contains '&' |
| Evaluator.PriceOf | backend/crawler.py:63-69 | a known price is a non-empty digit string |
| Evaluator.ShippingType | backend/crawler.py:71-77 | the shipping type is the placeholder or the stripped value of a section with both cells and a title containing "배송" |
| Evaluator.ShippingTypeIsFirst | backend/crawler.py:71-77 | the placeholder when no section has both cells and a "배송" title; otherwise the stripped value of the first such section |
| Evaluator.Floor | backend/crawler.py:90-97 | the passing threshold is one of 0, 90000, 28500, 8500 |
| Evaluator.BelowFloorIffUnderThreshold | backend/crawler.py:90-97 | the three price rules amount to "price below one threshold per shipping type and shop" |
| Evaluator.FloorMonotone | backend/crawler.py:90-97 | a price that passes still passes when raised |
| Evaluator.SmartStoreThreshold | backend/crawler.py:92 | with other-shipping and a SmartStore shop, a price is dropped iff it is below 90000 |
| Evaluator.SmartStoreExample | backend/crawler.py:92-93 | 95000 passes the SmartStore rule and 50000 is dropped |
| Evaluator.Evaluate | backend/crawler.py:29-103 | a campaign is accepted iff its page loaded and every rule passes; the accepted line is the result line of that id and page; a public line only for ids in the directory, a hidden line only for others; transport failure and the login wall are the reasons exactly when they occur |
| Evaluator.VerdictIgnoresId | backend/crawler.py:99-100 | two ids with the same page get the same verdict; for each, an accepted line is public iff the id is in the directory; their lines agree in the first six fields |
| Evaluator.KeywordExcludes | backend/crawler.py:60-61 | a product name containing any exclude keyword drops the campaign whatever else the page shows |
| Evaluator.KeywordExample | backend/crawler.py:44-61 | the heading "텀블러 & 단독특가" is dropped by the keyword "단독" once '&' is removed |
| Evaluator.HourRewriteExample | backend/crawler.py:39-50 | "20일에 10시에" is shown as "20일에 10시 00분에" and still yields the day token "20일" |
| Evaluator.ResultLineSplits | backend/crawler.py:99 | when no free-text field holds '&', splitting the result line on " & " gives back its seven fields, the name sixth and the URL last |
| Evaluator.PageFields | backend/crawler.py:99 | six fields are read off the page; the price and the product name hold no '&' |
| Evaluator.LineFields | backend/crawler.py:99 | a result line has seven fields; the price, the product name and the URL hold no '&' |
| Evaluator.LineFieldsIgnoreId | backend/crawler.py:99 | only the last field, the URL, depends on the campaign id |
| Evaluator.ResultLine | backend/crawler.py:99 | the line ends with the campaign URL |
| Evaluator.UrlLacksAmpersand | backend/crawler.py:30 | a campaign URL contains no '&' |
| Orchestrator.MinOf | backend/crawler.py:119 | the least element of the non-empty directory |
| Orchestrator.MaxOf | backend/crawler.py:120 | the greatest element of the non-empty directory |
| Orchestrator.Bounds | backend/crawler.py:118-124 | full-range mode spans the directory from its least to its greatest id; manual mode uses the given bounds |
| Orchestrator.Visit | backend/crawler.py:129-141 | one id yields at most one event, and exactly one iff it is not skipped and is accepted, carrying the line its decision calls for |
| Orchestrator.Walk | backend/crawler.py:128-141 | the events of a range are in strictly increasing id order, only for unskipped ids in range, each reporting its decision, and every accepted unskipped id of the range is present |
| Orchestrator.WalkConsSound | backend/crawler.py:128-141 | visiting the first id and walking the rest keeps the walk in range, unskipped, reporting and increasing |
| Orchestrator.WalkConsCovers | backend/crawler.py:128-141 | visiting the first id and walking the rest misses no accepted id |
| Orchestrator.RunCrawler | backend/crawler.py:105-143 | the run yields result events and then exactly one terminal event; the only error is the directory error (no directory) or the range error (manual mode with a bound missing), alone; otherwise the last event is `done` |
| Orchestrator.RunCrawlerWalksRange | backend/crawler.py:113-143 | a run that reaches `done` reports, in increasing id order, exactly the accepted, unskipped ids of its range (directory min..max or the manual bounds), each with the event the evaluator decides |
| Strings.SplitPartsLackSeparator | backend/main.py:104 | no part of a split contains the separator |
| Strings.Split | backend/main.py:104 | at least one part, and joining the parts with the separator gives back the string |
| Strings.SplitPartInside | backend/main.py:104 | every part of a split is a slice of the string |
| Strings.PartContains | backend/main.py:104 | a string contains whatever one of its split parts contains |
| Strings.ReplaceAll | backend/crawler.py:41-42 | a text without the pattern is left unchanged |
| Strings.ReplaceAllStep | backend/crawler.py:42 | the leftmost occurrence is rewritten and the rewriting carries on after it |
| Strings.SplitJoin | backend/crawler.py:99 | splitting a join recovers the parts when the separator's marker character occurs in no part |
| Strings.RemoveChar | backend/crawler.py:45 | the result holds no removed character and every other character as often as before |
| Strings.RemoveCharOnce | backend/crawler.py:45 | removing the single '&' of `a & b` joins the text around it |
| Strings.DigitsOf | backend/crawler.py:68 | the result is all digits, holds each digit as often as the text does, and a digit string is kept as it is |
| Strings.DigitsOfAppend | backend/crawler.py:68 | the digits keep their order: the digits of a concatenation are those of each part in turn |
| Strings.StripShape | backend/crawler.py:40 | strip removes only surrounding whitespace, and its result starts and ends with non-whitespace |
| Strings.Strip | backend/crawler.py:40 | the result is no longer than the text and neither starts nor ends with whitespace, in Python's sense |
| Strings.StripKeepsTrimmed | backend/crawler.py:40 | a text already free of surrounding whitespace is kept as it is |
| Strings.NatToString | frontend/src/App.jsx:14 | decimal rendering without leading zeros whose digits denote the number |
| Strings.IntToString | backend/crawler.py:30 | non-empty; digits for a non-negative number, '-' then digits for a negative one |
| Strings.SplitLast | backend/main.py:107 | the last part of `s.split(sep)` is the text after the last occurrence of `sep`, or all of `s` when there is none |
| Strings.SplitLastAfter | backend/main.py:107 | for a separator whose first character does not recur in it, `(a + sep + t).split(sep)[-1] == t` when `t` holds no `sep` |
| Strings.ParseIntToString | backend/main.py:107 | `int(str(i)) == i` for every integer |
| Strings.ParseInt | backend/main.py:107 | a value exactly when the text is digits with at most one leading sign |
| Strings.ParseIntLeadingZero | backend/main.py:107 | a leading zero does not change the value |
| Broadcast.Normalise | backend/main.py:50-53 | a list passes through; a string becomes a list of non-empty, stripped entries |
| Broadcast.StripNonEmpty | backend/main.py:51 | at most one entry per piece, each non-empty and stripped |
| Broadcast.StripNonEmptySound | backend/main.py:51 | every entry is the stripped form of some piece |
| Broadcast.StripNonEmptyComplete | backend/main.py:51 | every piece that does not strip to nothing is there, stripped |
| Broadcast.StripNonEmptyAppend | backend/main.py:51 | the pieces keep their order: the comprehension distributes over concatenation |
| Broadcast.NormaliseText | backend/main.py:50-53 | the entries of a string are exactly the non-empty stripped pieces between its commas, in order |
| Broadcast.StripNonEmptyKeeps | backend/main.py:51-53 | pieces that are already non-empty and stripped are kept as they are |
| Broadcast.NormaliseJoin | backend/main.py:50-53 | normalising a ','-joined list of plain labels gives the labels back |
| Broadcast.FirstWith | backend/main.py:104 | the first " & " field containing the pattern, or none when no field does |
| Broadcast.CsqOf | backend/main.py:101-109 | a csq is found only in data that contains "csq="; Broadcast.MarkedFieldCsq states which value it is |
| Broadcast.MarkedFieldCsq | backend/main.py:103-109 | in a line of '&'-free fields where the fields before `a + "csq=" + t` hold no "csq=" and `t` holds none, the csq is `int(t)`: the first field holding "csq=" is chosen and the text after its last "csq=" is read |
| Broadcast.DedupKey | backend/main.py:101-114 | a key is present only when the csq parsed and is not 0; csq 0 counts as no key |
| Broadcast.UrlSplits | backend/main.py:107 | a campaign URL split on "csq=" is the URL base and the rendered id |
| Broadcast.UrlKey | backend/main.py:107 | the text after the last "csq=" of a campaign URL parses to its id |
| Broadcast.ResultLineKey | backend/main.py:101-109 | a result line produced for campaign `id` (non-zero, free-text fields free of '&' and "csq=") has `id` as its dedup key |
| Broadcast.NoKeyWithoutMarker | backend/main.py:103-109 | a message with neither '&' nor 'q' carries no csq |
| Broadcast.Fanout | backend/main.py:121-125 | each delivery carries the event to an attached, non-failing observer |
| Broadcast.FanoutReaches | backend/main.py:121-125 | an observer receives the event once per time it is attached, and nothing if its send fails; other observers' failures do not matter |
| Broadcast.Replay | backend/main.py:62-65 | the replay is every buffered hidden line in order, then every public line in order |
| Broadcast.Attach | backend/main.py:55-79 | the buffer is created only if absent; the observer is appended; the replay is the session's buffer; a crawl starts, with the request's configuration, iff the session has no recorded task |
| Broadcast.RemoveFirst | backend/main.py:89 | exactly one copy of the observer is removed, and nothing else changes in count |
| Broadcast.RemoveFirstAt | backend/main.py:89 | it is the first copy that goes: with the observer first at `i`, the result is the list without position `i`, the others in their order |
| Broadcast.Detach | backend/main.py:87-94 | buffers untouched; the task is cancelled iff the session has one and this was its only observer, and then both entries go; otherwise only the observer's first copy leaves; an unknown observer changes nothing |
| Broadcast.Relay | backend/main.py:98-125 | an event whose key was seen is dropped and nothing is sent; otherwise it goes to every attached observer and the session's buffer becomes exactly `Record` of the old one; no other session changes |
| Broadcast.Record | backend/main.py:111-119 | a result line joins the end of its own list and the other list is kept; the seen set gains the event's dedup key and nothing else, and is unchanged for an unkeyed event |
| Broadcast.RelayReplay | backend/main.py:62-119 | after relaying a new line, a late observer's replay holds it at its place: end of the hidden lines, or the very end |
| Broadcast.RelayTwiceDropsSecond | backend/main.py:111-112 | a second event with the same key is dropped entirely |
| Broadcast.AppendFresh | backend/main.py:111-119 | appending a line whose key is not recorded keeps the list free of repeated keys and the record complete |
| Broadcast.DisjointAppend | backend/main.py:111-119 | appending a line with an unrecorded key keeps the hidden and public lists free of shared keys |
| Broadcast.RelayKeepsDeduped | backend/main.py:111-119 | relaying keeps a session's buffers free of duplicate campaigns, across hidden and public |
| Broadcast.StreamEnd | backend/main.py:127-131 | the end of the stream sends only `done`, only to attached observers, marks the task finished and keeps its record |
| Broadcast.StreamFail | backend/main.py:135-140 | a failing stream sends only the error, only to attached observers, and marks the task finished; its configuration, other sessions' tasks, the observers and the buffers are unchanged |
| Broadcast.StreamFailReaches | backend/main.py:135-140 | each observer whose send does not fail receives the error once per time it is attached; a failing one receives nothing |
| Broadcast.FailedStreamEndsWithError | backend/main.py:100-140 | when the crawler raises after yielding some events, an observer attached once receives what those events sent it, then the error, and no closing `done` |
| Broadcast.PumpLastUnkeyed | backend/main.py:100-125 | an unkeyed event relayed last reaches an observer attached once right after the earlier events |
| Broadcast.StreamEndsWithDone | backend/main.py:100-131 | whatever the crawler yields, an observer attached once ends with `done` |
| Broadcast.SingleUnkeyedThenDone | backend/main.py:100-131 | a one-event unkeyed stream reaches such an observer as that event, then `done` |
| Broadcast.DoneThenDone | backend/main.py:100-131 | a stream ending in the crawler's `done` ends, for such an observer, with two `done`s |
| Broadcast.EarlyErrorThenDone | backend/crawler.py:113-124 | a crawl failing before its walk reaches such an observer as the error, then `done` |
| Broadcast.CompletedRunDoneTwice | backend/crawler.py:143 | a crawl that completes reaches such an observer with `done` twice at the end |
| Broadcast.Query | backend/main.py:143-148 | `not_found` exactly when the session has no buffer; otherwise its hidden and public lines in order |
| Broadcast.QueryMatchesReplay | backend/main.py:143-148 | a query and a newly attached observer's replay show the same lines in the same order |
| Broadcast.AttachKeepsInv | backend/main.py:55-79 | connecting keeps "task recorded iff observers present, lists non-empty, buffer present, no duplicate campaign" |
| Broadcast.DetachKeepsInv | backend/main.py:87-94 | disconnecting keeps the invariant |
| Broadcast.RelayKeepsInv | backend/main.py:98-125 | relaying keeps the invariant |
| Broadcast.FinishedKeepsInv | backend/main.py:127-140 | finishing keeps the invariant |
| Broadcast.NextKeepsInv | backend/main.py:35-140 | every step keeps the invariant |
| Broadcast.RunKeepsInv | backend/main.py:31-33 | every run from the empty maps satisfies the invariant |
| Broadcast.NextGrows | backend/main.py:55-140 | no step loses a buffered line or a recorded csq |
| Broadcast.RunGrows | backend/main.py:55-140 | no run loses a buffered line or a recorded csq |
| Broadcast.NextResultKeys | backend/main.py:55-56 | only a connection creates a buffer, and nothing removes one |
| Broadcast.QueryNotFoundIffNeverConnected | backend/main.py:143-148 | after any run, the query answers `not_found` iff the session never connected |
| Broadcast.QueryDeduped | backend/main.py:143-148 | every answer lists each campaign at most once, across both lists |
| Broadcast.AttachStartsIffAlone | backend/main.py:67-79 | a connection starts a crawl iff nobody else is watching the session |
| Broadcast.DetachCancelsIffLast | backend/main.py:88-94 | a disconnection cancels the crawl iff it was the last observer |
| Broadcast.FinishedNotRestarted | backend/main.py:67-79 | a finished crawl is not restarted by a new connection while observers remain |
| ResultView.FirstMatch | frontend/src/Result.jsx:23 | the leftmost position where `csq=` is followed by a digit, or none when there is none |
| ResultView.GetCsq | frontend/src/Result.jsx:22-25 | no csq exactly when `csq=\d` matches nowhere; otherwise the digit run after the leftmost match, a non-empty digit string |
| ResultView.GetCsqAt | frontend/src/Result.jsx:22-25 | when the leftmost `csq=\d` match is at `i`, the csq is the whole digit run after it |
| ResultView.GetCsqOfUrl | frontend/src/Result.jsx:208 | the number column of a campaign URL shows its id |
| ResultView.InsertSorted | frontend/src/Result.jsx:33-37 | inserting into a sorted list keeps it sorted, for any total preorder |
| ResultView.Sort | frontend/src/Result.jsx:33-37 | the sort permutes the rows and, for a total preorder, orders them by the time field |
| ResultView.SortKeyIsTime | frontend/src/Result.jsx:33-36 | the sort key of a result line is its participation-time field |
| ResultView.WithoutCsq | frontend/src/Result.jsx:31 | exactly the rows with another csq, or none, each as often as before |
| ResultView.InsertUniqueSorted | frontend/src/Result.jsx:27-41 | a line without a csq, or whose csq was seen, changes nothing; otherwise the csq is recorded and the rows are the old rows with other csqs plus the line, once, sorted, with the line the only row with its csq |
| ResultView.Receive | frontend/src/Result.jsx:112-115 | a line changes only its own table and the seen set only grows |
| ResultView.Clear | frontend/src/Result.jsx:53-60 | both tables and the seen set are emptied |
| ResultView.ClearIsTidy | frontend/src/Result.jsx:53-60 | the cleared page satisfies "each row has a recorded csq, appears once, and alone has it" |
| ResultView.InsertFresh | frontend/src/Result.jsx:27-41 | on tidy tables, a line with a new csq removes nothing and is added once |
| ResultView.ReceiveFresh | frontend/src/Result.jsx:112-115 | a line with a new csq lands once in the tables and its csq is recorded |
| ResultView.ReceiveKeepsTidy | frontend/src/Result.jsx:112-115 | receiving keeps tidy tables tidy, across both tables through the shared seen set |
| ResultView.ClearThenReceive | frontend/src/Result.jsx:53-60 | after clearing, a line with a csq is accepted again, alone |
| ResultView.FilterRows | frontend/src/Result.jsx:162 | only rows containing the keyword are kept, each as often as before |
| ResultView.FilterAppend | frontend/src/Result.jsx:162 | the filter keeps order: it distributes over concatenation |
| ResultView.FilterEmptyKeepsAll | frontend/src/Result.jsx:161-162 | an empty keyword shows every row |
| ResultView.FindIndex | frontend/src/Result.jsx:209 | the first position holding the row, or -1 exactly when it is absent |
| ResultView.Splice | frontend/src/Result.jsx:168 | an index in range removes that element; past the end removes nothing; a negative index counts from the end; one below minus the length removes the first element |
| ResultView.DeleteRow | frontend/src/Result.jsx:165-172 | one copy of the clicked row is removed, and an absent row changes nothing |
| ResultView.DeleteRowKeepsOrder | frontend/src/Result.jsx:165-172 | the other rows keep their order |
| ResultView.DeleteAsWritten | frontend/src/Result.jsx:165-209 | the index of the row's first copy in the rendered list is spliced out of the current list; past its end nothing goes; a row not rendered makes `splice(-1, 1)` drop the last row |
| ResultView.DeleteAsWrittenWhenFresh | frontend/src/Result.jsx:165-209 | if the table was not updated since rendering, the code as written deletes the clicked row |
| ResultView.DeleteAsWrittenStale | frontend/src/Result.jsx:165-209 | a line inserted before the clicked row after rendering makes the code as written delete the wrong row |
| ResultView.DeleteKeepsTidy | frontend/src/Result.jsx:165-172 | the intended deletion keeps tidy tables tidy |
| ResultView.DeleteAsWrittenKeepsTidy | frontend/src/Result.jsx:165-209 | the deletion as written, whatever the rendered list the index came from, keeps tidy tables tidy: `splice` only ever takes rows out |
| Form.PadStart | frontend/src/App.jsx:14 | the result ends with the text and is left-filled with '0' up to the width |
| Form.Days | frontend/src/App.jsx:14 | 31 labels, the i-th being day i + 1 |
| Form.DayLabelShape | frontend/src/App.jsx:14 | each label is two digits then "일", naming its own day |
| Form.DaysInOrder | frontend/src/App.jsx:14 | the labels are distinct and in day order, "01일" to "31일" |
| Form.InDaysIff | frontend/src/App.jsx:14 | a day-shaped text is a button label iff it names a day from 1 to 31 |
| Form.LabelIsDayToken | frontend/src/App.jsx:14 | the backend's day pattern matches each label whole, so a selected label selects that day |
| Form.Without | frontend/src/App.jsx:30 | every copy of the day is removed and nothing else |
| Form.ToggleDay | frontend/src/App.jsx:28-32 | the day's presence flips: an absent day is appended once at the end; a present day leaves the list as `Without` it, every copy gone |
| Form.ToggleTwiceAbsent | frontend/src/App.jsx:28-32 | toggling an unselected day twice restores the list |
| Form.ToggleTwicePresent | frontend/src/App.jsx:28-32 | toggling a selected day twice moves it to the end; a list without duplicates keeps its days |
| Form.Submit | frontend/src/App.jsx:34-78 | the first failed check (cookie, then days, then range in manual mode) rejects the form; otherwise the query carries the cookie and the keywords, and the id bounds exactly in manual mode |
| Form.SelectedDaysRoundTrip | frontend/src/App.jsx:66 | the backend's normaliser turns the ','-joined labels back into the selected labels |
| Form.BoundsRoundTrip | frontend/src/App.jsx:71-74 | in manual mode the query's bounds parse back to the numbers entered |
| Form.SubmitRoundTrip | frontend/src/App.jsx:64-69 | an accepted form's days normalise back into the selected labels and the range flag reads back as itself |

## Left out

- HTTP, TLS, timeouts and BeautifulSoup: a detail page is the record of facts the parser locates, and a directory fetch is an attempt outcome. The three-second sleep is counted, not performed.
- Evaluator.Evaluate: a page that does not load is one `FetchFailed` outcome. `raise_for_status` and transport exceptions are not told apart.
- asyncio scheduling and the worker threads that run the fetches: each transition is one atomic step, so no other connection, disconnection or event is taken while a fan-out or a replay is being sent.
- Broadcast.FanoutReaches: the fan-out loop walks the live observer list. A disconnection during one of its awaited sends removes an entry from that list, and the loop then skips the observer after it. The model sends to every observer attached when the relay starts.
- Broadcast.Relay: an observer that connects during an awaited send of the fan-out is replayed the line, which is already buffered, and is then sent it again by the loop. The model does not deliver that second copy.
- Broadcast.Detach: the bare `except:` around each send also catches `asyncio.CancelledError`, so a cancellation that lands on a send is swallowed and the crawl goes on. The model ends the crawl at the cancellation.
- The 20-second ping loop, CORS middleware and the printed logs are not modelled.
- The frontend's `localStorage` persistence, reload-based reconnection, `downloadTxt`, status texts and the progress percentage (Result.jsx:126-130) are not modelled. After a reload the stored rows sit beside an empty `fetchedCsq`, so the table invariant is proved from a cleared page onward.
- The first WebSocket message: a missing key gets its default in the model, as in the code. An explicit `null` does not. `data.get("selected_days", [])` then returns `None`, for instance when the page's URL has no `selected_days` (frontend/src/Result.jsx:67). At the first page whose time text carries a day token, the day filter at backend/crawler.py:51 raises `TypeError` on it. Only request errors are caught there (backend/crawler.py:102), so the stream ends with an error event (backend/main.py:135-140). The model instead treats `null` as the default and runs the crawl. A `None` session cookie is the empty string.
- Broadcast.ConfigOf: the request's `exclude_ids` are taken as integers. In the code they arrive as JSON text: the page sends its recorded csq strings (frontend/src/Result.jsx:79). backend/main.py:48 converts each with `int()`. An entry that does not convert raises `ValueError` before anything is registered, and that ends the handler, since only `WebSocketDisconnect` is caught (backend/main.py:86). The digit runs the page records always convert.
- Strings.IsDigit: the ASCII digits only. Python's `re` `\d` and `int()` also accept other Unicode decimal digits, so Evaluator.DayToken, Directory.AttrValueAt, Strings.DigitsOf and Strings.ParseInt do not model those. JavaScript's `\d` is ASCII only, so ResultView.GetCsq is exact.
- Strings.ParseInt: accepts an optional sign followed by digits. Python's `int()` also accepts surrounding whitespace and `_` separators, which are not modelled.
- ResultView.Sort: stability is not stated. The comparison is an arbitrary `le`, and sortedness is proved only when `le` is a total preorder, as `localeCompare` is.
- ResultView.SortKey: a row with fewer than five fields sorts by the empty text. In the browser the two sides differ. When the row in the comparator's first argument lacks field 4, `undefined.localeCompare` throws and the sort fails. When only the second argument's row lacks it, `timeA.localeCompare(undefined)` compares against the text "undefined" and does not throw.
- Broadcast.Attach: the replay is taken atomically with the attachment. Interleaving a relay with the awaited replay sends is not modelled.
- Broadcast.Relay: send failures are a given set of observers per step. A failed send during replay is not modelled.
- Form.Submit: the id inputs are integers. Decimal or non-numeric input (`Number` giving a fraction or NaN) and URL encoding of the query string are not modelled.

## Findings

| source | as written | input that shows it | evidently intended | confidence | as-written member | corrected member |
|---|---|---|---|---|---|---|
| frontend/src/Result.jsx:165-209 | the row's index is computed in the rendered list `data`, then spliced out of the latest state `prev` | table rendered as ["a","c"]; line "b" sorts in before the click on "c"; the splice of index 1 removes "b" and keeps "c" | delete the clicked row from the current list | low, not executed | ResultView.DeleteAsWritten, ResultView.DeleteAsWrittenStale | ResultView.DeleteRow, ResultView.DeleteRowKeepsOrder |
