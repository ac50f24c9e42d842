# Verification of the Ultravisor timeline and flow editor

This project models the algorithms behind Ultravisor's web interface and proves what they promise:

* **The run waterfall.** Event records fold into one row per work item (`TaskRows`, `TaskRowLaws`, `TaskRowMeaning`). A memoised
  depth-first search with a cycle guard finds the longest dependency chain and a guarded walk back marks it
  (`PredecessorGraph`, `CriticalPath`, `CriticalPathLaws`, `Waterfall`).
* **The long-poll provider.** A small concurrent protocol of request serials, an abort controller, a throttle timer and
  back-off timers. `TimelineProtocol` gives its transitions, `TimelineLaws` and `TimelinePace` what holds in
  every state any run can reach, and `TimelineProvider` the object that makes the transitions and keeps the promises of
  `TimelinePromises`.
* **Time bucketing** on epoch-aligned boundaries (`TimeBuckets`, `TimeBucketLaws`).
* **The address bar** as printer and parser of the view's state, over `encodeURIComponent` and `decodeURIComponent` on
  UTF-16 text (`PercentEncoding`, `UrlState`, `UrlStateLaws`).
* **The settings panel**: address templates with their non-greedy pattern, and saving and reopening a card's settings
  (`AddressTemplate`, `SettingsPanel`, `SettingsPanelLaws`).
* **The constellation's capped edge loop** (`Constellation`) and **port reconciliation in place**
  (`PortReconciliation`).

`Option` and `StableSort` are shared: the second stands for the library sort the source calls with a numeric comparator.

`dafny verify dfyconfig.toml` checks everything.

## How the model is made

Code that works by changing things is a method or a class and is proved against a specification that does not run it:
the search against chains and their weights, the row fold against minima, maxima and last fresh texts of a group, the
edge loop against ranks within a group, marshalling against an entry-by-entry description. Where a promise is not kept on
all inputs the exact condition is proved.

* Times are integer milliseconds, None when a text does not parse. A missing text is the empty string, as it is to the
  source's truth tests. A node hash is wrapped in a datatype of its own (`Key`).
* The step size is compared as `step * target <= span` on integers instead of dividing the span.
* The provider's state includes the browser around it. The browser is assumed to answer each request at most once, an
  aborted one with nothing but AbortError, to fire no timer early, never to turn the clock back and never to show a time
  before the epoch. Whether it has `AbortController` at all is a parameter, since the source allows for both. The ghost
  log of the provider records requests, applied answers, 410s and window changes.
* The bounds, the bucket and the cursor that the provider asks for are assumed to have no lone surrogates. Encoding one
  into the request's address would throw, in a timer as much as in a call.
* Strings in the address bar are sequences of 16-bit units, so text with lone surrogates, on which encoding throws, is
  part of the model.

## Where the code and its documentation disagree

The model follows the code.

* The provider's header says the live window slides because now-relative bounds are recomputed for each request. The
  code stores the bounds the server resolved, so the window stays where the answers put it: `LiveWindowIsPinned`, `DefaultWindowExact`.
* The header lists a status 'stale' that is never set.
* The interval of 750 ms is described as the minimum between live-mode fetches. It is kept by the throttle timer and by
  the newest back-off timer when nothing else is pending, and by nothing else: a 410, a leftover back-off timer or a call
  can ask again right after an answer (`IntervalExact`).
* The overlap heuristic is described as 50 ms in one comment and 200 ms, "within", in another. The code takes the
  latest earlier row that ends at most 200 ms after the start, however long before it ended.
* Card data saved before modes were recorded is said to be read compatibly. An entry with text around or inside its
  template is changed by saving it: `LegacySaveExact` gives the exact condition.
* `stop` is said to stop everything. Without `AbortController` a late 410 starts a request: `StopIsSilent`.

## Model

| member | source | states |
|---|---|---|
| TaskRows.BuildTaskRows | webinterface/source/views/timeline/render-waterfall.js:126-185 | Exactly one row per work item that has a placeable record, ascending by start and stable on ties; start the minimum and end the maximum over the group; the last record, status, capability and beacon those of the last records that were no older than any before them |
| TaskRows.FindSeparator | webinterface/source/views/timeline/render-waterfall.js:190-200 | The first "::" at or after a position, or that there is none |
| TaskRowLaws.TableUnique | webinterface/source/views/timeline/render-waterfall.js:126-185 | The records leave no choice about the table: contents and order are determined |
| TaskRowLaws.ArrivalOrderIrrelevant | webinterface/source/views/timeline/render-waterfall.js:143-169 | Any permutation of the records gives rows for the same work items with the same start and end |
| TaskRowLaws.TimeOrderKeepsLastTexts | webinterface/source/views/timeline/render-waterfall.js:170-178 | For records in time order the last record counts, and status, capability and beacon are each the last non-empty value |
| TaskRowMeaning.RowExists | webinterface/source/views/timeline/render-waterfall.js:133-141 | A work item has a row if and only if it has a non-empty hash and a record whose start parses |
| TaskRowMeaning.RowStart | webinterface/source/views/timeline/render-waterfall.js:164-168 | A row starts with the earliest start among its work item's records |
| TaskRowMeaning.RowEnd | webinterface/source/views/timeline/render-waterfall.js:139-141 | A row ends with the latest end among them, a record without an end ending when it starts |
| TaskRowMeaning.RowDuration | webinterface/source/views/timeline/render-waterfall.js:180-184 | A row lasts as long as the start of one of its records and the end of another are apart at most |
| TaskRowMeaning.RowNode | webinterface/source/views/timeline/render-waterfall.js:190-200 | A row's node is what its first record names, otherwise what follows the first "::" of the work item's hash, otherwise that hash |
| TaskRowMeaning.RowTexts | webinterface/source/views/timeline/render-waterfall.js:170-178 | Status, capability and beacon are each the last that a record gives which was not stale when it arrived |
| TaskRowMeaning.RowLastRecord | webinterface/source/views/timeline/render-waterfall.js:170-174 | The last record is the last that was not stale |
| CriticalPath.CollectPreds | webinterface/source/views/timeline/render-waterfall.js:228-267 | With connections, each key's list is the sources of the usable connections into it, each as often and in the order that they come; without, it is the keys of the rows that the rows with that key find when looking back, in start order |
| CriticalPath.CollectGraphPreds | webinterface/source/views/timeline/render-waterfall.js:228-243 | Each key's list matches, position by position, all connections into it that have both ends, and no others |
| CriticalPath.CollectOverlapPreds | webinterface/source/views/timeline/render-waterfall.js:244-267 | Each key's list matches, position by position, all rows with that key that find a row when looking back, and no others |
| CriticalPath.LookBack | webinterface/source/views/timeline/render-waterfall.js:250-264 | The backward search stops at the latest earlier row that ends early enough |
| CriticalPath.LatestBefore | webinterface/source/views/timeline/render-waterfall.js:250-264 | The latest earlier row that ends no later than 200 ms after the start, and that none after it does |
| CriticalPath.CollectDurations | webinterface/source/views/timeline/render-waterfall.js:216-221 | The keys are the tasks' and each has the duration of the first row that uses it |
| CriticalPath.LongestSearch.Visit | webinterface/source/views/timeline/render-waterfall.js:274-293 | On any graph, loops included: terminates on unvisited keys, never changes a finished length, answers 0 only for a key still open, and keeps every finished length equal to the own duration plus that of a back-pointer finished strictly earlier, and no less than through any predecessor whose edge closes no loop |
| CriticalPath.LongestSearch.Finish | webinterface/source/views/timeline/render-waterfall.js:288-292 | Closing a key records the best positive predecessor length plus its own duration and keeps all invariants |
| CriticalPath.BackChainLaws | webinterface/source/views/timeline/render-waterfall.js:288-292 | Back-pointers form a chain of real predecessor edges without repeats whose durations sum to the recorded length, every proper prefix of it positive |
| PredecessorGraph.SettledBoundsChains | webinterface/source/views/timeline/render-waterfall.js:269-293 | No chain into a key that no loop reaches outweighs the key's recorded length, whatever the signs of the durations |
| CriticalPath.FindEnd | webinterface/source/views/timeline/render-waterfall.js:295-302 | Every task is finished and the end has the greatest length of them all, unless none reaches 0 |
| CriticalPath.WalkBack | webinterface/source/views/timeline/render-waterfall.js:304-312 | Marks exactly the last keys of the back-pointer chain, as many as the guard allows |
| CriticalPath.ComputeCriticalPath | webinterface/source/views/timeline/render-waterfall.js:206-313 | The marked keys are the last keys of one chain, which is empty only if every task's duration is negative, repeats nothing, is at least as heavy as any chain into a task that no loop reaches, ends at the first task that so heavy a chain leads to and goes back by the first of the heaviest predecessors each time |
| Waterfall.Compute | webinterface/source/views/timeline/render-waterfall.js:66-116 | The rows of the records and the critical keys among them, with both promises, the weights compared being the extents of the records |
| Waterfall.RowKey | webinterface/source/views/timeline/render-waterfall.js:216-221 | A task answers to the node its first record names, and to its work item's hash when that is empty |
| CriticalPathLaws.CriticalIsLongest | webinterface/source/views/timeline/render-waterfall.js:269-302 | On a graph without loops the critical chain is the longest of all chains, those that end at a key without a task included |
| CriticalPathLaws.MarkedUnique | webinterface/source/views/timeline/render-waterfall.js:269-312 | On a graph without loops the tasks and the connections determine the marked keys, however many longest chains there are |
| CriticalPathLaws.FewRelaysMarkLongest | webinterface/source/views/timeline/render-waterfall.js:206-313 | On an operation graph without loops in which at most 5 keys have no task, the marked keys are the whole of a chain without repeats that no chain of the graph outweighs |
| CriticalPathLaws.GuardSuffices | webinterface/source/views/timeline/render-waterfall.js:304-312 | The whole chain is marked when at most 5 of its keys have no task |
| CriticalPathLaws.GuardExact | webinterface/source/views/timeline/render-waterfall.js:304-312 | The whole chain is marked if and only if it is no longer than the task count plus 5 |
| CriticalPathLaws.RelaysPastSlackAreLost | webinterface/source/views/timeline/render-waterfall.js:304-312 | Two recorded tasks joined through n nodes without a task: the last is always marked, the first, which takes most of the time, if and only if n is at most 5 |
| CriticalPathLaws.OverlapIsAcyclic | webinterface/source/views/timeline/render-waterfall.js:244-267 | With distinct task keys the heuristic gives each key at most one predecessor and never a loop |
| CriticalPathLaws.OverlapHasNoRelays | webinterface/source/views/timeline/render-waterfall.js:244-267 | Without an operation graph every key of the search is a task's |
| CriticalPathLaws.OverlapMarksLongest | webinterface/source/views/timeline/render-waterfall.js:244-312 | Without an operation graph and with distinct task keys, the marked keys are the whole of a longest chain with no further condition |
| CriticalPathLaws.RepeatOnPathLoops | webinterface/source/views/timeline/render-waterfall.js:244-267 | A node that runs again further along a path of look-backs makes a loop |
| CriticalPathLaws.SequentialLoopExact | webinterface/source/views/timeline/render-waterfall.js:244-267 | For the table of any run whose tasks come one after another, the heuristic is free of loops if and only if no node ran twice |
| CriticalPathLaws.OverlapCanLoop | webinterface/source/views/timeline/render-waterfall.js:244-267 | Three records whose table gives the heuristic a loop |
| CriticalPathLaws.RepeatCanBeHarmless | webinterface/source/views/timeline/render-waterfall.js:244-267 | Two records of one node whose table gives none |
| CriticalPathLaws.LoopAcrossPaths | webinterface/source/views/timeline/render-waterfall.js:244-267 | Four records whose table gives a loop although no path of look-backs returns to a node |
| TimelineProvider.Provider.StartLive | webinterface/source/providers/Provider-Timeline-Stream.js:119-127 | Live polling, with a long-polling request for the window and cursor there are, which has the next serial and, when the browser can abort, is the only one that can still be answered |
| TimelineProvider.Provider.PauseToReplay | webinterface/source/providers/Provider-Timeline-Stream.js:129-139 | Not polling, the given bounds or the old ones in the window, and one such request for them without cursor or wait |
| TimelineProvider.Provider.ResumeLive | webinterface/source/providers/Provider-Timeline-Stream.js:141-147 | Live polling from the default bounds, with one such request for them |
| TimelineProvider.Provider.Refresh | webinterface/source/providers/Provider-Timeline-Stream.js:149-152 | One more such request in the mode there is; mode, window and cursor are kept |
| TimelineProvider.Provider.SetBucket | webinterface/source/providers/Provider-Timeline-Stream.js:166-170 | The bucket, auto for an empty one, in the window and in one such request |
| TimelineProvider.Provider.Stop | webinterface/source/providers/Provider-Timeline-Stream.js:154-159 | Idle, and no run without a call asks again, if and only if the browser can abort or nothing current was left to answer |
| TimelineProvider.Provider.OnSettled | webinterface/source/providers/Provider-Timeline-Stream.js:268-332 | An aborted or superseded request leaves no trace; a 410 asks again without a cursor; an answer is shown and, while polling, followed up by a timer due exactly one interval later; a failure keeps what is shown and, while polling, is followed up by a back-off timer; when not polling nothing but a 410 makes the provider act again |
| TimelineProvider.Provider.OnThrottleTimer | webinterface/source/providers/Provider-Timeline-Stream.js:219-227 | It fires one interval after the last answer or later, always while polling, and always asks |
| TimelineProvider.Provider.OnBackoffTimer | webinterface/source/providers/Provider-Timeline-Stream.js:322-330 | It asks again if and only if the provider still polls, and otherwise nothing but the timer is gone |
| TimelineProvider.Provider.AbortInFlight | webinterface/source/providers/Provider-Timeline-Stream.js:198-211 | When the browser can abort nothing asked can still be answered, otherwise all of it can; no throttle timer is left |
| TimelineProvider.Provider.BuildRequest | webinterface/source/providers/Provider-Timeline-Stream.js:230-253 | The request asks for the bounds, and in live mode the cursor, that the calls and answers so far left |
| TimelineProvider.Provider.FetchOnce | webinterface/source/providers/Provider-Timeline-Stream.js:255-267 | That request is out with the next serial, and the others are silenced if the browser can abort |
| TimelineProvider.Provider.ScheduleNextLiveFetch | webinterface/source/providers/Provider-Timeline-Stream.js:215-228 | A pending timer is kept, otherwise one is due one interval after the last answer or at once, whichever is later |
| TimelineProvider.Provider.Reconcile | webinterface/source/providers/Provider-Timeline-Stream.js:334-370 | Window, cursor and content are what the log of calls and answers, this one included, says, and the bucket is kept |
| TimelineProvider.Provider.HandleStaleCursor | webinterface/source/providers/Provider-Timeline-Stream.js:372-393 | The cursor is gone and a request without one is out |
| TimelineProvider.Provider.ReplaceWindow | webinterface/source/views/PictView-Ultravisor-Timeline.js:434-439 | The view's own write to the shared window decides the next request and starts none |
| TimelineLaws.StepKeeps | webinterface/source/providers/Provider-Timeline-Stream.js:119-393 | Every call, answer, timer, clock tick and window change keeps the protocol's invariant |
| TimelineLaws.PollingNeverDies | webinterface/source/providers/Provider-Timeline-Stream.js:215-228 | In every reachable live state an effective request, a throttle timer or a back-off timer is pending |
| TimelineLaws.PollingProceeds | webinterface/source/providers/Provider-Timeline-Stream.js:286-331 | However the current request of a live provider ends short of an abort, at most two more events, none of them a call, issue the next one |
| TimelineLaws.WaitingProceeds | webinterface/source/providers/Provider-Timeline-Stream.js:215-331 | With no request to be answered a pending timer issues the next one when its time comes |
| TimelineLaws.OnlyARequestEndsTheWait | webinterface/source/providers/Provider-Timeline-Stream.js:215-331 | In every run without a call the pending timers stay as they are until one of them has issued the next request |
| TimelineLaws.OneEffectiveFlight | webinterface/source/providers/Provider-Timeline-Stream.js:198-211 | In a browser that can abort, at most one unaborted request is outstanding and it carries the current serial |
| TimelineLaws.AppliedInOrder | webinterface/source/providers/Provider-Timeline-Stream.js:286-297 | Serials of applied answers strictly increase over any run |
| TimelineLaws.RequestsFollowAnswers | webinterface/source/providers/Provider-Timeline-Stream.js:230-265 | Every request of any run is numbered in turn and asks for the bounds, the bucket and when long-polling the cursor that the calls and answers before it left |
| TimelineLaws.BucketStays | webinterface/source/providers/Provider-Timeline-Stream.js:166-170 | A bucket once chosen is what every request of any run asks for, auto for an empty one, until another is chosen |
| TimelineLaws.OnlyBucketEventsChoose | webinterface/source/providers/Provider-Timeline-Stream.js:334-352 | No event but the call for it and the view's write chooses or changes a bucket |
| TimelineLaws.TimerStandsAlone | webinterface/source/providers/Provider-Timeline-Stream.js:215-228 | A pending throttle timer means polling, no request that could still be answered, and a due time 750 ms after the last answer |
| TimelinePace.IntervalExact | webinterface/source/providers/Provider-Timeline-Stream.js:53-58 | Of all causes of a request exactly two never come sooner than 750 ms after the last answer: the throttle timer, and the newest back-off timer with nothing else pending; a 410, a leftover back-off timer and a call do so in some run |
| TimelinePace.TooSoonExample | webinterface/source/providers/Provider-Timeline-Stream.js:53-58 | For each of the other causes a reachable state, less than 750 ms after an answer, in which it issues a request |
| TimelinePace.IntervalAfterAnswer | webinterface/source/providers/Provider-Timeline-Stream.js:213-228 | A request of one of the two causes goes out at least 750 ms after the last answer |
| TimelinePace.IntervalAfterRequests | webinterface/source/providers/Provider-Timeline-Stream.js:213-228 | In every run such a request goes out at least 750 ms after every earlier request, whatever issued that one |
| TimelineLaws.GoneDropsCursor | webinterface/source/providers/Provider-Timeline-Stream.js:372-393 | After a 410 no request of any run carries a cursor until an answer brings one |
| TimelineLaws.LiveWindowIsPinned | webinterface/source/providers/Provider-Timeline-Stream.js:348-352 | After an answer that resolved the lower or the upper bound every request, until something sets the window anew, asks for a bound that an answer resolved |
| TimelineLaws.DefaultWindowExact | webinterface/source/providers/Provider-Timeline-Stream.js:348-352 | The next live request keeps a now-relative default bound if and only if the answer resolved it to nothing else, for either bound |
| TimelineLaws.StopIsSilent | webinterface/source/providers/Provider-Timeline-Stream.js:154-159 | After stop no run without a call issues a request, if and only if the browser can abort or nothing current is left to answer |
| TimeBuckets.SnapBucketSize | webinterface/source/views/timeline/render-bands.js:351-374 | The greatest of 1, 5, 10, 30 seconds or minutes, 1 or 6 hours and a day that fits the target count into the span, or a second |
| TimeBuckets.ClientBucket | webinterface/source/views/timeline/render-bands.js:308-343 | One bucket for every aligned interval that holds a dated record and no other, strictly ascending, with the exact count and the exact value in all three breakdowns, and event types adding up to the count |
| TimeBucketLaws.BucketSays | webinterface/source/views/timeline/render-bands.js:314-338 | A bucket's count is the number of records in its interval, and each breakdown holds for every name how many of those records give it in that field, "Unknown" for those without an event type, and no name that none gives |
| TimeBucketLaws.HistogramUnique | webinterface/source/views/timeline/render-bands.js:308-343 | Records and step determine the buckets completely |
| TimeBucketLaws.SpanDeterminesBuckets | webinterface/source/views/timeline/render-bands.js:300-319 | Records, target and the window's length alone determine the buckets, so panning changes nothing |
| TimeBucketLaws.BucketsConserve | webinterface/source/views/timeline/render-bands.js:314-338 | Over any choice of starts each tally adds up to the matching records that fall there |
| TimeBucketLaws.NothingIsLost | webinterface/source/views/timeline/render-bands.js:314-338 | The counts add up to the dated records |
| TimeBucketLaws.RecordInOneBucket | webinterface/source/views/timeline/render-bands.js:314-338 | Each dated record lies in exactly one bucket's interval, and starts are aligned |
| TimeBucketLaws.StepsDivide | webinterface/source/views/timeline/render-bands.js:353-366 | Each step divides every later one |
| TimeBucketLaws.ZoomOutMerges | webinterface/source/views/timeline/render-bands.js:308-374 | Gathering finer buckets under coarser starts gives exactly the coarser buckets, in the count and all breakdowns |
| TimeBucketLaws.SixtyAimedFor | webinterface/source/views/timeline/render-bands.js:308-374 | With 60 buckets aimed for and a window under 360 days there are at most 361 |
| PercentEncoding.DecodeEncode | webinterface/source/views/timeline/url-state.js:31-32 | Decoding gives back any text that can be encoded |
| PercentEncoding.EncodeIffWellFormed | webinterface/source/views/timeline/url-state.js:71-77 | Encoding throws exactly on lone surrogates |
| PercentEncoding.EncodePlain | webinterface/source/views/timeline/url-state.js:71-77 | Encoded text has only unreserved characters and percent signs |
| PercentEncoding.AsciiEncodes | webinterface/source/views/timeline/url-state.js:71-77 | Which ASCII characters stand for themselves, and the escape of every other |
| PercentEncoding.Utf8Unique | webinterface/source/views/timeline/url-state.js:31-32 | No octets but a character's own decode to it |
| UrlState.AddressBar.Read | webinterface/source/views/timeline/url-state.js:18-65 | The state the query string parses to |
| UrlStateLaws.ParseReads | webinterface/source/views/timeline/url-state.js:18-65 | Any query string at all: taken apart at ampersands and first equals signs, the last pair that names a key decides, text that does not decode stays raw, and defaults stand for what is missing |
| UrlState.AddressBar.Write | webinterface/source/views/timeline/url-state.js:67-86 | The query string becomes the printed state, or stays as it was when a part cannot be encoded |
| UrlStateLaws.SearchIs | webinterface/source/views/timeline/url-state.js:67-86 | The printed state is the parts that are there, each under its key and in a fixed order, the bucket left out when auto and the focus when incomplete |
| UrlStateLaws.ReadAfterWrite | webinterface/source/views/timeline/url-state.js:18-86 | For every state that can be written, reading gives its normal form |
| UrlStateLaws.RoundTripExact | webinterface/source/views/timeline/url-state.js:18-86 | A state comes back unchanged if and only if its parts are present, its mode is known and its focus is absent or complete with a colon-free kind |
| UrlStateLaws.WritableExact | webinterface/source/views/timeline/url-state.js:67-78 | A state can be written if and only if no part to be written has a lone surrogate |
| UrlStateLaws.NormaliseSettles | webinterface/source/views/timeline/url-state.js:18-86 | Going through the address bar again changes nothing more |
| AddressTemplate.ExtractBuildExact | webinterface/source/panels/Ultravisor-CardSettingsPanel.js:784-811 | Extracting gives back the address built around if and only if it has no line terminator and no "~}" after its first character |
| AddressTemplate.RebuildExact | webinterface/source/panels/Ultravisor-CardSettingsPanel.js:784-811 | Extract, trim and build give a string back if and only if it is one whole template |
| AddressTemplate.FindClose | webinterface/source/panels/Ultravisor-CardSettingsPanel.js:791-792 | The non-greedy match ends at the earliest close with no line terminator before it, or there is none |
| AddressTemplate.ExtractIs | webinterface/source/panels/Ultravisor-CardSettingsPanel.js:784-793 | From any text the leftmost template's content up to the first place where it can close, and nothing without a template |
| AddressTemplate.BuildIs | webinterface/source/panels/Ultravisor-CardSettingsPanel.js:803-811 | The template around an address, nothing around none |
| AddressTemplate.TrimCuts | webinterface/source/panels/Ultravisor-CardSettingsPanel.js:731 | Trimming cuts white space off both ends and nothing else |
| AddressTemplate.TrimLaws | webinterface/source/panels/Ultravisor-CardSettingsPanel.js:731 | Trimming gives trimmed text and leaves nothing but trimmed text alone |
| SettingsPanel.Panel.InitializeFieldStates | webinterface/source/panels/Ultravisor-CardSettingsPanel.js:128-197 | Every field of the schema as the last setting of its name says: a recorded mode decides, and without one text with a template is an address, any other entry a constant and a missing one the default |
| SettingsPanel.Panel.MarshalFromPanel | webinterface/source/panels/Ultravisor-CardSettingsPanel.js:669-757 | Every entry of the data afterwards: a constant as it is or as its editor or its parsed text gives it, an address in its template, nothing for a default, all other entries unchanged, and the recorded modes exactly those of constants and addresses |
| SettingsPanelLaws.ReopenRestoresExact | webinterface/source/panels/Ultravisor-CardSettingsPanel.js:128-197 | Opening the panel on what it saved restores a field's mode and value if and only if the mode is known and an address, trimmed, is extractable |
| SettingsPanelLaws.LegacySaveExact | webinterface/source/panels/Ultravisor-CardSettingsPanel.js:167-186 | Opening and saving data without recorded modes keeps an entry if and only if it is no template string or one whole template |
| Constellation.SharesCapability | webinterface/source/views/timeline/render-constellation.js:182-192 | True exactly for equal, non-empty primary capabilities |
| Constellation.DrawEdges | webinterface/source/views/timeline/render-constellation.js:65-84 | However beacons are named, going through the pairs in order exactly those are joined that share a capability and do not both have eight connections by then, so at most eight edges per node and none across groups; with distinct beacons exactly the pairs of one group whose earlier node is among its first eight, each once |
| Constellation.FirstReachesAll | webinterface/source/views/timeline/render-constellation.js:62-64 | The first node of a group is joined to every other node of it |
| Constellation.GroupsStayConnected | webinterface/source/views/timeline/render-constellation.js:62-64 | Two nodes of one group are joined or have a common neighbour |
| Constellation.NeighboursCapped | webinterface/source/views/timeline/render-constellation.js:62-64 | A node is joined to the first eight of its group before it, and a late node to none after it |
| PortReconciliation.FlowNode.AddMissing | webinterface/source/views/PictView-Ultravisor-FlowEditor.js:425-455 | The node's ports become the completed ports |
| PortReconciliation.FlowNode.FlagOrphans | webinterface/source/views/PictView-Ultravisor-FlowEditor.js:457-475 | The node's ports become the flagged ports |
| PortReconciliation.ReconcileNodePorts | webinterface/source/views/PictView-Ultravisor-FlowEditor.js:406-477 | Every listed node with saved ports whose type defines ports has them reconciled, also when it is listed twice; every other listed node keeps its ports and no other node changes |
| PortReconciliation.ReconciledIs | webinterface/source/views/PictView-Ultravisor-FlowEditor.js:425-475 | Saved ports stay first and unchanged but for their flag; every default is present; every port added is the new port of the first default for its place, in the order of the defaults; orphaned are exactly the ports no default fits and those already flagged |
| PortReconciliation.ReconcileIdempotent | webinterface/source/views/PictView-Ultravisor-FlowEditor.js:406-477 | Reconciling twice is reconciling once |

## Left out

* The hub server under `source/`: queue, coordinator, scheduler, execution engine and stores.
* Canvas and SVG drawing, layout geometry, colours, labels, templates, DOM listeners, routing, toasts and logging.
* Date parsing and formatting, and `resolveTime`. Buckets are ordered by integer start where the source compares ISO
  strings, which agree for the years 0 to 9999.
* Floating-point rounding in the choice of the bucket step, and a target count of 0.
* The provider's view slots, row indexes and view callback, and the window's own copy of the mode, which it never reads.
  The callback only schedules a redraw, so it is not modelled as calling back into the provider. The lists of an answer
  are one opaque value.
* The browser's own normalisation of a replaced URL (an apostrophe becomes %27, which decodes to the same character), and
  a failing `replaceState`.
* Query keys such as `__proto__` that a JavaScript object treats specially; the parser never looks them up.
* Field names such as `hasOwnProperty` that break the panel's own lookups, and a panel that was destroyed.
* Staging of array and object values in the object editor: the staged values and the JSON parser are parameters.
* Aliasing of ports: a node's ports are values, so two nodes that shared one port object are not modelled.
* Uniqueness of generated port hashes: an input and an output port with one label get the same hash.
* Breakdown names such as `constructor` that every JavaScript object already has a value for; a record with one makes the
  source's count of that name a text.
* An exact condition for the overlap heuristic to be free of loops beyond runs whose tasks come one after another.
  Elsewhere a repeated node can be harmless (`RepeatCanBeHarmless`) and a loop can change from one run of a node to another
  on the way (`LoopAcrossPaths`), so that deciding it takes the search for a loop itself.
- CriticalPath.ComputeCriticalPath: at keys a loop reaches it promises a real chain without repeats and no optimality,
  because what is recorded there depends on the order of visits.
