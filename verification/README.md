# Verified models of NZBGet's state machines and in-place algorithms

A Dafny model of the parts of NZBGet where correctness is a matter of many steps rather than one: the buffered
connection and the HTTP download on top of it, the feed coordinator and its history, the queue-script scheduler, the
table and search code of the web interface, the order of extensions, the choices in script options, and the file list of
the edit dialog. `dafny verify dfyconfig.toml` checks everything.

Code that changes state is modelled as classes and methods with the same loops; each method is proved against a function
or predicate on sequences, and the lemmas state what those functions are worth.

| file | models |
|---|---|
| `Connection.dfy` | the read side of daemon/connect/Connection.cpp over a socket that delivers chunks of any length, or fails |
| `HttpHeaders.dfy`, `HttpText.dfy`, `HeadReading.dfy`, `WebDownloader.dfy`, `HttpExamples.dfy` | daemon/connect/WebDownloader.cpp: the response head as a function of the octets, what the string functions make of its text, what becomes of it line by line and across receive errors, and the loops that read it, write the body, follow redirects and retry; whole responses, among them inputs that show where the code falls short |
| `FeedHistory.dfy`, `FeedBackoff.dfy`, `FeedCoordinator.dfy` | daemon/feed/FeedCoordinator.cpp: the history of items, the retry delay, and the locked steps that threads take in any order |
| `QueueScript.dfy`, `StableSort.dfy` | daemon/extension/QueueScript.cpp, and the stable sort that it carries out one item at a time |
| `SearchSyntax.dfy`, `FastSearcher.dfy`, `RecordMoves.dfy`, `TableDiff.dfy`, `Pager.dfy` | webui/fasttable.js: search expressions, drag-and-drop moves, in-place updates, paging |
| `ExtensionManager.dfy`, `ExtensionLoader.dfy` | loading and ordering extensions, and reading the choices of an option |
| `FileList.dfy` | moving checked files to the top or bottom in webui/edit.js |
| `Sequences.dfy`, `Wrappers.dfy`, `Integers.dfy` | filtering, removal by position, optional values, minimum and maximum |

How the environment enters the model:

- The socket returns 1 to `cap` octets of a fixed stream, 0 once the stream is used up, or an error at any time.
- The clock is read once per locked step (once per item in `ProcessFeed`, as in the code) and does not go back.
- Threads of the feed coordinator are interleaved at the granularity of its lock; a status that the code stores without
  the lock is a step of its own.
- `UsableScript` and the verdict of a feed's filter are fixed predicates; the extension list names each script once.
- A DOM node is an identity with its html; the live child lists of a row, table or pager are sequences that shrink when a
  node moves to another parent.

What the proofs brought to light:

- A search term whose text is exactly `-`, `(`, `)` or `|` cannot be searched for: quotes around it are dropped before
  the token is compared with the operators. The round trip holds exactly for the other terms without double quotes
  (`SearchSyntax.CompilesToIff`).
- An item that stays in a feed can be downloaded twice. `LastUpdate` moves on when parsing fails, but the entries are
  refreshed only when it succeeds, so the clean-up can overtake them; with FeedHistory 0 one tick of the clock between
  the last item and the store of `LastUpdate` is enough (`FeedHistories.TickForgets`). How often a url is downloaded in
  any run is settled by one timestamp (`FeedHistories.DownloadsExactly`), and a known item is downloaded again exactly if
  a clean-up since its last sighting found every feed updated more than FeedHistory days after it
  (`FeedHistories.DownloadedAgainIff`).
- After a receive error the connection is broken for `ReadLine`, so an error in the head ends it as if the peer had
  closed there: the download fails, unless the error strikes inside the blank line. `TryRecv` does not look at the
  connection's status, so the rest of that line then reaches the body (`HttpHeaders.CutResponse`). Of a well-formed
  head that is just the final newline. What the disk is given then differs from what the answer announces, unless the
  octets counted are there and are nothing but newlines (`HttpHeaders.DownloadIsRightIff`; for an input
  `HttpExamples.StrayNewline`). The newline even makes up for a missing octet: an answer one octet short of its
  Content-Length, which could only fail, then finishes (`HttpExamples.TruncatedAnswer`).
- `fwrite` may take less than it is given, and `Write` calls that a success unless it took nothing. A finished download
  holds what the disk took of each chunk in turn, which is everything exactly if no write was short
  (`HeadReading.CompleteIff`; for an input `HttpExamples.ShortWrite`).
- A server that sends more than it announces is read to the end, and the download fails, unless a read happens to end
  at the announced length (`HeadReading.BodyOutcome` in the contract of `DownloadBody`; for an input
  `HttpExamples.OverlongAnswer`).
- `CheckResponse` handles a missing response as a failed connection, but is always passed the line buffer. A connection
  closed before the first line counts as a failed download instead (`HeadReading.NoAnswer`). When sending the request
  has failed, the line buffer is read before anything was written to it; whatever it holds, no body follows
  (`WebDownloads.WebDownloader.ReadHead`).
- A response with Content-Length 0, or with no body at all, never finishes (`HeadReading.CanFinishIff`). A Content-Length
  of -1 beside a gzip header, in a build without gzip, ends with the first chunk (contract of `DownloadBody`,
  `HttpHeaders.GzipWithoutLength`; for an input `HttpExamples.FirstChunkIsAll`).
- A stop or pause right after a finished attempt turns it into adRetry, and its file stays. A run that starts without a
  file leaves one exactly if its last attempt finished (`WebDownloads.WebDownloader.Run`).

## Model

| member | source | states |
|---|---|---|
| Connections.FirstLineIsUnique | daemon/connect/Connection.cpp:389-468 | stopping at the first newline, at the cap or at the end of the stream leaves only one possible line, so a line cannot depend on chunking |
| Connections.Socket.Receive | daemon/connect/Connection.cpp:1006-1025 | recv hands out any nonempty chunk of the stream in order, 0 only when all is handed out, or an error |
| Connections.Connection.LineTurn | daemon/connect/Connection.cpp:403-451 | one turn of ReadLine refills an empty buffer and takes the next pending octets up to and including a newline; it stops at a newline, at the end of the stream, when the caller's buffer is full or after an error |
| Connections.Connection.ReadLine | daemon/connect/Connection.cpp:389-468 | the line is the pending octets through the first newline, capped at size-1 or the end of the stream, for every chunking and buffer state; the rest stays pending; a receive error breaks the connection and shortens the line |
| Connections.Connection.TryRecv | daemon/connect/Connection.cpp:494-512 | delivers the next octets of the socket, past what is buffered; an error or end delivers nothing |
| Connections.Connection.Recv | daemon/connect/Connection.cpp:514-548 | delivers exactly the first `size` pending octets, buffered ones first, or fails by error or end of stream after a prefix of them |
| Connections.Connection.ReadBuffer | daemon/connect/Connection.cpp:888-893 | hands out all buffered octets once, and only them |
| Connections.ReadBody | daemon/connect/WebDownloader.cpp:362-369 | the read of a body loop delivers a nonempty next part of the stream, 0 only at its end |
| Connections.Deliver | daemon/connect/Connection.cpp:389-548 | any mix of ReadLine, Recv and body reads hands out a prefix of the stream, no octet lost, repeated or reordered; without errors ReadLine and Recv even hand out the same number of octets for every chunking |
| HttpHeaders.HeaderLineIsRead | daemon/connect/WebDownloader.cpp:283-296 | a header line that fits the buffer is read up to its line end |
| HttpHeaders.WellFormedHeaders | daemon/connect/WebDownloader.cpp:291-335 | header lines are read as written; the body starts right after the line that begins with CR, or after as much of it as comes, unless a redirect target ends the reading |
| HttpHeaders.WellFormedResponse | daemon/connect/WebDownloader.cpp:278-338 | an accepted response head is read with exactly the fields its lines set, or ends at its redirect target |
| HttpHeaders.CutHead | daemon/connect/WebDownloader.cpp:291-335 | a head cut short by a receive error is read to its end only if the cut lies inside the blank line, and then with all its fields |
| HttpHeaders.CutResponse | daemon/connect/WebDownloader.cpp:278-338 | wherever a receive error makes the head end, status line and fields are those of the whole response, and the body is taken to start too early exactly if the blank line was cut |
| HttpHeaders.ServedReadsAs | daemon/connect/WebDownloader.cpp:278-338 | every well-formed head without a redirect target is read as its lines say, whatever follows in the line that begins with CR |
| HttpHeaders.DownloadIsTheBody | daemon/connect/WebDownloader.cpp:340-422 | when the server announces the length correctly, or none, what a download of the whole head may hold is the body and nothing else, and never an empty one |
| HttpHeaders.OnlyTheNewlineGoesAstray | daemon/connect/WebDownloader.cpp:320-325 | in a well-formed response the head can be taken to end only where it does or one newline too early |
| HttpHeaders.TheNewlineCanGoAstray | daemon/connect/WebDownloader.cpp:320-325 | and every well-formed response can be taken to end there |
| HttpHeaders.DownloadIsRightIff | daemon/connect/WebDownloader.cpp:340-422 | whatever the head announces and however much is sent: a finished download holds what the answer announces if and only if the blank line was read whole, or the octets counted are there and are nothing but newlines |
| HttpHeaders.DownloadIsTheBodyIff | daemon/connect/WebDownloader.cpp:340-422 | with a correct length or none, a finished download equals the body if and only if the blank line was read whole, or the body is nothing but newlines of announced length |
| HttpHeaders.GzipWithoutLength | daemon/connect/WebDownloader.cpp:397 | beside a gzip header a Content-Length of -1 lets any nonempty first part of the body pass for all of it |
| HttpText.AtoiReadsDecimal | daemon/connect/WebDownloader.cpp:478 | a length is read as the number it was printed from, for every number, with or without a sign, up to the first character that is no digit |
| HttpText.AtoiSkipsBlanks | daemon/connect/WebDownloader.cpp:478 | white space before a number is skipped, and any other text counts as 0 |
| HttpText.HasNameIff | daemon/connect/WebDownloader.cpp:476-489 | a header name is found in any mix of upper and lower case, and only at the start of the line |
| HttpText.AddHeaderIff | daemon/connect/WebDownloader.cpp:474-494 | a length and a gzip coding are taken from the lines of these names, a redirect target from its line only in a redirection; every other line changes nothing |
| HttpText.BareNewlineEndsHead | daemon/connect/WebDownloader.cpp:320-325 | a line that is just a newline ends the head too |
| HttpText.TrimRightIff | daemon/connect/WebDownloader.cpp:326 | exactly the white space at the end of a header line is dropped |
| HttpText.StatusByCode | daemon/connect/WebDownloader.cpp:435-471 | the three characters after the first space of a line that begins with HTTP decide: 200 goes on, 301, 302, 303, 307 and 308 redirect, 400 and 499 count as connect errors, 404 as not found, all others fail |
| HttpText.NoStatus | daemon/connect/WebDownloader.cpp:435-440 | a line without a space, or that does not begin with HTTP, fails |
| HttpExamples.LengthReadsAs | daemon/connect/WebDownloader.cpp:476-480 | a Content-Length line with any number that fits the line buffer announces that number |
| HttpExamples.AnnouncedBody | daemon/connect/WebDownloader.cpp:340-422 | for every body sent with its length printed before it, what a download of the whole head may hold is that body and nothing else |
| HttpExamples.PlainBody | daemon/connect/WebDownloader.cpp:371-390 | the same with no length announced |
| HttpExamples.GzipBody | daemon/connect/WebDownloader.cpp:397 | and with a gzip coding but no length |
| HttpExamples.StrayNewline | daemon/connect/WebDownloader.cpp:364-369 | an input: a response that announces and sends two octets, of which the file holds a stray newline and the first |
| HttpExamples.TruncatedAnswer | daemon/connect/WebDownloader.cpp:364-369 | an input: three octets announced and two sent can only fail when read whole, and finish with a stray newline |
| HttpExamples.ShortWrite | daemon/connect/WebDownloader.cpp:599 | an input: of two octets the disk takes one, and the download finishes |
| HttpExamples.OverlongAnswer | daemon/connect/WebDownloader.cpp:397 | an input: two octets announced and three sent finish or fail by the way they come |
| HttpExamples.FirstChunkIsAll | daemon/connect/WebDownloader.cpp:397 | an input: a gzip header and a Content-Length of -1, for which one octet of two passes for the content |
| HeadReading.ShortIff | daemon/connect/WebDownloader.cpp:560-600 | what the disk took of the chunks in turn is shorter than what was received exactly if it took less of one of them, and otherwise the same |
| HeadReading.CompleteIff | daemon/connect/WebDownloader.cpp:560-600 | a finished file is the content that its answer announces exactly if the disk took all of every chunk |
| HeadReading.OutcomeByLength | daemon/connect/WebDownloader.cpp:371-416 | an announced length is noticed exactly if some read ends there; so only octets past the announced length leave the outcome to the way the body comes |
| HeadReading.TurnAgrees | daemon/connect/WebDownloader.cpp:291-335 | whatever length of the stream comes in the end, the loop after each line is where parsing that much of the stream would be |
| HeadReading.CutLineGoesOn | daemon/connect/WebDownloader.cpp:320-325 | a blank line cut by a receive error goes on in the octets that follow |
| WebDownloads.WebDownloader.DownloadHeaders | daemon/connect/WebDownloader.cpp:278-338 | for every chunking, status, fields and the position of the body are those of parsing at once what came: the whole stream, or what came before a receive error; the body then starts too early exactly if the blank line was cut |
| WebDownloads.WebDownloader.DownloadBody | daemon/connect/WebDownloader.cpp:340-422 | finished means the chunks received are the first Content-Length octets after the head, or all of them when no length was given, including octets left in the header buffer, and the file is what the disk took of them; undisturbed, the outcome is decided by whether some read ends at the announced length |
| WebDownloads.WebDownloader.Write | daemon/connect/WebDownloader.cpp:560-618 | a write extends the file by the part of the chunk that the disk took, and fails only if it took nothing or the file could not be created |
| WebDownloads.WebDownloader.ReadAnswer | daemon/connect/WebDownloader.cpp:169-174 | the head and then the body as one, over the whole answer of the peer; with an unsent request no body is read |
| WebDownloads.WebDownloader.Download | daemon/connect/WebDownloader.cpp:141-190 | in every run, also when sending the request fails, a finished request leaves what its answer announces from where the head was taken to end, as far as the disk took it; the head ends where it should exactly if no receive error cut it; a connected request that ends otherwise leaves no file; undisturbed, the answer and the reads of its body decide how it ends |
| WebDownloads.WebDownloader.DownloadWithRedirects | daemon/connect/WebDownloader.cpp:192-209 | every request but the last ended in a redirect, and the status of the last is the result; only a chain of maxRedirects+1 redirects becomes adFailed; the content is that of the last request if it finished |
| WebDownloads.WebDownloader.Run | daemon/connect/WebDownloader.cpp:57-139 | every attempt but the one that ends the run is charged to the tries of its kind, failed downloads to D and failed connections to C, and the run goes on while both are left; giving up takes a final answer or all tries of one kind; adRetry comes exactly of a stop or of an unforced pause; observers see adRunning and then exactly one of finished, failed and retry; a run that starts without a file leaves one exactly if its last attempt finished |
| WebDownloads.WebDownloader.RunTurn | daemon/connect/WebDownloader.cpp:75-123 | one attempt ends the run or takes one try from its kind |
| WebDownloads.TriesOf | daemon/connect/WebDownloader.cpp:63-69 | D is UrlRetries and C is UrlRetries but at least 10; without retrying both are 1 |
| HeadReading.OneLineRead | daemon/connect/WebDownloader.cpp:291-335 | one line read is one step of parsing the whole head |
| FeedBackoff.DelayDoubles | daemon/feed/FeedCoordinator.cpp:411-419 | after k failures in a row the delay is min(60*2^(k-1), 60*Interval), for every interval |
| FeedBackoff.DelayByMinutes | daemon/feed/FeedCoordinator.cpp:411-419 | the first delay is a minute, each next one twice the one before up to the interval, and none without a failure |
| FeedHistories.RememberEffect | daemon/feed/FeedCoordinator.cpp:489-514 | an accepted item is known afterwards and seen now, all other entries keep their sighting, urls stay unique |
| FeedHistories.RememberStatus | daemon/feed/FeedCoordinator.cpp:489-514 | a new entry is backlog on a first fetch that is taken as such, else fetched; no other status changes |
| FeedHistories.ProcessEffect | daemon/feed/FeedCoordinator.cpp:477-527 | processing a feed creates an NzbInfo for a url once if it is accepted, new and not backlog, else never; exactly the accepted urls are added and refreshed |
| FeedHistories.ForgetEffect | daemon/feed/FeedCoordinator.cpp:740-753 | the clean-up forgets exactly the urls last seen before the border |
| FeedHistories.CompleteEffect | daemon/feed/FeedCoordinator.cpp:683-702 | a completed url is known afterwards and no sighting changes |
| FeedHistories.CompleteStatus | daemon/feed/FeedCoordinator.cpp:683-702 | a completed url is fetched, whatever it was; no other status changes |
| FeedHistories.FirstFetch | daemon/feed/FeedCoordinator.cpp:489-514 | the first fetch of a feed downloads its items, or with the backlog option none |
| FeedHistories.AfterAWeek | daemon/feed/FeedCoordinator.cpp:724-754 | with FeedHistory 7 an entry may go 604800 seconds after its last sighting and no sooner |
| FeedHistories.StaysKnown | daemon/feed/FeedCoordinator.cpp:371-386 | the invariant: an entry seen since the feed's last successful parse began survives every step of a run that keeps the feed fresh |
| FeedHistories.DownloadedAtMostOnce | daemon/feed/FeedCoordinator.cpp:477-527 | over any run, an item accepted in every successful parse of a feed becomes an NzbInfo at most once, provided LastUpdate is never more than FeedHistory days past the last successful parse at a clean-up |
| FeedHistories.FollowsStep | daemon/feed/FeedCoordinator.cpp:477-527 | for one url the history acts in every step as a single timestamp, which also says whether the step downloads it |
| FeedHistories.DownloadsExactly | daemon/feed/FeedCoordinator.cpp:371-386 | over any run, a url becomes an NzbInfo exactly as often as its timestamp says |
| FeedHistories.LostIff | daemon/feed/FeedCoordinator.cpp:724-754 | over any steps that do not mention it, a known url is forgotten if and only if some clean-up finds every feed updated more than FeedHistory days after its last sighting |
| FeedHistories.DownloadedAgainIff | daemon/feed/FeedCoordinator.cpp:724-754 | after any steps that do not mention it, the next parse that accepts a known item downloads it again if and only if one of them was such a clean-up, unless it is taken as backlog |
| FeedHistories.TickForgets | daemon/feed/FeedCoordinator.cpp:383-385 | an input: a run with FeedHistory 0 in which an item that stays in the feed is downloaded exactly twice |
| FeedHistories.ProcessOneMore | daemon/feed/FeedCoordinator.cpp:487-515 | the loop's step agrees with processing the items recursively |
| FeedCoordination.FeedInfo.Due | daemon/feed/FeedCoordinator.cpp:166-170 | on schedule, the test against a clock that went back never fires |
| FeedCoordination.DueFromNextUpdate | daemon/feed/FeedCoordinator.cpp:165-170 | a feed with an interval is due from its delay after the last update on, and at once before the first; one without only when a fetch is asked for |
| FeedCoordination.AcceptedInOrder | daemon/feed/FeedCoordinator.cpp:487-490 | the urls that are processed are those of the accepted items, in the order of the items and as often |
| FeedCoordination.AcceptedIff | daemon/feed/FeedCoordinator.cpp:487-490 | a url is processed exactly if some item with it is accepted |
| FeedCoordination.FeedCoordinator.StartFeedDownload | daemon/feed/FeedCoordinator.cpp:291-323 | a feed without a thread gets one, runs, and has its fetch flag cleared |
| FeedCoordination.FeedCoordinator.RunPass | daemon/feed/FeedCoordinator.cpp:155-181 | starts exactly the due feeds that are not running, unless all connections are taken, and keeps m_force while a fetch must wait |
| FeedCoordination.FeedCoordinator.FetchFeed | daemon/feed/FeedCoordinator.cpp:651-666 | marks exactly the feeds with the id, or all for 0, and forces a pass if there are any |
| FeedCoordination.FeedCoordinator.StartPreview | daemon/feed/FeedCoordinator.cpp:596-600 | a preview runs on a feed of its own and disturbs no other |
| FeedCoordination.FeedCoordinator.RemoveActive | daemon/feed/FeedCoordinator.cpp:349-353 | the completed downloader is on the active list, and only it is taken off |
| FeedCoordination.FeedCoordinator.Update | daemon/feed/FeedCoordinator.cpp:325-336 | exactly a terminal status completes the download |
| FeedCoordination.FeedCoordinator.SchedulerNextUpdate | daemon/feed/FeedCoordinator.cpp:401-423 | success schedules one interval ahead and resets the backoff, a failure follows the delay schedule; the feed stays on schedule |
| FeedCoordination.FeedCoordinator.EndThread | daemon/feed/FeedCoordinator.cpp:365-398 | the end of a thread frees its feed: finished after its items are handled or for a fetched preview, failed after a failed download or script |
| FeedCoordination.FeedCoordinator.ProcessItem | daemon/feed/FeedCoordinator.cpp:489-514 | one accepted item acts on the history as the history model says |
| FeedCoordination.FeedCoordinator.ProcessFeed | daemon/feed/FeedCoordinator.cpp:477-527 | the new NzbInfos and the history are those of the history model for the accepted items, in order |
| FeedCoordination.FeedCoordinator.HandleFeedFile | daemon/feed/FeedCoordinator.cpp:371-386 | a parsed or unparsable feed file is one step of the history model, and the NzbInfos are that step's |
| FeedCoordination.FeedCoordinator.CleanupHistory | daemon/feed/FeedCoordinator.cpp:724-754 | the clean-up is one step of the history model, and marks the feeds for saving when it forgets anything |
| FeedCoordination.FeedCoordinator.DownloadQueueUpdate | daemon/feed/FeedCoordinator.cpp:683-702 | a completed url is one step of the history model |
| FeedCoordination.FeedCoordinator.FindEntry | daemon/feed/FeedInfo.cpp:219-230 | the first entry of the url |
| FeedCoordination.RunDownloader | daemon/feed/FeedCoordinator.cpp:325-353 | whatever a downloader's retries and redirects, its notifications complete its feed exactly once, and success means the file holds what the last request delivered |
| FeedCoordination.PerformAll | daemon/feed/FeedCoordinator.cpp:338-399 | in every interleaving each feed has at most one thread and runs while it has one, a pending fetch implies m_force, and the history steps form a run of the history model with exactly its NzbInfos and the items that the feed files hold |
| FeedCoordination.RunFeeds | daemon/feed/FeedCoordinator.cpp:338-399 | end to end: in every interleaving each url becomes an NzbInfo exactly as often as its timestamp says; one that every parse of a feed accepts exactly once from the first parse on while the feed is kept fresh, unless it was known or is backlog; one that no parse accepts never |
| QueueScripts.QueueScriptCoordinator.ScanQueue | daemon/extension/QueueScript.cpp:420-457 | the loop that erases and restarts ends, leaves exactly the items that are not ignored, in order, and finds the earliest one of the highest event |
| QueueScripts.PriorityFollowsTheList | daemon/extension/QueueScript.h:30-39 | priorities compare as the events do in the list of the source, which has every event once |
| QueueScripts.TakesTheHighest | daemon/extension/QueueScript.cpp:449-454 | the item that takes the slot has an event that the list names no later than any other, and is the first such item |
| QueueScripts.EventsThatSurvive | daemon/extension/QueueScript.cpp:432-435 | of an unknown nzb no event survives, of a bad one only NZB_MARKED, of a deleted one NZB_MARKED and NZB_DELETED, of any other all |
| QueueScripts.ThrottledIff | daemon/extension/QueueScript.cpp:285-293 | no event but FILE_DOWNLOADED is ever held back; that one always by -1, never by 0, and by n seconds while 1 to n-1 have gone by |
| QueueScripts.WantedComesIn | daemon/extension/QueueScript.cpp:299-325 | a wanted item stays out exactly if it is a FILE_DOWNLOADED item and something is queued for its nzb and script |
| QueueScripts.QueueScriptCoordinator.CheckQueue | daemon/extension/QueueScript.cpp:410-465 | refines "filter, then take the first maximum"; the slot is empty only if nothing is left |
| QueueScripts.QueueScriptCoordinator.EnqueueOne | daemon/extension/QueueScript.cpp:299-325 | an item goes to the free slot or the end of the queue, a FILE_DOWNLOADED item only when none is queued for its nzb and script |
| QueueScripts.QueueScriptCoordinator.EnqueueUsable | daemon/extension/QueueScript.cpp:295-330 | the usable scripts go in together in list order, the first into a free slot |
| QueueScripts.QueueScriptCoordinator.EnqueueScript | daemon/extension/QueueScript.cpp:265-331 | the whole new state for every event; after NZB_DOWNLOADED only items of that event are queued for the nzb |
| QueueScripts.QueueScriptCoordinator.DeleteQueued | daemon/extension/QueueScript.cpp:276-282 | all items of the nzb go, the others stay in order |
| QueueScripts.QueueScriptCoordinator.ControllerFinishes | daemon/extension/QueueScript.cpp:108-127 | a finished script frees the slot and hands it on; the slot then belongs to a script that executes, exactly unless the item that takes it skips scripts |
| QueueScripts.QueueScriptCoordinator.TakeNext | daemon/extension/QueueScript.cpp:410-465 | a free slot takes the head of the stable sort of what is not ignored, and its script starts |
| QueueScripts.QueueScriptCoordinator.Drain | daemon/extension/QueueScript.cpp:410-465 | with no new events the scripts start in exactly the order of a stable sort: all items of one event in the order of the queue, after those of the events that the list names later; exactly the ignored items are dropped |
| QueueScripts.QueueScriptCoordinator.HasJob | daemon/extension/QueueScript.cpp:467-489 | true exactly for an nzb in the slot or the queue |
| QueueScripts.QueueScriptCoordinator.GetQueueSize | daemon/extension/QueueScript.cpp:491-502 | zero exactly when nothing runs |
| QueueScripts.RunSteps | daemon/extension/QueueScript.cpp:265-465 | in every reachable state the queue is nonempty only if the slot is taken, a taken slot has the one script that executes, and at most one FILE_DOWNLOADED item is queued for an nzb and script |
| QueueScripts.OnlyDownloadedComeBack | daemon/extension/QueueScript.cpp:274-283 | after the purge only NZB_DOWNLOADED items of the nzb come in |
| QueueScripts.TakingTheMaximum | daemon/extension/QueueScript.cpp:449-464 | taking the earliest maximum takes the head of the stable sort and leaves its tail |
| StableSort.FirstMaxHeadsTheSort | daemon/extension/QueueScript.cpp:449-464 | repeatedly taking the first maximum is the stable sort |
| StableSort.DescendingIsSorted | daemon/extension/QueueScript.h:30-39 | the order of starts never rises in priority |
| StableSort.DescendingIsStable | daemon/extension/QueueScript.cpp:449-454 | among items of one event the order of starts is the order of the queue |
| SearchSyntax.RoundTrip | webui/fasttable.js:1372-1424 | printing a tree in parentheses with quoted terms and compiling gives the tree back |
| SearchSyntax.CompilesToIff | webui/fasttable.js:1320-1424 | a tree comes back from its print exactly when its terms have no double quote and are not operators; no other tree is compiled from any text |
| SearchSyntax.ExpressionIsSearchable | webui/fasttable.js:1320-1424 | whatever the text, no compiled term is an operator or holds a double quote |
| SearchSyntax.ReadTree | webui/fasttable.js:1377-1421 | a printed tree is one operand, and reading goes on right behind it |
| SearchSyntax.UnparenthesisedFoldsLeft | webui/fasttable.js:1377-1421 | without parentheses, and / or group to the left with equal precedence and a dash binds one operand |
| SearchSyntax.SearchMeaning | webui/fasttable.js:1434-1453 | a record passes a text of several searches exactly when going from left to right over what each of them alone says of it |
| SearchSyntax.WordMeaning | webui/fasttable.js:1429-1432 | a quoted word shows exactly the records in which it is found |
| SearchSyntax.CombinedMeaning | webui/fasttable.js:1434-1453 | two searches with a blank or a bar between them show the records of both or of either, one with a dash before it all others |
| SearchSyntax.BlankMeaning | webui/fasttable.js:1429-1432 | a text of nothing but blanks lets every record pass |
| SearchSyntax.AndThenOr | webui/fasttable.js:1377-1421 | a and b with a blank between them and then a bar and c: the records with both a and b, or with c |
| SearchSyntax.OrThenAndNot | webui/fasttable.js:1377-1421 | a and b with a bar between them and then a blank, a dash and c: the records with a or b that are without c |
| SearchSyntax.PlainWord | webui/fasttable.js:1339-1365 | a word without quotes goes up to the first blank, parenthesis or bar |
| SearchSyntax.PlainWordMeaning | webui/fasttable.js:1339-1365 | a word needs no quotes if it has no blanks, parentheses, bars or quotes and does not begin with a dash |
| SearchSyntax.DashInside | webui/fasttable.js:1332-1362 | a dash inside a word is part of it |
| SearchSyntax.DashBefore | webui/fasttable.js:1332-1362 | a dash before a word excludes its records |
| SearchSyntax.QuoteInsideMeaning | webui/fasttable.js:1344-1358 | quotes may open and close inside a word, hold blanks together, and are not part of it; an open one ends with the text |
| FastSearching.FastSearcher.NextToken | webui/fasttable.js:1320-1370 | the token and the position are those of the lexer function, and every token consumes input |
| FastSearching.FastSearcher.Expression | webui/fasttable.js:1377-1421 | the recursive descent ends on every text, with the tree and position of the grammar function |
| FastSearching.FastSearcher.CompileText | webui/fasttable.js:1372-1424 | the root is the compiled tree of the text |
| FastSearching.FastSearcher.Exec | webui/fasttable.js:1429-1432 | a record passes exactly if the compiled search lets it, which the laws above settle from the text |
| RecordMoves.TableData.TakeOut | webui/fasttable.js:1166-1193 | the moved records come out in order, the others stay in order, and the drop target is repaired |
| RecordMoves.TableData.PutBack | webui/fasttable.js:1205-1215 | the records go in as one block, in order, at the drop target |
| RecordMoves.TableData.MoveRows | webui/fasttable.js:1161-1216 | unmoved records keep their order with the moved ones as one block, which for a moved target sits after exactly the unmoved records that preceded it; the reported target is an unmoved record beside the block |
| RecordMoves.MovesBesideTheTarget | webui/fasttable.js:1161-1216 | moved and unmoved records keep their order, and an unmoved target has the block right before or after it, as asked for |
| RecordMoves.MoveOne | webui/fasttable.js:1175-1191 | taking out the target leaves a target that still names the same place |
| RecordMoves.Anchored | webui/fasttable.js:1175-1202 | the repaired target names the block's place; there is none exactly when everything moves, and then nothing changes |
| TableDiffs.UpdateRow | webui/fasttable.js:402-424 | over the shrinking list of new cells, as far as the old row goes, it ends with every differing cell replaced and every other one kept |
| TableDiffs.MergeRows | webui/fasttable.js:397-431 | the loop ends; old rows are merged in place, and exactly the new rows beyond them move over |
| TableDiffs.UpdateTBody | webui/fasttable.js:388-437 | for all old and new lengths the header stays, old rows are reused, and a row shows what a full rewrite would exactly if it has no old row or one of the same width |
| TableDiffs.UpdateLooksLikeRewrite | webui/fasttable.js:402-424 | a merged row cannot be told from the new one exactly if the two are equally wide, and cells with the same html keep their identity |
| TableDiffs.Repaged | webui/fasttable.js:549-586 | items show the new html, and items with unchanged html are the old nodes |
| TableDiffs.PagerList.UpdateContent | webui/fasttable.js:549-586 | the in-place update ends with exactly those items for all old and new lengths |
| Pagers.PagesMakeTheContent | webui/fasttable.js:441-452 | pages 1 to pageCount joined are the filtered content, and only the last may be short |
| Pagers.WindowShowsTheCurrentPage | webui/fasttable.js:465-487 | the window lies in 1..pageCount, has min(maxPages, pageCount) pages and contains the current one, for odd and even maxPages |
| Pagers.WindowIsCentred | webui/fasttable.js:465-487 | half a window of pages stands before the current one, unless the window would leave the pages, and then it stands at that end |
| Pagers.DisabledIffNoOtherPage | webui/fasttable.js:512-543 | "previous" and "next" are disabled exactly when the page they lead to is the current one |
| Pagers.PagerReadsInOrder | webui/fasttable.js:515-540 | read from left to right the pager goes from page 1 to the last in order; dots stand exactly where pages are missing |
| Pagers.OnlyTheCurrentPageIsActive | webui/fasttable.js:524-531 | the j-th number of the window is start+j, marked exactly if it is the current page |
| Pagers.BuildPager | webui/fasttable.js:463-547 | the loop builds the items of the window |
| Pagers.TableData.UpdatePager | webui/fasttable.js:439-461 | the current page is the nearest existing one (0 when empty), its slice is shown, and the list of items is updated to match |
| Extensions.SortedIsUnique | daemon/extension/ExtensionManager.cpp:321-324 | with unique names there is one sorted arrangement, whatever the sorting algorithm |
| Extensions.LessIsTotal | daemon/extension/ExtensionManager.cpp:321-324 | the comparison by strcmp is a strict total order |
| Extensions.LessByFirstDifference | daemon/extension/ExtensionManager.cpp:321-324 | the first characters that differ decide, and a proper prefix comes first |
| Extensions.DedupeKeepsTheNames | daemon/extension/ExtensionManager.cpp:336-350 | the order list keeps every name once |
| Extensions.DedupeKeepsTheOrder | daemon/extension/ExtensionManager.cpp:336-350 | its names stand in the order of their first mentions |
| Extensions.Placed | daemon/extension/ExtensionManager.cpp:366-377 | a swap puts the next named extension behind those placed and never disturbs them |
| Extensions.OrderIsCanonical | daemon/extension/ExtensionManager.cpp:319-386 | with unique names the result of Sort does not depend on the order before |
| Extensions.OthersAreNotNamed | daemon/extension/ExtensionManager.cpp:362-385 | behind the prefix no extension is named by the order list |
| Extensions.OrderedByMention | daemon/extension/ExtensionManager.cpp:319-386 | of any two extensions after Sort: a mentioned one stands before one that is not, two mentioned ones in the order of their first mentions, two others by name |
| Extensions.Manager.Sort | daemon/extension/ExtensionManager.cpp:319-386 | a permutation whose prefix is the deduplicated order list restricted to existing extensions and whose suffix is sorted by name |
| Extensions.Manager.GetByName | daemon/extension/ExtensionManager.cpp:399-409 | the first extension of the name, or the end exactly when there is none |
| Extensions.Manager.Exists | daemon/extension/ExtensionManager.cpp:314-317 | true exactly for the name of a listed extension |
| Extensions.LoadingKeepsNamesUnique | daemon/extension/ExtensionManager.cpp:246-286 | no directory tree brings a name in twice or pushes an extension out |
| Extensions.EntriesAreFound | daemon/extension/ExtensionManager.cpp:259-285 | every visible loadable file, and every sub-directory's manifest, is found under its name afterwards |
| Extensions.HiddenStaysOut | daemon/extension/ExtensionManager.cpp:262-263 | a file or folder whose name begins with a dot or underscore might as well not be there |
| Extensions.FirstFileWins | daemon/extension/ExtensionManager.cpp:265-280 | the first visible file that loads under a free name gets it, with its path as entry, and as location the path, or one level down the directory |
| Extensions.OnlyOffersComeIn | daemon/extension/ExtensionManager.cpp:246-286 | nothing is loaded but a manifest, a visible file that loads, or what a visible folder offers one level down |
| Extensions.ManifestStandsForAll | daemon/extension/ExtensionManager.cpp:250-256 | a manifest with a free name is all that its directory adds |
| Extensions.LastDot | daemon/extension/ExtensionManager.cpp:388-397 | the last dot of a file name, if it has one |
| Extensions.NameOfFile | daemon/extension/ExtensionManager.cpp:388-397 | a file is named without its last suffix, and without a dot by its whole name |
| Extensions.Manager.LoadExtensionDir | daemon/extension/ExtensionManager.cpp:246-286 | a manifest with a free name hides the files beside it; otherwise files and, one level deep, directories are taken in order |
| Extensions.Manager.LoadExtensions | daemon/extension/ExtensionManager.cpp:180-203 | the list has unique names and the order asked for |
| OptionChoices.ExtractElements | daemon/extension/ExtensionLoader.cpp:347-424 | the index loops compute the scan of the text |
| OptionChoices.ReadRest | daemon/extension/ExtensionLoader.cpp:383-414 | the inner loop collects up to a comma, a space or the last character |
| OptionChoices.ListRoundTrip | daemon/extension/ExtensionLoader.cpp:347-424 | two or more words without commas or spaces, joined by commas and any number of spaces, come back with delimiter ",", dashes or not |
| OptionChoices.RangeIff | daemon/extension/ExtensionLoader.cpp:347-424 | the delimiter is "-" exactly for a-b with a dash-free a, where neither has a comma or space before the last character of the text; leading spaces aside, a and b come back |
| OptionChoices.ListIsNoRange | daemon/extension/ExtensionLoader.cpp:381 | once a comma has been passed, dashes are letters |
| OptionChoices.HowMany | daemon/extension/ExtensionLoader.cpp:347-424 | a space that ends a word before the last character makes the whole text the only element; otherwise a text that is no range has one element more than commas, its last character not counted, and no delimiter exactly if it has one element |
| OptionChoices.OneWord | daemon/extension/ExtensionLoader.cpp:347-424 | a single word without dashes comes back alone, without leading spaces and with no delimiter |
| OptionChoices.ElementsKeepTheText | daemon/extension/ExtensionLoader.cpp:347-424 | for every text, the elements written with their delimiter show all of it except spaces |
| FileLists.TopStep | webui/edit.js:666-675 | the position that the backward scan looks at holds the last unseen file, and moving it extends the partition |
| FileLists.BottomStep | webui/edit.js:694-703 | the same for the forward scan and the bottom |
| FileLists.PartitionKeepsTheFiles | webui/edit.js:638-703 | no file is lost or repeated |
| FileLists.PartitionDivides | webui/edit.js:638-703 | at the top no checked file stands behind an unchecked one, at the bottom none before |
| FileLists.PartitionIsStable | webui/edit.js:638-703 | both groups keep their order |
| FileLists.PartitionTwice | webui/edit.js:638-703 | moving the same files again changes nothing |
| FileLists.DownloadsEditDialog.MoveToTop | webui/edit.js:638-675 | the loop that splices the list it scans ends with checked files first, each group in its order |
| FileLists.DownloadsEditDialog.MoveToBottom | webui/edit.js:638-703 | the same with checked files last |
| FileLists.DownloadsEditDialog.EditActionClick | webui/edit.js:614-703 | the stable partition for both actions, with exactly the checked files marked as moved; nothing happens with no file or none checked |

## Left out

- Sockets, TLS, name resolution, time-outs and threads: receiving is a nondeterministic chunk of a finite stream, and steps are interleaved at the lock.
- Wrap-around of counters: content length, written length, retry counters and atoi are unbounded integers.
- URL parsing, the redirect target and the original file name: they do not influence which octets are written.
- Gzip decoding: the model is the build without it.
- Connections.Connection.TryRecv: passes over octets that are still buffered, as the code does; its callers empty the buffer first.
- WebDownloads.WebDownloader.Download: the deletion of a broken file is taken to succeed.
- WebDownloads.WebDownloader.DownloadHeaders: a line buffer that nothing was written to holds arbitrary characters within its bounds.
- WebDownloads.WebDownloader.Write: what fwrite has taken counts as written; a failure to flush it later is not part of the model.
- FeedCoordination.FeedCoordinator.RunPass: no bound on the number of active downloads, because the code compares it with the limit once, before the loop; the pause of downloads, which only decides whether a pass takes place, is not part of the model.
- FeedCoordination.FeedCoordinator.EndThread: the status is stored without the lock in the code, and is one atomic step here.
- Feed scripts, parsing of feed files, the filter and the cache of previews: an accepted item is an input of the model.
- Saving feeds and resetting hanging downloads.
- FeedHistories.DownloadedAtMostOnce: the options, filters and the set of feeds stay fixed over the run.
- QueueScripts.RunSteps: whether an nzb skips scripts does not change over the run; the code sets it only when it creates or loads an nzb.
- UsableScript, environment variables and messages of scripts, and the cancellation of a download marked bad.
- Matching of a single search term against the fields of a record: a predicate on its text.
- Rendering, checked rows, selection, translation and keyboard handling of the table; page buttons are values, not html.
- TableDiffs.UpdateTBody: no new row has fewer cells than the old row at its place; with fewer, the code reads the html of a cell that does not exist.
- Tokenising of the order list and of directory lists: sequences of names.
- Extensions.Manager.Sort: the library's sort is an insertion sort here; with unique names no other result is possible.
- Deletion of extensions, manifests' other fields, and the tasks created from extensions.
- FileLists.DownloadsEditDialog.EditActionClick: the actions up, down, pause, resume, delete and split are not part of this model.
