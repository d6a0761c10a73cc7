# A verified model of the SimpleWebServer (`com.hibegin.http.server`) decode pipeline and cookie class

This project models two parts of a small Java HTTP server in Dafny.

- **The decode/dispatch pipeline of `HttpDecodeThread`** (`http_decode_thread.dfy`, module `HttpDecode`).
  - `addTask` is called by the selector for a readable channel. It finds or creates the channel's decoder binding, reads once, and queues a non-empty read.
  - The `run` loop polls the dispatch queue. It submits one decode task per channel at a time and sends entries of a busy channel back to the tail.
  - A decode task feeds the bytes to the decoder. On a complete request it either queues the request for the handler pool or, with HTTP/2 enabled, sends the `101 Switching Protocols` upgrade response (section 15.2.2 of RFC 9110; the `h2c` upgrade of section 3.2 of RFC 7540).
  - On an exception from decoding, the task picks a status code by its catch clauses. It renders that code when there is a handler thread, the decoder has a request and the handler's socket is open. It then closes the channel and cancels the key. The one exception to this is the `NullPointerException` of a missing binding (see below): the catch-all clause throws it again, so nothing is rendered and the connection stays up.
  - The model is a sequential state machine. `Pipeline` holds the dispatch queue, the guard set of working channels, the submitted tasks, the hand-off queue, the binding map and a log of effects on the outside world.
  - Each step is a pure function (`Schedule`, `Run` / `TaskBody`, `AddTaskStep`, `PollHandOff`). The class `HttpDecodeThread` holds that state in fields: `dispatch`, `working` and `handoff` are the source's two blocking queues and its guard set; `bindings` stands for the server context's decoder map; `pending` (the submitted tasks), `effects` (the effect log) and `nextDecoder` (a counter naming new decoders) exist only in the model. Each method is proved to perform exactly its transition.
- **The cookie class** (`cookie.dfy`, module `Cookies`):
  - parsing a `Cookie` header (`saxToCookie`);
  - finding the session id (`getJSessionId`);
  - serialising a cookie (`toString`);
  - the field defaults and setters.

  Java's `String.split`, `trim`, `indexOf` and `getBytes` are modelled in `java_lang.dfy` (module `JavaLang`), with the properties the parsing relies on.

Sockets, the selector, the read handler, the decoder and the response writer are not modelled. In each step, what they answer is a parameter:
- `AddProbe` for `addTask`, including the handler `getReadWriteSelectorHandlerInstance` creates for a new binding and the handler an existing binding's request carries;
- `TaskEnv` and `FaultProbe` for a decode task.

What the pipeline does to them is recorded as an `Effect`: a sent upgrade, a rendered code, an interrupt, a closed channel, a cancelled key. `StatusCodeUtil.getStatusCodeDesc(101)` and `FrameUtil.wrapperData` are the parameters `statusText` and `wrap`.

Three behaviours of the code are worth stating on their own.
- **Per-connection order is not kept.** A busy channel's entry goes back at the tail of the dispatch queue, behind later entries of the same channel. `RequeueReorders` shows a concrete run in which a channel's second read is decoded before its first.
- **The guard is not always released.** The code releases it on every path but one. Take an open channel with a non-empty payload and no binding in the map. The call `codecEntry.getKey()` throws a `NullPointerException` there, and the catch-all clause throws it again. The task then ends without removing the channel from the guard set. Under the pipeline invariant (`Consistent`) every queued channel has a binding, so this path is not reached from this class alone: `RunConsistent` proves the guard is released.
- **`doDecode` returns a map entry but is used as a condition.** `HttpRequestDeCoder.doDecode` is declared to return a `Map.Entry<Boolean, byte[]>`, while the task uses its result directly as a condition. The model keeps only the completion flag, as the call site does, and leaves the remainder bytes unused.

## Model

| member | source | states |
|---|---|---|
| `HttpDecode.FaultHandling` | src/main/java/com/hibegin/http/server/handler/HttpDecodeThread.java:82-93 | The first catch clause that matches gives: EOF or closed channel → 400 without a handler thread; unsupported method or any other IOException → 400 with one; ContentLengthTooLarge → 413; anything else → 500; every code but 400 comes with a handler thread |
| `HttpDecode.CatchOrderMatters` | src/main/java/com/hibegin/http/server/handler/HttpDecodeThread.java:82-87 | EOFException is an IOException: with the IOException clause first, EOF would get 400 with a handler, while in source order it gets 400 without one |
| `HttpDecode.FaultEffects` | src/main/java/com/hibegin/http/server/handler/HttpDecodeThread.java:169-187 | `handleException` always ends by closing the key's channel and then cancelling the key, even when rendering throws; without a handler thread it does nothing else |
| `HttpDecode.FaultEffectsRender` | src/main/java/com/hibegin/http/server/handler/HttpDecodeThread.java:170-176 | With a handler thread, the code is rendered exactly when the decoder has a request, the handler's socket is open and rendering does not throw. The thread is interrupted exactly when the socket check does not throw and rendering, if attempted, does not throw |
| `HttpDecode.RendersOnlyItsCode` | src/main/java/com/hibegin/http/server/handler/HttpDecodeThread.java:171-173 | `handleException` renders no code but the one it is given, and nothing without a handler thread |
| `HttpDecode.HttpDecodeThread.HandleException` | src/main/java/com/hibegin/http/server/handler/HttpDecodeThread.java:169-187 | Appends exactly `FaultEffects` of its arguments to the effect log |
| `HttpDecode.HeaderLinesStep` | src/main/java/com/hibegin/http/server/handler/HttpDecodeThread.java:160-162 | Each header entry adds its `name: value` CRLF line after those before it |
| `HttpDecode.UpgradeHead` | src/main/java/com/hibegin/http/server/handler/HttpDecodeThread.java:155-165 | The status line, the two entries of the insertion-ordered header map and the blank line are exactly the head of the upgrade response |
| `HttpDecode.WriteHeaders` | src/main/java/com/hibegin/http/server/handler/HttpDecodeThread.java:160-162 | The header loop writes, after what is already in the stream, the bytes of every entry's line, in order |
| `HttpDecode.UpgradeResponse` | src/main/java/com/hibegin/http/server/handler/HttpDecodeThread.java:154-166 | The bytes sent are exactly `"HTTP/1.1 101 " + statusText + "\r\n" + "Connection: upgrade\r\n" + "Upgrade: h2c\r\n" + "\r\n"` followed by the framed body `"test"` |
| `HttpDecode.TaskReleases` | src/main/java/com/hibegin/http/server/handler/HttpDecodeThread.java:69-96 | A task releases its channel from the guard set on every path except one: an open channel with a non-empty payload and no binding |
| `HttpDecode.EmptyPayloadSkipsDecode` | src/main/java/com/hibegin/http/server/handler/HttpDecodeThread.java:75 | An empty payload never reaches the decoder: whatever the decoder would answer, nothing is handed off, no effect happens, and the guard is released |
| `HttpDecode.TaskHandOff` | src/main/java/com/hibegin/http/server/handler/HttpDecodeThread.java:75-80 | A task hands off at most one request, and none in upgrade mode. It hands one off exactly when, outside upgrade mode, the open channel's bound decoder reports a complete request. What it hands off is that channel's request and response |
| `HttpDecode.TaskUpgrade` | src/main/java/com/hibegin/http/server/handler/HttpDecodeThread.java:76-77 | In upgrade mode a completed decode sends exactly the upgrade bytes. If the send throws, that exception goes through the same catch clauses |
| `HttpDecode.CaughtTearsDown` | src/main/java/com/hibegin/http/server/handler/HttpDecodeThread.java:82-96 | After a caught exception nothing is handed off, the guard is released, and the last two effects close the key's channel and cancel the key |
| `HttpDecode.CaughtRenders413` | src/main/java/com/hibegin/http/server/handler/HttpDecodeThread.java:88-89 | A 413 is rendered only for a ContentLengthTooLargeException |
| `HttpDecode.TaskFaultCaught` | src/main/java/com/hibegin/http/server/handler/HttpDecodeThread.java:73-93 | An exception from the decoder on an open channel goes through the catch clauses, with the binding's decoder |
| `HttpDecode.HttpDecodeThread.Decode` | src/main/java/com/hibegin/http/server/handler/HttpDecodeThread.java:73-93 | The try block appends to the hand-off queue and to the effect log exactly what `TaskBody` says |
| `HttpDecode.HttpDecodeThread.Catch` | src/main/java/com/hibegin/http/server/handler/HttpDecodeThread.java:82-93 | Each catch clause calls `handleException` with the status and the handler thread `FaultHandling` gives |
| `HttpDecode.HttpDecodeThread.RunTask` | src/main/java/com/hibegin/http/server/handler/HttpDecodeThread.java:66-97 | Running a submitted task makes the whole state `Run` of the old one. Under the invariant the invariant is kept and the channel is released |
| `HttpDecode.Initial` | src/main/java/com/hibegin/http/server/handler/HttpDecodeThread.java:40-46 | The thread starts with empty queues, an empty guard set and no bindings, which satisfies the invariant |
| `HttpDecode.HttpDecodeThread.constructor` | src/main/java/com/hibegin/http/server/handler/HttpDecodeThread.java:48-54 | A new thread is in the initial state and keeps the server's HTTP/2 setting |
| `HttpDecode.ScheduleDispatches` | src/main/java/com/hibegin/http/server/handler/HttpDecodeThread.java:60-65 | A step on an unguarded channel adds it to the guard set and submits exactly one task for the head entry. The dispatch queue loses that entry; the hand-off queue, the bindings, the effects and the decoder counter are unchanged |
| `HttpDecode.ScheduleRequeues` | src/main/java/com/hibegin/http/server/handler/HttpDecodeThread.java:60-101 | A step on a guarded channel puts the same entry, unchanged, at the tail: the queue keeps the same multiset of entries. The guard set, the tasks, the hand-off queue, the bindings, the effects and the decoder counter are unchanged |
| `HttpDecode.ScheduleConsistent` | src/main/java/com/hibegin/http/server/handler/HttpDecodeThread.java:60-101 | A step keeps the invariant: the guard set is exactly the channels with a task in flight, and no two tasks in flight share a channel |
| `HttpDecode.HttpDecodeThread.SchedulerStep` | src/main/java/com/hibegin/http/server/handler/HttpDecodeThread.java:60-101 | One iteration of `run` makes the state `Schedule` of the old one and keeps the invariant |
| `HttpDecode.RunConsistent` | src/main/java/com/hibegin/http/server/handler/HttpDecodeThread.java:66-97 | Running a task keeps the invariant, and under it the guard set loses exactly the task's channel |
| `HttpDecode.ChannelsAppend` | src/main/java/com/hibegin/http/server/handler/HttpDecodeThread.java:65 | Submitting a task adds its channel to the channels in flight |
| `HttpDecode.ChannelsRemove` | src/main/java/com/hibegin/http/server/handler/HttpDecodeThread.java:96 | When a task ends and no two tasks share a channel, the channels in flight lose exactly that channel and stay distinct |
| `HttpDecode.RequeueReorders` | src/main/java/com/hibegin/http/server/handler/HttpDecodeThread.java:100-101 | A consistent state exists in which a channel's second queued read is dispatched before its first |
| `HttpDecode.AddTaskBinds` | src/main/java/com/hibegin/http/server/handler/HttpDecodeThread.java:120-135 | A closed channel changes nothing. An existing binding is reused, unchanged. A missing one is created with a fresh decoder |
| `HttpDecode.AddTaskEnqueues` | src/main/java/com/hibegin/http/server/handler/HttpDecodeThread.java:136-148 | `addTask` appends at most one entry, at the tail: exactly when the handler it reads with is not null (the newly created one for a new binding, the request's one for an existing binding), the socket is open and the read returned bytes. The entry is the channel, the key and those bytes; the guard set, the tasks and the hand-off queue are unchanged |
| `HttpDecode.AddTaskConsistent` | src/main/java/com/hibegin/http/server/handler/HttpDecodeThread.java:119-151 | `addTask` keeps the invariant: queued entries are bound and non-empty, and a new decoder is shared with no other channel |
| `HttpDecode.HttpDecodeThread.AddTask` | src/main/java/com/hibegin/http/server/handler/HttpDecodeThread.java:119-151 | `addTask` makes the state `AddTaskStep` of the old one and keeps the invariant |
| `HttpDecode.PollHandOffFifo` | src/main/java/com/hibegin/http/server/handler/HttpDecodeThread.java:110-117 | For any hand-off queue that last received `x`, a poll returns the oldest request and leaves the rest, `x` still last, with nothing else changed |
| `HttpDecode.PollTimesInOrder` | src/main/java/com/hibegin/http/server/handler/HttpDecodeThread.java:110-117 | First in, first out: `n` polls of a queue holding at least `n` requests return its first `n` requests in queue order and leave the rest queued |
| `HttpDecode.PollConsistent` | src/main/java/com/hibegin/http/server/handler/HttpDecodeThread.java:110-117 | Polling the hand-off queue keeps the invariant |
| `HttpDecode.HttpDecodeThread.GetHttpRequestHandlerThread` | src/main/java/com/hibegin/http/server/handler/HttpDecodeThread.java:110-117 | Returns null on an empty hand-off queue; otherwise it returns and removes the head |
| `Cookies.Cookie.constructor` | src/main/java/com/hibegin/http/server/web/cookie/Cookie.java:11-25 | A new cookie has every reference null except the path `"/"`, and both flags false |
| `Cookies.Cookie.WithCreate` | src/main/java/com/hibegin/http/server/web/cookie/Cookie.java:19-21 | As the default constructor, with `create` set as given |
| `Cookies.Cookie.SetName` | src/main/java/com/hibegin/http/server/web/cookie/Cookie.java:63-65 | Sets the name and nothing else |
| `Cookies.Cookie.SetValue` | src/main/java/com/hibegin/http/server/web/cookie/Cookie.java:71-73 | Sets the value and nothing else |
| `Cookies.Cookie.SetDomain` | src/main/java/com/hibegin/http/server/web/cookie/Cookie.java:79-81 | Sets the domain and nothing else |
| `Cookies.Cookie.SetPath` | src/main/java/com/hibegin/http/server/web/cookie/Cookie.java:87-89 | Sets the path and nothing else |
| `Cookies.Cookie.SetCreate` | src/main/java/com/hibegin/http/server/web/cookie/Cookie.java:109-111 | Sets `create` and nothing else |
| `Cookies.Cookie.SetHttpOnly` | src/main/java/com/hibegin/http/server/web/cookie/Cookie.java:117-119 | Sets `httpOnly` and nothing else |
| `Cookies.Cookie.SetExpireDate` | src/main/java/com/hibegin/http/server/web/cookie/Cookie.java:125-127 | Sets the expiry date and nothing else |
| `Cookies.ToStringWithoutExpiry` | src/main/java/com/hibegin/http/server/web/cookie/Cookie.java:94-101 | Without an expiry date the text is exactly `name=value;Path=path`, with `;HttpOnly` appended iff the flag is set; null prints as `null` |
| `Cookies.ToStringWithExpiry` | src/main/java/com/hibegin/http/server/web/cookie/Cookie.java:96-101 | With an expiry date, `;Expires=date` goes between the path and the optional `;HttpOnly` |
| `Cookies.DefaultPathWritten` | src/main/java/com/hibegin/http/server/web/cookie/Cookie.java:94-95 | While the path is the default `"/"` (line 14), the text has `;Path=/` right after name, `=` and value |
| `Cookies.SegmentCookieShape` | src/main/java/com/hibegin/http/server/web/cookie/Cookie.java:31-40 | A segment yields no cookie exactly when its trimmed text is non-empty and all `=`. The name contains no `=`. A non-empty value starts with `=` and, after the name, gives back the trimmed text. An empty value means the trimmed text is the name followed only by `=` |
| `Cookies.SegmentNoCookie` | src/main/java/com/hibegin/http/server/web/cookie/Cookie.java:32-33 | The `=`-split of a trimmed segment is empty exactly when the text is non-empty and all `=`, as for `"="` |
| `Cookies.SegmentNameValue` | src/main/java/com/hibegin/http/server/web/cookie/Cookie.java:35-37 | The name is the text before the first `=`, and the value, when present, is the text from that first `=` on, the `=` included |
| `Cookies.SegmentBareName` | src/main/java/com/hibegin/http/server/web/cookie/Cookie.java:38-39 | A split of length 1 gives value `""`, with a name that is a prefix of the text followed by nothing but `=` |
| `Cookies.SingleSplitShape` | src/main/java/com/hibegin/http/server/web/cookie/Cookie.java:32-39 | A text whose `=`-split has one element is that element followed by `=` only |
| `Cookies.PresentLength` | src/main/java/com/hibegin/http/server/web/cookie/Cookie.java:30-43 | The loop yields at most one cookie per segment |
| `Cookies.PresentAppend` | src/main/java/com/hibegin/http/server/web/cookie/Cookie.java:30-43 | The cookies of two runs of segments are those of the first run, then those of the second |
| `Cookies.PresentLast` | src/main/java/com/hibegin/http/server/web/cookie/Cookie.java:41 | The last segment's cookie, if any, comes last |
| `Cookies.PresentAt` | src/main/java/com/hibegin/http/server/web/cookie/Cookie.java:30-43 | Segment `i` contributes between the cookies of the segments before it and those after it |
| `Cookies.PresentExtend` | src/main/java/com/hibegin/http/server/web/cookie/Cookie.java:41 | Each iteration appends its segment's cookie, if any, at the end of the list |
| `Cookies.MapSeq` | src/main/java/com/hibegin/http/server/web/cookie/Cookie.java:30 | One result per segment |
| `Cookies.MapSeqSlices` | src/main/java/com/hibegin/http/server/web/cookie/Cookie.java:30 | What the segments yield, position by position, commutes with taking prefixes and suffixes |
| `Cookies.CookiesOfSegment` | src/main/java/com/hibegin/http/server/web/cookie/Cookie.java:28-44 | The parsed cookies keep segment order: segment `i`'s cookie, if any, sits between those of the earlier and of the later segments |
| `Cookies.NewCookie` | src/main/java/com/hibegin/http/server/web/cookie/Cookie.java:34-40 | A fresh cookie with the given name and value and every other field at its default |
| `Cookies.ParseSegment` | src/main/java/com/hibegin/http/server/web/cookie/Cookie.java:31-40 | The trimming, splitting and name/value choice of one iteration computes exactly what the segment yields (`SegmentCookie`): nothing when the split is empty, otherwise the name and the value |
| `Cookies.AppendCookie` | src/main/java/com/hibegin/http/server/web/cookie/Cookie.java:33-41 | Adding a yielded cookie appends one new object carrying that name and value, distinct from those already in the list; a segment that yields nothing leaves the list as it was |
| `Cookies.SegmentsStep` | src/main/java/com/hibegin/http/server/web/cookie/Cookie.java:30-41 | The cookies of the first `i + 1` segments are those of the first `i`, then what segment `i` yields |
| `Cookies.SegmentsToCookies` | src/main/java/com/hibegin/http/server/web/cookie/Cookie.java:29-44 | The loop yields exactly the cookies of the segments, in segment order, one by one; each is a new object, distinct from every other one returned |
| `Cookies.SaxToCookie` | src/main/java/com/hibegin/http/server/web/cookie/Cookie.java:27-45 | `saxToCookie` returns exactly the cookies of the header's `;`-segments, in order, each with the parsed name and value and default other fields, and each a new object distinct from the others |
| `Cookies.SerialisedFirstCookie` | src/main/java/com/hibegin/http/server/web/cookie/Cookie.java:27-103 | Parsing the serialised text of a cookie `n=v` gives first the cookie named `n` with value `=v`, the parser keeping the `=`; this holds for an empty name too |
| `Cookies.SegmentOfPair` | src/main/java/com/hibegin/http/server/web/cookie/Cookie.java:31-37 | A segment `n=v` with no blank at either end yields the cookie `n` with value `=v`, also when `n` is empty |
| `Cookies.PairOfTrimmed` | src/main/java/com/hibegin/http/server/web/cookie/Cookie.java:32-37 | The `=`-split of `n=v`, with `n` free of `=` (possibly empty) and something other than `=` in `v`, has at least two pieces, the first being `n`, and the value starts at the `=` after `n` |
| `Cookies.SegmentSessionAgrees` | src/main/java/com/hibegin/http/server/web/cookie/Cookie.java:50-53 | A segment makes the lookup fail exactly when it yields no cookie. It ends the lookup with an id exactly when it yields a cookie named JSESSIONID with a non-empty value, and that value is the id |
| `Cookies.TrimmedSessionAgrees` | src/main/java/com/hibegin/http/server/web/cookie/Cookie.java:51-53 | The same on the trimmed text |
| `Cookies.Decisions` | src/main/java/com/hibegin/http/server/web/cookie/Cookie.java:49 | One decision per segment |
| `Cookies.FirstDecidedStep` | src/main/java/com/hibegin/http/server/web/cookie/Cookie.java:49-54 | An iteration either returns (an id or the index fault) or goes on with the next segment |
| `Cookies.FirstDecidedAt` | src/main/java/com/hibegin/http/server/web/cookie/Cookie.java:49-54 | The first segment that decides determines the result |
| `Cookies.FirstDecidedIndex` | src/main/java/com/hibegin/http/server/web/cookie/Cookie.java:49-54 | Any result other than null comes from a segment all of whose predecessors went on |
| `Cookies.FirstDecidedAbsent` | src/main/java/com/hibegin/http/server/web/cookie/Cookie.java:49-56 | Null comes back exactly when no segment decides |
| `Cookies.GetJSessionId` | src/main/java/com/hibegin/http/server/web/cookie/Cookie.java:47-57 | Returns the first segment's decision: the text from the first `=` of the first JSESSIONID segment that has a value, the index fault of `kv[0]` on an empty split, or null |
| `Cookies.SessionIdIsCookieValue` | src/main/java/com/hibegin/http/server/web/cookie/Cookie.java:47-56 | The session id found is the value `saxToCookie` gives a cookie named JSESSIONID in the same header |
| `Cookies.NoIndexFault` | src/main/java/com/hibegin/http/server/web/cookie/Cookie.java:51-52 | When every segment yields a cookie, `kv[0]` cannot fail |
| `JavaLang.IndexOf` | src/main/java/com/hibegin/http/server/web/cookie/Cookie.java:37 | `indexOf` gives -1 or a position holding the character |
| `JavaLang.IndexOfFirst` | src/main/java/com/hibegin/http/server/web/cookie/Cookie.java:37 | -1 exactly when the character is absent; otherwise it does not occur before the position returned |
| `JavaLang.IndexOfAfter` | src/main/java/com/hibegin/http/server/web/cookie/Cookie.java:37 | In `p + c + t` with `c` not in `p`, the first `c` is at `|p|` |
| `JavaLang.Pieces` | src/main/java/com/hibegin/http/server/web/cookie/Cookie.java:28-32 | Cutting at every delimiter gives at least one piece |
| `JavaLang.PiecesCons` | src/main/java/com/hibegin/http/server/web/cookie/Cookie.java:28-32 | The pieces of a text with a delimiter are the text before it, then the pieces of the rest |
| `JavaLang.PiecesDelimiterFree` | src/main/java/com/hibegin/http/server/web/cookie/Cookie.java:28-32 | No piece contains the delimiter |
| `JavaLang.JoinPieces` | src/main/java/com/hibegin/http/server/web/cookie/Cookie.java:28-32 | Joining the pieces with the delimiter gives the text back |
| `JavaLang.PiecesJoin` | src/main/java/com/hibegin/http/server/web/cookie/Cookie.java:28-32 | Cutting a join of delimiter-free strings gives the strings back |
| `JavaLang.DropTrailingEmpty` | src/main/java/com/hibegin/http/server/web/cookie/Cookie.java:28-32 | Dropping trailing empty strings leaves no more strings than before, and a list that, when not empty, ends in a non-empty string |
| `JavaLang.DropTrailingKeepsPrefix` | src/main/java/com/hibegin/http/server/web/cookie/Cookie.java:28-32 | What is kept is a prefix of the list |
| `JavaLang.DropTrailingDropsEmpty` | src/main/java/com/hibegin/http/server/web/cookie/Cookie.java:28-32 | Only empty strings are dropped |
| `JavaLang.SplitKeepsPrefix` | src/main/java/com/hibegin/http/server/web/cookie/Cookie.java:28-32 | `split` keeps a prefix of the pieces, none containing the delimiter. Every piece it drops is empty, and when the delimiter occurs the last piece kept is not empty |
| `JavaLang.PiecesAllEmpty` | src/main/java/com/hibegin/http/server/web/cookie/Cookie.java:32-33 | Every piece is empty exactly when the text is nothing but delimiters |
| `JavaLang.PiecesEmptyIfAll` | src/main/java/com/hibegin/http/server/web/cookie/Cookie.java:32-33 | A text of delimiters only cuts into empty pieces |
| `JavaLang.AllIfPiecesEmpty` | src/main/java/com/hibegin/http/server/web/cookie/Cookie.java:32-33 | Empty pieces only come from a text of delimiters only |
| `JavaLang.SplitEmpty` | src/main/java/com/hibegin/http/server/web/cookie/Cookie.java:32-33 | `split` is empty exactly when the text is non-empty and all delimiters (so `"=".split("=")` is empty) |
| `JavaLang.SplitFirst` | src/main/java/com/hibegin/http/server/web/cookie/Cookie.java:35 | With a delimiter present and a non-empty split, the first element is the text before the first delimiter |
| `JavaLang.SplitFirstOf` | src/main/java/com/hibegin/http/server/web/cookie/Cookie.java:28-35 | Splitting `p + d + t` with a non-empty, delimiter-free `p` gives `p` first |
| `JavaLang.SplitMoreThanOne` | src/main/java/com/hibegin/http/server/web/cookie/Cookie.java:36 | The split has more than one element exactly when the text has a delimiter followed later by something that is not one |
| `JavaLang.SplitShortIfAllDelims` | src/main/java/com/hibegin/http/server/web/cookie/Cookie.java:36-38 | Only delimiters after the first one leave at most one element |
| `JavaLang.SplitShortAllDelims` | src/main/java/com/hibegin/http/server/web/cookie/Cookie.java:36-38 | At most one element means only delimiters after the first one |
| `JavaLang.SplitTwoPieces` | src/main/java/com/hibegin/http/server/web/cookie/Cookie.java:36 | A non-delimiter after the first delimiter gives more than one element |
| `JavaLang.TrimStart` | src/main/java/com/hibegin/http/server/web/cookie/Cookie.java:31 | Removing leading characters at or below space leaves a text no longer than before that is empty or starts above space |
| `JavaLang.TrimStartSuffix` | src/main/java/com/hibegin/http/server/web/cookie/Cookie.java:31 | What is left after the leading blanks is a suffix of the text |
| `JavaLang.TrimStartSkipsBlanks` | src/main/java/com/hibegin/http/server/web/cookie/Cookie.java:31 | Only characters at or below space are removed at the start |
| `JavaLang.TrimEnd` | src/main/java/com/hibegin/http/server/web/cookie/Cookie.java:31 | Removing trailing characters at or below space leaves a text no longer than before that is empty or keeps the first character and ends above space |
| `JavaLang.TrimEndPrefix` | src/main/java/com/hibegin/http/server/web/cookie/Cookie.java:31 | What is left before the trailing blanks is a prefix of the text |
| `JavaLang.TrimEndDropsBlanks` | src/main/java/com/hibegin/http/server/web/cookie/Cookie.java:31 | Only characters at or below space are removed at the end |
| `JavaLang.Trim` | src/main/java/com/hibegin/http/server/web/cookie/Cookie.java:31 | `trim` gives a text no longer than its input, with no character at or below space at either end |
| `JavaLang.TrimUnchanged` | src/main/java/com/hibegin/http/server/web/cookie/Cookie.java:31 | A text with no blank at either end is its own trim |
| `JavaLang.GetBytes` | src/main/java/com/hibegin/http/server/handler/HttpDecodeThread.java:159 | `getBytes` gives as many bytes as the text has characters |
| `JavaLang.GetBytesConcat` | src/main/java/com/hibegin/http/server/handler/HttpDecodeThread.java:159-163 | Writing two strings one after the other writes the bytes of their concatenation |

## Left out

- Threads and timing:
  - the decode executor, the 10-microsecond poll timeouts and `InterruptedException` are not modelled;
  - each scheduler iteration, task body, `addTask` call and poll is one atomic step;
  - submitted tasks may run in any order (`RunTask` takes the task's position).
- Sockets, selection keys, the read handler, the decoder (`HttpRequestDecoderImpl`), `SimpleHttpResponse.send`/`renderCode` and `HttpRequestHandlerThread` are not modelled. What they answer is a step parameter; what is done to them is an `Effect`.
- A failed `renderCode` or send is modelled as producing no effect; partial writes are not modelled.
- Logging (`LOGGER`) and the thread's `setName` have no observable effect in the model.
- `java.util.Date` is not modelled: the expiry date is the text its `toString` gives, an opaque string.
- `StatusCodeUtil.getStatusCodeDesc(101)` and `FrameUtil.wrapperData` are not part of this model; they are the parameters `statusText` and `wrap`.
- The binding map lives in the server context and is keyed by the channel's socket. It is modelled as a field keyed by the channel that starts empty when the thread is created (`Initial`, the constructor); entries other code puts in or removes are not modelled.
- `HttpRequestDecoderImpl` is not part of this model, so which handler an existing decoder's request carries is not derived from how the decoder was built: it is the `AddProbe` field `requestHandler`.
- `HttpDecode.HttpDecodeThread.HandleException` has no codec parameter, because every call in the source passes the non-null decoder of the binding. Its null-codec case is not modelled.
- `JavaLang.GetBytes`: `getBytes` uses the platform charset, while the model assumes one byte per character, with `?` for a character above 255. Every text the pipeline writes is ASCII apart from `statusText`.
- `Cookie.JSESSIONID` is a public, mutable static field. It is modelled as a constant.
- The getters are plain field reads and are not separate members.
- Java `Error`s, which no catch clause here handles, are not modelled.
- Null arguments to `saxToCookie` and `getJSessionId` are not modelled: a null header throws before the loop.
