/**
  The decode/dispatch pipeline of HttpDecodeThread as a sequential state
  machine: every scheduler iteration of `run`, every body of a submitted
  decode task, every `addTask` and every poll of the hand-off queue is one
  atomic step. The sockets, the read handler, the decoder and the response
  writer are outside the model; what they answer in a step is a parameter of
  that step, and what the pipeline does to them is recorded as an effect.
 */
module HttpDecode {
  import opened JavaLang

  /** A connection identity (the SocketChannel, and the socket keyed on it). */
  type Channel = nat

  /** A selector registration (SelectionKey). */
  type Key = nat

  /** An entry of the dispatch queue: the channel, its key and the bytes just read. */
  datatype WorkItem = WorkItem(channel: Channel, key: Key, bytes: seq<byte>)

  /**
    A decoder binding: the identity of the decoder together with its request
    and the response writer created with it.
   */
  datatype Binding = Binding(decoder: nat)

  /** A completed request on the hand-off queue: the decoder's request and response of a channel. */
  datatype HandlerThread = HandlerThread(channel: Channel, decoder: nat)

  /** What the pipeline does to the outside world. */
  datatype Effect =
    | SendUpgrade(decoder: nat, bytes: seq<byte>)
    | RenderCode(decoder: nat, code: int)
    | Interrupt(decoder: nat)
    | CloseChannel(key: Key)
    | CancelKey(key: Key)

  // ---------------------------------------------------------------------------
  // Exceptions and the catch clauses of the decode task
  // ---------------------------------------------------------------------------

  /** The run-time class of an exception thrown while decoding or sending. */
  datatype Fault =
    | EOF                     // java.io.EOFException
    | ClosedChannel           // java.nio.channels.ClosedChannelException
    | UnSupportMethod         // UnSupportMethodException
    | OtherIO                 // any other java.io.IOException
    | ContentLengthTooLarge   // ContentLengthTooLargeException
    | OtherException          // anything else, NullPointerException included

  /** The class named in a catch clause. */
  datatype CatchType =
    | EOFException
    | ClosedChannelException
    | UnSupportMethodException
    | IOException
    | ContentLengthTooLargeException
    | Exception

  /**
    `f instanceof t`. EOFException and ClosedChannelException are
    IOExceptions; UnSupportMethodException and ContentLengthTooLargeException
    are not (a multi-catch with IOException, and a catch after it, would not
    compile otherwise).
   */
  predicate IsInstance(f: Fault, t: CatchType)
  {
    match t
    case EOFException => f == EOF
    case ClosedChannelException => f == ClosedChannel
    case UnSupportMethodException => f == UnSupportMethod
    case IOException => f == EOF || f == ClosedChannel || f == OtherIO
    case ContentLengthTooLargeException => f == ContentLengthTooLarge
    case Exception => true
  }

  /** The status code a catch clause passes to `handleException`, and whether it passes a handler thread. */
  datatype Handling = Handling(code: int, withHandler: bool)

  datatype CatchClause = CatchClause(types: seq<CatchType>, handling: Handling)

  /** The catch clauses around the decode call, in source order. */
  const DecodeCatches: seq<CatchClause> := [
    CatchClause([EOFException, ClosedChannelException], Handling(400, false)),
    CatchClause([UnSupportMethodException, IOException], Handling(400, true)),
    CatchClause([ContentLengthTooLargeException], Handling(413, true)),
    CatchClause([Exception], Handling(500, true))
  ]

  /** One of `types` names a class the exception is an instance of. */
  predicate Names(types: seq<CatchType>, f: Fault)
  {
    |types| > 0 && (IsInstance(f, types[0]) || Names(types[1..], f))
  }

  /** Java's rule: the first clause naming a class the exception is an instance of. */
  function FirstCatch(clauses: seq<CatchClause>, f: Fault): Option<Handling>
  {
    if |clauses| == 0 then None
    else if Names(clauses[0].types, f) then Some(clauses[0].handling)
    else FirstCatch(clauses[1..], f)
  }

  /**
    The exception-to-status table: end of stream and a closed channel give
    400 with no handler; an unsupported method or another I/O failure 400
    with a handler; a too large content length 413; anything else 500.
   */
  function FaultHandling(f: Fault): (h: Handling)
    ensures h.code == 400 && !h.withHandler <==> f == EOF || f == ClosedChannel
    ensures h.code == 400 && h.withHandler <==> f == UnSupportMethod || f == OtherIO
    ensures h.code == 413 <==> f == ContentLengthTooLarge
    ensures h.code == 500 <==> f == OtherException
    ensures h.code != 400 ==> h.withHandler
  {
    var c := DecodeCatches;
    assert c[1..][1..][1..] == [c[3]] && Names(c[3].types, f);
    assert Names(c[0].types, f) <==> f == EOF || f == ClosedChannel by {
      assert c[0].types[1..] == [ClosedChannelException];
    }
    assert Names(c[1].types, f) <==> f == UnSupportMethod || IsInstance(f, IOException) by {
      assert c[1].types[1..] == [IOException];
    }
    var r := FirstCatch(c, f);
    if r.Some? then r.value else Handling(500, true)
  }

  /**
    The catch order matters: with the IOException clause first, an
    EOFException would be answered as a parse failure, with a handler.
   */
  lemma CatchOrderMatters()
    ensures FirstCatch([DecodeCatches[1], DecodeCatches[0], DecodeCatches[2], DecodeCatches[3]], EOF)
            == Some(Handling(400, true))
    ensures FaultHandling(EOF) == Handling(400, false)
  {
  }

  // ---------------------------------------------------------------------------
  // handleException
  // ---------------------------------------------------------------------------

  /**
    What `handleException` finds when it runs: whether the decoder has a
    request, the open/closed state of the handler's socket (None when the
    request has no read handler, so that reaching the socket throws), and
    whether `renderCode` throws.
   */
  datatype FaultProbe = FaultProbe(hasRequest: bool, handlerSocketOpen: Option<bool>, renderThrows: bool)

  /**
    The effects of `handleException(key, codec, thread, code)` with a
    non-null codec: render the code when there is a thread, the decoder has a
    request and the socket is open, then interrupt the thread; any exception
    there is swallowed; finally close the key's channel and cancel the key.
   */
  function FaultEffects(key: Key, thread: Option<HandlerThread>, code: int, probe: FaultProbe): (r: seq<Effect>)
    ensures |r| >= 2 && r[|r| - 2] == CloseChannel(key) && r[|r| - 1] == CancelKey(key)
    ensures thread.None? ==> r == [CloseChannel(key), CancelKey(key)]
  {
    var finally := [CloseChannel(key), CancelKey(key)];
    if thread.Some? && probe.hasRequest && probe.handlerSocketOpen.Some? then
      var d := thread.value.decoder;
      var open := probe.handlerSocketOpen.value;
      if open && probe.renderThrows then finally
      else if open then [RenderCode(d, code), Interrupt(d)] + finally
      else [Interrupt(d)] + finally
    else finally
  }

  /**
    With a thread, `handleException` renders the code exactly when the
    decoder has a request, the handler's socket is open and rendering does not
    throw, and interrupts the thread exactly when it gets that far.
   */
  lemma FaultEffectsRender(key: Key, thread: Option<HandlerThread>, code: int, probe: FaultProbe)
    requires thread.Some?
    ensures RenderCode(thread.value.decoder, code) in FaultEffects(key, thread, code, probe) <==>
              probe.hasRequest && probe.handlerSocketOpen == Some(true) && !probe.renderThrows
    ensures Interrupt(thread.value.decoder) in FaultEffects(key, thread, code, probe) <==>
              probe.hasRequest && probe.handlerSocketOpen.Some? && !(probe.handlerSocketOpen.value && probe.renderThrows)
  {
  }

  /** `handleException` renders only the code it is given, and only with a thread. */
  lemma RendersOnlyItsCode(key: Key, thread: Option<HandlerThread>, code: int, probe: FaultProbe, d: nat, c: int)
    ensures RenderCode(d, c) in FaultEffects(key, thread, code, probe) ==> c == code && thread.Some?
  {
  }

  // ---------------------------------------------------------------------------
  // renderUpgradeHttp2Response
  // ---------------------------------------------------------------------------

  /** The upgrade header map, a LinkedHashMap iterated in insertion order. */
  const UpgradeHeaders: seq<(string, string)> := [("Connection", "upgrade"), ("Upgrade", "h2c")]

  /** `name + ": " + value + "\r\n"` for each header, in order. */
  function HeaderLines(headers: seq<(string, string)>): string
  {
    if |headers| == 0 then "" else HeaderLines(headers[..|headers| - 1]) + HeaderLine(headers[|headers| - 1])
  }

  function HeaderLine(h: (string, string)): string
  {
    h.0 + ": " + h.1 + "\r\n"
  }

  /**
    The bytes of the upgrade response: the 101 status line with the status
    text, `Connection: upgrade`, `Upgrade: h2c`, an empty line, and the
    frame encoder's output for the body "test".
   */
  function UpgradeResponseBytes(statusText: string, wrap: seq<byte> -> seq<byte>): seq<byte>
  {
    GetBytes("HTTP/1.1 101 " + statusText + "\r\n" + "Connection: upgrade\r\n" + "Upgrade: h2c\r\n" + "\r\n")
      + wrap(GetBytes("test"))
  }

  /** One more header entry extends the header block by its line. */
  lemma HeaderLinesStep(headers: seq<(string, string)>, i: nat)
    requires i < |headers|
    ensures HeaderLines(headers[..i + 1]) == HeaderLines(headers[..i]) + HeaderLine(headers[i])
  {
    assert headers[..i + 1][..i] == headers[..i];
  }

  /** The status line, the two header entries and the blank line are the head of the upgrade response. */
  lemma UpgradeHead(statusText: string, wrap: seq<byte> -> seq<byte>, text: string)
    requires text == "HTTP/1.1 101 " + statusText + "\r\n" + HeaderLines(UpgradeHeaders)
    ensures GetBytes(text) + GetBytes("\r\n") + wrap(GetBytes("test")) == UpgradeResponseBytes(statusText, wrap)
  {
    assert HeaderLines(UpgradeHeaders) == "Connection: upgrade\r\n" + "Upgrade: h2c\r\n" by {
      assert UpgradeHeaders[..1] == [("Connection", "upgrade")];
      assert UpgradeHeaders[..1][..0] == [];
    }
    GetBytesConcat(text, "\r\n");
  }

  /** The header loop: after `head`, one write of `name: value` CRLF per entry, in order. */
  method WriteHeaders(head: string, headers: seq<(string, string)>) returns (bout: seq<byte>)
    ensures bout == GetBytes(head + HeaderLines(headers))
  {
    bout := GetBytes(head);
    ghost var text := head;
    var i := 0;
    while i < |headers|
      invariant 0 <= i <= |headers|
      invariant text == head + HeaderLines(headers[..i])
      invariant bout == GetBytes(text)
    {
      var line := HeaderLine(headers[i]);
      GetBytesConcat(text, line);
      HeaderLinesStep(headers, i);
      bout := bout + GetBytes(line);
      text := text + line;
      i := i + 1;
    }
    assert headers[..i] == headers;
  }

  /**
    The byte stream `renderUpgradeHttp2Response` writes: the status line,
    the header entries, the blank line, the framed body.
   */
  method UpgradeResponse(statusText: string, wrap: seq<byte> -> seq<byte>) returns (bout: seq<byte>)
    ensures bout == UpgradeResponseBytes(statusText, wrap)
  {
    bout := WriteHeaders("HTTP/1.1 101 " + statusText + "\r\n", UpgradeHeaders);
    UpgradeHead(statusText, wrap, "HTTP/1.1 101 " + statusText + "\r\n" + HeaderLines(UpgradeHeaders));
    bout := bout + GetBytes("\r\n");
    bout := bout + wrap(GetBytes("test"));
  }

  // ---------------------------------------------------------------------------
  // The decode task
  // ---------------------------------------------------------------------------

  /** The decoder's answer to `doDecode(bytes)`: the completion flag, or the exception it throws. */
  datatype DecodeResult = Decoded(complete: bool) | Threw(fault: Fault)

  /**
    What a decode task finds when it runs: `channel.isOpen()`,
    `channel.socket().isClosed()`, the decoder's answer, the exception (if
    any) the upgrade send throws, and what `handleException` would find.
   */
  datatype TaskEnv = TaskEnv(
    channelOpen: bool, socketClosed: bool, outcome: DecodeResult,
    sendThrows: Option<Fault>, probe: FaultProbe)

  /** The outcome of one task body: requests handed off, effects, and whether the guard is released. */
  datatype TaskResult = TaskResult(push: seq<HandlerThread>, effects: seq<Effect>, release: bool)

  /** The catch clauses at work: `handleException` with the status and thread the table gives. */
  function Caught(item: WorkItem, decoder: nat, f: Fault, probe: FaultProbe): TaskResult
  {
    var h := FaultHandling(f);
    var thread := if h.withHandler then Some(HandlerThread(item.channel, decoder)) else None;
    TaskResult([], FaultEffects(item.key, thread, h.code, probe), true)
  }

  /**
    The body of the task submitted for `item`, with the channel's binding as
    the binding map holds it when the task runs. A closed channel, a closed
    socket or an empty payload skips all work. A missing binding with a
    non-empty payload throws a NullPointerException at the decode call that
    the catch-all clause throws again, so the task ends without releasing the
    guard.
   */
  function TaskBody(item: WorkItem, binding: Option<Binding>, upgrade: bool, upgradeBytes: seq<byte>, env: TaskEnv): TaskResult
  {
    if !env.channelOpen || env.socketClosed || |item.bytes| == 0 then TaskResult([], [], true)
    else if binding.None? then TaskResult([], [], false)
    else
      var d := binding.value.decoder;
      match env.outcome
      case Threw(f) => Caught(item, d, f, env.probe)
      case Decoded(complete) =>
        if !complete then TaskResult([], [], true)
        else if !upgrade then TaskResult([HandlerThread(item.channel, d)], [], true)
        else if env.sendThrows.Some? then Caught(item, d, env.sendThrows.value, env.probe)
        else TaskResult([], [SendUpgrade(d, upgradeBytes)], true)
  }

  /** The guard is released on every exit path but one: a missing binding at the decode call. */
  lemma TaskReleases(item: WorkItem, binding: Option<Binding>, upgrade: bool, upgradeBytes: seq<byte>, env: TaskEnv)
    ensures TaskBody(item, binding, upgrade, upgradeBytes, env).release <==>
              !(env.channelOpen && !env.socketClosed && |item.bytes| > 0 && binding.None?)
  {
  }

  /** An empty payload never reaches the decoder: nothing is handed off and nothing happens. */
  lemma EmptyPayloadSkipsDecode(item: WorkItem, binding: Option<Binding>, upgrade: bool, upgradeBytes: seq<byte>, env: TaskEnv)
    requires |item.bytes| == 0
    ensures TaskBody(item, binding, upgrade, upgradeBytes, env) == TaskResult([], [], true)
  {
  }

  /**
    Hand-off: at most one request per task; none in upgrade mode; exactly the
    channel's request when, outside upgrade mode, the decoder completes.
   */
  lemma TaskHandOff(item: WorkItem, binding: Option<Binding>, upgrade: bool, upgradeBytes: seq<byte>, env: TaskEnv)
    ensures |TaskBody(item, binding, upgrade, upgradeBytes, env).push| <= 1
    ensures upgrade ==> TaskBody(item, binding, upgrade, upgradeBytes, env).push == []
    ensures TaskBody(item, binding, upgrade, upgradeBytes, env).push != [] <==>
              !upgrade && env.channelOpen && !env.socketClosed && |item.bytes| > 0 && binding.Some?
              && env.outcome == Decoded(true)
    ensures TaskBody(item, binding, upgrade, upgradeBytes, env).push != [] ==>
              TaskBody(item, binding, upgrade, upgradeBytes, env).push == [HandlerThread(item.channel, binding.value.decoder)]
  {
  }

  /**
    A completed decode in upgrade mode sends exactly the upgrade bytes unless
    the send throws, in which case the send's exception goes through the catch clauses.
   */
  lemma TaskUpgrade(item: WorkItem, b: Binding, upgradeBytes: seq<byte>, env: TaskEnv)
    requires env.channelOpen && !env.socketClosed && |item.bytes| > 0 && env.outcome == Decoded(true)
    ensures env.sendThrows.None? ==>
              TaskBody(item, Some(b), true, upgradeBytes, env).effects == [SendUpgrade(b.decoder, upgradeBytes)]
    ensures env.sendThrows.Some? ==>
              TaskBody(item, Some(b), true, upgradeBytes, env) == Caught(item, b.decoder, env.sendThrows.value, env.probe)
  {
  }

  /**
    The catch clauses always tear the connection down: the last effects close
    the key's channel and cancel the key, nothing is handed off and the guard
    is released.
   */
  lemma CaughtTearsDown(item: WorkItem, decoder: nat, f: Fault, probe: FaultProbe)
    ensures var r := Caught(item, decoder, f, probe);
      r.push == [] && r.release && |r.effects| >= 2
      && r.effects[|r.effects| - 2] == CloseChannel(item.key) && r.effects[|r.effects| - 1] == CancelKey(item.key)
  {
  }


  /** A 413 is rendered only for ContentLengthTooLarge. */
  lemma {:induction false} CaughtRenders413(item: WorkItem, decoder: nat, f: Fault, probe: FaultProbe)
    ensures RenderCode(decoder, 413) in Caught(item, decoder, f, probe).effects ==> f == ContentLengthTooLarge
  {
    var h := FaultHandling(f);
    var thread := if h.withHandler then Some(HandlerThread(item.channel, decoder)) else None;
    assert Caught(item, decoder, f, probe).effects == FaultEffects(item.key, thread, h.code, probe);
    RendersOnlyItsCode(item.key, thread, h.code, probe, decoder, 413);
  }

  /** A decoder failure goes through the catch clauses. */
  lemma TaskFaultCaught(item: WorkItem, b: Binding, upgrade: bool, upgradeBytes: seq<byte>, env: TaskEnv)
    requires env.channelOpen && !env.socketClosed && |item.bytes| > 0 && env.outcome.Threw?
    ensures TaskBody(item, Some(b), upgrade, upgradeBytes, env) == Caught(item, b.decoder, env.outcome.fault, env.probe)
  {
  }

  // ---------------------------------------------------------------------------
  // The pipeline state and its steps
  // ---------------------------------------------------------------------------

  /**
    The state: the dispatch queue, the guard set of working channels, the
    tasks submitted to the decode executor and not yet run, the hand-off
    queue, the binding map, the effects so far, and the next fresh decoder.
   */
  datatype Pipeline = Pipeline(
    dispatch: seq<WorkItem>, working: set<Channel>, pending: seq<WorkItem>,
    handoff: seq<HandlerThread>, bindings: map<Channel, Binding>,
    effects: seq<Effect>, nextDecoder: nat)

  /** The channels of a list of work items. */
  function Channels(s: seq<WorkItem>): set<Channel>
  {
    set k | 0 <= k < |s| :: s[k].channel
  }

  /** No two items of `s` are for the same channel. */
  predicate DistinctChannels(s: seq<WorkItem>)
  {
    forall i, j :: 0 <= i < j < |s| ==> s[i].channel != s[j].channel
  }

  /** Every item is for a bound channel and carries bytes. */
  predicate Enqueued(s: seq<WorkItem>, bindings: map<Channel, Binding>)
  {
    forall k :: 0 <= k < |s| ==> s[k].channel in bindings && |s[k].bytes| > 0
  }

  /** Each channel has its own decoder, and every decoder is older than the next fresh one. */
  predicate Bound(bindings: map<Channel, Binding>, nextDecoder: nat)
  {
    && (forall c :: c in bindings ==> bindings[c].decoder < nextDecoder)
    && (forall c, e :: c in bindings && e in bindings && c != e ==> bindings[c].decoder != bindings[e].decoder)
  }

  /**
    The pipeline invariant: the guard set is exactly the channels with a task
    in flight, at most one task per channel is in flight, every queued or
    in-flight item is bound and non-empty, decoders are not shared.
   */
  predicate Consistent(p: Pipeline)
  {
    && p.working == Channels(p.pending)
    && DistinctChannels(p.pending)
    && Enqueued(p.dispatch, p.bindings)
    && Enqueued(p.pending, p.bindings)
    && Bound(p.bindings, p.nextDecoder)
  }

  /** The pipeline as the thread starts: everything empty. */
  function Initial(): (p: Pipeline)
    ensures Consistent(p)
  {
    Pipeline([], {}, [], [], map[], [], 0)
  }

  /**
    One iteration of the `run` loop: poll the head of the dispatch queue;
    when its channel is not guarded, guard it and submit its task; otherwise
    put the entry back at the tail.
   */
  function Schedule(p: Pipeline): Pipeline
  {
    if |p.dispatch| == 0 then p
    else
      var e := p.dispatch[0];
      if e.channel !in p.working then
        p.(dispatch := p.dispatch[1..], working := p.working + {e.channel}, pending := p.pending + [e])
      else
        p.(dispatch := p.dispatch[1..] + [e])
  }

  /** An unguarded head is guarded and dispatched as exactly one new task; nothing else changes. */
  lemma ScheduleDispatches(p: Pipeline)
    requires |p.dispatch| > 0 && p.dispatch[0].channel !in p.working
    ensures var q := Schedule(p);
      q.dispatch == p.dispatch[1..] && q.working == p.working + {p.dispatch[0].channel}
      && q.pending == p.pending + [p.dispatch[0]]
      && q.handoff == p.handoff && q.bindings == p.bindings && q.effects == p.effects
      && q.nextDecoder == p.nextDecoder
  {
  }

  /** A guarded head goes back, unchanged, to the tail; the queue keeps the same entries. */
  lemma ScheduleRequeues(p: Pipeline)
    requires |p.dispatch| > 0 && p.dispatch[0].channel in p.working
    ensures var q := Schedule(p);
      q.dispatch == p.dispatch[1..] + [p.dispatch[0]] && multiset(q.dispatch) == multiset(p.dispatch)
      && q.working == p.working && q.pending == p.pending && q.handoff == p.handoff
      && q.bindings == p.bindings && q.effects == p.effects && q.nextDecoder == p.nextDecoder
  {
    assert p.dispatch == [p.dispatch[0]] + p.dispatch[1..];
  }

  /** The binding map's entry for a channel, if any (`getHttpDeCoderMap().get`). */
  function Lookup(bindings: map<Channel, Binding>, c: Channel): Option<Binding>
  {
    if c in bindings then Some(bindings[c]) else None
  }

  /** `pending` without its element `i`. */
  function RemoveAt(s: seq<WorkItem>, i: nat): seq<WorkItem>
    requires i < |s|
  {
    s[..i] + s[i + 1..]
  }

  /** Running the submitted task `i` to its end. */
  function Run(p: Pipeline, i: nat, upgrade: bool, upgradeBytes: seq<byte>, env: TaskEnv): Pipeline
    requires i < |p.pending|
  {
    var item := p.pending[i];
    var t := TaskBody(item, Lookup(p.bindings, item.channel), upgrade, upgradeBytes, env);
    p.(pending := RemoveAt(p.pending, i),
       working := if t.release then p.working - {item.channel} else p.working,
       handoff := p.handoff + t.push,
       effects := p.effects + t.effects)
  }

  /** The channel's read, as `handler.handleRead()` returns it. */
  datatype ReadResult = ReadBytes(bytes: seq<byte>) | ReadEOF | ReadFailed

  /**
    What `addTask` finds: `channel.isOpen()`; the handler
    `getReadWriteSelectorHandlerInstance` would create for a new binding (None
    when it throws); the handler the bound decoder's current request carries
    (`getRequest().getHandler()`, None for null) for an existing binding;
    `channel.socket().isClosed()`; and the read.
   */
  datatype AddProbe = AddProbe(
    channelOpen: bool, newHandler: Option<nat>, requestHandler: Option<nat>, socketClosed: bool, read: ReadResult)

  /** The handler `addTask` reads with: a new one for a new binding, the request's one otherwise. */
  function ReadHandler(p: Pipeline, channel: Channel, probe: AddProbe): Option<nat>
  {
    if channel in p.bindings then probe.requestHandler else probe.newHandler
  }

  /**
    `addTask(channel, key)`: on an open channel, create the binding when
    there is none (with a fresh decoder), then, when the handler it reads with
    (`ReadHandler`) is not null and the socket is open, read once and enqueue
    a non-empty read.
   */
  function AddTaskStep(p: Pipeline, channel: Channel, key: Key, probe: AddProbe): Pipeline
  {
    if !probe.channelOpen then p
    else
      var p1 := if channel in p.bindings then p
                else p.(bindings := p.bindings[channel := Binding(p.nextDecoder)],
                        nextDecoder := p.nextDecoder + 1);
      var handler := ReadHandler(p, channel, probe);
      if handler.Some? && !probe.socketClosed && probe.read.ReadBytes? && |probe.read.bytes| > 0 then
        p1.(dispatch := p1.dispatch + [WorkItem(channel, key, probe.read.bytes)])
      else p1
  }

  /**
    The binding is created lazily and reused: an open channel ends up bound;
    an existing binding is kept as it is; a new one gets a fresh decoder.
   */
  lemma AddTaskBinds(p: Pipeline, channel: Channel, key: Key, probe: AddProbe)
    ensures !probe.channelOpen ==> AddTaskStep(p, channel, key, probe) == p
    ensures probe.channelOpen && channel in p.bindings ==>
              AddTaskStep(p, channel, key, probe).bindings == p.bindings
    ensures probe.channelOpen && channel !in p.bindings ==>
              AddTaskStep(p, channel, key, probe).bindings == p.bindings[channel := Binding(p.nextDecoder)]
  {
  }

  /**
    `addTask` appends at most one item, at the tail, and only a non-empty
    read of an open channel with a non-null read handler and an open socket; the guard set,
    the tasks and the hand-off queue are untouched.
   */
  lemma AddTaskEnqueues(p: Pipeline, channel: Channel, key: Key, probe: AddProbe)
    ensures var q := AddTaskStep(p, channel, key, probe);
      q.working == p.working && q.pending == p.pending && q.handoff == p.handoff && q.effects == p.effects
      && |p.dispatch| <= |q.dispatch| <= |p.dispatch| + 1 && q.dispatch[..|p.dispatch|] == p.dispatch
    ensures var q := AddTaskStep(p, channel, key, probe);
      |q.dispatch| > |p.dispatch| <==>
        probe.channelOpen && ReadHandler(p, channel, probe).Some? && !probe.socketClosed
        && probe.read.ReadBytes? && |probe.read.bytes| > 0
    ensures var q := AddTaskStep(p, channel, key, probe);
      |q.dispatch| > |p.dispatch| ==> q.dispatch[|p.dispatch|] == WorkItem(channel, key, probe.read.bytes)
  {
    var q := AddTaskStep(p, channel, key, probe);
    if probe.channelOpen {
      assert channel in q.bindings;
    }
  }

  /** `getHttpRequestHandlerThread`: the head of the hand-off queue, or null when it is empty. */
  function PollHandOff(p: Pipeline): (Option<HandlerThread>, Pipeline)
  {
    if |p.handoff| == 0 then (None, p) else (Some(p.handoff[0]), p.(handoff := p.handoff[1..]))
  }

  /**
    One poll of a queue that last received `x`: the oldest request comes out,
    `x` stays at the tail, and nothing else in the state changes.
   */
  lemma PollHandOffFifo(p: Pipeline, q: seq<HandlerThread>, x: HandlerThread)
    ensures PollHandOff(p.(handoff := q + [x])).0 == Some(if q == [] then x else q[0])
    ensures PollHandOff(p.(handoff := q + [x])).1 == p.(handoff := if q == [] then [] else q[1..] + [x])
  {
  }

  /** The requests `n` successive polls return, and the state after them. */
  function PollTimes(p: Pipeline, n: nat): (seq<HandlerThread>, Pipeline)
    decreases n
  {
    if n == 0 then ([], p)
    else
      var (r, p') := PollHandOff(p);
      var (rest, p'') := PollTimes(p', n - 1);
      (if r.Some? then [r.value] + rest else rest, p'')
  }

  /**
    First in, first out over any run of polls: `n` polls of a queue holding at
    least `n` requests return its first `n` requests in queue order and leave
    the rest queued.
   */
  lemma {:induction false} PollTimesInOrder(p: Pipeline, n: nat)
    requires n <= |p.handoff|
    ensures PollTimes(p, n).0 == p.handoff[..n]
    ensures PollTimes(p, n).1 == p.(handoff := p.handoff[n..])
    decreases n
  {
    if n > 0 {
      var p' := p.(handoff := p.handoff[1..]);
      PollTimesInOrder(p', n - 1);
      assert p'.handoff[..n - 1] == p.handoff[1..n];
      assert p'.handoff[n - 1..] == p.handoff[n..];
      assert [p.handoff[0]] + p.handoff[1..n] == p.handoff[..n];
    } else {
      assert p.handoff[0..] == p.handoff;
    }
  }

  // ---------------------------------------------------------------------------
  // The invariant is kept by every step
  // ---------------------------------------------------------------------------

  lemma {:induction false} ChannelsAppend(s: seq<WorkItem>, e: WorkItem)
    ensures Channels(s + [e]) == Channels(s) + {e.channel}
  {
    var t := s + [e];
    assert forall k :: 0 <= k < |s| ==> t[k] == s[k];
    assert t[|s|] == e;
    forall c | c in Channels(s) + {e.channel} ensures c in Channels(t) {
      if c != e.channel {
        var k :| 0 <= k < |s| && s[k].channel == c;
        assert t[k].channel == c;
      }
    }
  }

  lemma {:induction false} ChannelsRemove(s: seq<WorkItem>, i: nat)
    requires i < |s| && DistinctChannels(s)
    ensures Channels(RemoveAt(s, i)) == Channels(s) - {s[i].channel}
    ensures DistinctChannels(RemoveAt(s, i))
  {
    var t := RemoveAt(s, i);
    assert forall k :: 0 <= k < |t| ==> t[k] == s[if k < i then k else k + 1];
    forall c | c in Channels(s) - {s[i].channel} ensures c in Channels(t) {
      var k :| 0 <= k < |s| && s[k].channel == c;
      assert k != i;
      if k < i { assert t[k].channel == c; } else { assert t[k - 1].channel == c; }
    }
  }

  /** A scheduler step keeps the invariant: a channel is guarded for exactly one in-flight task. */
  lemma {:induction false} ScheduleConsistent(p: Pipeline)
    requires Consistent(p)
    ensures Consistent(Schedule(p))
  {
    if |p.dispatch| > 0 {
      var e := p.dispatch[0];
      var q := Schedule(p);
      assert forall k :: 0 <= k < |p.dispatch| - 1 ==> p.dispatch[1..][k] == p.dispatch[k + 1];
      if e.channel !in p.working {
        ChannelsAppend(p.pending, e);
        assert forall k :: 0 <= k < |p.pending| ==> q.pending[k] == p.pending[k];
        assert forall k :: 0 <= k < |p.pending| ==> p.pending[k].channel in Channels(p.pending);
      } else {
        assert forall k :: 0 <= k < |p.dispatch| - 1 ==> q.dispatch[k] == p.dispatch[k + 1];
      }
    }
  }

  /** Running a task keeps the invariant, and under it the task always releases its channel. */
  lemma {:induction false} RunConsistent(p: Pipeline, i: nat, upgrade: bool, upgradeBytes: seq<byte>, env: TaskEnv)
    requires Consistent(p) && i < |p.pending|
    ensures Consistent(Run(p, i, upgrade, upgradeBytes, env))
    ensures Run(p, i, upgrade, upgradeBytes, env).working == p.working - {p.pending[i].channel}
  {
    var item := p.pending[i];
    assert item.channel in p.bindings;
    TaskReleases(item, Lookup(p.bindings, item.channel), upgrade, upgradeBytes, env);
    ChannelsRemove(p.pending, i);
    var t := RemoveAt(p.pending, i);
    assert forall k :: 0 <= k < |t| ==> t[k] == p.pending[if k < i then k else k + 1];
  }

  /** `addTask` keeps the invariant: new bindings get fresh decoders, enqueued reads are non-empty. */
  lemma {:induction false} AddTaskConsistent(p: Pipeline, channel: Channel, key: Key, probe: AddProbe)
    requires Consistent(p)
    ensures Consistent(AddTaskStep(p, channel, key, probe))
  {
    var q := AddTaskStep(p, channel, key, probe);
    if probe.channelOpen {
      AddTaskEnqueues(p, channel, key, probe);
      assert forall k :: 0 <= k < |p.dispatch| ==> q.dispatch[k] == p.dispatch[k];
      assert forall c :: c in p.bindings ==> c in q.bindings;
    }
  }

  /** Polling the hand-off queue keeps the invariant. */
  lemma PollConsistent(p: Pipeline)
    requires Consistent(p)
    ensures Consistent(PollHandOff(p).1)
  {
  }

  /**
    The re-enqueue does not keep the order of one channel's items: with a
    task for channel 1 in flight and two reads of channel 1 queued, the
    guarded first read is put behind the second, and once the task ends the
    second read is dispatched first.
   */
  lemma RequeueReorders()
    ensures var first := WorkItem(1, 1, [1]);
      var second := WorkItem(1, 1, [2]);
      var p := Pipeline([first, second], {1}, [WorkItem(1, 1, [0])], [], map[1 := Binding(0)], [], 1);
      var env := TaskEnv(true, false, Decoded(false), None, FaultProbe(true, Some(true), false));
      Consistent(p) && Schedule(Run(Schedule(p), 0, false, [], env)).pending == [second]
  {
    var first := WorkItem(1, 1, [1]);
    var second := WorkItem(1, 1, [2]);
    var p := Pipeline([first, second], {1}, [WorkItem(1, 1, [0])], [], map[1 := Binding(0)], [], 1);
    var env := TaskEnv(true, false, Decoded(false), None, FaultProbe(true, Some(true), false));
    assert Channels(p.pending) == {1} by {
      assert p.pending[0].channel == 1;
    }
    var p1 := Schedule(p);
    assert p1.dispatch == [second, first];
    var p2 := Run(p1, 0, false, [], env);
    assert p2.working == {} && p2.pending == [];
    assert Schedule(p2).pending == [second];
  }

  // ---------------------------------------------------------------------------
  // The thread object
  // ---------------------------------------------------------------------------

  /** HttpDecodeThread: its queues and guard set, the shared binding map, and what it did so far. */
  class HttpDecodeThread {
    var dispatch: seq<WorkItem>
    var working: set<Channel>
    var pending: seq<WorkItem>
    var handoff: seq<HandlerThread>
    var bindings: map<Channel, Binding>
    var effects: seq<Effect>
    var nextDecoder: nat
    /** `serverConfig.isSupportHttp2()`. */
    const supportHttp2: bool

    /** The fields as a pipeline state. */
    function State(): Pipeline
      reads this
    {
      Pipeline(dispatch, working, pending, handoff, bindings, effects, nextDecoder)
    }

    constructor (supportHttp2: bool)
      ensures State() == Initial() && this.supportHttp2 == supportHttp2
    {
      dispatch := [];
      working := {};
      pending := [];
      handoff := [];
      bindings := map[];
      effects := [];
      nextDecoder := 0;
      this.supportHttp2 := supportHttp2;
    }

    /** `addTask(channel, key)`. */
    method AddTask(channel: Channel, key: Key, probe: AddProbe)
      modifies this`dispatch, this`bindings, this`nextDecoder
      ensures State() == AddTaskStep(old(State()), channel, key, probe)
      ensures old(Consistent(State())) ==> Consistent(State())
    {
      ghost var before := State();
      if probe.channelOpen {
        var codecEntry := Lookup(bindings, channel);
        var handler: Option<nat>;
        if codecEntry.None? {
          handler := probe.newHandler;
          bindings := bindings[channel := Binding(nextDecoder)];
          nextDecoder := nextDecoder + 1;
        } else {
          handler := probe.requestHandler;
        }
        if handler.Some? && !probe.socketClosed {
          match probe.read {
            case ReadBytes(bytes) =>
              if |bytes| > 0 {
                dispatch := dispatch + [WorkItem(channel, key, bytes)];
              }
            case ReadEOF =>
            case ReadFailed =>
          }
        }
      }
      if Consistent(before) {
        AddTaskConsistent(before, channel, key, probe);
      }
    }

    /** One iteration of the `run` loop. */
    method SchedulerStep()
      modifies this`dispatch, this`working, this`pending
      ensures State() == Schedule(old(State()))
      ensures old(Consistent(State())) ==> Consistent(State())
    {
      ghost var before := State();
      if |dispatch| > 0 {
        var entry := dispatch[0];
        dispatch := dispatch[1..];
        if entry.channel !in working {
          working := working + {entry.channel};
          pending := pending + [entry];
        } else {
          dispatch := dispatch + [entry];
        }
      }
      if Consistent(before) {
        ScheduleConsistent(before);
      }
    }

    /**
      The body of the submitted task `i`, run to its end on a decode worker;
      `statusText` is the status text of 101 and `wrap` the frame encoder.
     */
    method RunTask(i: nat, env: TaskEnv, statusText: string, wrap: seq<byte> -> seq<byte>)
      requires i < |pending|
      modifies this`working, this`pending, this`handoff, this`effects
      ensures State() == Run(old(State()), i, supportHttp2, UpgradeResponseBytes(statusText, wrap), env)
      ensures old(Consistent(State())) ==> Consistent(State()) && working == old(working) - {old(pending)[i].channel}
    {
      ghost var before := State();
      if Consistent(before) {
        RunConsistent(before, i, supportHttp2, UpgradeResponseBytes(statusText, wrap), env);
      }
      var item := pending[i];
      pending := RemoveAt(pending, i);
      var channel := item.channel;
      if env.channelOpen {
        var codecEntry := Lookup(bindings, channel);
        if !env.socketClosed && |item.bytes| > 0 {
          if codecEntry.None? {
            // the NullPointerException escapes the task: the guard is kept
            return;
          }
          Decode(item, codecEntry.value, env, statusText, wrap);
        }
      }
      working := working - {channel};
    }

    /**
      The try block of the task: decode `item` with binding `b`, then hand
      the request off, send the upgrade response, or handle the exception.
     */
    method Decode(item: WorkItem, b: Binding, env: TaskEnv, statusText: string, wrap: seq<byte> -> seq<byte>)
      requires env.channelOpen && !env.socketClosed && |item.bytes| > 0
      modifies this`handoff, this`effects
      ensures handoff == old(handoff) + TaskBody(item, Some(b), supportHttp2, UpgradeResponseBytes(statusText, wrap), env).push
      ensures effects == old(effects) + TaskBody(item, Some(b), supportHttp2, UpgradeResponseBytes(statusText, wrap), env).effects
    {
      ghost var t := TaskBody(item, Some(b), supportHttp2, UpgradeResponseBytes(statusText, wrap), env);
      match env.outcome {
        case Threw(f) =>
          assert t == Caught(item, b.decoder, f, env.probe);
          Catch(item, b.decoder, f, env.probe);
        case Decoded(complete) =>
          if complete {
            if supportHttp2 {
              var bout := UpgradeResponse(statusText, wrap);
              if env.sendThrows.None? {
                effects := effects + [SendUpgrade(b.decoder, bout)];
              } else {
                assert t == Caught(item, b.decoder, env.sendThrows.value, env.probe);
                Catch(item, b.decoder, env.sendThrows.value, env.probe);
              }
            } else {
              handoff := handoff + [HandlerThread(item.channel, b.decoder)];
            }
          }
      }
    }

    /** The catch clauses of the task: pick the clause for `f` and call `handleException` as it says. */
    method Catch(item: WorkItem, decoder: nat, f: Fault, probe: FaultProbe)
      modifies this`effects
      ensures effects == old(effects) + Caught(item, decoder, f, probe).effects
    {
      var h := FaultHandling(f);
      var thread := if h.withHandler then Some(HandlerThread(item.channel, decoder)) else None;
      HandleException(item.key, thread, h.code, probe);
    }

    /** `handleException(key, codec, thread, code)` for a non-null codec. */
    method HandleException(key: Key, thread: Option<HandlerThread>, code: int, probe: FaultProbe)
      modifies this`effects
      ensures effects == old(effects) + FaultEffects(key, thread, code, probe)
    {
      if thread.Some? && probe.hasRequest {
        match probe.handlerSocketOpen {
          case None =>
          case Some(open) =>
            var d := thread.value.decoder;
            var rendered := true;
            if open {
              if probe.renderThrows {
                rendered := false;
              } else {
                effects := effects + [RenderCode(d, code)];
              }
            }
            if rendered {
              effects := effects + [Interrupt(d)];
            }
        }
      }
      effects := effects + [CloseChannel(key)];
      effects := effects + [CancelKey(key)];
    }

    /** `getHttpRequestHandlerThread()`. */
    method GetHttpRequestHandlerThread() returns (r: Option<HandlerThread>)
      modifies this`handoff
      ensures (r, State()) == PollHandOff(old(State()))
    {
      if |handoff| == 0 {
        r := None;
      } else {
        r := Some(handoff[0]);
        handoff := handoff[1..];
      }
    }
  }
}
