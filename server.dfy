/** The bridge's HTTP side: the transport that carries JSON-RPC messages
    between the MCP client and the extension, with its status and the table
    of requests waiting for a response, and the lifecycle manager that
    watches client activity and shuts the transport down. The HTTP server,
    timers and process hooks are events: what the host does (whether a
    bind succeeds, how a close ends, the time) arrives as parameters. */
module Server {
  import opened Wrappers

  /** The transport's status, as reported to the status listener. */
  datatype Status = Running | Stopped | Starting | ToolListUpdated

  /** A JSON-RPC id: a string or a number. */
  datatype Id = StringId(text: string) | NumberId(number: int)

  /** What the transport looks at in a JSON-RPC message: its id, its method name
      and whether it carries a result. */
  datatype Message = Message(id: Option<Id>, methodName: Option<string>, hasResult: bool)

  /** The body of an HTTP reply. */
  datatype Reply =
    | Response(message: Message)      // the JSON-RPC response to a request
    | SuccessObject                   // `{ success: true }`
    | SuccessText                     // the text `{ "success": true }`
    | ServerError(text: string)       // status 500
    | Pong(serverRunning: bool)       // the reply to `/ping`

  /** How closing the HTTP server ends: closed, failed with an error, or
      given up after the close timeout. */
  datatype CloseOutcome = Closed | CloseFailed(error: string) | CloseTimedOut

  /** What the running server answers to a handover request: accepted,
      refused, or no answer at all (the request fails). */
  datatype HandoverReply = Accepted | Refused | Unreachable(error: string)

  const ToolsListMethod := "tools/list"
  const NoHandlerText := "No message handler"
  const InternalErrorText := "Internal Server Error"

  // ----- decimal numbers, for the port in the bind error -----

  function DigitChar(d: nat): (c: char)
    requires d < 10
    ensures '0' <= c <= '9'
  {
    ('0' as int + d) as char
  }

  function DigitValue(c: char): (d: nat)
    requires '0' <= c <= '9'
    ensures d < 10
  {
    c as int - '0' as int
  }

  predicate AllDigits(s: string) {
    forall k :: 0 <= k < |s| ==> '0' <= s[k] <= '9'
  }

  /** A number as JavaScript prints it in a template string. */
  function Decimal(n: nat): (s: string)
    ensures |s| >= 1 && AllDigits(s)
    decreases n
  {
    if n < 10 then [DigitChar(n)] else Decimal(n / 10) + [DigitChar(n % 10)]
  }

  function ParseDecimal(s: string): nat
    requires AllDigits(s)
    decreases |s|
  {
    if s == [] then 0 else ParseDecimal(s[..|s| - 1]) * 10 + DigitValue(s[|s| - 1])
  }

  lemma {:induction false} DecimalRoundTrip(n: nat)
    ensures ParseDecimal(Decimal(n)) == n
    decreases n
  {
    if n >= 10 {
      DecimalRoundTrip(n / 10);
      var s := Decimal(n);
      assert s[..|s| - 1] == Decimal(n / 10);
    }
  }

  const BindErrorPrefix := "Failed to bind to port "

  /** The message `start` throws when the port cannot be bound. */
  function BindError(port: nat, error: string): string {
    BindErrorPrefix + Decimal(port) + ": " + error
  }

  /** The bind error names the port, then the host's error. */
  lemma BindErrorNamesPort(port: nat, error: string)
    ensures var m := BindError(port, error);
            var digits := |BindErrorPrefix| + |Decimal(port)|;
            |m| == digits + 2 + |error| &&
            m[..|BindErrorPrefix|] == BindErrorPrefix &&
            AllDigits(m[|BindErrorPrefix|..digits]) &&
            ParseDecimal(m[|BindErrorPrefix|..digits]) == port &&
            m[digits + 2..] == error
  {
    var m := BindError(port, error);
    var digits := |BindErrorPrefix| + |Decimal(port)|;
    assert m[|BindErrorPrefix|..digits] == Decimal(port);
    DecimalRoundTrip(port);
  }

  // ----- the transport -----

  /** Every request waiting or answered has arrived (its number is below
      `next`), a request waiting has not been answered, and no request is
      answered twice. */
  ghost predicate RepliesConsistent(replies: seq<(nat, Reply)>, awaiting: set<nat>, next: nat) {
    (forall n :: n in awaiting ==> n < next) &&
    (forall k :: 0 <= k < |replies| ==> replies[k].0 < next && replies[k].0 !in awaiting) &&
    (forall i, j :: 0 <= i < j < |replies| ==> replies[i].0 != replies[j].0)
  }

  /** Answering a request that has arrived, is not waiting and has no
      answer yet keeps the replies consistent. */
  lemma AnswerKeepsConsistent(replies: seq<(nat, Reply)>, awaiting: set<nat>, next: nat, n: nat, reply: Reply)
    requires RepliesConsistent(replies, awaiting, next)
    requires n < next && n !in awaiting && forall k :: 0 <= k < |replies| ==> replies[k].0 != n
    ensures RepliesConsistent(replies + [(n, reply)], awaiting, next)
  {
    var r := replies + [(n, reply)];
    forall i, j | 0 <= i < j < |r| ensures r[i].0 != r[j].0 {
      assert r[i] == replies[i];
      if j < |replies| {
        assert r[j] == replies[j];
      }
    }
  }

  /** The transport's fields, as a value. */
  datatype TransportState = TransportState(
    status: Status, notifications: seq<Status>, listening: bool, pending: map<Id, nat>,
    awaiting: set<nat>, delivered: seq<Message>, replies: seq<(nat, Reply)>, nextRequest: nat)

  class BidiHttpTransport {
    const listenPort: nat
    /** Whether `onServerStatusChanged` is set. */
    const hasStatusListener: bool
    /** Whether `onmessage` is set. */
    const hasMessageHandler: bool

    var status: Status
    /** The statuses reported to the listener, in order. */
    var notifications: seq<Status>
    /** Whether an HTTP server is held (`httpServer`). */
    var listening: bool
    /** `pendingResponses`: for each id, the number of the HTTP request
        whose resolver is stored. */
    var pending: map<Id, nat>
    /** The HTTP requests waiting on their resolver. */
    var awaiting: set<nat>
    /** The messages handed to `onmessage`, in order. */
    var delivered: seq<Message>
    /** The replies sent: the number of the HTTP request, then the body. */
    var replies: seq<(nat, Reply)>
    /** Inbound HTTP requests are numbered from 0 in arrival order. */
    var nextRequest: nat

    /** Every request waiting or answered has arrived; a request waiting
        has not been answered; no request is answered twice. The status is
        not tied to the server: a connection kept alive across the release
        of the server still reaches the routes, which may report `Running`
        again. */
    ghost predicate Valid()
      reads this
    {
      RepliesConsistent(replies, awaiting, nextRequest)
    }

    /** The reports the listener receives for a series of status changes. */
    function Announced(before: seq<Status>, changes: seq<Status>): (after: seq<Status>)
      ensures hasStatusListener ==> after == before + changes
      ensures !hasStatusListener ==> after == before
    {
      if hasStatusListener then before + changes else before
    }

    constructor(listenPort: nat, hasStatusListener: bool, hasMessageHandler: bool)
      ensures Valid()
      ensures this.listenPort == listenPort && this.hasStatusListener == hasStatusListener
      ensures this.hasMessageHandler == hasMessageHandler
      ensures status == Stopped && notifications == [] && !listening
      ensures pending == map[] && awaiting == {} && delivered == [] && replies == [] && nextRequest == 0
    {
      this.listenPort := listenPort;
      this.hasStatusListener := hasStatusListener;
      this.hasMessageHandler := hasMessageHandler;
      status := Stopped;
      notifications := [];
      listening := false;
      pending := map[];
      awaiting := {};
      delivered := [];
      replies := [];
      nextRequest := 0;
    }

    function IsServerRunning(): (r: bool)
      reads this
      ensures r <==> status == Running
    {
      status == Running
    }

    /** The `serverStatus` setter: store the status, then report it. */
    method SetStatus(s: Status)
      modifies this`status, this`notifications
      ensures status == s && notifications == Announced(old(notifications), [s])
    {
      status := s;
      if hasStatusListener {
        notifications := notifications + [s];
      }
    }

    /** `start`: report `Starting`, register with the lifecycle manager,
        then bind the port. A bind that succeeds holds the new server and
        reports `Running`; one that fails reports `Stopped`, keeps whatever
        server was held, and fails with the port and the host's error. */
    method Start(manager: ServerLifecycleManager, bindError: Option<string>) returns (r: Result<(), string>)
      requires Valid() && manager.Valid()
      modifies this`status, this`notifications, this`listening, manager
      ensures Valid() && manager.Valid()
      ensures r.Success? <==> bindError.None?
      ensures r.Failure? ==> r.error == BindError(listenPort, bindError.value)
      ensures status == (if bindError.None? then Running else Stopped)
      ensures notifications == Announced(old(notifications), [Starting, status])
      ensures listening == (bindError.None? || old(listening))
      ensures manager.Registered(old(manager.Snapshot()), this)
    {
      SetStatus(Starting);
      manager.RegisterTransport(this);
      if bindError.Some? {
        SetStatus(Stopped);
        return Failure(BindError(listenPort, bindError.value));
      }
      listening := true;
      SetStatus(Running);
      return Success(());
    }

    /** Number the next inbound request; the activity middleware runs
        first on every route. */
    method Arrive(manager: ServerLifecycleManager, now: int) returns (n: nat)
      modifies this`nextRequest, manager`lastClientActivity
      ensures n == old(nextRequest) && nextRequest == n + 1
      ensures manager.lastClientActivity == now
    {
      manager.UpdateClientActivity(now);
      n := nextRequest;
      nextRequest := nextRequest + 1;
    }

    /** `GET /ping`: reports whether the server is running. */
    method HandlePing(manager: ServerLifecycleManager, now: int)
      requires Valid()
      modifies this`nextRequest, this`replies, manager`lastClientActivity
      ensures Valid()
      ensures nextRequest == old(nextRequest) + 1 && manager.lastClientActivity == now
      ensures replies == old(replies) + [(old(nextRequest), Pong(status == Running))]
    {
      var n := Arrive(manager, now);
      replies := replies + [(n, Pong(IsServerRunning()))];
    }

    /** `POST /request-handover`: answer first, then let go of the server
        if one is held, and report `Stopped`. */
    method HandleRequestHandover(manager: ServerLifecycleManager, now: int)
      requires Valid()
      modifies this`nextRequest, this`replies, this`listening, this`status, this`notifications,
               manager`lastClientActivity
      ensures Valid()
      ensures nextRequest == old(nextRequest) + 1 && manager.lastClientActivity == now
      ensures replies == old(replies) + [(old(nextRequest), SuccessObject)]
      ensures !listening && status == Stopped && notifications == Announced(old(notifications), [Stopped])
    {
      var n := Arrive(manager, now);
      replies := replies + [(n, SuccessObject)];
      listening := false;
      SetStatus(Stopped);
    }

    /** `POST /notify-tools-updated`: report `ToolListUpdated`, then
        answer. */
    method HandleNotifyToolsUpdated(manager: ServerLifecycleManager, now: int)
      requires Valid()
      modifies this`nextRequest, this`replies, this`status, this`notifications, manager`lastClientActivity
      ensures Valid()
      ensures nextRequest == old(nextRequest) + 1 && manager.lastClientActivity == now
      ensures status == ToolListUpdated && notifications == Announced(old(notifications), [ToolListUpdated])
      ensures replies == old(replies) + [(old(nextRequest), SuccessObject)]
    {
      var n := Arrive(manager, now);
      SetStatus(ToolListUpdated);
      replies := replies + [(n, SuccessObject)];
    }

    /** `POST /`: a `tools/list` request ends the `ToolListUpdated` status.
        With a handler, a request with an id stores its resolver under that
        id before the handler sees it, and the reply waits for `send`; a
        message without an id is answered at once. Without a handler the
        reply is an error and nothing is stored. A handler that throws gets
        the request an internal error, and a resolver stored before it
        stays in the table. */
    method HandleMessage(manager: ServerLifecycleManager, now: int, message: Message, handlerThrows: bool)
      requires Valid()
      modifies this`nextRequest, this`replies, this`status, this`notifications, this`pending,
               this`awaiting, this`delivered, manager`lastClientActivity
      ensures Valid()
      ensures nextRequest == old(nextRequest) + 1 && manager.lastClientActivity == now
      ensures var switching := old(status) == ToolListUpdated && message.methodName == Some(ToolsListMethod);
              status == (if switching then Running else old(status)) &&
              notifications == Announced(old(notifications), if switching then [Running] else [])
      ensures delivered == old(delivered) + (if hasMessageHandler then [message] else [])
      ensures pending == (if hasMessageHandler && message.id.Some?
                          then old(pending)[message.id.value := old(nextRequest)] else old(pending))
      ensures awaiting == (if hasMessageHandler && message.id.Some? && !handlerThrows
                           then old(awaiting) + {old(nextRequest)} else old(awaiting))
      ensures replies == old(replies) +
                (if !hasMessageHandler then [(old(nextRequest), ServerError(NoHandlerText))]
                 else if handlerThrows then [(old(nextRequest), ServerError(InternalErrorText))]
                 else if message.id.Some? then []
                 else [(old(nextRequest), SuccessText)])
    {
      var n := Arrive(manager, now);
      if status == ToolListUpdated && message.methodName == Some(ToolsListMethod) {
        SetStatus(Running);
      }
      Dispatch(n, message, handlerThrows);
    }

    /** The handler part of `POST /`, for the request numbered `n`, which
        has just arrived. */
    method Dispatch(n: nat, message: Message, handlerThrows: bool)
      requires Valid() && n + 1 == nextRequest && n !in awaiting
      requires forall k :: 0 <= k < |replies| ==> replies[k].0 < n
      modifies this`replies, this`pending, this`awaiting, this`delivered
      ensures Valid()
      ensures delivered == old(delivered) + (if hasMessageHandler then [message] else [])
      ensures pending == (if hasMessageHandler && message.id.Some? then old(pending)[message.id.value := n]
                          else old(pending))
      ensures awaiting == (if hasMessageHandler && message.id.Some? && !handlerThrows
                           then old(awaiting) + {n} else old(awaiting))
      ensures replies == old(replies) +
                (if !hasMessageHandler then [(n, ServerError(NoHandlerText))]
                 else if handlerThrows then [(n, ServerError(InternalErrorText))]
                 else if message.id.Some? then []
                 else [(n, SuccessText)])
    {
      if !hasMessageHandler {
        AnswerKeepsConsistent(replies, awaiting, nextRequest, n, ServerError(NoHandlerText));
        replies := replies + [(n, ServerError(NoHandlerText))];
        return;
      }
      if message.id.Some? {
        pending := pending[message.id.value := n];
      }
      delivered := delivered + [message];
      if handlerThrows {
        AnswerKeepsConsistent(replies, awaiting, nextRequest, n, ServerError(InternalErrorText));
        replies := replies + [(n, ServerError(InternalErrorText))];
      } else if message.id.Some? {
        awaiting := awaiting + {n};
      } else {
        AnswerKeepsConsistent(replies, awaiting, nextRequest, n, SuccessText);
        replies := replies + [(n, SuccessText)];
      }
    }

    /** `send`: a message with an id and a result resolves the resolver
        stored under that id, once, and removes it; the request waiting on
        it gets the message as its reply. Anything else leaves the table as
        it is. */
    method Send(message: Message)
      requires Valid()
      modifies this`pending, this`awaiting, this`replies
      ensures Valid()
      ensures var resolving := message.id.Some? && message.hasResult && message.id.value in old(pending);
              var n := if resolving then old(pending)[message.id.value] else 0;
              var answered := resolving && n in old(awaiting);
              pending == (if resolving then old(pending) - {message.id.value} else old(pending)) &&
              awaiting == (if answered then old(awaiting) - {n} else old(awaiting)) &&
              replies == old(replies) + (if answered then [(n, Response(message))] else [])
    {
      if message.id.Some? && message.hasResult {
        var id := message.id.value;
        if id in pending {
          var n := pending[id];
          if n in awaiting {
            replies := replies + [(n, Response(message))];
            awaiting := awaiting - {n};
          }
          pending := pending - {id};
        }
      }
    }

    function Fields(): TransportState
      reads this
    {
      TransportState(status, notifications, listening, pending, awaiting, delivered, replies, nextRequest)
    }

    /** The state after `close` from `before`: `Stopped` reported, the
        server kept only when it was held and closing it failed, the
        requests, replies and messages as they were. */
    ghost predicate ClosedFrom(before: TransportState, closeFailed: bool)
      reads this
    {
      status == Stopped && notifications == Announced(before.notifications, [Stopped]) &&
      listening == (before.listening && closeFailed) &&
      pending == before.pending && awaiting == before.awaiting && delivered == before.delivered &&
      replies == before.replies && nextRequest == before.nextRequest
    }

    /** `close`: report `Stopped` first; without a server there is nothing
        more to do. A close that fails keeps the server and fails; one that
        ends or times out lets go of it. */
    method Close(outcome: CloseOutcome) returns (r: Result<(), string>)
      modifies this`status, this`notifications, this`listening
      ensures old(Valid()) ==> Valid()
      ensures ClosedFrom(old(Fields()), outcome.CloseFailed?)
      ensures status == Stopped && notifications == Announced(old(notifications), [Stopped])
      ensures r.Failure? <==> old(listening) && outcome.CloseFailed?
      ensures r.Failure? ==> r.error == outcome.error && listening
      ensures r.Success? ==> !listening
    {
      SetStatus(Stopped);
      if !listening {
        return Success(());
      }
      if outcome.CloseFailed? {
        return Failure(outcome.error);
      }
      listening := false;
      return Success(());
    }

    /** `requestHandover`: report `Starting`, then ask the running server
        to hand over. A refusal ends there; an acceptance or a request that
        fails both lead to one attempt to start, and the handover succeeds
        exactly when that start does. */
    method RequestHandover(manager: ServerLifecycleManager, reply: HandoverReply, bindError: Option<string>)
      returns (ok: bool)
      requires Valid() && manager.Valid()
      modifies this`status, this`notifications, this`listening, manager
      ensures Valid() && manager.Valid()
      ensures ok <==> !reply.Refused? && bindError.None?
      ensures reply.Refused? ==>
                status == Starting && notifications == Announced(old(notifications), [Starting]) &&
                listening == old(listening) && manager.Snapshot() == old(manager.Snapshot())
      ensures !reply.Refused? ==>
                status == (if ok then Running else Stopped) &&
                notifications == Announced(old(notifications), [Starting, Starting, status]) &&
                listening == (ok || old(listening)) &&
                manager.Registered(old(manager.Snapshot()), this)
    {
      SetStatus(Starting);
      if reply.Refused? {
        return false;
      }
      var started := Start(manager, bindError);
      ok := started.Success?;
    }
  }

  // ----- the lifecycle manager -----

  /** Five minutes without client activity ends the server. */
  const ClientTimeoutMs: int := 5 * 60 * 1000

  const PanelRunning := "In esecuzione"
  const PanelOff := "Spento"
  const PanelError := "Errore"

  /** The lifecycle manager's fields, as a value. */
  datatype LifecycleState = LifecycleState(
    transport: BidiHttpTransport?, liveIntervals: nat, heartbeatHandle: bool, shutdownHandle: bool,
    lastClientActivity: int, handlerInstalls: nat, exitScheduled: bool, panelUpdates: seq<string>)

  /** What `getStatus` returns. */
  datatype LifecycleStatus = LifecycleStatus(isActive: bool, lastActivity: int, timeSinceActivity: int)

  class ServerLifecycleManager {
    var transport: BidiHttpTransport?
    /** Heartbeat intervals created and not yet cleared. */
    var liveIntervals: nat
    /** Whether `heartbeatInterval` holds a handle; clearing the interval
        does not always unset it. */
    var heartbeatHandle: bool
    /** Whether `shutdownTimeout` holds a handle: the shutdown guard. */
    var shutdownHandle: bool
    var lastClientActivity: int
    /** How many times the process and configuration handlers were
        installed. */
    var handlerInstalls: nat
    /** Whether `process.exit` has been scheduled. */
    var exitScheduled: bool
    /** The texts shown by the main panel, in order. */
    var panelUpdates: seq<string>

    /** At most one heartbeat is live, and a live one is the one held. */
    ghost predicate Valid()
      reads this
    {
      liveIntervals <= 1 && (liveIntervals == 1 ==> heartbeatHandle)
    }

    function Snapshot(): LifecycleState
      reads this
    {
      LifecycleState(transport, liveIntervals, heartbeatHandle, shutdownHandle,
                     lastClientActivity, handlerInstalls, exitScheduled, panelUpdates)
    }

    /** The state after `registerTransport(t)` from `before`: the transport
        replaced, one live heartbeat, the handlers installed once more, the
        panel showing the server as running; the rest as it was. */
    ghost predicate Registered(before: LifecycleState, t: BidiHttpTransport)
      reads this
    {
      transport == t && liveIntervals == 1 && heartbeatHandle &&
      handlerInstalls == before.handlerInstalls + 1 &&
      panelUpdates == before.panelUpdates + [PanelRunning] &&
      shutdownHandle == before.shutdownHandle && lastClientActivity == before.lastClientActivity &&
      exitScheduled == before.exitScheduled
    }

    constructor(now: int)
      ensures Valid()
      ensures transport == null && liveIntervals == 0 && !heartbeatHandle && !shutdownHandle
      ensures lastClientActivity == now && handlerInstalls == 0 && !exitScheduled && panelUpdates == []
    {
      transport := null;
      liveIntervals := 0;
      heartbeatHandle := false;
      shutdownHandle := false;
      lastClientActivity := now;
      handlerInstalls := 0;
      exitScheduled := false;
      panelUpdates := [];
    }

    /** `registerTransport`: replace the transport, restart the heartbeat,
        install the handlers again (nothing stops a second install), and
        show the server as running. */
    method RegisterTransport(t: BidiHttpTransport)
      requires Valid()
      modifies this
      ensures Valid()
      ensures Registered(old(Snapshot()), t)
    {
      transport := t;
      StartHeartbeat();
      handlerInstalls := handlerInstalls + 1;
      panelUpdates := panelUpdates + [PanelRunning];
    }

    /** `startHeartbeat`: clear the interval held, if any, then create a new
        one; so exactly one is live afterwards. */
    method StartHeartbeat()
      requires Valid()
      modifies this`liveIntervals, this`heartbeatHandle
      ensures Valid()
      ensures liveIntervals == 1 && heartbeatHandle
    {
      if heartbeatHandle {
        liveIntervals := 0;
      }
      liveIntervals := liveIntervals + 1;
      heartbeatHandle := true;
    }

    /** `updateClientActivity`, at time `now`: nothing else changes. */
    method UpdateClientActivity(now: int)
      modifies this`lastClientActivity
      ensures lastClientActivity == now
    {
      lastClientActivity := now;
    }

    /** The closing step of a graceful shutdown, from the state before it:
        with the guard held nothing happens; otherwise the heartbeat is
        cleared and, unless closing the transport failed, the transport is
        dropped, the guard released and the panel shows the server off;
        when it failed, the transport and the guard stay, the panel shows
        an error and the exit is scheduled. */
    ghost predicate ShutDown(before: LifecycleState, closeFailed: bool)
      reads this
    {
      if before.shutdownHandle then Snapshot() == before
      else
        liveIntervals == 0 && !heartbeatHandle &&
        lastClientActivity == before.lastClientActivity && handlerInstalls == before.handlerInstalls &&
        if closeFailed then
          transport == before.transport && shutdownHandle && exitScheduled &&
          panelUpdates == before.panelUpdates + [PanelError]
        else
          transport == null && !shutdownHandle && exitScheduled == before.exitScheduled &&
          panelUpdates == before.panelUpdates + [PanelOff]
    }

    /** `gracefulShutdown`: a no-op while the guard is held. Otherwise take
        the guard, stop the heartbeat, close the transport and drop it,
        release the guard and show the server off. A close that fails is
        caught: the panel shows an error and the shutdown is forced. */
    method GracefulShutdown(outcome: CloseOutcome)
      requires Valid()
      modifies this, transport
      ensures Valid()
      ensures ShutDown(old(Snapshot()), old(transport) != null && old(transport.listening) && outcome.CloseFailed?)
      ensures old(transport) != null && !old(shutdownHandle) ==>
                old(transport).ClosedFrom(old(transport.Fields()), outcome.CloseFailed?)
      ensures old(transport) != null && old(shutdownHandle) ==> unchanged(old(transport))
    {
      if shutdownHandle {
        return;
      }
      shutdownHandle := true;
      if heartbeatHandle {
        liveIntervals := 0;
        heartbeatHandle := false;
      }
      if transport != null {
        var closed := transport.Close(outcome);
        if closed.Failure? {
          panelUpdates := panelUpdates + [PanelError];
          ForceShutdown();
          return;
        }
        transport := null;
      }
      shutdownHandle := false;
      panelUpdates := panelUpdates + [PanelOff];
    }

    /** `forceShutdown`: clear the heartbeat and schedule the exit. It
        never fails, and it does not reach the transport: it asks the
        transport for a `server` property, which the transport does not
        have (its server is `httpServer`), so the server stays open until
        the process exits. The shutdown handle is cleared but not unset, so
        a later graceful shutdown does nothing. */
    method ForceShutdown()
      requires Valid()
      modifies this`liveIntervals, this`exitScheduled
      ensures Valid()
      ensures liveIntervals == 0 && exitScheduled
    {
      if heartbeatHandle {
        liveIntervals := 0;
      }
      exitScheduled := true;
    }

    /** `shutdown`: a graceful shutdown asked for by hand. */
    method Shutdown(outcome: CloseOutcome)
      requires Valid()
      modifies this, transport
      ensures Valid()
      ensures ShutDown(old(Snapshot()), old(transport) != null && old(transport.listening) && outcome.CloseFailed?)
      ensures old(transport) != null && !old(shutdownHandle) ==>
                old(transport).ClosedFrom(old(transport.Fields()), outcome.CloseFailed?)
      ensures old(transport) != null && old(shutdownHandle) ==> unchanged(old(transport))
    {
      GracefulShutdown(outcome);
    }

    /** One heartbeat at time `now`: a graceful shutdown when more than five
        minutes have passed since the last client activity, nothing
        otherwise. */
    method HeartbeatTick(now: int, outcome: CloseOutcome)
      requires Valid() && liveIntervals == 1
      modifies this, transport
      ensures Valid()
      ensures now - old(lastClientActivity) <= ClientTimeoutMs ==> unchanged(this)
      ensures now - old(lastClientActivity) <= ClientTimeoutMs && old(transport) != null ==> unchanged(old(transport))
      ensures now - old(lastClientActivity) > ClientTimeoutMs ==>
                ShutDown(old(Snapshot()), old(transport) != null && old(transport.listening) && outcome.CloseFailed?)
      ensures now - old(lastClientActivity) > ClientTimeoutMs && old(transport) != null && !old(shutdownHandle) ==>
                old(transport).ClosedFrom(old(transport.Fields()), outcome.CloseFailed?)
      ensures now - old(lastClientActivity) > ClientTimeoutMs && old(transport) != null && old(shutdownHandle) ==>
                unchanged(old(transport))
    {
      if now - lastClientActivity > ClientTimeoutMs {
        GracefulShutdown(outcome);
      }
    }

    /** `getStatus` at time `now`. */
    function GetStatus(now: int): (s: LifecycleStatus)
      reads this
      ensures s.isActive <==> transport != null && heartbeatHandle
      ensures s.lastActivity == lastClientActivity && s.timeSinceActivity == now - s.lastActivity
    {
      LifecycleStatus(transport != null && heartbeatHandle, lastClientActivity, now - lastClientActivity)
    }
  }
}
