/** The streaming plane (packages/api/src/websocket.rs): the reply to each client
    event, and the receive loop of one connection.

    The socket is replaced by a finite script of what the connection delivers:
    each received event comes with the outcome of the one send its handler
    makes. The loop's result is the sequence of events the server tries to
    send, in order, including sends that fail. The upgrade handshake and
    serialisation are left out. The handlers only consult the mirror through
    `session_exists`; they are functions that read it, so they cannot change
    it. */
module Websocket {
  import opened Wrappers
  import opened RustString
  import opened MetadataStore
  import opened Message

  const RestOnlyMessage: string := "Session management must use REST API, not WebSocket"
  const NotInitializedMessage: string := "Server state not initialized"
  const HistoryMock: string := "Session started...\n"

  /** `format!("Session {} not found", session_id)`. */
  function NotFoundMessage(sessionId: string): (msg: string)
    ensures |msg| == |sessionId| + 18
    ensures msg[..8] == "Session " && msg[8..|msg| - 10] == sessionId && msg[|msg| - 10..] == " not found"
  {
    "Session " + sessionId + " not found"
  }

  /** The mock echo of `handle_send_input`: `format!("> {}\n", input.trim())`. */
  function Echo(input: string): (data: string)
    ensures |data| >= 3 && data[..2] == "> " && data[|data| - 1] == '\n' && data[2..|data| - 1] == Trim(input)
  {
    "> " + Trim(input) + "\n"
  }

  /** `handle_send_input`: a not-found error for an id the mirror does not
      hold (the handler still returns Ok), otherwise the mock echo. */
  function SendInputReply(sessionId: string, input: string, store: SessionMetadataStore): (reply: ServerEvent)
    reads store
    ensures !store.SessionExists(sessionId) ==> reply == Error(NotFoundMessage(sessionId))
    ensures store.SessionExists(sessionId) ==> reply == TerminalOutput(sessionId, Echo(input))
  {
    if !store.SessionExists(sessionId) then Error(NotFoundMessage(sessionId))
    else TerminalOutput(sessionId, Echo(input))
  }

  /** `handle_request_history`: the same existence check, otherwise the mock
      history line. */
  function RequestHistoryReply(sessionId: string, store: SessionMetadataStore): (reply: ServerEvent)
    reads store
    ensures !store.SessionExists(sessionId) ==> reply == Error(NotFoundMessage(sessionId))
    ensures store.SessionExists(sessionId) ==> reply == TerminalOutput(sessionId, HistoryMock)
  {
    if !store.SessionExists(sessionId) then Error(NotFoundMessage(sessionId))
    else TerminalOutput(sessionId, HistoryMock)
  }

  /** `handle_client_event`: exactly one reply per event. Session management is
      refused whatever the mirror holds. */
  function HandleClientEvent(event: ClientEvent, store: SessionMetadataStore): (reply: ServerEvent)
    reads store
    ensures (event.CreateSession? || event.CloseSession?) ==> reply == Error(RestOnlyMessage)
    ensures event.SendInput? ==> reply == SendInputReply(event.sessionId, event.input, store)
    ensures event.RequestHistory? ==> reply == RequestHistoryReply(event.sessionId, store)
    ensures reply.TerminalOutput? || reply.Error?
    ensures reply.TerminalOutput? ==> event.SendInput? || event.RequestHistory?
    ensures reply.TerminalOutput? ==> reply.sessionId == event.sessionId && store.SessionExists(event.sessionId)
  {
    match event
    case SendInput(id, input) => SendInputReply(id, input, store)
    case RequestHistory(id) => RequestHistoryReply(id, store)
    case CreateSession(_, _) => Error(RestOnlyMessage)
    case CloseSession(_) => Error(RestOnlyMessage)
  }

  /** The reply to an event depends on the mirror only through whether the
      event's session id is present. */
  lemma ReplyDependsOnlyOnExistence(event: ClientEvent, s1: SessionMetadataStore, s2: SessionMetadataStore)
    requires (event.SendInput? || event.RequestHistory?) ==>
               (s1.SessionExists(event.sessionId) <==> s2.SessionExists(event.sessionId))
    ensures HandleClientEvent(event, s1) == HandleClientEvent(event, s2)
  {
  }

  /** What one `socket.recv()` yields: an event together with the outcome of
      the send its handler makes (None: delivered; Some(m): the send failed
      with error text `m`), or a receive failure, which ends the loop. */
  datatype Received = Event(event: ClientEvent, sendError: Option<string>) | RecvFailed

  /** What the loop sends for one received event: the handler's reply and, if
      sending it failed, an `Error` carrying the failure's text (whose own send
      result is ignored). */
  function Replies(event: ClientEvent, sendError: Option<string>, store: SessionMetadataStore): (out: seq<ServerEvent>)
    reads store
    ensures |out| == if sendError.Some? then 2 else 1
    ensures out[0] == HandleClientEvent(event, store)
    ensures sendError.Some? ==> out[1] == Error(sendError.value)
  {
    [HandleClientEvent(event, store)] + (if sendError.Some? then [Error(sendError.value)] else [])
  }

  /** The `while let Ok(event) = socket.recv()` loop, event by event, up to
      the first receive failure (or the end of the script). */
  function Transcript(incoming: seq<Received>, store: SessionMetadataStore): seq<ServerEvent>
    reads store
    decreases |incoming|
  {
    if |incoming| == 0 || incoming[0].RecvFailed? then []
    else Replies(incoming[0].event, incoming[0].sendError, store) + Transcript(incoming[1..], store)
  }

  /** The whole connection: with no global state only the initialisation error
      is sent and the connection ends. */
  function Connection(incoming: seq<Received>, state: Option<SessionMetadataStore>): seq<ServerEvent>
    reads if state.Some? then {state.value} else {}
  {
    if state.None? then [Error(NotInitializedMessage)] else Transcript(incoming, state.value)
  }

  /** `terminal_websocket` after the upgrade: the events the server tries to
      send, in order. It changes nothing (no modifies clause). */
  method TerminalWebsocket(incoming: seq<Received>, state: Option<SessionMetadataStore>) returns (sent: seq<ServerEvent>)
    ensures sent == Connection(incoming, state)
  {
    if state.None? {
      return [Error(NotInitializedMessage)];
    }
    var store := state.value;
    sent := [];
    var i := 0;
    while i < |incoming| && incoming[i].Event?
      invariant 0 <= i <= |incoming|
      invariant sent + Transcript(incoming[i..], store) == Transcript(incoming, store)
      decreases |incoming| - i
    {
      var reply := HandleClientEvent(incoming[i].event, store);
      sent := sent + [reply];
      var sendError := incoming[i].sendError;
      if sendError.Some? {
        sent := sent + [Error(sendError.value)];
      }
      assert incoming[i..][1..] == incoming[i + 1..];
      i := i + 1;
    }
  }

  /** Events are taken in order: the transcript of a failure-free prefix
      followed by more input is the prefix's transcript followed by the rest's. */
  lemma {:induction false} TranscriptAppend(a: seq<Received>, b: seq<Received>, store: SessionMetadataStore)
    requires forall i :: 0 <= i < |a| ==> a[i].Event?
    ensures Transcript(a + b, store) == Transcript(a, store) + Transcript(b, store)
    decreases |a|
  {
    if |a| == 0 {
      assert a + b == b;
    } else {
      assert (a + b)[0] == a[0];
      assert (a + b)[1..] == a[1..] + b;
      TranscriptAppend(a[1..], b, store);
    }
  }

  /** The loop ends at the first receive failure: nothing after it is
      answered. */
  lemma TranscriptStopsAtFailure(a: seq<Received>, b: seq<Received>, store: SessionMetadataStore)
    requires forall i :: 0 <= i < |a| ==> a[i].Event?
    ensures Transcript(a + [RecvFailed] + b, store) == Transcript(a, store)
  {
    TranscriptAppend(a, [RecvFailed] + b, store);
    assert a + [RecvFailed] + b == a + ([RecvFailed] + b);
  }

  /** When every send succeeds, each received event gets exactly one reply,
      in order, and it is the handler's reply. */
  lemma {:induction false} OneReplyPerEvent(a: seq<Received>, store: SessionMetadataStore)
    requires forall i :: 0 <= i < |a| ==> a[i].Event? && a[i].sendError.None?
    ensures |Transcript(a, store)| == |a|
    ensures forall i :: 0 <= i < |a| ==> Transcript(a, store)[i] == HandleClientEvent(a[i].event, store)
    decreases |a|
  {
    if |a| > 0 {
      OneReplyPerEvent(a[1..], store);
      var t := Transcript(a, store);
      forall i | 0 <= i < |a| ensures t[i] == HandleClientEvent(a[i].event, store) {
        if i > 0 {
          assert t[i] == Transcript(a[1..], store)[i - 1];
          assert a[1..][i - 1] == a[i];
        }
      }
    }
  }

  /** The streaming plane never announces created, closed or listed sessions:
      everything it sends is terminal output or an error. */
  lemma {:induction false} OnlyOutputOrError(a: seq<Received>, store: SessionMetadataStore)
    ensures forall i :: 0 <= i < |Transcript(a, store)| ==>
              Transcript(a, store)[i].TerminalOutput? || Transcript(a, store)[i].Error?
    decreases |a|
  {
    if |a| > 0 && a[0].Event? {
      OnlyOutputOrError(a[1..], store);
      var r := Replies(a[0].event, a[0].sendError, store);
      var t := Transcript(a, store);
      forall i | 0 <= i < |t| ensures t[i].TerminalOutput? || t[i].Error? {
        if i >= |r| {
          assert t[i] == Transcript(a[1..], store)[i - |r|];
        }
      }
    }
  }
}
