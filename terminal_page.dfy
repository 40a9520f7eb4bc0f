/** The terminal page's state (packages/web/src/views/terminal.rs): the session
    list, the active session id and the per-session output lists, and the four
    handlers that update them. The server calls `create_session` and
    `close_session` are made elsewhere; their outcomes are parameters here.
    Fetching the directories and the rendering are left out. */
module TerminalPage {
  import opened Wrappers
  import opened Contracts

  /** `sessions.retain(|s| s.id != id)`: the entries with another id, in their
      order. */
  function Retain(sessions: seq<SessionInfoDto>, id: string): seq<SessionInfoDto>
  {
    if |sessions| == 0 then []
    else (if sessions[0].id != id then [sessions[0]] else []) + Retain(sessions[1..], id)
  }

  /** Nothing with the closed id is left. */
  lemma {:induction false} RetainRemovesId(sessions: seq<SessionInfoDto>, id: string)
    ensures forall i :: 0 <= i < |Retain(sessions, id)| ==> Retain(sessions, id)[i].id != id
  {
    if |sessions| > 0 {
      RetainRemovesId(sessions[1..], id);
      var head := if sessions[0].id != id then [sessions[0]] else [];
      var r := Retain(sessions, id);
      forall i | 0 <= i < |r| ensures r[i].id != id {
        if i >= |head| {
          assert r[i] == Retain(sessions[1..], id)[i - |head|];
        }
      }
    }
  }

  /** Every entry with another id is kept. */
  lemma {:induction false} RetainKeepsOthers(sessions: seq<SessionInfoDto>, id: string, s: SessionInfoDto)
    requires s in sessions && s.id != id
    ensures s in Retain(sessions, id)
  {
    if sessions[0] != s {
      assert s in sessions[1..];
      RetainKeepsOthers(sessions[1..], id, s);
    }
  }

  /** Retaining works element by element, so order is kept: it distributes over
      concatenation. */
  lemma {:induction false} RetainAppend(a: seq<SessionInfoDto>, b: seq<SessionInfoDto>, id: string)
    ensures Retain(a + b, id) == Retain(a, id) + Retain(b, id)
  {
    if |a| == 0 {
      assert a + b == b;
    } else {
      assert (a + b)[0] == a[0];
      assert (a + b)[1..] == a[1..] + b;
      RetainAppend(a[1..], b, id);
    }
  }

  /** A list without the id is left as it is. */
  lemma {:induction false} RetainAbsent(sessions: seq<SessionInfoDto>, id: string)
    requires forall i :: 0 <= i < |sessions| ==> sessions[i].id != id
    ensures Retain(sessions, id) == sessions
  {
    if |sessions| > 0 {
      assert forall i :: 0 <= i < |sessions| - 1 ==> sessions[1..][i] == sessions[i + 1];
      RetainAbsent(sessions[1..], id);
    }
  }

  /** `terminal_outputs.get(id).cloned().unwrap_or_default()`. */
  function OutputOf(outputs: map<string, seq<string>>, id: string): (lines: seq<string>)
    ensures id !in outputs ==> lines == []
    ensures id in outputs ==> lines == outputs[id]
  {
    if id in outputs then outputs[id] else []
  }

  class TerminalPage {
    var sessions: seq<SessionInfoDto>
    var activeSessionId: Option<string>
    var terminalOutputs: map<string, seq<string>>

    constructor ()
      ensures sessions == [] && activeSessionId == None && terminalOutputs == map[]
    {
      sessions := [];
      activeSessionId := None;
      terminalOutputs := map[];
    }

    /** What the right panel shows: the active session's output list (empty
        when none is recorded), or the "No session selected" panel (None). */
    function Shown(): (shown: Option<seq<string>>)
      reads this
      ensures activeSessionId.None? <==> shown.None?
      ensures activeSessionId.Some? ==> shown.value == OutputOf(terminalOutputs, activeSessionId.value)
    {
      if activeSessionId.Some? then Some(OutputOf(terminalOutputs, activeSessionId.value)) else None
    }

    /** `handle_create_session`: on success the new session is appended and
        becomes the active one; on failure nothing changes. */
    method HandleCreateSession(result: Result<SessionInfoDto, string>)
      modifies this
      ensures terminalOutputs == old(terminalOutputs)
      ensures result.Ok? ==> sessions == old(sessions) + [result.value] && activeSessionId == Some(result.value.id)
      ensures result.Err? ==> sessions == old(sessions) && activeSessionId == old(activeSessionId)
    {
      if result.Ok? {
        var sessionInfo := result.value;
        var sessionId := sessionInfo.id;
        sessions := sessions + [sessionInfo];
        activeSessionId := Some(sessionId);
      }
    }

    /** `handle_select_session`: the given id becomes active, whether or not it
        is listed. */
    method HandleSelectSession(id: string)
      modifies this`activeSessionId
      ensures activeSessionId == Some(id)
    {
      activeSessionId := Some(id);
    }

    /** `handle_close_session`: on success every entry with the id leaves the
        list and the active id is cleared exactly when it was that id; on
        failure nothing changes. Output lists are kept either way. */
    method HandleCloseSession(id: string, result: Result<(), string>)
      modifies this
      ensures terminalOutputs == old(terminalOutputs)
      ensures result.Ok? ==> sessions == Retain(old(sessions), id)
      ensures result.Ok? ==> activeSessionId == if old(activeSessionId) == Some(id) then None else old(activeSessionId)
      ensures result.Err? ==> sessions == old(sessions) && activeSessionId == old(activeSessionId)
    {
      if result.Ok? {
        sessions := Retain(sessions, id);
        if activeSessionId == Some(id) {
          activeSessionId := None;
        }
      }
    }

    /** `handle_send_input`: with an active session the input is appended to
        its output list (created if missing), so the shown list gains it at the
        end; other lists are untouched. With none, nothing changes. */
    method HandleSendInput(input: string)
      modifies this`terminalOutputs
      ensures activeSessionId.None? ==> terminalOutputs == old(terminalOutputs)
      ensures activeSessionId.Some? ==>
                terminalOutputs == old(terminalOutputs)[activeSessionId.value := OutputOf(old(terminalOutputs), activeSessionId.value) + [input]]
      ensures activeSessionId.Some? ==> Shown() == Some(old(Shown()).value + [input])
      ensures forall k :: activeSessionId != Some(k) ==> OutputOf(terminalOutputs, k) == OutputOf(old(terminalOutputs), k)
    {
      if activeSessionId.Some? {
        var sessionId := activeSessionId.value;
        terminalOutputs := terminalOutputs[sessionId := OutputOf(terminalOutputs, sessionId) + [input]];
      }
    }
  }
}
