/** The session registry `SessionManager` (packages/api/src/session_handler.rs):
    a map from session id to `Session`, guarded by the configuration's policy
    and capacity, and an optional metadata mirror that it keeps in step.

    The `RwLock` and the await points are left out: every operation runs to
    completion before the next begins. The fresh UUID, the clock reading and the
    outcome of spawning the CLI process in a PTY are parameters of
    `CreateSession`. */
module SessionHandler {
  import opened Wrappers
  import opened SessionModel
  import opened Environment
  import opened MetadataStore

  /** Why `ProcessManager::spawn_claude` can fail. */
  datatype SpawnFailure = PtyOpenFailed | ProcessStartFailed

  /** The outcome of `spawn_claude(directory, claude_path)`. */
  datatype SpawnOutcome = Spawned(pty: PtyHandle) | SpawnFailed(failure: SpawnFailure)

  /** The `anyhow` errors the registry's operations return. */
  datatype ManagerError =
    | Invalid(reason: ValidationError)
    | DirectoryNotAllowed(directory: string)
    | SessionLimitReached
    | SpawnError(failure: SpawnFailure)
    | SessionNotFound
    | NoPty

  /** The text each error displays: the `bail!` message, or the outermost
      `context` for a spawn failure, which is the one `anyhow` shows. */
  function ErrorMessage(e: ManagerError): string
  {
    match e
    case Invalid(v) => ValidationMessage(v)
    case DirectoryNotAllowed(d) => "Directory not allowed: " + d
    case SessionLimitReached => "Maximum session limit reached"
    case SpawnError(PtyOpenFailed) => "Failed to create PTY"
    case SpawnError(ProcessStartFailed) => "Failed to spawn Claude process"
    case SessionNotFound => "Session not found"
    case NoPty => "No PTY"
  }

  /** Every error has its own text, and the rejected directory can be read
      back from it: a caller holding only the message knows which error it was. */
  lemma ErrorMessageInjective(a: ManagerError, b: ManagerError)
    ensures ErrorMessage(a) == ErrorMessage(b) <==> a == b
  {
    if a.Invalid? && b.Invalid? {
      ValidationMessageInjective(a.reason, b.reason);
    } else if a.Invalid? {
      ErrorMessageOutsideValidation(b, a.reason);
    } else if b.Invalid? {
      ErrorMessageOutsideValidation(a, b.reason);
    } else if a.DirectoryNotAllowed? && b.DirectoryNotAllowed? {
      if ErrorMessage(a) == ErrorMessage(b) {
        PrefixCancel("Directory not allowed: ", a.directory, b.directory);
      }
    } else {
      var ma, mb := ErrorMessage(a), ErrorMessage(b);
      assert a == b || |ma| != |mb| || CharAt(ma, 0) != CharAt(mb, 0);
    }
  }

  /** No error of the registry's own shares its text with a validation error. */
  lemma ErrorMessageOutsideValidation(e: ManagerError, v: ValidationError)
    requires !e.Invalid?
    ensures ErrorMessage(e) != ValidationMessage(v)
  {
    var m, w := ErrorMessage(e), ValidationMessage(v);
    if v.DirectoryMissing? || v.NotADirectory? || v.DirectoryEmpty? {
      assert CharAt(m, 0) != CharAt(w, 0) || CharAt(m, 10) != CharAt(w, 10);
    } else {
      assert |m| != |w| || CharAt(m, 0) != CharAt(w, 0);
    }
  }

  /** The state of a freshly created session: running, nothing buffered yet. */
  function RunningState(id: string, sessionConfig: SessionConfig, now: Timestamp, pty: PtyHandle): SessionState
  {
    SessionState(id, sessionConfig.name, sessionConfig.directory, now, Some(pty), [])
  }

  /** The middle of `create_session`: build the session (`Session::new`), then
      attach the PTY of the spawned process, or fail with the spawn error. */
  method SpawnSession(id: string, sessionConfig: SessionConfig, now: Timestamp, spawn: SpawnOutcome)
    returns (r: Result<Session, ManagerError>)
    ensures spawn.SpawnFailed? ==> r == Err(SpawnError(spawn.failure))
    ensures spawn.Spawned? ==> r.Ok? && fresh(r.value) && r.value.id == id
    ensures spawn.Spawned? ==> r.Ok? && r.value.State() == RunningState(id, sessionConfig, now, spawn.pty)
  {
    var session := new Session(id, sessionConfig.name, sessionConfig.directory, now);
    if spawn.SpawnFailed? {
      return Err(SpawnError(spawn.failure));
    }
    session.pty := Some(spawn.pty);
    return Ok(session);
  }

  /** The state of each session of a registry map. */
  ghost function StatesOf(m: map<string, Session>): map<string, SessionState>
    reads m.Values
  {
    map k | k in m :: m[k].State()
  }

  /** The metadata of each session of a registry map. */
  function MetadataOf(m: map<string, Session>): map<string, SessionMetadata>
  {
    map k | k in m :: m[k].Metadata()
  }

  lemma ProjectionsOfInsert(m: map<string, Session>, id: string, session: Session)
    ensures StatesOf(m[id := session]) == StatesOf(m)[id := session.State()]
    ensures MetadataOf(m[id := session]) == MetadataOf(m)[id := session.Metadata()]
  {
  }

  lemma ProjectionsOfRemove(m: map<string, Session>, id: string)
    ensures StatesOf(m - {id}) == StatesOf(m) - {id}
    ensures MetadataOf(m - {id}) == MetadataOf(m) - {id}
  {
  }

  /** The keys of a map in the unspecified order a `HashMap` iterates them:
      each exactly once. */
  method InSomeOrder(keys: set<string>) returns (r: seq<string>)
    ensures |r| == |keys|
    ensures forall k :: k in keys <==> k in r
    ensures forall i, j :: 0 <= i < j < |r| ==> r[i] != r[j]
  {
    var pending := keys;
    r := [];
    while pending != {}
      invariant pending <= keys
      invariant |r| + |pending| == |keys|
      invariant forall k :: k in r <==> k in keys && k !in pending
      invariant forall i, j :: 0 <= i < j < |r| ==> r[i] != r[j]
      decreases |pending|
    {
      var k :| k in pending;
      r := r + [k];
      pending := pending - {k};
    }
  }

  /** Listing the sessions of an id-keyed registry under an enumeration of its
      keys yields one info per session, each under its own id. */
  lemma ListingCoversRegistry(m: map<string, Session>, keys: seq<string>, infos: seq<SessionInfo>, render: Rfc3339)
    requires forall k :: k in m ==> m[k].id == k
    requires |keys| == |m.Keys| && forall k :: k in m.Keys <==> k in keys
    requires forall i, j :: 0 <= i < j < |keys| ==> keys[i] != keys[j]
    requires |infos| == |keys| && forall j :: 0 <= j < |keys| ==> infos[j] == m[keys[j]].ToInfo(render)
    ensures |infos| == |m|
    ensures forall i :: 0 <= i < |infos| ==> infos[i].id in m && infos[i] == m[infos[i].id].ToInfo(render)
    ensures forall k :: k in m ==> exists i :: 0 <= i < |infos| && infos[i].id == k
    ensures forall i, j :: 0 <= i < j < |infos| ==> infos[i].id != infos[j].id
  {
    assert |m.Keys| == |m|;
    assert forall i :: 0 <= i < |infos| ==> infos[i].id == keys[i];
    forall k | k in m ensures exists i :: 0 <= i < |infos| && infos[i].id == k {
      var i :| 0 <= i < |keys| && keys[i] == k;
      assert infos[i].id == k;
    }
  }

  /** Access to a session's PTY streams for one operation. */
  datatype PtyStream = PtyReader(handle: PtyHandle) | PtyWriter(handle: PtyHandle)

  class SessionManager {
    const config: Config
    var sessions: map<string, Session>
    var metadataStore: Option<SessionMetadataStore>

    /** Every session is filed under its own id. Since ids are `const`, this
        also makes distinct keys hold distinct session objects. */
    ghost predicate Valid()
      reads this
    {
      forall k :: k in sessions ==> sessions[k].id == k
    }

    /** The objects behind the optional mirror. */
    function Mirror(): set<object>
      reads this
    {
      if metadataStore.Some? then {metadataStore.value} else {}
    }

    /** The registry as a value: each id with the state of its session. */
    ghost function Sessions(): map<string, SessionState>
      reads this, sessions.Values
    {
      StatesOf(sessions)
    }

    /** The metadata each registered session projects to. */
    function MetadataView(): map<string, SessionMetadata>
      reads this
    {
      MetadataOf(sessions)
    }

    /** With a mirror set, it holds exactly the metadata of the registered
        sessions. */
    ghost predicate MirrorInSync()
      reads this, Mirror()
    {
      metadataStore.Some? ==> metadataStore.value.metadata == MetadataView()
    }

    /** `SessionManager::new`: no sessions and no mirror. */
    constructor (config: Config)
      ensures Valid() && MirrorInSync()
      ensures this.config == config && sessions == map[] && metadataStore == None
    {
      this.config := config;
      sessions := map[];
      metadataStore := None;
    }

    /** `set_metadata_store`. */
    method SetMetadataStore(store: SessionMetadataStore)
      modifies this`metadataStore
      ensures metadataStore == Some(store)
    {
      metadataStore := Some(store);
    }

    /** The checks `create_session` makes before it spawns, in order:
        `validate`, the allow-list policy, then the capacity against `count`
        sessions. None when all three pass. */
    function AdmissionError(sessionConfig: SessionConfig, stat: string -> PathKind, count: nat): (e: Option<ManagerError>)
      ensures Validate(sessionConfig, stat).Err? ==> e == Some(Invalid(Validate(sessionConfig, stat).error))
      ensures Validate(sessionConfig, stat).Ok? && !IsDirectoryAllowed(config, sessionConfig.directory) ==>
                e == Some(DirectoryNotAllowed(sessionConfig.directory))
      ensures Validate(sessionConfig, stat).Ok? && IsDirectoryAllowed(config, sessionConfig.directory) ==>
                e == (if count >= config.maxSessions then Some(SessionLimitReached) else None)
    {
      var validation := Validate(sessionConfig, stat);
      if validation.Err? then Some(Invalid(validation.error))
      else if !IsDirectoryAllowed(config, sessionConfig.directory) then Some(DirectoryNotAllowed(sessionConfig.directory))
      else if count >= config.maxSessions then Some(SessionLimitReached)
      else None
    }

    /** `create_session`: validate, check the policy, check the capacity, spawn,
        then insert and publish to the mirror. Any failure leaves registry and
        mirror as they were. */
    method CreateSession(sessionConfig: SessionConfig, stat: string -> PathKind, newId: string,
                         now: Timestamp, spawn: SpawnOutcome)
      returns (r: Result<string, ManagerError>)
      requires Valid()
      modifies this, Mirror()
      ensures Valid() && metadataStore == old(metadataStore)
      // the first failing step decides the error
      ensures AdmissionError(sessionConfig, stat, old(|sessions|)).Some? ==>
                r == Err(AdmissionError(sessionConfig, stat, old(|sessions|)).value)
      ensures AdmissionError(sessionConfig, stat, old(|sessions|)).None? ==>
                r == (if spawn.SpawnFailed? then Err(SpawnError(spawn.failure)) else Ok(newId))
      // on failure nothing changes
      ensures r.Err? ==> sessions == old(sessions) && unchanged(Mirror())
      // on success exactly the new entry is added (running, empty buffer) and mirrored
      ensures r.Ok? ==> newId in sessions && fresh(sessions[newId]) && sessions.Keys == old(sessions.Keys) + {newId}
      ensures r.Ok? ==> Sessions() == old(Sessions())[newId := RunningState(newId, sessionConfig, now, spawn.pty)]
      ensures r.Ok? && metadataStore.Some? ==>
                metadataStore.value.metadata == old(metadataStore.value.metadata)[newId := SessionMetadata(newId, sessionConfig.name, sessionConfig.directory, now)]
      // the invariants the registry keeps
      ensures old(|sessions|) <= config.maxSessions ==> |sessions| <= config.maxSessions
      ensures old(MirrorInSync()) ==> MirrorInSync()
    {
      var rejection := AdmissionError(sessionConfig, stat, |sessions|);
      if rejection.Some? {
        return Err(rejection.value);
      }
      r := Launch(sessionConfig, newId, now, spawn);
    }

    /** What `create_session` does once admitted: spawn, then insert and
        publish to the mirror. */
    method Launch(sessionConfig: SessionConfig, newId: string, now: Timestamp, spawn: SpawnOutcome)
      returns (r: Result<string, ManagerError>)
      requires Valid()
      modifies this, Mirror()
      ensures Valid() && metadataStore == old(metadataStore)
      ensures r == (if spawn.SpawnFailed? then Err(SpawnError(spawn.failure)) else Ok(newId))
      ensures r.Err? ==> sessions == old(sessions) && unchanged(Mirror())
      ensures r.Ok? ==> newId in sessions && fresh(sessions[newId]) && sessions.Keys == old(sessions.Keys) + {newId}
      ensures r.Ok? ==> Sessions() == old(Sessions())[newId := RunningState(newId, sessionConfig, now, spawn.pty)]
      ensures r.Ok? && metadataStore.Some? ==>
                metadataStore.value.metadata == old(metadataStore.value.metadata)[newId := SessionMetadata(newId, sessionConfig.name, sessionConfig.directory, now)]
      ensures |sessions| <= old(|sessions|) + 1
      ensures old(MirrorInSync()) ==> MirrorInSync()
    {
      var spawned := SpawnSession(newId, sessionConfig, now, spawn);
      if spawned.Err? {
        return Err(spawned.error);
      }
      var session := spawned.value;
      Insert(session);
      return Ok(newId);
    }

    /** The last step of `create_session`: file the session under its id and
        publish its metadata to the mirror. */
    method Insert(session: Session)
      requires Valid()
      modifies this, Mirror()
      ensures Valid() && metadataStore == old(metadataStore)
      ensures sessions == old(sessions)[session.id := session]
      ensures Sessions() == old(Sessions())[session.id := session.State()]
      ensures metadataStore.Some? ==>
                metadataStore.value.metadata == old(metadataStore.value.metadata)[session.id := session.Metadata()]
      ensures |sessions| <= old(|sessions|) + 1
      ensures old(MirrorInSync()) ==> MirrorInSync()
    {
      var metadata := session.Metadata();
      FileSession(session);
      if metadataStore.Some? {
        metadataStore.value.UpdateMetadata(session.id, metadata);
      }
    }

    /** `sessions.insert(id, session)`. */
    method FileSession(session: Session)
      requires Valid()
      modifies this`sessions
      ensures Valid()
      ensures sessions == old(sessions)[session.id := session]
      ensures Sessions() == old(Sessions())[session.id := session.State()]
      ensures MetadataView() == old(MetadataView())[session.id := session.Metadata()]
    {
      ProjectionsOfInsert(sessions, session.id, session);
      sessions := sessions[session.id := session];
    }

    /** `list_sessions`: one `SessionInfo` per registered session; the ids are
        exactly the registry's keys, each once. `HashMap` iteration order is
        unspecified, and so is the order here. */
    method ListSessions(render: Rfc3339) returns (infos: seq<SessionInfo>)
      requires Valid()
      ensures |infos| == |sessions|
      ensures forall i :: 0 <= i < |infos| ==> infos[i].id in sessions && infos[i] == sessions[infos[i].id].ToInfo(render)
      ensures forall k :: k in sessions ==> exists i :: 0 <= i < |infos| && infos[i].id == k
      ensures forall i, j :: 0 <= i < j < |infos| ==> infos[i].id != infos[j].id
    {
      var keys := InSomeOrder(sessions.Keys);
      infos := [];
      for i := 0 to |keys|
        invariant |infos| == i
        invariant forall j :: 0 <= j < i ==> infos[j] == sessions[keys[j]].ToInfo(render)
      {
        infos := infos + [sessions[keys[i]].ToInfo(render)];
      }
      ListingCoversRegistry(sessions, keys, infos, render);
    }

    /** `close_session`: an unknown id fails with "Session not found" and
        changes nothing; a known one leaves both the registry and the mirror,
        so a second close fails. */
    method CloseSession(id: string) returns (r: Result<(), ManagerError>)
      requires Valid()
      modifies this, Mirror()
      ensures Valid() && metadataStore == old(metadataStore)
      ensures r.Ok? <==> old(id in sessions)
      ensures r.Err? ==> r.error == SessionNotFound && sessions == old(sessions) && unchanged(Mirror())
      ensures r.Ok? ==> sessions == old(sessions) - {id} && Sessions() == old(Sessions()) - {id}
      ensures r.Ok? && metadataStore.Some? ==> metadataStore.value.metadata == old(metadataStore.value.metadata) - {id}
      ensures id !in sessions
      ensures old(MirrorInSync()) ==> MirrorInSync()
    {
      if id !in sessions {
        return Err(SessionNotFound);
      }
      UnfileSession(id);
      if metadataStore.Some? {
        metadataStore.value.RemoveMetadata(id);
      }
      return Ok(());
    }

    /** `sessions.remove(id)`. */
    method UnfileSession(id: string)
      requires Valid()
      modifies this`sessions
      ensures Valid()
      ensures sessions == old(sessions) - {id}
      ensures Sessions() == old(Sessions()) - {id}
      ensures MetadataView() == old(MetadataView()) - {id}
    {
      ProjectionsOfRemove(sessions, id);
      sessions := sessions - {id};
    }

    /** `session_exists`. */
    predicate SessionExists(id: string)
      reads this
    {
      id in sessions
    }

    /** `get_session_metadata`. */
    function GetSessionMetadata(id: string): Option<SessionMetadata>
      reads this
    {
      if id in sessions then Some(sessions[id].Metadata()) else None
    }

    /** `add_session_output`: an unknown id fails; otherwise the chunk is
        appended to that session's buffer and to no other. */
    method AddSessionOutput(id: string, output: string) returns (r: Result<(), ManagerError>)
      requires Valid()
      modifies sessions.Values
      ensures Valid() && sessions == old(sessions)
      ensures r.Ok? <==> id in sessions
      ensures r.Err? ==> r.error == SessionNotFound && Sessions() == old(Sessions())
      ensures r.Ok? ==> Sessions() == old(Sessions())[id := old(Sessions())[id].WithOutput(output)]
    {
      if id !in sessions {
        return Err(SessionNotFound);
      }
      ghost var before := Sessions();
      var session := sessions[id];
      session.AddOutput(output);
      assert forall k :: k in sessions && k != id ==> sessions[k] != session;
      assert Sessions() == before[id := before[id].WithOutput(output)];
      return Ok(());
    }

    /** `get_session_output`: a copy of the session's whole buffer, or "Session
        not found". */
    method GetSessionOutput(id: string) returns (r: Result<seq<string>, ManagerError>)
      ensures id !in sessions ==> r == Err(SessionNotFound)
      ensures id in sessions ==> r == Ok(sessions[id].outputBuffer)
    {
      if id !in sessions {
        return Err(SessionNotFound);
      }
      var buffer := sessions[id].GetAllOutput();
      return Ok(buffer);
    }

    /** The two lookups that precede `try_clone_reader` and `take_writer`. */
    function LookupPty(id: string): (r: Result<PtyHandle, ManagerError>)
      reads this, sessions.Values
      ensures id !in sessions ==> r == Err(SessionNotFound)
      ensures id in sessions && sessions[id].pty.None? ==> r == Err(NoPty)
      ensures id in sessions && sessions[id].pty.Some? ==> r == Ok(sessions[id].pty.value)
    {
      if id !in sessions then Err(SessionNotFound)
      else if sessions[id].pty.None? then Err(NoPty)
      else Ok(sessions[id].pty.value)
    }

    /** `get_pty_reader`: fails when the id is unknown or the session has no
        PTY; otherwise a reader over the session's PTY. */
    method GetPtyReader(id: string) returns (r: Result<PtyStream, ManagerError>)
      ensures id !in sessions ==> r == Err(SessionNotFound)
      ensures id in sessions && sessions[id].pty.None? ==> r == Err(NoPty)
      ensures id in sessions && sessions[id].pty.Some? ==> r == Ok(PtyReader(sessions[id].pty.value))
    {
      var lookup := LookupPty(id);
      if lookup.Err? {
        return Err(lookup.error);
      }
      return Ok(PtyReader(lookup.value));
    }

    /** `get_pty_writer`: the same failures; otherwise a writer to the PTY. */
    method GetPtyWriter(id: string) returns (r: Result<PtyStream, ManagerError>)
      ensures id !in sessions ==> r == Err(SessionNotFound)
      ensures id in sessions && sessions[id].pty.None? ==> r == Err(NoPty)
      ensures id in sessions && sessions[id].pty.Some? ==> r == Ok(PtyWriter(sessions[id].pty.value))
    {
      var lookup := LookupPty(id);
      if lookup.Err? {
        return Err(lookup.error);
      }
      return Ok(PtyWriter(lookup.value));
    }
  }

  /** With the mirror in step, the streaming plane's existence check agrees with
      the registry's, and the mirror's metadata is the registry's projection. */
  lemma MirrorAgreesWithRegistry(m: SessionManager, id: string)
    requires m.MirrorInSync() && m.metadataStore.Some?
    ensures m.metadataStore.value.SessionExists(id) <==> m.SessionExists(id)
    ensures m.metadataStore.value.metadata.Keys == m.sessions.Keys
    ensures m.SessionExists(id) ==> m.GetSessionMetadata(id) == Some(m.metadataStore.value.metadata[id])
  {
    assert m.MetadataView().Keys == m.sessions.Keys;
  }
}
