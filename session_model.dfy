/** The server's session record (packages/api/src/models/session.rs): the full
    `Session` with its PTY handle and scrollback buffer, its two projections
    `SessionMetadata` and `SessionInfo`, and the validation of a
    `SessionConfig`. */
module SessionModel {
  import opened Wrappers
  import opened RustString

  /** A `DateTime<Utc>`. The model never computes with it; it is captured once
      (`Utc::now()`, a parameter here) and copied into the projections. */
  datatype Timestamp = Timestamp(nanos: int)

  /** Rendering of a timestamp (`DateTime::to_rfc3339`), left abstract. */
  type Rfc3339 = Timestamp -> string

  /** Stands for the `PtyPair` (PTY master plus child process) owned by a
      session; only its presence matters to the registry. */
  datatype PtyHandle = PtyHandle(token: nat)

  /** The projection shared with the streaming plane: no handle, no buffer. */
  datatype SessionMetadata = SessionMetadata(id: string, name: string, directory: string, createdAt: Timestamp)

  /** The lightweight form sent to clients; `createdAt` is an RFC 3339 string. */
  datatype SessionInfo = SessionInfo(id: string, name: string, directory: string, createdAt: string)

  /** The value of a session at one moment, used to state what operations do. */
  datatype SessionState = SessionState(
    id: string, name: string, directory: string, createdAt: Timestamp,
    pty: Option<PtyHandle>, outputBuffer: seq<string>)
  {
    /** The state after `add_output(output)`. */
    function WithOutput(output: string): SessionState
    {
      this.(outputBuffer := outputBuffer + [output])
    }
  }

  /** The state after `add_output` has been called with each chunk in turn. */
  function WithOutputs(s: SessionState, chunks: seq<string>): SessionState
    decreases |chunks|
  {
    if |chunks| == 0 then s else WithOutputs(s.WithOutput(chunks[0]), chunks[1..])
  }

  /** Appends followed by a read give back the appended chunks, in order, after
      what was there; nothing but the buffer changes. */
  lemma {:induction false} WithOutputsAppends(s: SessionState, chunks: seq<string>)
    ensures WithOutputs(s, chunks) == s.(outputBuffer := s.outputBuffer + chunks)
    decreases |chunks|
  {
    if |chunks| == 0 {
      assert s.outputBuffer + chunks == s.outputBuffer;
    } else {
      WithOutputsAppends(s.WithOutput(chunks[0]), chunks[1..]);
      assert s.outputBuffer + [chunks[0]] + chunks[1..] == s.outputBuffer + chunks;
    }
  }

  /** Full session state stored on the server. Identity, name, directory and
      creation time never change after construction; the PTY handle is set once
      the process is spawned, and the buffer only grows. */
  class Session {
    const id: string
    const name: string
    const directory: string
    const createdAt: Timestamp
    var pty: Option<PtyHandle>
    var outputBuffer: seq<string>

    /** `Session::new`: no PTY yet and an empty buffer. */
    constructor (id: string, name: string, directory: string, now: Timestamp)
      ensures this.id == id && this.name == name && this.directory == directory
      ensures createdAt == now
      ensures pty == None && outputBuffer == []
    {
      this.id := id;
      this.name := name;
      this.directory := directory;
      this.createdAt := now;
      this.pty := None;
      this.outputBuffer := [];
    }

    function State(): SessionState
      reads this
    {
      SessionState(id, name, directory, createdAt, pty, outputBuffer)
    }

    /** `add_output`: append one chunk at the end; nothing else changes. */
    method AddOutput(output: string)
      modifies this`outputBuffer
      ensures State() == old(State()).WithOutput(output)
      ensures |outputBuffer| == |old(outputBuffer)| + 1 && outputBuffer[..|old(outputBuffer)|] == old(outputBuffer)
    {
      outputBuffer := outputBuffer + [output];
    }

    /** `get_all_output`: a copy of the whole buffer; the session is not changed
        (the method has no modifies clause). */
    method GetAllOutput() returns (r: seq<string>)
      ensures r == outputBuffer
    {
      r := outputBuffer;
    }

    /** `SessionMetadata::from(&session)`. */
    function Metadata(): (m: SessionMetadata)
      ensures m.id == id && m.name == name && m.directory == directory && m.createdAt == createdAt
    {
      SessionMetadata(id, name, directory, createdAt)
    }

    /** `to_info`, the creation time rendered by `render`. */
    function ToInfo(render: Rfc3339): (info: SessionInfo)
      ensures info.id == id && info.name == name && info.directory == directory
      ensures info.createdAt == render(createdAt)
    {
      SessionInfo(id, name, directory, render(createdAt))
    }
  }

  // ---------------------------------------------------------------------------
  // SessionConfig::validate

  datatype SessionConfig = SessionConfig(name: string, directory: string)

  /** What the filesystem says of a path: `Path::exists` and `Path::is_dir`. */
  datatype PathKind = Missing | NotDirectory | Directory

  datatype ValidationError =
    | NameEmpty
    | NameTooLong
    | DirectoryEmpty
    | DirectoryMissing(directory: string)
    | NotADirectory(directory: string)

  /** The text of the `anyhow` error each rejection bails with. */
  function ValidationMessage(e: ValidationError): string
  {
    match e
    case NameEmpty => "Session name cannot be empty"
    case NameTooLong => "Session name too long (max 100 characters)"
    case DirectoryEmpty => "Directory cannot be empty"
    case DirectoryMissing(d) => "Directory does not exist: " + d
    case NotADirectory(d) => "Path is not a directory: " + d
  }

  /** The character at `i`, or NUL outside the text. */
  function CharAt(s: string, i: int): char
  {
    if 0 <= i < |s| then s[i] else '\0'
  }

  /** A text after a common prefix is recovered from the whole. */
  lemma PrefixCancel(p: string, x: string, y: string)
    requires p + x == p + y
    ensures x == y
  {
    assert x == (p + x)[|p|..];
    assert y == (p + y)[|p|..];
  }

  /** Each rejection has its own text, and the rejected directory can be read
      back from it: distinct errors are told apart by the message alone. */
  lemma ValidationMessageInjective(a: ValidationError, b: ValidationError)
    ensures ValidationMessage(a) == ValidationMessage(b) <==> a == b
  {
    var ma, mb := ValidationMessage(a), ValidationMessage(b);
    if a.DirectoryMissing? && b.DirectoryMissing? {
      if ma == mb {
        PrefixCancel("Directory does not exist: ", a.directory, b.directory);
      }
    } else if a.NotADirectory? && b.NotADirectory? {
      if ma == mb {
        PrefixCancel("Path is not a directory: ", a.directory, b.directory);
      }
    } else {
      assert a == b || |ma| != |mb| || CharAt(ma, 0) != CharAt(mb, 0) || CharAt(ma, 10) != CharAt(mb, 10);
    }
  }

  /** Longest accepted name, in bytes (`name.len()`). */
  const MaxNameBytes: nat := 100

  /** The two checks on the name: something besides whitespace, and at most
      100 bytes. */
  predicate NameValid(name: string)
  {
    Trim(name) != "" && ByteLen(name) <= MaxNameBytes
  }

  /** `SessionConfig::validate`: an ordered chain of rejections; `stat` answers
      the two filesystem questions about the directory. The first failing check
      decides the error. */
  function Validate(config: SessionConfig, stat: string -> PathKind): (r: Result<(), ValidationError>)
    ensures Trim(config.name) == "" ==> r == Err(NameEmpty)
    ensures Trim(config.name) != "" && ByteLen(config.name) > MaxNameBytes ==> r == Err(NameTooLong)
    ensures NameValid(config.name) && Trim(config.directory) == "" ==> r == Err(DirectoryEmpty)
    ensures NameValid(config.name) && Trim(config.directory) != "" && stat(config.directory) == Missing ==>
      r == Err(DirectoryMissing(config.directory))
    ensures NameValid(config.name) && Trim(config.directory) != "" && stat(config.directory) == NotDirectory ==>
      r == Err(NotADirectory(config.directory))
    ensures NameValid(config.name) && Trim(config.directory) != "" && stat(config.directory) == Directory ==>
      r == Ok(())
  {
    if Trim(config.name) == "" then Err(NameEmpty)
    else if ByteLen(config.name) > MaxNameBytes then Err(NameTooLong)
    else if Trim(config.directory) == "" then Err(DirectoryEmpty)
    else if stat(config.directory) == Missing then Err(DirectoryMissing(config.directory))
    else if stat(config.directory) == NotDirectory then Err(NotADirectory(config.directory))
    else Ok(())
  }

  /** A name made only of whitespace (the empty name included) is rejected
      first, whatever the directory. */
  lemma ValidateRejectsBlankName(config: SessionConfig, stat: string -> PathKind)
    requires forall i :: 0 <= i < |config.name| ==> IsWhitespace(config.name[i])
    ensures Validate(config, stat) == Err(NameEmpty)
  {
    TrimEmptyIffAllWhitespace(config.name);
  }

  /** A directory made only of whitespace is rejected before the filesystem is
      consulted, once the name has passed. */
  lemma ValidateRejectsBlankDirectory(config: SessionConfig, stat: string -> PathKind)
    requires NameValid(config.name)
    requires forall i :: 0 <= i < |config.directory| ==> IsWhitespace(config.directory[i])
    ensures Validate(config, stat) == Err(DirectoryEmpty)
  {
    TrimEmptyIffAllWhitespace(config.directory);
  }

  /** Validation accepts exactly the configurations whose name has a
      non-whitespace character and at most 100 bytes and whose directory is not
      blank and is an existing directory. */
  lemma ValidateOkIffAllChecksPass(config: SessionConfig, stat: string -> PathKind)
    ensures Validate(config, stat).Ok? <==>
      && (exists i :: 0 <= i < |config.name| && !IsWhitespace(config.name[i]))
      && ByteLen(config.name) <= MaxNameBytes
      && (exists i :: 0 <= i < |config.directory| && !IsWhitespace(config.directory[i]))
      && stat(config.directory) == Directory
  {
    assert Validate(config, stat).Ok? <==>
      NameValid(config.name) && Trim(config.directory) != "" && stat(config.directory) == Directory;
    TrimEmptyIffAllWhitespace(config.name);
    TrimEmptyIffAllWhitespace(config.directory);
  }
}
