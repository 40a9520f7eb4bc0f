# ThrallUI session core, modelled in Dafny

ThrallUI is a web front end for running Claude CLI sessions in pseudo-terminals.
This project models its session bookkeeping and the small client-side helpers
around it, and proves properties of the model.

- **API server.**
  - The session record and its validation (`SessionModel`).
  - The directory allow-list policy (`Environment`).
  - The metadata mirror used by the streaming plane (`MetadataStore`).
  - The session registry `SessionManager` (`SessionHandler`).
  - The application state that wires the registry to the mirror (`AppState`).
  - The WebSocket event dispatch and receive loop (`Websocket`, over the
    event enums of `Message`).
  - The PTY read loop (`ProcessManager`).
- **Client.**
  - HTML escaping and the send guard of the terminal view (`TerminalViewUi`).
  - The time-of-day shown in the session list and its highlight rule
    (`SessionListUi`).
  - The session creation form (`SessionFormUi`).
  - The terminal page's handlers for the session list, the active id and the
    per-session output (`TerminalPage`, over the DTO of `Contracts`).
- **Shared.** `RustString` gives the meaning of the Rust `str` operations
  the code uses: `trim` over the Unicode White_Space characters, `len` as the
  UTF-8 byte length, `&s[..n]` with its panic on a non-boundary, `split` and
  `replace`.

Where Rust updates state in place, the model does too. The registry, the
mirror, the session, the form, the terminal view and the page are classes
whose methods state their new state. Everything else is functions and
lemmas.

What the model takes as parameters:

- the fresh UUID, a string `newId`;
- `Utc::now()`, a `Timestamp`;
- `to_rfc3339`, a function `render`;
- the outcome of spawning the CLI in a PTY, a `SpawnOutcome`;
- the two filesystem questions of `validate`, a function `stat`;
- `String::from_utf8_lossy`, a function `decode`;
- the outcomes of the client's server calls, `Result` values;
- the socket, a finite script of received events, each with the outcome of
  its reply's send;
- the PTY reader, a finite script of read outcomes.

Natural-language rules that the code refines:

- "max 100 characters" in the name-too-long message is checked in UTF-8 bytes
  (`name.len()`), and the model follows the code.
- The name cut "first 50 chars" is `&task[..50]`, a byte slice. It can panic;
  see Findings.

## Model

| member | source | states |
|---|---|---|
| SessionModel.Session.constructor | packages/api/src/models/session.rs:57-66 | a new session has the given id, name and directory, the given creation time, no PTY and an empty output buffer |
| SessionModel.Session.AddOutput | packages/api/src/models/session.rs:77-79 | exactly one chunk is appended at the end; earlier chunks and every other field are unchanged |
| SessionModel.Session.GetAllOutput | packages/api/src/models/session.rs:81-83 | returns the whole buffer and changes nothing |
| SessionModel.WithOutputsAppends | packages/api/src/models/session.rs:77-83 | appends followed by a read give the earlier buffer followed by the appended chunks in order; nothing else changes |
| SessionModel.Session.Metadata | packages/api/src/models/session.rs:44-53 | the metadata copies id, name, directory and creation time unchanged |
| SessionModel.Session.ToInfo | packages/api/src/models/session.rs:68-75 | the info keeps id, name and directory and carries the rendered creation time |
| SessionModel.Validate | packages/api/src/models/session.rs:104-123 | an ordered chain of rejections: blank name, name over 100 bytes, blank directory, missing path, not a directory; the first check that fails decides the error, and Ok when all pass |
| SessionModel.ValidationMessage | packages/api/src/models/session.rs:105-120 | the five `bail!` texts of `validate`, the last two followed by the directory |
| SessionModel.ValidationMessageInjective | packages/api/src/models/session.rs:105-120 | two rejections have the same text exactly when they are the same rejection, directory included |
| SessionModel.ValidateRejectsBlankName | packages/api/src/models/session.rs:105-107 | a name of only whitespace (including the empty name) is rejected with NameEmpty, whatever the directory |
| SessionModel.ValidateRejectsBlankDirectory | packages/api/src/models/session.rs:111-113 | once the name passes, a directory of only whitespace is rejected before the filesystem is consulted |
| SessionModel.ValidateOkIffAllChecksPass | packages/api/src/models/session.rs:104-123 | validation succeeds exactly when the name has a non-whitespace character and at most 100 bytes, and the directory has a non-whitespace character and is an existing directory |
| RustString.TrimStart | packages/api/src/models/session.rs:105 | `trim_start` drops exactly the leading whitespace, and the result starts with a non-whitespace character or is empty |
| RustString.TrimEnd | packages/api/src/models/session.rs:105 | `trim_end` drops exactly the trailing whitespace, and the result ends with a non-whitespace character or is empty |
| RustString.Trim | packages/api/src/models/session.rs:105 | `str::trim`: `trim_end` after `trim_start`; its meaning is stated by TrimEmptyIffAllWhitespace and TrimIsSubstring |
| RustString.TrimEmptyIffAllWhitespace | packages/api/src/models/session.rs:105 | `trim().is_empty()` holds exactly when every character is whitespace |
| RustString.TrimIsSubstring | packages/api/src/websocket.rs:114 | the trimmed input is the contiguous piece `s[i..j]` of the input |
| RustString.ByteLen | packages/api/src/models/session.rs:108 | `len()` is at least the number of characters and at most four times it |
| RustString.ByteLenAppend | packages/api/src/models/session.rs:108 | the byte length of a concatenation is the sum of the byte lengths |
| RustString.AsciiByteLen | packages/ui/src/terminal/session_manager.rs:40 | on ASCII text the byte length is the character count |
| RustString.BytePrefix | packages/ui/src/terminal/session_manager.rs:41 | `&s[..n]` gives the prefix whose encoding is exactly n bytes long; it fails (the panic) exactly when no prefix has that byte length |
| RustString.Split | packages/ui/src/terminal/session_list.rs:85-86 | `split(c)` gives at least one piece; without c the input is the only piece; otherwise the first piece is the text before the first c and the rest is the split of what follows it |
| RustString.SplitPiecesLackSeparator | packages/ui/src/terminal/session_list.rs:85-86 | no piece of a split contains the separator |
| RustString.Join | packages/ui/src/terminal/session_list.rs:85-86 | the pieces put back together with the separator between them, the inverse that SplitJoin relates to `split` |
| RustString.SplitJoin | packages/ui/src/terminal/session_list.rs:85-86 | joining the pieces of `split(c)` with c gives the input back: splitting loses nothing |
| RustString.ReplaceAppend | packages/ui/src/terminal/terminal_view.rs:99-103 | `replace` distributes over concatenation |
| RustString.ReplaceAbsent | packages/ui/src/terminal/terminal_view.rs:99-103 | a string without the character is returned unchanged |
| RustString.Replace | packages/ui/src/terminal/terminal_view.rs:99-103 | `replace(c, rep)`: every occurrence of c replaced by rep, character by character; its meaning is stated by ReplaceAppend, ReplaceAbsent and ReplaceChar |
| RustString.ReplaceChar | packages/ui/src/terminal/terminal_view.rs:99-103 | on one character, `replace` yields rep for c and the character itself otherwise |
| Environment.IsDirectoryAllowed | packages/api/src/config/environment.rs:33-38 | a path is allowed exactly when some entry is a string prefix of it or is `"*"` |
| Environment.AnyEntryAllows | packages/api/src/config/environment.rs:35-37 | `iter().any(...)`: true exactly when some entry of the list admits the path |
| Environment.EntryAllows | packages/api/src/config/environment.rs:37 | the closure of `any`: the entry is a string prefix of the path or is "*" |
| Environment.EntryAllowsExtensions | packages/api/src/config/environment.rs:37 | an entry that admits a path admits every extension of it, so subdirectories of an allowed directory are allowed |
| Environment.StarAllowsEverything | packages/api/src/config/environment.rs:37 | a `"*"` entry allows every path |
| Environment.EmptyAllowListAllowsNothing | packages/api/src/config/environment.rs:35-37 | an empty allow-list allows no path |
| Environment.PrefixIsNotPerComponent | packages/api/src/config/environment.rs:37 | the test is on characters, not path components: "/tmp" allows "/tmpfoo" |
| Environment.AllowListMonotone | packages/api/src/config/environment.rs:35-37 | a path allowed by a list stays allowed by any list holding all of its entries |
| Environment.DefaultConfigPolicy | packages/api/src/config/environment.rs:41-50 | the default configuration caps sessions at 10 and allows exactly the paths starting with "/home" or "/tmp"; "/etc" is refused |
| Environment.DefaultConfig | packages/api/src/config/environment.rs:41-50 | `Config::default()`: host 127.0.0.1, port 3000, `claude`, 10 sessions, allow-list ["/home", "/tmp"]; its policy is stated by DefaultConfigPolicy |
| MetadataStore.SessionMetadataStore.constructor | packages/api/src/state/app_state.rs:26-30 | a new store holds no ids |
| MetadataStore.SessionMetadataStore.UpdateMetadata | packages/api/src/state/app_state.rs:37-40 | afterwards the id exists and maps to the given metadata, overwriting any earlier entry; every other key keeps its presence and its entry |
| MetadataStore.SessionMetadataStore.RemoveMetadata | packages/api/src/state/app_state.rs:42-45 | afterwards the id does not exist; removing an absent id changes nothing; every other key keeps its presence and its entry |
| MetadataStore.SessionMetadataStore.SessionExists | packages/api/src/state/app_state.rs:32-35 | `session_exists`: the id is a key of the map; a function that reads the store, so it changes nothing |
| AppState.AppState.constructor | packages/api/src/state/app_state.rs:48-62 | the registry starts empty with the state's own empty store as its mirror, so the two start in step |
| SessionHandler.SessionManager.constructor | packages/api/src/session_handler.rs:31-38 | a new registry has the given configuration, no sessions and no mirror |
| SessionHandler.SessionManager.SetMetadataStore | packages/api/src/session_handler.rs:40-42 | the mirror becomes the given store |
| SessionHandler.SessionManager.AdmissionError | packages/api/src/session_handler.rs:45-55 | the checks before spawning run in order: the validation error, then "Directory not allowed", then "Maximum session limit reached" when the count is at least `max_sessions` |
| SessionHandler.ErrorMessage | packages/api/src/session_handler.rs:44-54 | the text each registry error displays: the validation text, "Directory not allowed: " and the directory, "Maximum session limit reached", the two PTY contexts of process_manager.rs, "Session not found" and "No PTY" |
| SessionHandler.ErrorMessageInjective | packages/api/src/session_handler.rs:44-54 | two errors have the same text exactly when they are the same error, so the message alone tells a caller which check failed and which directory was refused |
| SessionHandler.ErrorMessageOutsideValidation | packages/api/src/session_handler.rs:44-54 | no error of the registry's own shares its text with a validation error |
| SessionHandler.SpawnSession | packages/api/src/session_handler.rs:58-69 | a spawn failure gives the spawn error; otherwise a fresh session under the new id, running with the spawned PTY and an empty buffer |
| SessionHandler.SessionManager.CreateSession | packages/api/src/session_handler.rs:44-81 | the first failing step decides the error, and on any failure registry and mirror are unchanged; on success exactly the new id is added, running with an empty buffer, other entries are unchanged, and the mirror gains its metadata; the count stays within `max_sessions` and the mirror stays in step |
| SessionHandler.SessionManager.Launch | packages/api/src/session_handler.rs:58-80 | after admission: a spawn failure changes nothing, otherwise the new session is inserted and mirrored and the id returned |
| SessionHandler.SessionManager.Insert | packages/api/src/session_handler.rs:71-78 | the session is filed under its id, overwriting any entry there; the mirror, if set, gains its metadata, and stays in step |
| SessionHandler.SessionManager.FileSession | packages/api/src/session_handler.rs:73 | the map gains the session under its id and its state and metadata views change only at that id |
| SessionHandler.SessionManager.ListSessions | packages/api/src/session_handler.rs:83-86 | one info per registered session, each equal to that session's `to_info`; the ids are exactly the registry's keys, each once |
| SessionHandler.InSomeOrder | packages/api/src/session_handler.rs:85 | the `HashMap` iteration visits each key exactly once |
| SessionHandler.ListingCoversRegistry | packages/api/src/session_handler.rs:85 | mapping `to_info` over an enumeration of an id-keyed registry gives one info per key and no id twice |
| SessionHandler.SessionManager.CloseSession | packages/api/src/session_handler.rs:88-98 | an unknown id fails with "Session not found" and changes nothing; a known one is removed from the registry and from the mirror, so a second close fails; the mirror stays in step |
| SessionHandler.SessionManager.UnfileSession | packages/api/src/session_handler.rs:90 | the id leaves the map and its state and metadata views, and nothing else changes |
| SessionHandler.SessionManager.SessionExists | packages/api/src/session_handler.rs:100-103 | `session_exists`: the id is a key of the registry; it only reads |
| SessionHandler.SessionManager.GetSessionMetadata | packages/api/src/session_handler.rs:105-108 | `get_session_metadata`: the session's metadata projection, or None for an unknown id; with the mirror in step it agrees with the mirror (MirrorAgreesWithRegistry) |
| SessionHandler.SessionManager.AddSessionOutput | packages/api/src/session_handler.rs:110-115 | an unknown id fails and changes nothing; otherwise the chunk is appended to that session's buffer only, and the registry's keys and other sessions are unchanged |
| SessionHandler.SessionManager.GetSessionOutput | packages/api/src/session_handler.rs:117-121 | an unknown id fails with "Session not found"; otherwise the session's whole buffer, in append order |
| SessionHandler.SessionManager.GetPtyReader | packages/api/src/session_handler.rs:123-126 | fails with "Session not found" on an unknown id and with "No PTY" on a session without one; otherwise a reader over that session's PTY |
| SessionHandler.SessionManager.LookupPty | packages/api/src/session_handler.rs:125-126 | the lookup shared by both PTY getters: SessionNotFound for an unknown id, then NoPty for a session without a PTY, otherwise the session's PTY |
| SessionHandler.SessionManager.GetPtyWriter | packages/api/src/session_handler.rs:136-139 | the same two failures; otherwise a writer to that session's PTY |
| SessionHandler.ProjectionsOfInsert | packages/api/src/session_handler.rs:72-73 | inserting into the registry map changes its state and metadata projections only at the inserted id |
| SessionHandler.ProjectionsOfRemove | packages/api/src/session_handler.rs:90 | removing from the registry map removes the id from both projections and changes nothing else |
| SessionHandler.MirrorAgreesWithRegistry | packages/api/src/session_handler.rs:71-96 | with the mirror in step, the streaming plane's `session_exists` agrees with the registry's, the key sets are equal, and the mirrored metadata is the registry's `get_session_metadata` |
| Websocket.Echo | packages/api/src/websocket.rs:114 | the mock echo is "> ", then the trimmed input, then a newline |
| Websocket.NotFoundMessage | packages/api/src/websocket.rs:97 | `format!("Session {} not found", session_id)`: the text is "Session ", the id, then " not found", 18 characters longer than the id |
| Websocket.SendInputReply | packages/api/src/websocket.rs:86-119 | an id the mirror lacks gets "Session {id} not found"; an existing id gets terminal output for that id with the echo |
| Websocket.RequestHistoryReply | packages/api/src/websocket.rs:122-154 | an unknown id gets the not-found error; an existing id gets terminal output "Session started...\n" |
| Websocket.HandleClientEvent | packages/api/src/websocket.rs:55-83 | exactly one reply per event: create and close get "Session management must use REST API, not WebSocket" whatever the mirror holds; input and history dispatch to their handlers; every reply is terminal output or an error, and output only ever answers an existing id |
| Websocket.ReplyDependsOnlyOnExistence | packages/api/src/websocket.rs:93-136 | the reply consults the mirror only for whether the event's session id exists |
| Websocket.Replies | packages/api/src/websocket.rs:37-46 | one received event sends the handler's reply and, if that send failed, one more `Error` carrying the failure's text |
| Websocket.Transcript | packages/api/src/websocket.rs:35-48 | the events the receive loop sends, event by event, up to the first receive failure; its properties are TranscriptAppend, TranscriptStopsAtFailure, OneReplyPerEvent and OnlyOutputOrError |
| Websocket.Connection | packages/api/src/websocket.rs:21-48 | the whole connection: without initialised state only "Server state not initialized", otherwise the transcript |
| Websocket.TerminalWebsocket | packages/api/src/websocket.rs:17-48 | without initialised state only "Server state not initialized" is sent; otherwise the events sent are those of the receive loop over the script, in order, and the mirror is not changed |
| Websocket.TranscriptAppend | packages/api/src/websocket.rs:35-48 | events are handled in order: the transcript of received events followed by more input is the first transcript followed by the second |
| Websocket.TranscriptStopsAtFailure | packages/api/src/websocket.rs:35 | the loop stops at the first receive failure: nothing after it is answered |
| Websocket.OneReplyPerEvent | packages/api/src/websocket.rs:35-48 | when every send succeeds, the n-th event sent is the handler's reply to the n-th event received, and there are as many as events |
| Websocket.OnlyOutputOrError | packages/api/src/websocket.rs:55-154 | the streaming plane sends only terminal output and errors, never created, closed or listed sessions |
| ProcessManager.ReadStep | packages/api/src/process_manager.rs:51-55 | one read delivers at most the buffer's capacity, from the front of the pending data; an exhausted reader reads as 0 bytes |
| ProcessManager.ScriptedReader.Read | packages/api/src/process_manager.rs:55 | `read` writes its n bytes to the front of the buffer and leaves the rest of it untouched |
| ProcessManager.Prepend | packages/api/src/process_manager.rs:57-65 | accumulated output goes in front of what the rest of the loop returns, and an error discards it |
| ProcessManager.ReadLoop | packages/api/src/process_manager.rs:54-67 | the loop specification, one read at a time: stop on 0 bytes, after a short chunk or on WouldBlock, continue after a full buffer, abort with "Read error: ..."; its properties are the lemmas below |
| ProcessManager.ReadOutput | packages/api/src/process_manager.rs:50-70 | the result, and what the reader has left, are those of the loop specification `ReadLoop` |
| ProcessManager.FullReadsAccumulate | packages/api/src/process_manager.rs:54-63 | after any number of full 4096-byte reads, the output is their decoded chunks in read order, followed by what the rest of the loop returns |
| ProcessManager.ExhaustedKeepsOutput | packages/api/src/process_manager.rs:56 | an exhausted reader ends the loop with the output read so far |
| ProcessManager.EndOfFileKeepsOutput | packages/api/src/process_manager.rs:56 | a read of 0 bytes ends the loop with the output read so far and leaves the rest unread |
| ProcessManager.ShortReadEndsLoop | packages/api/src/process_manager.rs:57-62 | a chunk shorter than 4096 bytes is appended and then ends the loop |
| ProcessManager.WouldBlockKeepsOutput | packages/api/src/process_manager.rs:64 | WouldBlock ends the loop with Ok of the output read so far, not an error |
| ProcessManager.ErrorDiscardsOutput | packages/api/src/process_manager.rs:65 | any other read error returns "Read error: ..." and discards the output read so far |
| ProcessManager.LongDataIsSplit | packages/api/src/process_manager.rs:51-62 | pending data longer than the buffer is taken 4096 bytes at a time |
| TerminalViewUi.EscapeHtmlAppend | packages/ui/src/terminal/terminal_view.rs:98-104 | escaping distributes over concatenation |
| TerminalViewUi.EscapeHtmlChar | packages/ui/src/terminal/terminal_view.rs:99-103 | on one character the chain yields exactly its entity (`<` becomes "&lt;", not "&amp;lt;"), because `&` is replaced first |
| TerminalViewUi.EscapeHtmlIsEscapeEach | packages/ui/src/terminal/terminal_view.rs:98-104 | the chain of five replaces equals the reference escaping, each character replaced once by its entity |
| TerminalViewUi.EscapeEachHasNoMarkup | packages/ui/src/terminal/terminal_view.rs:98-104 | the reference escaping leaves no special character except the `&` of entities |
| TerminalViewUi.EscapedHasNoMarkup | packages/ui/src/terminal/terminal_view.rs:98-104 | escaped text holds no `<`, `>`, `"` or `'` |
| TerminalViewUi.EscapePlainText | packages/ui/src/terminal/terminal_view.rs:98-104 | text with none of the five special characters is returned unchanged |
| TerminalViewUi.EscapeNeverShortens | packages/ui/src/terminal/terminal_view.rs:98-104 | the escaped text is never shorter than the input |
| TerminalViewUi.EscapeTwiceDiffers | packages/ui/src/terminal/terminal_view.rs:99 | escaping is not idempotent: escaping the entity of `<` again escapes its `&` |
| TerminalViewUi.EscapeEachGrowsOnSpecial | packages/ui/src/terminal/terminal_view.rs:98-104 | text holding a special character gets strictly longer under escaping, and its escape holds an `&` |
| TerminalViewUi.EscapeIdempotentIffPlain | packages/ui/src/terminal/terminal_view.rs:98-104 | escaping twice equals escaping once exactly when the text holds none of the five special characters |
| TerminalViewUi.EscapeHtml | packages/ui/src/terminal/terminal_view.rs:98-104 | the five `replace` passes, `&` first; its meaning is stated by EscapeHtmlIsEscapeEach and the lemmas above |
| TerminalViewUi.TerminalView.constructor | packages/ui/src/terminal/terminal_view.rs:15 | the input field starts empty and nothing has been sent |
| TerminalViewUi.TerminalView.OnInput | packages/ui/src/terminal/terminal_view.rs:79 | the field holds what was typed |
| TerminalViewUi.TerminalView.Send | packages/ui/src/terminal/terminal_view.rs:28-43 | an empty field sends nothing; otherwise the input goes to `on_send_input` and the field is cleared; nothing empty is ever sent |
| TerminalViewUi.TerminalView.OnKeyDown | packages/ui/src/terminal/terminal_view.rs:80-84 | only Enter sends; any other key changes nothing |
| SessionListUi.UpTo | packages/ui/src/terminal/session_list.rs:86 | the longest prefix free of the stop characters: it is a prefix, holds no stop, and ends at a stop or at the end |
| SessionListUi.UpToUnique | packages/ui/src/terminal/session_list.rs:86 | that prefix is the only one with those three properties |
| SessionListUi.SplitFirstPiece | packages/ui/src/terminal/session_list.rs:86 | the first piece of a split is the text up to the first separator |
| SessionListUi.SplitSecondPiece | packages/ui/src/terminal/session_list.rs:85 | with the separator present, the second piece exists and is the text after the first separator up to the next |
| SessionListUi.FormatTimeWithoutT | packages/ui/src/terminal/session_list.rs:84-91 | without a 'T' the input is returned unchanged |
| SessionListUi.FormatTimeAfterT | packages/ui/src/terminal/session_list.rs:85-88 | with a 'T', the result is the text after the first 'T', cut at the next 'T' or '.' |
| SessionListUi.FormatTimeHasNoSeparators | packages/ui/src/terminal/session_list.rs:85-88 | with a 'T', the result contains neither 'T' nor '.' |
| SessionListUi.FormatTimeIsSubstring | packages/ui/src/terminal/session_list.rs:84-91 | the result is always a contiguous piece `s[i..j]` of the input and no longer than it |
| SessionListUi.FormatTime | packages/ui/src/terminal/session_list.rs:84-91 | `format_time`: the first piece of the second `'T'` piece cut at `'.'`, or the input; its meaning is stated by FormatTimeWithoutT, FormatTimeAfterT, FormatTimeHasNoSeparators and FormatTimeIsSubstring |
| SessionListUi.IsActive | packages/ui/src/terminal/session_list.rs:31 | `is_active`: the active id is Some of the item's id; AtMostOneActive states what follows for a list |
| SessionListUi.AtMostOneActive | packages/ui/src/terminal/session_list.rs:31 | with distinct ids, two highlighted items are the same item, and an item is highlighted only when its id is the active one |
| SessionFormUi.SessionNameAsWritten | packages/ui/src/terminal/session_manager.rs:40-44 | the name as written: a task of at most 50 bytes is kept; a longer one is cut at byte 50 and gets "...", or the slice panics exactly when byte 50 is not a character boundary |
| SessionFormUi.SessionNameAsWrittenPanics | packages/ui/src/terminal/session_manager.rs:41 | 49 ASCII letters followed by "é" make the slice panic |
| SessionFormUi.FloorPrefix | packages/ui/src/terminal/session_manager.rs:41 | the longest prefix whose encoding fits in n bytes |
| SessionFormUi.BytePrefixIsFloorPrefix | packages/ui/src/terminal/session_manager.rs:41 | where the byte slice does not panic, it is the longest prefix that fits |
| SessionFormUi.SessionName | packages/ui/src/terminal/session_manager.rs:40-44 | the corrected name: the task when it fits in 50 bytes, otherwise the longest prefix fitting in 50 bytes and "..."; at most 53 bytes, and non-empty for a non-empty task |
| SessionFormUi.SessionNameAgreesWithAsWritten | packages/ui/src/terminal/session_manager.rs:40-44 | the corrected name equals the name as written on every task where the code does not panic |
| SessionFormUi.AsciiSessionName | packages/ui/src/terminal/session_manager.rs:40-44 | an ASCII task never panics, and a long one becomes its first 50 characters and "..." |
| SessionFormUi.SessionForm.constructor | packages/ui/src/terminal/session_manager.rs:11-13 | the task, the directory and the error all start empty, nothing has been requested and nothing has panicked |
| SessionFormUi.SessionForm.CreateSession | packages/ui/src/terminal/session_manager.rs:23-51 | an empty task sets "Task description is required"; then an empty directory sets "Please select a directory"; in both cases nothing is requested and the task is kept. Otherwise the error is cleared and the name is derived as the code does: where `&task[..50]` panics the closure stops (panicked, no request, task kept); else `on_create` gets the name, the directory and the whole task, and the task is reset. The name sent equals the corrected name, and every request has a name of at most 53 bytes |
| SessionFormUi.SessionForm.DefaultDirectoryEffect | packages/ui/src/terminal/session_manager.rs:17-21 | the first allowed directory is selected only when the list is non-empty and nothing is selected yet; otherwise the selection is kept |
| TerminalPage.RetainRemovesId | packages/web/src/views/terminal.rs:43 | after `retain`, no entry with the closed id is left |
| TerminalPage.RetainKeepsOthers | packages/web/src/views/terminal.rs:43 | every entry with another id is kept |
| TerminalPage.RetainAppend | packages/web/src/views/terminal.rs:43 | `retain` works element by element and keeps order: it distributes over concatenation |
| TerminalPage.RetainAbsent | packages/web/src/views/terminal.rs:43 | a list without the id is unchanged |
| TerminalPage.Retain | packages/web/src/views/terminal.rs:43 | `sessions.retain(\|s\| s.id != id)`; its meaning is stated by RetainRemovesId, RetainKeepsOthers, RetainAppend and RetainAbsent |
| TerminalPage.OutputOf | packages/web/src/views/terminal.rs:106 | the recorded output list of an id, or the empty list when none is recorded |
| TerminalPage.TerminalPage.constructor | packages/web/src/views/terminal.rs:11-67 | no sessions, no active id, no output |
| TerminalPage.TerminalPage.Shown | packages/web/src/views/terminal.rs:103-114 | with an active id, the view shows its output list (empty when none is recorded); without one, the "No session selected" panel |
| TerminalPage.TerminalPage.HandleCreateSession | packages/web/src/views/terminal.rs:14-31 | a successful create appends the returned info at the end and makes its id active; a failed one changes nothing |
| TerminalPage.TerminalPage.HandleSelectSession | packages/web/src/views/terminal.rs:32-35 | the given id becomes active, unconditionally |
| TerminalPage.TerminalPage.HandleCloseSession | packages/web/src/views/terminal.rs:36-54 | a successful close retains the entries with other ids, in order, and clears the active id exactly when it was the closed one; a failed close changes nothing |
| TerminalPage.TerminalPage.HandleSendInput | packages/web/src/views/terminal.rs:68-76 | with an active id the input is appended to its output list (created if missing), so the shown list gains it at the end, and other ids' lists are untouched; with none nothing changes |

## Left out

- `ProcessManager::spawn_claude` and `write_input` drive `portable_pty`. Only
  the spawn outcome is modelled, as a parameter, together with the presence
  of a PTY handle.
- The mutex, `try_clone_reader` and `take_writer` behind
  `get_pty_reader`/`get_pty_writer` are PTY internals. Only the two lookup
  failures are modelled, and success returns the handle.
- `RwLock`, `Mutex`, `Arc` and every await point are left out, because the
  model runs operations one at a time. This includes the gap between the
  capacity check and the insert in `create_session`.
- Serde tagging and JSON round trips, the WebSocket upgrade and the socket
  itself are a transport concern. Sends are modelled as the events the server
  tries to send, each with its outcome.
- The `OnceLock` global (`AppState::init`, `AppState::global`) and
  `Config::from_env` read process-wide state and the environment. A missing
  global is modelled as `None` when the connection starts.
- The channel dispatcher `session_processor.rs`, the server-function wrappers
  `lib.rs`, `session/mod.rs` and `session/server.rs`, and directory listing
  (`directory/mod.rs`) are plumbing or filesystem I/O.
- RSX rendering, auto-scrolling, routing and the re-export modules are not
  logic. The rendering of the highlight (`item_class`) is not modelled, only
  the `is_active` test.
- The UUID, the clock, RFC 3339 rendering, the filesystem checks and UTF-8
  lossy decoding are parameters, because their results are not computed by
  the code modelled.
- `get_session_metadata` and `session_exists` on the registry, and
  `session_exists` on the store, are stated as functions. They therefore
  change nothing by construction.
- The `tracing::info!`, `warn!`, `error!` and `debug!` calls of websocket.rs
  are logging, an effect on no state the model holds, and are not modelled.
- Websocket.TerminalWebsocket: the mirror is held fixed for the duration of
  one connection, so the model does not show a session created or closed
  over REST between two events of the same connection.
- SessionHandler.SessionManager.ListSessions: the order of the infos is left
  unspecified, as `HashMap` iteration order is.
- SessionHandler.SessionManager.CreateSession: `max_sessions` is a `usize`
  and the session count an unbounded `nat`. Counts never reach the bound.

## Findings

| source | as written | input that shows it | evidently intended | confidence | as-written member | corrected member |
|---|---|---|---|---|---|---|
| packages/ui/src/terminal/session_manager.rs:40-44 | a task of more than 50 bytes is cut with `&task[..50]`, a byte slice that panics when byte 50 falls inside a multi-byte character | a task of 49 × "a" followed by "é" (51 bytes; byte 50 is inside "é") | cut at the last character boundary at or before byte 50, so the name is at most 53 bytes and never panics | not executed | SessionFormUi.SessionNameAsWrittenPanics | SessionFormUi.SessionNameAgreesWithAsWritten |
