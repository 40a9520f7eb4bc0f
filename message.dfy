/** The WebSocket event enums (packages/api/src/models/message.rs). Their serde
    JSON form is left out. The `SessionInfo` carried by `SessionList` has the
    same four string fields as the one in the session model, which is reused. */
module Message {
  import opened Wrappers
  import opened SessionModel

  /** Events sent from the client to the server. */
  datatype ClientEvent =
    | CreateSession(name: string, directory: string)
    | SendInput(sessionId: string, input: string)
    | RequestHistory(sessionId: string)
    | CloseSession(sessionId: string)

  /** Events sent from the server to the client. */
  datatype ServerEvent =
    | SessionCreated(sessionId: string, name: string, directory: string)
    | SessionList(sessions: seq<SessionInfo>)
    | TerminalOutput(sessionId: string, data: string)
    | SessionClosed(sessionId: string, reason: Option<string>)
    | Error(message: string)
}
