/** The session DTO shared by server and clients
    (packages/contracts/src/session.rs). */
module Contracts {
  /** `SessionInfoDTO`; `createdAt` is an ISO 8601 timestamp string. */
  datatype SessionInfoDto = SessionInfoDto(id: string, name: string, directory: string, createdAt: string)
}
