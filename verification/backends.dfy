/** The servicer's configuration and its backend collaborators. Every
    collaborator is an oracle: its reply is an input of the handler, and each
    call the handler makes is recorded, in order, in a call trace. Termination
    events go to a separate event log. */
module Backends {
  import opened Common
  import opened SessionTable

  /** The flags of the AAA configuration the handlers read. */
  datatype Config = Config(
    accountingEnabled: bool,
    createSessionOnAuth: bool,
    eventLoggingEnabled: bool)

  /** The session manager's reply to a create-session call. */
  datatype Created = Created(id: string) | CreateFailed(cause: Cause)

  /** The replies of the collaborators to one handler invocation. Replies the
      code ignores (deleting a flow on rollback, deleting a directory record)
      have no entry. */
  datatype Oracle = Oracle(
    macParses: bool,              // whether net.ParseMAC accepts the context's MAC address
    addFlow: Reply,               // pipelined AddUeMacFlow
    updateFlow: Reply,            // pipelined UpdateIPFIXFlow
    createSession: Created,       // session_manager CreateSession
    endSession: Reply,            // session_manager EndSession
    radiusConnection: Reply,      // registry connection to the RADIUS server
    disconnect: Reply)            // RADIUS Disconnect

  /** One call into a collaborator, or the re-arming of a session's idle timer. */
  datatype Call =
    | AddUeMacFlow(sid: string)
    | UpdateIpfixFlow(sid: string)
    | DeleteUeMacFlow(sid: string)
    | CreateSmSession(sid: string, radiusSessionId: string)
    | EndSmSession(sid: string, apn: string)
    | DeleteDirectoryRecord(id: string)
    | GetRadiusConnection
    | Disconnect(ctx: Context)
    | ArmTimer(sessionId: string)

  /** Which termination an event reports: an accounting Stop, a timed-out
      session, or a timeout notification that came without a context. */
  datatype EventKind = AccountingStop | SessionTimeout | TimeoutNotification

  datatype Event = TerminationFailed(kind: EventKind) | TerminationSucceeded(kind: EventKind)
}
