# WiFi AAA accounting servicer, modelled in Dafny

This project models the session-lifecycle logic of the Magma federation
gateway's WiFi AAA accounting servicer (`feg/gateway/services/aaa/servicers/accounting.go`).
The servicer follows each authenticated WiFi client session through RADIUS
accounting Start, Interim-Update and Stop. It also handles termination
requests from the session manager, idle timeouts and bulk restore after a
restart. Each lifecycle step fans out to the pipelined flow controller, the
session manager, directoryd and the RADIUS server.

Each handler is a pure function of at most these four inputs:

- the session table: a `map` from RADIUS session id to the session `Context`;
- the configuration flags: accounting enabled, create-session-on-auth, event logging;
- an `Oracle` giving each backend collaborator's reply;
- the request.

The handlers that work on the table (`Start`, `InterimUpdate`, `Stop`,
`TerminateSession`, `AddSessions`) return a `Step`, which holds four things:

- the new table;
- the ordered trace of collaborator calls, including `ArmTimer` for every `SetTimeout` the handler makes;
- the termination events emitted;
- the returned error as a `Status`.

The timeout path (`EndTimedOutSession`, `TimeoutSessionNotifier`) runs after
the table has already dropped the session, so it returns a `Notice`: the same
trace, events and status, but no table. `CreateSession` returns a `Creation`:
its calls, and either the accounting session id or the error.

An `Error` is one of three things:

- a collaborator's own error, returned as is (`Backend`);
- a coded gRPC status that quotes the errors it wraps (`Categorized`);
- the uncoded bulk-add error (`Unlisted`).

Files:

- `common.dfy`: `Option`, `Error`, `Status`, `Result`, `Reply`, `Quotes`.
- `imsi.dfy`: the "IMSI" prefix convention and `makeSID`.
- `session_table.dfy`: the table operations the servicer uses (`GetSessionByImsi`, `RemoveSession`, `AddSession`) and the invariant that an IMSI string has at most one live session (`ImsiUnique`).
- `backends.dfy`: configuration, oracle, call trace and events.
- `accounting.dfy`: the handlers.
- `properties.dfy`: lemmas that relate several calls, or a handler to a reference definition.

Points of the code a reader might not expect, which the model keeps:

- `TerminateSession` emits no termination event, unlike `Stop` and the timeout path.
- `TerminateSession` has no nil-request check. A nil request reads as empty ids, so it fails `FailedPrecondition` unless the empty session id is in the table.
- On the timeout path, a session-manager error that occurs alone is returned uncoded, whereas a RADIUS error is wrapped as `Unavailable` or `Internal`.
- When `Start` creates the accounting session, it does not re-arm the idle timer; only the other `Start` branch does.

## Model

| member | source | states |
|---|---|---|
| Imsi.MakeSid | feg/gateway/services/aaa/servicers/accounting.go:353-358 | the subscriber id is "IMSI" followed by the IMSI with one leading prefix trimmed, and its type is IMSI |
| Imsi.MakeSidPrefixed | feg/gateway/services/aaa/servicers/accounting.go:353-357 | the id always starts with "IMSI", and an IMSI that already carries the prefix is used unchanged |
| Imsi.MakeSidIdempotent | feg/gateway/services/aaa/servicers/accounting.go:353-357 | normalising an already normalised id changes nothing |
| Imsi.MakeSidAgrees | feg/gateway/services/aaa/servicers/accounting.go:353-357 | for an IMSI x without the prefix, makeSID(x) and makeSID("IMSI"+x) agree |
| Imsi.SameSubscriber | feg/gateway/services/aaa/servicers/accounting.go:353-357 | two IMSIs give the same subscriber id exactly when they agree after trimming one leading prefix |
| Imsi.TrimPrefix | feg/gateway/services/aaa/servicers/accounting.go:273-275 | a prefixed IMSI loses exactly one leading "IMSI"; any other is left unchanged |
| Imsi.TrimThenMakeSid | feg/gateway/services/aaa/servicers/accounting.go:273-275 | stripping the prefix before storing loses no subscriber identity unless the IMSI carried the prefix twice |
| Imsi.DoublePrefixNotRecovered | feg/gateway/services/aaa/servicers/accounting.go:273-275 | "IMSIIMSI1" is the exception: after stripping, it normalises to a different subscriber id |
| SessionTable.GetSessionByImsi | feg/gateway/services/aaa/servicers/accounting.go:303-305 | the lookup finds a session exactly when a live session has that IMSI, and what it returns is that stored session |
| SessionTable.RemoveSession | feg/gateway/services/aaa/servicers/accounting.go:114-115 | removal returns the stored session exactly when the id was present; afterwards the id is gone and every other entry is unchanged |
| SessionTable.AddSession | feg/gateway/services/aaa/servicers/accounting.go:276-279 | an insert may fail. On success the new context is stored under its session id, any other session with the same IMSI string is gone, and other entries are unchanged. It keeps at most one live session per IMSI string |
| Accounting.IsSessionAlreadyStored | feg/gateway/services/aaa/servicers/accounting.go:303-311 | true exactly when a live session of that IMSI has a non-empty accounting session id (the reference recycle condition) |
| Accounting.InstallMacFlowOrRecycleSession | feg/gateway/services/aaa/servicers/accounting.go:290-301 | UpdateIPFIXFlow is chosen exactly for a recyclable subscriber and AddUeMacFlow exactly otherwise, never both; the reply is that call's |
| Accounting.CreateSession | feg/gateway/services/aaa/servicers/accounting.go:155-179 | an invalid MAC gives InvalidArgument with no call. Success happens exactly when the MAC parses, the chosen flow call succeeds and the create succeeds, and it returns the session manager's id. It calls only pipelined and the session manager, at most three times. Every coded error is Internal or InvalidArgument |
| Accounting.CreateSessionRecycleChoice | feg/gateway/services/aaa/servicers/accounting.go:164-165 | with a valid MAC, UpdateIPFIXFlow is called exactly for a recyclable subscriber and AddUeMacFlow exactly otherwise |
| Accounting.CreateSessionFailureOrdering | feg/gateway/services/aaa/servicers/accounting.go:165-178 | a flow failure gives Internal and the session manager is never called. A create failure is returned as is, after exactly one DeleteUeMacFlow. A success deletes no flow |
| Accounting.Start | feg/gateway/services/aaa/servicers/accounting.go:61-86 | nil gives InvalidArgument and an unknown sid gives FailedPrecondition. Start never adds or removes a session, emits no event, and keeps at most one live session per IMSI string. Without creation on Start it only re-arms the timer and returns nil. Every coded error is InvalidArgument, FailedPrecondition, Internal or Unavailable |
| Accounting.StartCreatePath | feg/gateway/services/aaa/servicers/accounting.go:75-81 | when creating on Start, it makes exactly CreateSession's calls and does not re-arm the timer. The accounting session id becomes the returned id only if the create succeeds; otherwise the table is unchanged and the create error is returned. Nothing else in the table changes |
| Accounting.RecordCreation | feg/gateway/services/aaa/servicers/accounting.go:77-80 | on success only the stored session's accounting id changes, to the created id; on failure the table is unchanged and the create error is returned. No event, the create's calls only, and one session per IMSI string is kept |
| Accounting.InterimUpdate | feg/gateway/services/aaa/servicers/accounting.go:89-106 | the table is never changed. It succeeds exactly for a known session and then only re-arms that session's timer. Nil gives InvalidArgument and an unknown sid gives FailedPrecondition, with no calls. Every coded error is InvalidArgument, FailedPrecondition, Internal or Unavailable |
| Accounting.Stop | feg/gateway/services/aaa/servicers/accounting.go:109-152 | an unknown sid returns nil with no change and no calls. A known one is removed whatever the backend replies. It errs only when EndSession fails with accounting on, and then with Unavailable. With accounting off it deletes the directory record and returns nil. With logging on it emits exactly one event, of the failure kind exactly on error. Every coded error is InvalidArgument, FailedPrecondition, Internal or Unavailable |
| Accounting.TerminateSession | feg/gateway/services/aaa/servicers/accounting.go:182-218 | an absent sid gives FailedPrecondition. The session stays removed on every later failure. The prefixed stored IMSI is compared verbatim with the claim, and a mismatch gives InvalidArgument with no calls. A connection failure gives Unavailable and no Disconnect. A Disconnect failure gives Internal. Every coded error is InvalidArgument, FailedPrecondition, Internal or Unavailable |
| Accounting.EndTimedOutSession | feg/gateway/services/aaa/servicers/accounting.go:222-267 | nil gives InvalidArgument with no calls and, with logging on, the timeout-notification failure event. Otherwise it makes the backend teardown call of Stop and then the RADIUS calls. It succeeds exactly when neither the session-manager teardown nor the RADIUS step fails. If both fail, one Internal error quotes both causes. A RADIUS failure alone gives Unavailable, and a session-manager failure alone is returned as is. With logging on it emits exactly one SessionTimeout event, matching the outcome. Every coded error is InvalidArgument, FailedPrecondition, Internal or Unavailable |
| Accounting.TimeoutSessionNotifier | feg/gateway/services/aaa/servicers/accounting.go:346-351 | a missing session is ignored: no calls, no events, nil. A session without a context gives InvalidArgument with no calls and, with logging on, the timeout-notification failure event. A session with a context is torn down on the backend and then disconnected; it succeeds exactly when neither step fails, with one SessionTimeout event when logging is on |
| Accounting.TerminationEvents | feg/gateway/services/aaa/servicers/accounting.go:146-150 | with logging on, exactly one event, of the failure kind exactly when the status is an error; with logging off, none |
| Accounting.Normalize | feg/gateway/services/aaa/servicers/accounting.go:273-275 | a bulk-added context keeps every field except the IMSI, which loses one leading prefix |
| Accounting.AddAll | feg/gateway/services/aaa/servicers/accounting.go:272-280 | the failed list is never longer than the input, and every stored session is either an untouched entry of the old table or one of the items with one leading "IMSI" stripped |
| Accounting.AddSessions | feg/gateway/services/aaa/servicers/accounting.go:270-285 | no collaborator is called, and an error always names at least one IMSI |
| Properties.AddAllFailed | feg/gateway/services/aaa/servicers/accounting.go:272-280 | the failed list equals the reference list: the trimmed IMSIs of the failed items, in input order |
| Properties.AddSessionsReportsFailures | feg/gateway/services/aaa/servicers/accounting.go:271-284 | AddSessions errs exactly when some insert failed, and its error names exactly the failed items' IMSIs in input order |
| Properties.AddedSessionsRemain | feg/gateway/services/aaa/servicers/accounting.go:272-279 | partial success: every successful insert that no later item replaces is in the table afterwards with its trimmed IMSI |
| Properties.PriorSessionsRemain | feg/gateway/services/aaa/servicers/accounting.go:272-279 | a pre-existing session that no successful item touches, by session id or by trimmed IMSI string, keeps its entry |
| Properties.AddAllKeepsImsiUnique | feg/gateway/services/aaa/servicers/accounting.go:276 | bulk add keeps at most one live session per IMSI string |
| Properties.StopIsIdempotent | feg/gateway/services/aaa/servicers/accounting.go:113-119 | a second Stop for the same session returns nil with no change, no calls and no events |
| Properties.TerminateAfterStopFindsNothing | feg/gateway/services/aaa/servicers/accounting.go:185-190 | a stopped session cannot be terminated again: TerminateSession then reports FailedPrecondition and changes nothing |
| Properties.StartedSessionIsRecycled | feg/gateway/services/aaa/servicers/accounting.go:75-81 | once Start has recorded a non-empty accounting id, the next CreateSession with the same IMSI string updates the IPFIX flow and adds no MAC flow |
| Properties.UnknownSubscriberGetsNewFlow | feg/gateway/services/aaa/servicers/accounting.go:290-294 | a subscriber with no live session gets AddUeMacFlow and never UpdateIPFIXFlow |
| Properties.TerminateAcceptsEitherStoredForm | feg/gateway/services/aaa/servicers/accounting.go:200-206 | the claim "IMSI"+d matches whether d was stored with or without the prefix |
| Properties.TerminateRejectsUnprefixedClaim | feg/gateway/services/aaa/servicers/accounting.go:200-206 | an unprefixed claim never matches, even for the same subscriber. The result is InvalidArgument with no calls, and the session is still removed |
| Properties.RestoredSessionCanBeTerminated | feg/gateway/services/aaa/servicers/accounting.go:273-276 | a session restored by AddSessions, whose IMSI came with or without the prefix, is accepted by TerminateSession with the prefixed claim |
| Properties.TimeoutTearsDownLikeStop | feg/gateway/services/aaa/servicers/accounting.go:232-251 | the timeout path makes Stop's teardown call for the same session, then the RADIUS calls. If Stop's session-manager step fails, the timeout path fails too and quotes that failure |
| Properties.ExpiredSessionEndsLikeStop | feg/gateway/services/aaa/servicers/accounting.go:346-351 | when a live session's idle timer fires, the notifier makes Stop's calls for that session and then the RADIUS calls, and it reports a session-manager failure that Stop would report |

## Left out

- Metrics: the Prometheus counters, octet counters and latency histogram (lines 101-103, 137, 144, 172, 198, 238) are floats and wall-clock time.
- Accounting.InterimUpdate: does not model adding the octet counters to the per-APN, per-IMSI metrics, because metrics are not modelled.
- Locks and concurrency: each handler is one atomic step, so the per-session `Lock`/`Unlock` pairs are not modelled.
- The session table's implementation is not part of this model. `SetTimeout` appears only as an `ArmTimer` entry in the trace. Timer firing (removal followed by the notifier) and the timeout duration are not modelled.
- Accounting.AddSessions: the table arms the idle timer of each restored session inside its own `AddSession` call (line 276). The table implementation is not part of this model, so no `ArmTimer` is recorded for restored sessions.
- SessionTable.AddSession: its rules are assumed, since the table implementation is not part of this model. With overwrite off, a live session of the same IMSI makes the insert fail. With overwrite on, that session is replaced. Any other failure comes from the oracle.
- SessionTable.GetSessionByImsi: requires the table invariant of at most one live session per IMSI. That invariant is what makes the lookup a function. Every table-changing handler preserves it. The table compares IMSI strings exactly, with no prefix normalisation. A session stored as "123" and one stored as "IMSI123" count as different IMSIs: both can be live at once, and one does not make the other recyclable, although `Imsi.SameSubscriber` gives them the same subscriber id. The table implementation is not part of this model, so whether it normalises is not known; the model assumes exact matching.
- A live session always carries a context: the table maps a session id to a `Context`, so the nil-context case is reachable only through `Accounting.TimeoutSessionNotifier`'s explicit input. `Start` would dereference a nil context at line 79; that case is not modelled.
- gRPC plumbing: `registry.GetConnection` and the `NewAuthorizationClient` calls are modelled only as oracle replies plus trace entries. The same holds for the pipelined, session_manager and directoryd RPCs.
- `net.ParseMAC` is the oracle flag `macParses`.
- The field-by-field request built by `createSessionOnSessionManager` (lines 313-344) is left out. The trace records only the subscriber id and the RADIUS session id.
- Event payloads and error message texts are left out. An event records only its kind and whether it is the failure or the success variant. A coded error records only its code and the errors it quotes. The `Error`/`Errorf` helpers of the servicers package are not part of this model; each is taken to build a coded status that quotes its argument.
- Accounting.Stop: the session-manager subscriber id is recorded as makeSID of the stored IMSI. The code uses makeSID of `metrics.DecorateIMSI` of it; that helper is not part of this model. The two ids agree whenever the decoration only adds the IMSI prefix (see `Imsi.MakeSidIdempotent`).
- The replies of `DeleteUeMacFlow` and `directoryd.DeleteRecord` are ignored by the code, so they are not oracle inputs.
- Request contexts (`context.Context`), a nil configuration and the idle-timeout value are not modelled.
