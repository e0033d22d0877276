/** The WiFi AAA accounting servicer: the RADIUS accounting handlers (Start,
    Interim-Update, Stop), the outbound CreateSession, the inbound
    TerminateSession and AddSessions, and the idle-timeout path. Each handler
    is one atomic step from (table, configuration, collaborator replies,
    request) to (new table, call trace, events, returned error). */
module Accounting {
  import opened Common
  import opened Imsi
  import opened SessionTable
  import opened Backends

  datatype UpdateRequest = UpdateRequest(ctx: Option<Context>, octetsIn: nat, octetsOut: nat)

  datatype StopRequest = StopRequest(ctx: Option<Context>)

  datatype TerminateRequest = TerminateRequest(radiusSessionId: string, imsi: string)

  /** The effect of a handler that works on the table. */
  datatype Step = Step(table: Table, calls: seq<Call>, events: seq<Event>, status: Status)

  /** The effect of the timeout path, which runs after the table already dropped the session. */
  datatype Notice = Notice(calls: seq<Call>, events: seq<Event>, status: Status)

  /** The effect of CreateSession: its calls and the accounting session id or the error. */
  datatype Creation = Creation(calls: seq<Call>, result: Result<string>)

  /** The flow call the recycle decision makes and the reply it gets. */
  datatype FlowChoice = FlowChoice(call: Call, reply: Reply)

  /** `GetCtx().GetSessionId()`: a missing context reads as the empty id. */
  function SessionIdOf(ctx: Option<Context>): string {
    if ctx.Some? then ctx.value.sessionId else ""
  }

  /** The codes the lifecycle handlers attach to their errors. */
  predicate InTaxonomy(s: Status) {
    s.Err? && s.error.Categorized? ==>
      s.error.code in {InvalidArgument, FailedPrecondition, Internal, Unavailable}
  }

  /** A rejection that leaves the table alone and calls nobody. */
  function Rejected(t: Table, code: Code): Step {
    Step(t, [], [], Err(Categorized(code, [])))
  }

  /** Start creates the backend accounting session itself only when accounting
      is on and the session was not already created at authentication. */
  predicate CreatesOnStart(cfg: Config) {
    cfg.accountingEnabled && !cfg.createSessionOnAuth
  }

  /** The reference definition of a recycle: a live session of the same
      subscriber already holds a backend accounting session. */
  ghost predicate Recyclable(t: Table, imsi: string) {
    exists sid :: sid in t && t[sid].imsi == imsi && |t[sid].acctSessionId| > 0
  }

  /** At most one termination event, reporting whether the status is an error. */
  function TerminationEvents(cfg: Config, kind: EventKind, status: Status): (r: seq<Event>)
    ensures |r| == if cfg.eventLoggingEnabled then 1 else 0
    ensures forall e | e in r :: e.kind == kind && (e.TerminationFailed? <==> status.Err?)
  {
    if !cfg.eventLoggingEnabled then []
    else if status.Err? then [TerminationFailed(kind)]
    else [TerminationSucceeded(kind)]
  }

  /** Ending a session on the backend (accounting.go lines 128-143 in Stop,
      232-244 on the timeout path): the session manager when accounting is
      on, otherwise the subscriber's directory record, whose reply is ignored.
      Returns the calls and the session manager's error, if any. */
  function Teardown(cfg: Config, o: Oracle, s: Context): (seq<Call>, Option<Error>) {
    if cfg.accountingEnabled then
      ([EndSmSession(MakeSid(s.imsi).id, s.apn)],
       if o.endSession.Failed? then Some(Backend(o.endSession.cause)) else None)
    else
      ([DeleteDirectoryRecord(s.imsi)], None)
  }

  /** Reaching the RADIUS server to disconnect a client (accounting.go lines
      208-213 in TerminateSession, 246-252 on the timeout path): the Disconnect
      call is made only once a connection was obtained. */
  function RadiusCalls(o: Oracle, s: Context): seq<Call> {
    if o.radiusConnection.Failed? then [GetRadiusConnection]
    else [GetRadiusConnection, Disconnect(s)]
  }

  // ---------------------------------------------------------------------
  // The recycle decision

  /** `isSessionAlreadyStored`: looks the subscriber up by IMSI and reports
      whether that session already carries an accounting session id. */
  function IsSessionAlreadyStored(t: Table, imsi: string): (b: bool)
    requires ImsiUnique(t)
    ensures b <==> Recyclable(t, imsi)
  {
    var stored := GetSessionByImsi(t, imsi);
    stored.Some? && |stored.value.acctSessionId| > 0
  }

  /** `installMacFlowOrRecycleSession`: a recycled subscriber gets its IPFIX
      flow updated, any other gets a fresh MAC flow; exactly one of the two. */
  function InstallMacFlowOrRecycleSession(t: Table, o: Oracle, sid: string, imsi: string): (r: FlowChoice)
    requires ImsiUnique(t)
    ensures r.call == UpdateIpfixFlow(sid) <==> Recyclable(t, imsi)
    ensures r.call == AddUeMacFlow(sid) <==> !Recyclable(t, imsi)
    ensures r.call.UpdateIpfixFlow? ==> r.reply == o.updateFlow
    ensures r.call.AddUeMacFlow? ==> r.reply == o.addFlow
    ensures r.reply == FlowReply(t, o, imsi)
  {
    if !IsSessionAlreadyStored(t, imsi) then FlowChoice(AddUeMacFlow(sid), o.addFlow)
    else FlowChoice(UpdateIpfixFlow(sid), o.updateFlow)
  }

  /** The reply the flow step gets, by the reference recycle definition. */
  ghost function FlowReply(t: Table, o: Oracle, imsi: string): Reply {
    if Recyclable(t, imsi) then o.updateFlow else o.addFlow
  }

  // ---------------------------------------------------------------------
  // CreateSession

  /** `CreateSession`: validate the MAC, install or recycle the flow, then
      create the accounting session on the session manager, rolling the flow
      back once if that fails. */
  function CreateSession(t: Table, o: Oracle, ctx: Context): (r: Creation)
    requires ImsiUnique(t)
    // an unparsable MAC is rejected before any flow call
    ensures !o.macParses ==> r.calls == [] && r.result == Failure(Categorized(InvalidArgument, []))
    // success needs every step to succeed and yields the session manager's id
    ensures r.result.Success? <==>
              o.macParses && FlowReply(t, o, ctx.imsi).Done? && o.createSession.Created?
    ensures r.result.Success? ==> r.result.value == o.createSession.id
    // CreateSession talks only to pipelined and the session manager
    ensures forall c | c in r.calls ::
              c.AddUeMacFlow? || c.UpdateIpfixFlow? || c.DeleteUeMacFlow? || c.CreateSmSession?
    ensures |r.calls| <= 3
    // its own codes are InvalidArgument for the MAC and Internal for the flow step
    ensures r.result.Failure? && r.result.error.Categorized? ==> r.result.error.code in {InvalidArgument, Internal}
  {
    if !o.macParses then
      Creation([], Failure(Categorized(InvalidArgument, [])))
    else
      var sid := MakeSid(ctx.imsi).id;
      var flow := InstallMacFlowOrRecycleSession(t, o, sid, ctx.imsi);
      if flow.reply.Failed? then
        Creation([flow.call], Failure(Categorized(Internal, [Backend(flow.reply.cause)])))
      else
        var create := CreateSmSession(sid, ctx.sessionId);
        match o.createSession
        case Created(id) => Creation([flow.call, create], Success(id))
        case CreateFailed(cause) => Creation([flow.call, create, DeleteUeMacFlow(sid)], Failure(Backend(cause)))
  }

  /** The recycle decision inside CreateSession: once the MAC is valid,
      exactly one of the two flow calls is made, UpdateIPFIXFlow exactly for a
      recyclable subscriber. */
  lemma CreateSessionRecycleChoice(t: Table, o: Oracle, ctx: Context)
    requires ImsiUnique(t) && o.macParses
    ensures var sid := MakeSid(ctx.imsi).id;
            var r := CreateSession(t, o, ctx);
            && (UpdateIpfixFlow(sid) in r.calls <==> Recyclable(t, ctx.imsi))
            && (AddUeMacFlow(sid) in r.calls <==> !Recyclable(t, ctx.imsi))
  {
  }

  /** The failure ordering of CreateSession once the MAC is valid: a failed
      flow call is Internal and the session manager is never asked; a failed
      create is returned as is after exactly one flow deletion; a success
      deletes nothing. */
  lemma CreateSessionFailureOrdering(t: Table, o: Oracle, ctx: Context)
    requires ImsiUnique(t) && o.macParses
    ensures var sid := MakeSid(ctx.imsi).id;
            var r := CreateSession(t, o, ctx);
            var flow := FlowReply(t, o, ctx.imsi);
            && (flow.Failed? ==>
                  && r.result == Failure(Categorized(Internal, [Backend(flow.cause)]))
                  && forall c | c in r.calls :: !c.CreateSmSession? && !c.DeleteUeMacFlow?)
            && (flow.Done? && o.createSession.CreateFailed? ==>
                  && r.result == Failure(Backend(o.createSession.cause))
                  && CreateSmSession(sid, ctx.sessionId) in r.calls
                  && multiset(r.calls)[DeleteUeMacFlow(sid)] == 1)
            && (r.result.Success? ==>
                  && CreateSmSession(sid, ctx.sessionId) in r.calls
                  && forall c | c in r.calls :: !c.DeleteUeMacFlow?)
  {
    var sid := MakeSid(ctx.imsi).id;
    var flow := InstallMacFlowOrRecycleSession(t, o, sid, ctx.imsi);
    var r := CreateSession(t, o, ctx);
    assert flow.reply == FlowReply(t, o, ctx.imsi);
    assert !flow.call.DeleteUeMacFlow? && !flow.call.CreateSmSession?;
    if flow.reply.Failed? {
      assert r.calls == [flow.call];
    } else if o.createSession.CreateFailed? {
      assert r.calls == [flow.call, CreateSmSession(sid, ctx.sessionId), DeleteUeMacFlow(sid)];
      assert multiset(r.calls)[DeleteUeMacFlow(sid)] == 1;
    } else {
      assert r.calls == [flow.call, CreateSmSession(sid, ctx.sessionId)];
    }
  }

  // ---------------------------------------------------------------------
  // RADIUS accounting handlers

  /** Start's bookkeeping after CreateSession: the stored session takes the
      new accounting session id on success; on failure the table is kept. */
  function RecordCreation(t: Table, sid: string, cs: Creation): (r: Step)
    requires sid in t
    ensures r.calls == cs.calls && r.events == [] && r.table.Keys == t.Keys
    ensures r.status.Ok? <==> cs.result.Success?
    ensures cs.result.Failure? ==> r.table == t && r.status == Err(cs.result.error)
    ensures cs.result.Success? ==> r.table[sid].acctSessionId == cs.result.value
    ensures r.table[sid].(acctSessionId := t[sid].acctSessionId) == t[sid]
    ensures forall k | k in t && k != sid :: r.table[k] == t[k]
    ensures ImsiUnique(t) ==> ImsiUnique(r.table)
  {
    if cs.result.Success? then
      var t' := t[sid := t[sid].(acctSessionId := cs.result.value)];
      assert forall k | k in t' :: t'[k].imsi == t[k].imsi;
      Step(t', cs.calls, [], Ok)
    else
      Step(t, cs.calls, [], Err(cs.result.error))
  }

  /** `Start` (Acct-Status-Type Start). */
  function Start(t: Table, cfg: Config, o: Oracle, req: Option<Context>): (r: Step)
    requires ImsiUnique(t)
    ensures req.None? ==> r == Rejected(t, InvalidArgument)
    ensures req.Some? && req.value.sessionId !in t ==> r == Rejected(t, FailedPrecondition)
    // Start never adds or removes sessions and never emits events
    ensures r.table.Keys == t.Keys && r.events == []
    ensures ImsiUnique(r.table)
    // otherwise Start only re-arms the idle timer
    ensures req.Some? && req.value.sessionId in t && !CreatesOnStart(cfg) ==>
              r == Step(t, [ArmTimer(req.value.sessionId)], [], Ok)
    ensures InTaxonomy(r.status)
  {
    if req.None? then
      Rejected(t, InvalidArgument)
    else
      var sid := req.value.sessionId;
      if sid !in t then
        Rejected(t, FailedPrecondition)
      else if CreatesOnStart(cfg) then
        RecordCreation(t, sid, CreateSession(t, o, req.value))
      else
        Step(t, [ArmTimer(sid)], [], Ok)
  }

  /** Start with creation on: it makes exactly CreateSession's calls and never
      re-arms the timer; the accounting session id becomes the created one
      only when the create succeeds, and otherwise the table is kept and the
      create error returned. Nothing else in the table changes. */
  lemma StartCreatePath(t: Table, cfg: Config, o: Oracle, req: Context)
    requires ImsiUnique(t) && req.sessionId in t && CreatesOnStart(cfg)
    ensures var sid := req.sessionId;
            var r := Start(t, cfg, o, Some(req));
            var cs := CreateSession(t, o, req);
            && r.calls == cs.calls
            && ArmTimer(sid) !in r.calls
            && (r.status.Ok? <==> cs.result.Success?)
            && (cs.result.Failure? ==> r.table == t && r.status == Err(cs.result.error))
            && (cs.result.Success? ==> r.table[sid].acctSessionId == cs.result.value)
            && r.table[sid].(acctSessionId := t[sid].acctSessionId) == t[sid]
            && forall k | k in t && k != sid :: r.table[k] == t[k]
  {
  }

  /** `InterimUpdate` (Acct-Status-Type Interim-Update). The octet counters
      only feed metrics, which are not modelled. */
  function InterimUpdate(t: Table, req: Option<UpdateRequest>): (r: Step)
    ensures r.table == t && r.events == []
    ensures r.status.Ok? <==> req.Some? && SessionIdOf(req.value.ctx) in t
    ensures r.status.Ok? ==> r.calls == [ArmTimer(SessionIdOf(req.value.ctx))]
    ensures req.None? ==> r.status == Err(Categorized(InvalidArgument, [])) && r.calls == []
    ensures req.Some? && SessionIdOf(req.value.ctx) !in t ==>
              r.status == Err(Categorized(FailedPrecondition, [])) && r.calls == []
    ensures InTaxonomy(r.status)
  {
    if req.None? then
      Rejected(t, InvalidArgument)
    else
      var sid := SessionIdOf(req.value.ctx);
      if sid !in t then Rejected(t, FailedPrecondition)
      else Step(t, [ArmTimer(sid)], [], Ok)
  }

  /** `Stop` (Acct-Status-Type Stop). */
  function Stop(t: Table, cfg: Config, o: Oracle, req: Option<StopRequest>): (r: Step)
    ensures req.None? ==> r == Rejected(t, InvalidArgument)
    // an unknown session is already stopped: success, no change, no calls
    ensures req.Some? && SessionIdOf(req.value.ctx) !in t ==> r == Step(t, [], [], Ok)
    // a known session is removed whatever its backend teardown replies
    ensures req.Some? ==>
              var sid := SessionIdOf(req.value.ctx);
              && r.table.Keys == t.Keys - {sid}
              && forall k | k in r.table :: r.table[k] == t[k]
    ensures r.status.Err? <==> req.None? || (SessionIdOf(req.value.ctx) in t && cfg.accountingEnabled && o.endSession.Failed?)
    ensures req.Some? && r.status.Err? ==> r.status.error == Categorized(Unavailable, [Backend(o.endSession.cause)])
    ensures req.Some? && SessionIdOf(req.value.ctx) in t ==>
              var s := t[SessionIdOf(req.value.ctx)];
              && (cfg.accountingEnabled ==> r.calls == [EndSmSession(MakeSid(s.imsi).id, s.apn)])
              && (!cfg.accountingEnabled ==> r.calls == [DeleteDirectoryRecord(s.imsi)])
              && |r.events| == (if cfg.eventLoggingEnabled then 1 else 0)
              && forall e | e in r.events :: e.kind == AccountingStop && (e.TerminationFailed? <==> r.status.Err?)
    ensures ImsiUnique(t) ==> ImsiUnique(r.table)
    ensures InTaxonomy(r.status)
  {
    if req.None? then
      Rejected(t, InvalidArgument)
    else
      var removal := RemoveSession(t, SessionIdOf(req.value.ctx));
      if removal.session.None? then
        Step(t, [], [], Ok)
      else
        var (calls, smErr) := Teardown(cfg, o, removal.session.value);
        var status := if smErr.Some? then Err(Categorized(Unavailable, [smErr.value])) else Ok;
        Step(removal.table, calls, TerminationEvents(cfg, AccountingStop, status), status)
  }

  // ---------------------------------------------------------------------
  // Inbound notifications

  /** `TerminateSession`: the session manager ended the session; drop it and
      ask the RADIUS server to disconnect the client. No events are emitted. */
  function TerminateSession(t: Table, o: Oracle, req: Option<TerminateRequest>): (r: Step)
    ensures r.events == []
    ensures var sid := if req.Some? then req.value.radiusSessionId else "";
            && r.table.Keys == t.Keys - {sid}
            && (forall k | k in r.table :: r.table[k] == t[k])
            && (sid !in t ==> r == Rejected(t, FailedPrecondition))
    // the stored IMSI, prefixed if need be, must equal the claimed one verbatim
    ensures var sid := if req.Some? then req.value.radiusSessionId else "";
            var claim := if req.Some? then req.value.imsi else "";
            sid in t ==>
              && (MakeSid(t[sid].imsi).id != claim ==>
                    r.status == Err(Categorized(InvalidArgument, [])) && r.calls == [])
              && (MakeSid(t[sid].imsi).id == claim && o.radiusConnection.Failed? ==>
                    && r.status == Err(Categorized(Unavailable, [Backend(o.radiusConnection.cause)]))
                    && r.calls == [GetRadiusConnection])
              && (MakeSid(t[sid].imsi).id == claim && o.radiusConnection.Done? ==>
                    && r.calls == [GetRadiusConnection, Disconnect(t[sid])]
                    && (r.status.Ok? <==> o.disconnect.Done?)
                    && (o.disconnect.Failed? ==> r.status == Err(Categorized(Internal, [Backend(o.disconnect.cause)]))))
    ensures ImsiUnique(t) ==> ImsiUnique(r.table)
    ensures InTaxonomy(r.status)
  {
    var sid := if req.Some? then req.value.radiusSessionId else "";
    var claim := if req.Some? then req.value.imsi else "";
    var removal := RemoveSession(t, sid);
    if removal.session.None? then
      Rejected(t, FailedPrecondition)
    else
      var s := removal.session.value;
      if MakeSid(s.imsi).id != claim then
        Rejected(removal.table, InvalidArgument)
      else
        var calls := RadiusCalls(o, s);
        var status :=
          if o.radiusConnection.Failed? then Err(Categorized(Unavailable, [Backend(o.radiusConnection.cause)]))
          else if o.disconnect.Failed? then Err(Categorized(Internal, [Backend(o.disconnect.cause)]))
          else Ok;
        Step(removal.table, calls, [], status)
  }

  /** `EndTimedOutSession`: the idle timer dropped the session; end it on the
      backend and disconnect the client, reporting both failures together. */
  function EndTimedOutSession(cfg: Config, o: Oracle, ctx: Option<Context>): (r: Notice)
    ensures ctx.None? ==>
              && r.calls == []
              && r.status == Err(Categorized(InvalidArgument, []))
              && r.events == (if cfg.eventLoggingEnabled then [TerminationFailed(TimeoutNotification)] else [])
    ensures ctx.Some? ==>
              var s := ctx.value;
              var smFailed := cfg.accountingEnabled && o.endSession.Failed?;
              var radFailed := o.radiusConnection.Failed? || o.disconnect.Failed?;
              var radCause :=
                if o.radiusConnection.Failed? then o.radiusConnection.cause
                else if o.disconnect.Failed? then o.disconnect.cause
                else "";
              && (r.status.Ok? <==> !smFailed && !radFailed)
              && (smFailed && radFailed ==>
                    && r.status.error.Categorized? && r.status.error.code == Internal
                    && Quotes(r.status.error, o.endSession.cause) && Quotes(r.status.error, radCause))
              && (!smFailed && radFailed ==>
                    && r.status.error.Categorized? && r.status.error.code == Unavailable
                    && Quotes(r.status.error, radCause))
              && (smFailed && !radFailed ==> r.status == Err(Backend(o.endSession.cause)))
              && (cfg.accountingEnabled ==> EndSmSession(MakeSid(s.imsi).id, s.apn) in r.calls)
              && (!cfg.accountingEnabled ==> DeleteDirectoryRecord(s.imsi) in r.calls)
              && GetRadiusConnection in r.calls
              && r.calls == Teardown(cfg, o, s).0 + RadiusCalls(o, s)
              && (Disconnect(s) in r.calls <==> o.radiusConnection.Done?)
              && |r.events| == (if cfg.eventLoggingEnabled then 1 else 0)
              && forall e | e in r.events :: e.kind == SessionTimeout && (e.TerminationFailed? <==> r.status.Err?)
    ensures InTaxonomy(r.status)
  {
    if ctx.None? then
      var events := if cfg.eventLoggingEnabled then [TerminationFailed(TimeoutNotification)] else [];
      Notice([], events, Err(Categorized(InvalidArgument, [])))
    else
      var s := ctx.value;
      var (teardown, smErr) := Teardown(cfg, o, s);
      var radErr :=
        if o.radiusConnection.Failed? then Some(Categorized(Unavailable, [Backend(o.radiusConnection.cause)]))
        else if o.disconnect.Failed? then Some(Backend(o.disconnect.cause))
        else None;
      var err :=
        if radErr.None? then smErr
        else if smErr.Some? then Some(Categorized(Internal, [smErr.value, radErr.value]))
        else Some(Categorized(Unavailable, [radErr.value]));
      assert o.radiusConnection.Failed? ==> Quotes(radErr.value, o.radiusConnection.cause) by {
        if o.radiusConnection.Failed? {
          assert Backend(o.radiusConnection.cause) in radErr.value.quotes;
        }
      }
      assert radErr.Some? && err.Some? ==> radErr.value in err.value.quotes;
      assert smErr.Some? && radErr.Some? ==> smErr.value in err.value.quotes;
      var status := if err.Some? then Err(err.value) else Ok;
      Notice(teardown + RadiusCalls(o, s), TerminationEvents(cfg, SessionTimeout, status), status)
  }

  /** `timeoutSessionNotifier`: the callback the table runs when a session's
      idle timer fires. `s` is the expired session, if any, and within it the
      session's context, which may itself be missing. A missing session is
      ignored; otherwise the timeout path runs on the session's context. */
  function TimeoutSessionNotifier(cfg: Config, o: Oracle, s: Option<Option<Context>>): (r: Notice)
    // no session: nothing happens
    ensures s.None? ==> r.calls == [] && r.events == [] && r.status == Ok
    // a session without a context is reported as an invalid timeout notification
    ensures s == Some(None) ==>
              && r.calls == []
              && r.status == Err(Categorized(InvalidArgument, []))
              && r.events == (if cfg.eventLoggingEnabled then [TerminationFailed(TimeoutNotification)] else [])
    // a session with a context is torn down on the backend, then disconnected
    ensures s.Some? && s.value.Some? ==>
              var c := s.value.value;
              && r.calls == Teardown(cfg, o, c).0 + RadiusCalls(o, c)
              && (r.status.Ok? <==>
                    !(cfg.accountingEnabled && o.endSession.Failed?)
                    && o.radiusConnection.Done? && o.disconnect.Done?)
              && |r.events| == (if cfg.eventLoggingEnabled then 1 else 0)
              && forall e | e in r.events :: e.kind == SessionTimeout && (e.TerminationFailed? <==> r.status.Err?)
  {
    if s.None? then Notice([], [], Ok) else EndTimedOutSession(cfg, o, s.value)
  }

  // ---------------------------------------------------------------------
  // Bulk add

  /** The context as AddSessions inserts it: one leading "IMSI" stripped. */
  function Normalize(c: Context): (r: Context)
    ensures !HasPrefix(c.imsi) ==> r == c
    ensures HasPrefix(c.imsi) ==> Prefix + r.imsi == c.imsi
    ensures r.imsi == TrimPrefix(c.imsi)
    ensures r.(imsi := c.imsi) == c
  {
    if HasPrefix(c.imsi) then c.(imsi := TrimPrefix(c.imsi)) else c
  }

  datatype Bulk = Bulk(table: Table, failed: seq<string>)

  /** The loop of AddSessions over its first |items| items: every item is
      inserted with overwrite, and the IMSI of every rejected one is listed. */
  function AddAll(t: Table, items: seq<Context>, store: seq<Reply>): (r: Bulk)
    requires |store| == |items|
    ensures |r.failed| <= |items|
    // every stored session was already there, or is one of the items as normalised
    ensures forall k | k in r.table ::
              (k in t && r.table[k] == t[k]) || exists i | 0 <= i < |items| :: r.table[k] == Normalize(items[i])
    decreases |items|
  {
    if |items| == 0 then
      Bulk(t, [])
    else
      var n := |items| - 1;
      var prev := AddAll(t, items[..n], store[..n]);
      var item := Normalize(items[n]);
      match AddSession(prev.table, item, true, store[n])
      case Success(t') => Bulk(t', prev.failed)
      case Failure(_) => Bulk(prev.table, prev.failed + [item.imsi])
  }

  /** `AddSessions`: bulk restore of sessions; every item is tried and the
      call fails, naming the failed IMSIs, when at least one insert failed. */
  function AddSessions(t: Table, items: seq<Context>, store: seq<Reply>): (r: Step)
    requires |store| == |items|
    ensures r.calls == [] && r.events == []
    ensures r.status.Err? ==> r.status.error.Unlisted? && |r.status.error.imsis| > 0
  {
    var bulk := AddAll(t, items, store);
    Step(bulk.table, [], [], if |bulk.failed| > 0 then Err(Unlisted(bulk.failed)) else Ok)
  }
}
