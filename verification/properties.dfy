/** Properties of the accounting servicer that relate several calls, or a
    handler to an independent reference definition. */
module Properties {
  import opened Common
  import opened Imsi
  import opened SessionTable
  import opened Backends
  import opened Accounting

  // ---------------------------------------------------------------------
  // Bulk add

  /** Reference definition: the prefix-trimmed IMSIs of the items whose
      insert is rejected, in input order. */
  function FailedImsis(items: seq<Context>, store: seq<Reply>): seq<string>
    requires |store| == |items|
  {
    if |items| == 0 then []
    else (if store[0].Failed? then [TrimPrefix(items[0].imsi)] else []) + FailedImsis(items[1..], store[1..])
  }

  lemma {:induction false} FailedImsisSnoc(items: seq<Context>, store: seq<Reply>)
    requires |store| == |items| > 0
    ensures var n := |items| - 1;
            FailedImsis(items, store) ==
              FailedImsis(items[..n], store[..n]) + (if store[n].Failed? then [TrimPrefix(items[n].imsi)] else [])
  {
    var n := |items| - 1;
    if n > 0 {
      FailedImsisSnoc(items[1..], store[1..]);
      assert items[1..][..n - 1] == items[..n][1..];
      assert store[1..][..n - 1] == store[..n][1..];
    }
  }

  /** The failed list of AddSessions is exactly the reference list: the table
      contents never influence which IMSIs are reported. */
  lemma {:induction false} AddAllFailed(t: Table, items: seq<Context>, store: seq<Reply>)
    requires |store| == |items|
    ensures AddAll(t, items, store).failed == FailedImsis(items, store)
    decreases |items|
  {
    if |items| > 0 {
      var n := |items| - 1;
      AddAllFailed(t, items[..n], store[..n]);
      FailedImsisSnoc(items, store);
    }
  }

  lemma {:induction false} FailedImsisEmpty(items: seq<Context>, store: seq<Reply>)
    requires |store| == |items|
    ensures |FailedImsis(items, store)| > 0 <==> exists i :: 0 <= i < |items| && store[i].Failed?
    decreases |items|
  {
    if |items| > 0 {
      FailedImsisEmpty(items[1..], store[1..]);
      if exists i :: 0 <= i < |items| && store[i].Failed? {
        var i :| 0 <= i < |items| && store[i].Failed?;
        if i > 0 {
          assert store[1..][i - 1].Failed?;
        }
      }
      if exists i :: 0 <= i < |items| - 1 && store[1..][i].Failed? {
        var i :| 0 <= i < |items| - 1 && store[1..][i].Failed?;
        assert store[i + 1].Failed?;
      }
    }
  }

  /** AddSessions fails exactly when some insert failed, and then names
      exactly the IMSIs of the failed items, in input order. */
  lemma AddSessionsReportsFailures(t: Table, items: seq<Context>, store: seq<Reply>)
    requires |store| == |items|
    ensures var r := AddSessions(t, items, store);
            && (r.status.Err? <==> exists i :: 0 <= i < |items| && store[i].Failed?)
            && (r.status.Err? ==> r.status.error == Unlisted(FailedImsis(items, store)))
  {
    AddAllFailed(t, items, store);
    FailedImsisEmpty(items, store);
  }

  /** Item i is inserted and no later successful item takes its session id or
      its subscriber. */
  ghost predicate Survives(items: seq<Context>, store: seq<Reply>, i: int)
    requires |store| == |items| && 0 <= i < |items|
  {
    && store[i].Done?
    && forall j | i < j < |items| && store[j].Done? ::
         items[j].sessionId != items[i].sessionId && TrimPrefix(items[j].imsi) != TrimPrefix(items[i].imsi)
  }

  /** Partial success: every successful insert that no later item replaces is
      in the table afterwards, with its IMSI trimmed, whatever else failed. */
  lemma {:induction false} AddedSessionsRemain(t: Table, items: seq<Context>, store: seq<Reply>, i: int)
    requires |store| == |items| && 0 <= i < |items| && Survives(items, store, i)
    ensures var r := AddAll(t, items, store);
            var c := Normalize(items[i]);
            c.sessionId in r.table && r.table[c.sessionId] == c
    decreases |items|
  {
    var n := |items| - 1;
    var prev := AddAll(t, items[..n], store[..n]);
    var c := Normalize(items[i]);
    if i < n {
      assert Survives(items[..n], store[..n], i) by {
        forall j | i < j < n && store[..n][j].Done?
          ensures items[..n][j].sessionId != items[..n][i].sessionId
          ensures TrimPrefix(items[..n][j].imsi) != TrimPrefix(items[..n][i].imsi)
        {
          assert items[..n][j] == items[j] && store[..n][j] == store[j];
        }
      }
      AddedSessionsRemain(t, items[..n], store[..n], i);
      assert items[..n][i] == items[i];
    }
  }

  /** A session of the original table that no successful item touches, by
      session id or by subscriber, is still there unchanged. */
  lemma {:induction false} PriorSessionsRemain(t: Table, items: seq<Context>, store: seq<Reply>, k: string)
    requires |store| == |items| && k in t
    requires forall i | 0 <= i < |items| && store[i].Done? ::
               items[i].sessionId != k && TrimPrefix(items[i].imsi) != t[k].imsi
    ensures var r := AddAll(t, items, store);
            k in r.table && r.table[k] == t[k]
    decreases |items|
  {
    if |items| > 0 {
      var n := |items| - 1;
      forall i | 0 <= i < n && store[..n][i].Done?
        ensures items[..n][i].sessionId != k && TrimPrefix(items[..n][i].imsi) != t[k].imsi
      {
        assert items[..n][i] == items[i] && store[..n][i] == store[i];
      }
      PriorSessionsRemain(t, items[..n], store[..n], k);
    }
  }

  /** Bulk add keeps at most one live session per IMSI string. */
  lemma {:induction false} AddAllKeepsImsiUnique(t: Table, items: seq<Context>, store: seq<Reply>)
    requires |store| == |items| && ImsiUnique(t)
    ensures ImsiUnique(AddAll(t, items, store).table)
    decreases |items|
  {
    if |items| > 0 {
      var n := |items| - 1;
      AddAllKeepsImsiUnique(t, items[..n], store[..n]);
    }
  }

  // ---------------------------------------------------------------------
  // Lifecycle

  /** Stop is idempotent: a second Stop for the same session succeeds,
      changes nothing, calls nobody and emits no event. */
  lemma StopIsIdempotent(t: Table, cfg: Config, o1: Oracle, o2: Oracle, req: StopRequest)
    ensures var first := Stop(t, cfg, o1, Some(req));
            Stop(first.table, cfg, o2, Some(req)) == Step(first.table, [], [], Ok)
  {
  }

  /** Once removed by Stop, a session cannot be terminated: the termination
      finds nothing. */
  lemma TerminateAfterStopFindsNothing(t: Table, cfg: Config, o: Oracle, o2: Oracle, sid: string, claim: string)
    ensures var stopped := Stop(t, cfg, o, Some(StopRequest(Some(Context(sid, "", "", "", "", "", "")))));
            TerminateSession(stopped.table, o2, Some(TerminateRequest(sid, claim)))
              == Step(stopped.table, [], [], Err(Categorized(FailedPrecondition, [])))
  {
  }

  /** After Start has recorded a non-empty accounting session id, the next
      CreateSession for the same subscriber is a recycle: it updates the IPFIX
      flow and installs no new MAC flow. */
  lemma StartedSessionIsRecycled(t: Table, cfg: Config, o: Oracle, req: Context, o2: Oracle, next: Context)
    requires ImsiUnique(t) && req.sessionId in t && CreatesOnStart(cfg)
    requires Start(t, cfg, o, Some(req)).status.Ok?
    requires o.createSession.Created? && |o.createSession.id| > 0
    requires next.imsi == t[req.sessionId].imsi && o2.macParses
    ensures var after := Start(t, cfg, o, Some(req)).table;
            var created := CreateSession(after, o2, next);
            && UpdateIpfixFlow(MakeSid(next.imsi).id) in created.calls
            && AddUeMacFlow(MakeSid(next.imsi).id) !in created.calls
  {
  }

  /** A subscriber with no live session is never recycled. */
  lemma UnknownSubscriberGetsNewFlow(t: Table, o: Oracle, ctx: Context)
    requires ImsiUnique(t) && !HasImsi(t, ctx.imsi) && o.macParses
    ensures AddUeMacFlow(MakeSid(ctx.imsi).id) in CreateSession(t, o, ctx).calls
    ensures UpdateIpfixFlow(MakeSid(ctx.imsi).id) !in CreateSession(t, o, ctx).calls
  {
  }

  /** TerminateSession matches the claimed IMSI against the stored one after
      prefixing it, so a claim "IMSI"+d is accepted whether d was stored with
      or without the prefix. */
  lemma TerminateAcceptsEitherStoredForm(t: Table, o: Oracle, sid: string, d: string)
    requires !HasPrefix(d) && sid in t && (t[sid].imsi == d || t[sid].imsi == Prefix + d)
    requires o.radiusConnection.Done? && o.disconnect.Done?
    ensures TerminateSession(t, o, Some(TerminateRequest(sid, Prefix + d))).status == Ok
  {
  }

  /** The claim itself is compared verbatim: a claim without the prefix never
      matches, even for the same subscriber, and nothing is disconnected. */
  lemma TerminateRejectsUnprefixedClaim(t: Table, o: Oracle, sid: string, d: string)
    requires !HasPrefix(d) && sid in t && TrimPrefix(t[sid].imsi) == d
    ensures var r := TerminateSession(t, o, Some(TerminateRequest(sid, d)));
            r.status == Err(Categorized(InvalidArgument, [])) && r.calls == [] && sid !in r.table
  {
  }

  /** A session restored by AddSessions, whose IMSI arrived with or without
      the prefix, can later be terminated with the prefixed claim. */
  lemma RestoredSessionCanBeTerminated(t: Table, items: seq<Context>, store: seq<Reply>, i: int, d: string, o: Oracle)
    requires |store| == |items| && 0 <= i < |items| && Survives(items, store, i)
    requires !HasPrefix(d) && (items[i].imsi == d || items[i].imsi == Prefix + d)
    requires o.radiusConnection.Done? && o.disconnect.Done?
    ensures var restored := AddSessions(t, items, store).table;
            TerminateSession(restored, o, Some(TerminateRequest(items[i].sessionId, Prefix + d))).status == Ok
  {
    AddedSessionsRemain(t, items, store, i);
    PrefixedHasPrefix(d);
    var restored := AddSessions(t, items, store).table;
    assert restored[items[i].sessionId].imsi == d;
    TerminateAcceptsEitherStoredForm(restored, o, items[i].sessionId, d);
  }

  /** The timeout path tears the backend down exactly as Stop does for the
      same session: the same session-manager or directory call first, then the
      RADIUS disconnect that Stop never makes. The session-manager step fails
      on both paths or on neither. */
  lemma TimeoutTearsDownLikeStop(t: Table, cfg: Config, o: Oracle, sid: string)
    requires sid in t && t[sid].sessionId == sid
    ensures EndTimedOutSession(cfg, o, Some(t[sid])).calls
              == Stop(t, cfg, o, Some(StopRequest(Some(t[sid])))).calls + RadiusCalls(o, t[sid])
    ensures Stop(t, cfg, o, Some(StopRequest(Some(t[sid])))).status.Err? <==> cfg.accountingEnabled && o.endSession.Failed?
    ensures Stop(t, cfg, o, Some(StopRequest(Some(t[sid])))).status.Err? ==>
              var timedOut := EndTimedOutSession(cfg, o, Some(t[sid]));
              timedOut.status.Err? && Quotes(timedOut.status.error, o.endSession.cause)
  {
    var timedOut := EndTimedOutSession(cfg, o, Some(t[sid]));
    if cfg.accountingEnabled && o.endSession.Failed? && timedOut.status.Err? && timedOut.status.error.Categorized? {
      assert timedOut.status.error.quotes[0] == Backend(o.endSession.cause);
    }
  }

  /** When the idle timer of a live session fires, the notifier ends it as
      Stop would and then disconnects the client; a session-manager failure
      that Stop would report is reported by the notifier too. */
  lemma ExpiredSessionEndsLikeStop(t: Table, cfg: Config, o: Oracle, sid: string)
    requires sid in t && t[sid].sessionId == sid
    ensures TimeoutSessionNotifier(cfg, o, Some(Some(t[sid]))).calls
              == Stop(t, cfg, o, Some(StopRequest(Some(t[sid])))).calls + RadiusCalls(o, t[sid])
    ensures Stop(t, cfg, o, Some(StopRequest(Some(t[sid])))).status.Err? ==>
              var r := TimeoutSessionNotifier(cfg, o, Some(Some(t[sid])));
              r.status.Err? && Quotes(r.status.error, o.endSession.cause)
  {
    TimeoutTearsDownLikeStop(t, cfg, o, sid);
  }
}
