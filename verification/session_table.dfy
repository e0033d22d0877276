/** The session table the servicer works against. The Go code only sees it
    through the `aaa.SessionTable` interface, so it is modelled abstractly: a
    map from RADIUS session id to the session's context, with the lookups and
    updates the servicer uses. Timers are not part of the map; re-arming one is
    recorded in the call trace of the handler that does it. */
module SessionTable {
  import opened Common

  /** The accounting context of one session. `acctSessionId` stays empty until
      the session manager has created a backend accounting session. */
  datatype Context = Context(
    sessionId: string,
    imsi: string,
    apn: string,
    macAddr: string,
    ipAddr: string,
    msisdn: string,
    acctSessionId: string)

  type Table = map<string, Context>

  /** At most one live session per IMSI string (compared exactly, with no prefix
      normalisation), so the IMSI index is a function. */
  ghost predicate ImsiUnique(t: Table) {
    forall a, b :: a in t && b in t && t[a].imsi == t[b].imsi ==> a == b
  }

  /** True when some live session belongs to `imsi`. */
  ghost predicate HasImsi(t: Table, imsi: string) {
    exists sid :: sid in t && t[sid].imsi == imsi
  }

  /** `GetSessionByImsi`: the live session stored under exactly this IMSI, if any. */
  function GetSessionByImsi(t: Table, imsi: string): (r: Option<Context>)
    requires ImsiUnique(t)
    ensures r.Some? <==> HasImsi(t, imsi)
    ensures r.Some? ==> r.value.imsi == imsi && exists sid :: sid in t && t[sid] == r.value
  {
    if exists sid | sid in t :: t[sid].imsi == imsi then
      var sid :| sid in t && t[sid].imsi == imsi;
      Some(t[sid])
    else
      None
  }

  datatype Removal = Removal(table: Table, session: Option<Context>)

  /** `RemoveSession`: take a session out of the table and hand it back;
      absent when there was none. */
  function RemoveSession(t: Table, sid: string): (r: Removal)
    ensures r.session.Some? <==> sid in t
    ensures r.session.Some? ==> r.session.value == t[sid]
    ensures r.table.Keys == t.Keys - {sid}
    ensures forall k :: k in r.table ==> r.table[k] == t[k]
    ensures ImsiUnique(t) ==> ImsiUnique(r.table)
  {
    Removal(t - {sid}, if sid in t then Some(t[sid]) else None)
  }

  /** The table without the sessions stored under one IMSI string. */
  function DropImsi(t: Table, imsi: string): (r: Table)
    ensures forall k :: k in r <==> k in t && t[k].imsi != imsi
    ensures forall k :: k in r ==> r[k] == t[k]
  {
    map k | k in t && t[k].imsi != imsi :: t[k]
  }

  /** `AddSession(ctx, ..., overwrite)`: insert a session built from `c`,
      keyed by its RADIUS session id. Without `overwrite` a live session of
      the same IMSI makes it fail; with it, that session is replaced.
      `store` is the table's own verdict on the insert. */
  function AddSession(t: Table, c: Context, overwrite: bool, store: Reply): (r: Result<Table>)
    ensures r.Failure? <==> store.Failed? || (!overwrite && HasImsi(t, c.imsi))
    ensures r.Success? ==> c.sessionId in r.value && r.value[c.sessionId] == c
    ensures r.Success? ==> forall k :: k in r.value && k != c.sessionId ==>
              k in t && r.value[k] == t[k] && t[k].imsi != c.imsi
    ensures r.Success? ==> forall k :: k in t && k != c.sessionId && t[k].imsi != c.imsi ==> k in r.value
    ensures r.Success? && ImsiUnique(t) ==> ImsiUnique(r.value)
  {
    if !overwrite && exists k | k in t :: t[k].imsi == c.imsi then
      Failure(Categorized(AlreadyExists, []))
    else if store.Failed? then
      Failure(Backend(store.cause))
    else
      Success(DropImsi(t, c.imsi)[c.sessionId := c])
  }
}
