/**
 Delayed expiries over runs of all operations: one starts once, with the first traffic of its user
 that is committed, and then moves by whole renewal periods until the client is edited or deleted.
 */
module PanelDelays {
  import opened Options
  import opened PanelModel
  import opened PanelStore
  import opened PanelClients
  import opened PanelClientLaws
  import opened PanelTick
  import opened PanelTraffic
  import opened PanelTickLaws
  import opened PanelRuns

  // ---- operations on others ----

  /** The operation neither edits nor deletes the client with this email, nor its inbound. */
  ghost predicate Spares(s: Store, op: Op, e: string) {
    match op
    case DelClient(id, key) =>
      var i := IndexOf(s.inbounds, id);
      i < |s.inbounds| ==> EmailOfKey(s.inbounds[i].protocol, s.inbounds[i].clients, key) != e
    case UpdateClient(id, _, key) =>
      var i := IndexOf(s.inbounds, id);
      i < |s.inbounds| ==>
        (var a := FindKey(s.inbounds[i].protocol, s.inbounds[i].clients, key);
         a < |s.inbounds[i].clients| ==> s.inbounds[i].clients[a].email != e)
    case DelInbound(id) => e in s.rows ==> s.rows[e].inboundId != id
    case _ => true
  }

  /** Such an operation leaves the client's row alone, whatever else it does. */
  lemma SparedKeeps(s: Store, op: Op, e: string)
    requires Consistent(s) && Admissible(s, op) && Spares(s, op, e) && !op.AddTraffic? && e in s.rows && e != ""
    ensures e in After(s, op).rows && After(s, op).rows[e] == s.rows[e]
  {
    match op {
      case AddInbound(ib, _) =>
        RowsStay(s.rows, if ib.id == 0 then s.nextId else ib.id, ib.clients, true, e);
      case AddClients(id, clients) =>
        RowsStay(s.rows, id, clients, false, e);
      case DelClient(_, _) =>
      case UpdateClient(id, clients, key) =>
        UpdateSpares(s, id, clients, key, e);
      case DelInbound(_) =>
    }
  }

  lemma UpdateSpares(s: Store, id: int, clients: seq<Client>, key: string, e: string)
    requires Consistent(s) && Spares(s, UpdateClient(id, clients, key), e) && e in s.rows && e != ""
    ensures UpdatedClient(s, id, clients, key).Some? ==>
      e in UpdatedClient(s, id, clients, key).value.rows
        && UpdatedClient(s, id, clients, key).value.rows[e] == s.rows[e]
  {
    hide Consistent;
    RowedMeansTaken(s, e);
  }

  // ---- one step ----

  /** A committed tick that reports traffic of the user. */
  predicate Starts(op: Op, e: string) {
    op.AddTraffic? && Commits(op.fails) && FirstUsage(op.usages, e).Some?
  }

  /** Later expiries are renewals of an earlier one: whole periods later. */
  ghost predicate Renewals(expiry: int, later: int, reset: int) {
    expiry == later || (reset > 0 && exists k: nat :: WholePeriods(expiry, reset * DAY, k, later))
  }

  lemma RenewalsAdd(a: int, b: int, c: int, reset: int)
    requires Renewals(a, b, reset) && Renewals(b, c, reset)
    ensures Renewals(a, c, reset)
  {
    if a != b && b != c {
      var k: nat :| WholePeriods(a, reset * DAY, k, b);
      var j: nat :| WholePeriods(b, reset * DAY, j, c);
      PeriodsJoin(a, k, j, reset * DAY);
      assert WholePeriods(a, reset * DAY, k + j, c);
    }
  }

  lemma PeriodsJoin(a: int, k: nat, j: nat, period: int)
    ensures a + k * period + j * period == a + (k + j) * period
  {
  }

  lemma RenewsByPeriods(row: Row, now: int)
    requires Due(row, now)
    ensures RenewedRow(row, now).expiry >= 0 && RenewedRow(row, now).reset == row.reset
    ensures Renewals(row.expiry, RenewedRow(row, now).expiry, row.reset)
  {
    var k := NextExpiryIsLeast(row.expiry, row.reset * DAY, now);
    assert WholePeriods(row.expiry, row.reset * DAY, k, RenewedRow(row, now).expiry);
  }

  /** A delayed expiry waits unless a committed tick reports traffic. */
  lemma UnusedWaits(row: Row, used: Option<Usage>, clock: Clock, fails: set<Stage>)
    requires row.expiry < 0 && !(Commits(fails) && used.Some?)
    ensures RowAfter(row, used, clock, fails).expiry == row.expiry
    ensures RowAfter(row, used, clock, fails).reset == row.reset
  {
    hide Exhausted;
  }

  /** The first use turns a delayed expiry into now minus it, and may already renew it. */
  lemma FirstUseStarts(row: Row, used: Option<Usage>, clock: Clock, fails: set<Stage>)
    requires row.expiry < 0 && used.Some? && Commits(fails) && clock.adjust >= 0
    ensures RowAfter(row, used, clock, fails).reset == row.reset && RowAfter(row, used, clock, fails).expiry >= 0
    ensures Renewals(clock.adjust - row.expiry, RowAfter(row, used, clock, fails).expiry, row.reset)
  {
    hide Exhausted, NextExpiry;
    var accounted := AccountedRow(row, used, clock.adjust);
    if Due(accounted, clock.renew) {
      RenewsByPeriods(accounted, clock.renew);
    }
  }

  /** An expiry that is not delayed changes in a tick only by renewal. */
  lemma StartedOnlyRenews(row: Row, used: Option<Usage>, clock: Clock, fails: set<Stage>)
    requires row.expiry >= 0
    ensures RowAfter(row, used, clock, fails).reset == row.reset && RowAfter(row, used, clock, fails).expiry >= 0
    ensures Renewals(row.expiry, RowAfter(row, used, clock, fails).expiry, row.reset)
  {
    hide Exhausted, NextExpiry;
    var accounted := AccountedRow(row, used, clock.adjust);
    if Due(accounted, clock.renew) {
      RenewsByPeriods(accounted, clock.renew);
    }
  }

  // ---- whole runs ----

  ghost predicate SparedRun(s: Store, ops: seq<Op>, e: string) {
    forall k :: 0 <= k < |ops| ==> Spares(Run(s, ops[..k]), ops[k], e)
  }

  lemma PrefixRuns(s: Store, ops: seq<Op>, n: nat, e: string)
    requires n <= |ops| && AdmissibleRun(s, ops) && SparedRun(s, ops, e)
    ensures AdmissibleRun(s, ops[..n]) && SparedRun(s, ops[..n], e)
  {
    hide Admissible, Spares, Run;
    forall k | 0 <= k < n
      ensures Admissible(Run(s, ops[..n][..k]), ops[..n][k]) && Spares(Run(s, ops[..n][..k]), ops[..n][k], e)
    {
      assert ops[..n][..k] == ops[..k];
    }
  }

  /** The last step of a run: a spared row stays, or a tick takes it to its next state. */
  lemma LastStep(s: Store, ops: seq<Op>, n: nat, e: string)
    requires n + 1 == |ops| && Consistent(s) && AdmissibleRun(s, ops) && SparedRun(s, ops, e) && e != ""
    requires e in Run(s, ops[..n]).rows
    ensures e in Run(s, ops).rows
    ensures Run(s, ops).rows[e] ==
      if ops[n].AddTraffic?
        then RowAfter(Run(s, ops[..n]).rows[e], FirstUsage(ops[n].usages, e), ops[n].clock, ops[n].fails)
      else Run(s, ops[..n]).rows[e]
  {
    hide Admissible, Spares, Consistent, RowAfter, FirstUsage, Outcome;
    PrefixRuns(s, ops, n, e);
    RunConsistent(s, ops[..n]);
    var before := Run(s, ops[..n]);
    assert Admissible(before, ops[n]) && Spares(before, ops[n], e);
    assert Run(s, ops) == After(before, ops[n]);
    if ops[n].AddTraffic? {
      OutcomeLaw(before, ops[n].traffics, ops[n].usages, ops[n].clock, ops[n].fails);
    } else {
      SparedKeeps(before, ops[n], e);
      hide After;
    }
  }

  /** Until a committed tick reports traffic of the user, the delayed expiry waits. */
  lemma {:induction false} DelayWaits(s: Store, ops: seq<Op>, e: string)
    requires Consistent(s) && AdmissibleRun(s, ops) && SparedRun(s, ops, e)
    requires e in s.rows && e != "" && s.rows[e].expiry < 0
    requires forall j: nat :: j < |ops| ==> !Starts(ops[j], e)
    ensures e in Run(s, ops).rows && Run(s, ops).rows[e].expiry == s.rows[e].expiry
    ensures Run(s, ops).rows[e].reset == s.rows[e].reset
    decreases |ops|
  {
    hide Consistent, AdmissibleRun, SparedRun, After, RowAfter;
    if ops != [] {
      var n := |ops| - 1;
      PrefixRuns(s, ops, n, e);
      DelayWaits(s, ops[..n], e);
      LastStep(s, ops, n, e);
      assert !Starts(ops[n], e);
      if ops[n].AddTraffic? {
        UnusedWaits(Run(s, ops[..n]).rows[e], FirstUsage(ops[n].usages, e), ops[n].clock, ops[n].fails);
      }
    }
  }

  /** Operation k is the first committed tick that reports traffic of the user. */
  ghost predicate FirstStart(ops: seq<Op>, k: nat, e: string) {
    k < |ops| && Starts(ops[k], e) && forall j: nat :: j < k ==> !Starts(ops[j], e)
  }

  /**
     Over any run that does not edit or delete the client, a delayed expiry starts exactly once: at the
     first committed tick that reports its traffic it becomes that tick's clock minus it, and from then
     on it changes by whole renewal periods only.  Ticks that are rolled back start nothing.
   */
  lemma {:induction false} DelayStartsOnce(s: Store, ops: seq<Op>, e: string, k: nat)
    requires Consistent(s) && AdmissibleRun(s, ops) && SparedRun(s, ops, e)
    requires e in s.rows && e != "" && s.rows[e].expiry < 0
    requires FirstStart(ops, k, e) && ops[k].clock.adjust >= 0
    ensures e in Run(s, ops).rows && Run(s, ops).rows[e].reset == s.rows[e].reset && Run(s, ops).rows[e].expiry >= 0
    ensures Renewals(ops[k].clock.adjust - s.rows[e].expiry, Run(s, ops).rows[e].expiry, s.rows[e].reset)
    decreases |ops|
  {
    hide Consistent, AdmissibleRun, SparedRun, After, RowAfter, Renewals, Run;
    var n := |ops| - 1;
    PrefixRuns(s, ops, n, e);
    if n == k {
      DelayWaits(s, ops[..n], e);
      LastStep(s, ops, n, e);
      FirstUseStarts(Run(s, ops[..n]).rows[e], FirstUsage(ops[n].usages, e), ops[n].clock, ops[n].fails);
    } else {
      assert FirstStart(ops[..n], k, e);
      DelayStartsOnce(s, ops[..n], e, k);
      LastStep(s, ops, n, e);
      var before := Run(s, ops[..n]).rows[e];
      var start := ops[k].clock.adjust - s.rows[e].expiry;
      if ops[n].AddTraffic? {
        StartedOnlyRenews(before, FirstUsage(ops[n].usages, e), ops[n].clock, ops[n].fails);
        RenewalsAdd(start, before.expiry, Run(s, ops).rows[e].expiry, s.rows[e].reset);
      }
    }
  }
}
