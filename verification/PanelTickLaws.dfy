/**
 What one tick does to each row and each inbound, and what it keeps.
 */
module PanelTickLaws {
  import opened Options
  import opened PanelModel
  import opened PanelStore
  import opened PanelTick
  import opened PanelSweep
  import opened PanelTraffic

  // ---- traffic is conserved ----

  function UsedUp(used: Option<Usage>): int {
    if used.None? then 0 else used.value.up
  }

  function UsedDown(used: Option<Usage>): int {
    if used.None? then 0 else used.value.down
  }

  /** Starting delayed expiries touches nothing but expiries. */
  ghost predicate OnlyExpiry(before: map<string, Row>, after: map<string, Row>) {
    after.Keys == before.Keys && forall e :: e in before ==> after[e] == before[e].(expiry := after[e].expiry)
  }

  lemma {:induction false} AdjustClientsOnlyExpiry(now: int, clients: seq<Client>, m: map<string, Row>)
    ensures OnlyExpiry(m, SweepClients(Adjusting(now), clients, m).1)
    decreases |clients|
  {
    if clients != [] {
      AdjustClientsOnlyExpiry(now, clients[..|clients| - 1], m);
    }
  }

  lemma {:induction false} AdjustOnlyExpiry(now: int, inbounds: seq<Inbound>, ids: set<int>, m: map<string, Row>)
    ensures OnlyExpiry(m, SweepInbounds(Adjusting(now), inbounds, ids, m).1)
    decreases |inbounds|
  {
    hide SweepClients;
    if inbounds != [] {
      var n := |inbounds| - 1;
      AdjustOnlyExpiry(now, inbounds[..n], ids, m);
      var before := SweepInbounds(Adjusting(now), inbounds[..n], ids, m).1;
      AdjustClientsOnlyExpiry(now, inbounds[n].clients, before);
    }
  }

  /** In every store, each row receives its user's traffic exactly once, and nobody else's. */
  lemma TrafficConserved(s: Store, usages: seq<Usage>, now: int)
    ensures (var after := Accounted(s, usages, now);
      after.rows.Keys == s.rows.Keys && forall e :: e in s.rows ==>
        after.rows[e] == s.rows[e].(up := s.rows[e].up + UsedUp(FirstUsage(usages, e)),
                                    down := s.rows[e].down + UsedDown(FirstUsage(usages, e)),
                                    expiry := after.rows[e].expiry))
  {
    hide FirstUsage;
    var m := LoadedFor(s.rows, usages);
    AdjustOnlyExpiry(now, s.inbounds, NegativeIds(m), m);
    hide SweepInbounds;
  }

  function TotalOf(inbounds: seq<Inbound>, isDown: bool): int {
    if inbounds == [] then 0
    else
      var ib := inbounds[|inbounds| - 1];
      TotalOf(inbounds[..|inbounds| - 1], isDown) + if isDown then ib.down else ib.up
  }

  predicate HasTag(inbounds: seq<Inbound>, tag: string) {
    exists i :: 0 <= i < |inbounds| && inbounds[i].tag == tag
  }

  /** The traffic reported for inbounds that exist. */
  function Delivered(inbounds: seq<Inbound>, traffics: seq<Traffic>, isDown: bool): int {
    if traffics == [] then 0
    else
      var t := traffics[|traffics| - 1];
      Delivered(inbounds, traffics[..|traffics| - 1], isDown)
      + if t.isInbound && HasTag(inbounds, t.tag) then Amount(t, isDown) else 0
  }

  ghost predicate TagsApart(inbounds: seq<Inbound>) {
    forall i, j :: 0 <= i < j < |inbounds| ==> inbounds[i].tag != inbounds[j].tag
  }

  /** One more counter reaches one inbound, or none. */
  lemma {:induction false} CounterReachesOne(inbounds: seq<Inbound>, traffics: seq<Traffic>, t: Traffic, isDown: bool)
    requires TagsApart(inbounds)
    ensures TotalOf(Counted(inbounds, traffics + [t]), isDown) ==
            TotalOf(Counted(inbounds, traffics), isDown)
            + if t.isInbound && HasTag(inbounds, t.tag) then Amount(t, isDown) else 0
    decreases |inbounds|
  {
    if inbounds != [] {
      var n := |inbounds| - 1;
      CounterReachesOne(inbounds[..n], traffics, t, isDown);
      LastCounted(inbounds, n, traffics, isDown);
      LastCounted(inbounds, n, traffics + [t], isDown);
      hide Counted;
      assert (traffics + [t])[..|traffics|] == traffics;
      HasTagNext(inbounds, n, t.tag);
    }
  }

  lemma LastCounted(inbounds: seq<Inbound>, n: nat, traffics: seq<Traffic>, isDown: bool)
    requires n + 1 == |inbounds|
    ensures TotalOf(Counted(inbounds, traffics), isDown) == TotalOf(Counted(inbounds[..n], traffics), isDown)
      + (if isDown then inbounds[n].down else inbounds[n].up) + TagSum(traffics, inbounds[n].tag, isDown)
  {
    hide TagSum;
    assert Counted(inbounds, traffics)[..n] == Counted(inbounds[..n], traffics);
  }

  lemma HasTagNext(inbounds: seq<Inbound>, n: nat, tag: string)
    requires n + 1 == |inbounds| && TagsApart(inbounds)
    ensures HasTag(inbounds, tag) <==> HasTag(inbounds[..n], tag) || inbounds[n].tag == tag
    ensures inbounds[n].tag == tag ==> !HasTag(inbounds[..n], tag)
  {
    if HasTag(inbounds[..n], tag) {
      var i :| 0 <= i < n && inbounds[..n][i].tag == tag;
      assert inbounds[i].tag == tag;
    }
    if HasTag(inbounds, tag) {
      var i :| 0 <= i < |inbounds| && inbounds[i].tag == tag;
      if i < n {
        assert inbounds[..n][i].tag == tag;
      }
    }
  }

  /** With distinct tags the inbounds together receive every reported byte of an existing inbound once. */
  lemma {:induction false} InboundTrafficConserved(inbounds: seq<Inbound>, traffics: seq<Traffic>, isDown: bool)
    requires TagsApart(inbounds)
    ensures TotalOf(Counted(inbounds, traffics), isDown)
      == TotalOf(inbounds, isDown) + Delivered(inbounds, traffics, isDown)
    decreases |traffics|
  {
    if traffics == [] {
      assert Counted(inbounds, []) == inbounds;
    } else {
      var n := |traffics| - 1;
      InboundTrafficConserved(inbounds, traffics[..n], isDown);
      CounterReachesOne(inbounds, traffics[..n], traffics[n], isDown);
      assert traffics[..n] + [traffics[n]] == traffics;
    }
  }

  // ---- every row by itself, and both copies together ----

  /** A row once its user's traffic is in: the first traffic starts a delayed expiry. */
  function AccountedRow(row: Row, used: Option<Usage>, now: int): Row {
    ChargedRow(if used.Some? && row.expiry < 0 then row.(expiry := now - row.expiry) else row, used)
  }

  /** A failed update of inbounds, first or last, and a failed load of rows leave everything as it was. */
  predicate Commits(fails: set<Stage>) {
    InboundUpdate !in fails && ClientLoad !in fails && InboundDisabling !in fails
  }

  /** What a tick makes of a row, given its user's traffic, the clock and the calls that fail. */
  function RowAfter(row: Row, used: Option<Usage>, clock: Clock, fails: set<Stage>): Row {
    if !Commits(fails) then row
    else
      var accounted := AccountedRow(row, used, clock.adjust);
      var renewed :=
        if RenewLoad !in fails && Due(accounted, clock.renew) then RenewedRow(accounted, clock.renew) else accounted;
      if ClientDisabling in fails then renewed else DisabledRow(renewed, clock.clients)
  }

  lemma AccountingKeeps(s: Store, usages: seq<Usage>, now: int)
    requires Consistent(s)
    ensures Consistent(Accounted(s, usages, now)) && Accounted(s, usages, now).rows.Keys == s.rows.Keys
    ensures forall e :: e in s.rows && e != "" ==>
      Accounted(s, usages, now).rows[e] == AccountedRow(s.rows[e], FirstUsage(usages, e), now)
  {
    hide FirstUsage, TouchedRow, New, SweepInbounds, InboundsSwept, Consistent;
    var pass := Adjusting(now);
    var m := LoadedFor(s.rows, usages);
    var ids := NegativeIds(m);
    ConsistentKeyed(s);
    SweepKeeps(pass, s, ids, m);
    AdjustOnlyExpiry(now, s.inbounds, ids, m);
    var (inbounds, adjusted) := SweepInbounds(pass, s.inbounds, ids, m);
    AdjustedConsistent(s, usages, now, inbounds, adjusted);
    AdjustedRows(s.rows, usages, now, adjusted);
    hide LoadedFor, Charged, AccountedRow, Loaded, Covers, NegativeIds, OnlyExpiry, Keyed;
  }

  lemma AdjustedRows(rows: map<string, Row>, usages: seq<Usage>, now: int, adjusted: map<string, Row>)
    requires adjusted.Keys == LoadedFor(rows, usages).Keys
    requires forall e :: e in adjusted && e != "" ==> adjusted[e] == New(Adjusting(now), LoadedFor(rows, usages)[e])
    ensures (rows + Charged(adjusted, usages)).Keys == rows.Keys
    ensures forall e :: e in rows && e != "" ==>
      (rows + Charged(adjusted, usages))[e] == AccountedRow(rows[e], FirstUsage(usages, e), now)
  {
    hide FirstUsage, New;
    var m := LoadedFor(rows, usages);
    forall e | e in m && e != ""
      ensures adjusted[e] == if m[e].expiry < 0 then m[e].(expiry := now - m[e].expiry) else m[e]
    {
      NewAdjusting(now, m[e]);
    }
  }

  lemma AdjustedConsistent(s: Store, usages: seq<Usage>, now: int, inbounds: seq<Inbound>, adjusted: map<string, Row>)
    requires Consistent(s)
    requires InboundsSwept(Adjusting(now), s.inbounds, NegativeIds(LoadedFor(s.rows, usages)),
      LoadedFor(s.rows, usages), inbounds)
    requires OnlyExpiry(LoadedFor(s.rows, usages), adjusted)
    requires forall e :: e in adjusted && e != "" ==> adjusted[e] == New(Adjusting(now), LoadedFor(s.rows, usages)[e])
    ensures Consistent(s.(inbounds := inbounds, rows := s.rows + Charged(adjusted, usages)))
  {
    hide FirstUsage, TouchedRow, New, InboundsSwept, Consistent;
    var m := LoadedFor(s.rows, usages);
    ConsistentKeyed(s);
    SweptConsistent(Adjusting(now), s, NegativeIds(m), m, inbounds, Charged(adjusted, usages));
  }

  lemma ConsistentKeyed(s: Store)
    requires Consistent(s)
    ensures Keyed(s.rows)
  {
  }

  lemma NewAdjusting(now: int, row: Row)
    ensures New(Adjusting(now), row) == if row.expiry < 0 then row.(expiry := now - row.expiry) else row
  {
  }

  lemma NewRenewing(now: int, row: Row)
    requires row.reset > 0
    ensures New(Renewing(now), row) == RenewedRow(row, now)
  {
  }

  lemma {:induction false} RenewClientsKeyed(now: int, clients: seq<Client>, m: map<string, Row>)
    requires Keyed(m)
    ensures Keyed(SweepClients(Renewing(now), clients, m).1)
    decreases |clients|
  {
    if clients != [] {
      RenewClientsKeyed(now, clients[..|clients| - 1], m);
    }
  }

  lemma {:induction false} RenewKeyed(now: int, inbounds: seq<Inbound>, ids: set<int>, m: map<string, Row>)
    requires Keyed(m)
    ensures Keyed(SweepInbounds(Renewing(now), inbounds, ids, m).1)
    decreases |inbounds|
  {
    hide SweepClients, Keyed;
    if inbounds != [] {
      var n := |inbounds| - 1;
      RenewKeyed(now, inbounds[..n], ids, m);
      RenewClientsKeyed(now, inbounds[n].clients, SweepInbounds(Renewing(now), inbounds[..n], ids, m).1);
    }
  }

  lemma RenewingKeeps(s: Store, now: int)
    requires Consistent(s)
    ensures Consistent(Renewed(s, now)) && Renewed(s, now).rows.Keys == s.rows.Keys
    ensures forall e :: e in s.rows && e != "" ==>
      Renewed(s, now).rows[e] == if Due(s.rows[e], now) then RenewedRow(s.rows[e], now) else s.rows[e]
  {
    hide TouchedRow, New, RenewedRow, SweepInbounds, InboundsSwept, Consistent;
    var pass := Renewing(now);
    var m := DueRows(s.rows, now);
    var ids := IdsOf(m);
    ConsistentKeyed(s);
    SweepKeeps(pass, s, ids, m);
    RenewKeyed(now, s.inbounds, ids, m);
    var (inbounds, renewed) := SweepInbounds(pass, s.inbounds, ids, m);
    forall e | e in m && e != ""
      ensures renewed[e] == RenewedRow(m[e], now) && renewed[e].inboundId == m[e].inboundId
    {
      NewRenewing(now, m[e]);
      RenewedOwner(m[e], now);
    }
    SweptConsistent(pass, s, ids, m, inbounds, renewed);
  }

  lemma RenewedOwner(row: Row, now: int)
    requires row.reset > 0
    ensures RenewedRow(row, now).inboundId == row.inboundId
  {
  }

  /** Tables that agree in keys, emails, terms and clients are equally consistent. */
  lemma SameCopies(s: Store, after: Store)
    requires Consistent(s) && after.nextId == s.nextId && after.rows.Keys == s.rows.Keys
    requires forall e :: e in s.rows ==> SameTerms(after.rows[e], s.rows[e]) && after.rows[e].email == s.rows[e].email
    requires |after.inbounds| == |s.inbounds|
    requires forall i :: 0 <= i < |s.inbounds| ==>
      after.inbounds[i].id == s.inbounds[i].id && after.inbounds[i].clients == s.inbounds[i].clients
    ensures Consistent(after)
  {
    hide HasEmail, DistinctWithin;
    forall i | 0 <= i < |after.inbounds|
      ensures AllMirrored(after.inbounds[i].clients, after.inbounds[i].id, after.rows)
    {
      assert AllMirrored(s.inbounds[i].clients, s.inbounds[i].id, s.rows);
      MirroredAlike(s.inbounds[i].clients, s.inbounds[i].id, s.rows, after.rows);
    }
    hide AllMirrored;
    forall e | e in after.rows && e != ""
      ensures Owned(after.inbounds, after.rows[e])
    {
      assert Owned(s.inbounds, s.rows[e]);
      OwnedStill(s.inbounds, s.rows[e], after.inbounds, after.rows[e]);
    }
  }

  lemma MirroredAlike(clients: seq<Client>, id: int, rows: map<string, Row>, after: map<string, Row>)
    requires AllMirrored(clients, id, rows) && after.Keys == rows.Keys
    requires forall e :: e in rows ==> SameTerms(after[e], rows[e])
    ensures AllMirrored(clients, id, after)
  {
    forall a | 0 <= a < |clients|
      ensures Mirrored(clients[a], id, after)
    {
      assert Mirrored(clients[a], id, rows);
    }
  }

  lemma CountingKeeps(s: Store, traffics: seq<Traffic>)
    requires Consistent(s)
    ensures Consistent(s.(inbounds := Counted(s.inbounds, traffics)))
  {
    hide Consistent, TagSum;
    SameCopies(s, s.(inbounds := Counted(s.inbounds, traffics)));
  }

  lemma DisablingKeeps(s: Store, now: int)
    requires Consistent(s)
    ensures Consistent(ClientsDisabled(s, now)) && Consistent(InboundsDisabled(s, now))
  {
    hide Consistent, Exhausted;
    SameCopies(s, ClientsDisabled(s, now));
    SameCopies(s, InboundsDisabled(s, now));
  }

  /**
     In a consistent store a tick treats every client's row by itself, whatever the other rows are and
     whichever calls fail, and leaves the store consistent: each JSON client has its row's new expiry.
   */
  lemma OutcomeLaw(s: Store, traffics: seq<Traffic>, usages: seq<Usage>, clock: Clock, fails: set<Stage>)
    requires Consistent(s)
    ensures Consistent(Outcome(s, traffics, usages, clock, fails).1)
    ensures Outcome(s, traffics, usages, clock, fails).1.rows.Keys == s.rows.Keys
    ensures forall e :: e in s.rows && e != "" ==>
      Outcome(s, traffics, usages, clock, fails).1.rows[e] == RowAfter(s.rows[e], FirstUsage(usages, e), clock, fails)
  {
    hide FirstUsage, Consistent, Accounted, Renewed, Exhausted, AccountedRow, RenewedRow, Due, Counted;
    if Commits(fails) {
      var counted := s.(inbounds := Counted(s.inbounds, traffics));
      CountingKeeps(s, traffics);
      AccountingKeeps(counted, usages, clock.adjust);
      var accounted := Accounted(counted, usages, clock.adjust);
      RenewingKeeps(accounted, clock.renew);
      var renewed := if RenewLoad in fails then accounted else Renewed(accounted, clock.renew);
      DisablingKeeps(renewed, clock.clients);
      var disabled := if ClientDisabling in fails then renewed else ClientsDisabled(renewed, clock.clients);
      DisablingKeeps(disabled, clock.inbounds);
    }
  }

  // ---- clients keep everything but their expiry ----

  ghost predicate ClientsAlike(clients: seq<Client>, after: seq<Client>) {
    |after| == |clients| && forall a :: 0 <= a < |clients| ==> after[a] == clients[a].(expiry := after[a].expiry)
  }

  ghost predicate InboundsAlike(inbounds: seq<Inbound>, after: seq<Inbound>) {
    |after| == |inbounds| && forall i :: 0 <= i < |inbounds| ==>
      after[i].id == inbounds[i].id && ClientsAlike(inbounds[i].clients, after[i].clients)
  }

  lemma AlikeTwice(a: seq<Inbound>, b: seq<Inbound>, c: seq<Inbound>)
    requires InboundsAlike(a, b) && InboundsAlike(b, c)
    ensures InboundsAlike(a, c)
  {
    forall i | 0 <= i < |a|
      ensures ClientsAlike(a[i].clients, c[i].clients)
    {
      assert ClientsAlike(a[i].clients, b[i].clients) && ClientsAlike(b[i].clients, c[i].clients);
    }
  }

  lemma {:induction false} SweepClientsAlike(pass: Pass, clients: seq<Client>, m: map<string, Row>)
    ensures ClientsAlike(clients, SweepClients(pass, clients, m).0)
    decreases |clients|
  {
    hide TouchedRow;
    if clients != [] {
      SweepClientsAlike(pass, clients[..|clients| - 1], m);
    }
  }

  lemma {:induction false} SweepAlike(pass: Pass, inbounds: seq<Inbound>, ids: set<int>, m: map<string, Row>)
    ensures InboundsAlike(inbounds, SweepInbounds(pass, inbounds, ids, m).0)
    decreases |inbounds|
  {
    hide SweepClients;
    if inbounds != [] {
      var n := |inbounds| - 1;
      SweepAlike(pass, inbounds[..n], ids, m);
      SweepClientsAlike(pass, inbounds[n].clients, SweepInbounds(pass, inbounds[..n], ids, m).1);
    }
  }

  /** In every store a tick changes nothing of a client but its expiry. */
  lemma OutcomeKeepsClients(s: Store, traffics: seq<Traffic>, usages: seq<Usage>, clock: Clock, fails: set<Stage>)
    ensures InboundsAlike(s.inbounds, Outcome(s, traffics, usages, clock, fails).1.inbounds)
  {
    hide SweepInbounds, TagSum, Charged, LoadedFor, DueRows;
    var counted := s.(inbounds := Counted(s.inbounds, traffics));
    var m := LoadedFor(counted.rows, usages);
    SweepAlike(Adjusting(clock.adjust), counted.inbounds, NegativeIds(m), m);
    var accounted := Accounted(counted, usages, clock.adjust);
    AlikeTwice(s.inbounds, counted.inbounds, accounted.inbounds);
    var due := DueRows(accounted.rows, clock.renew);
    SweepAlike(Renewing(clock.renew), accounted.inbounds, IdsOf(due), due);
    var renewed := Renewed(accounted, clock.renew);
    AlikeTwice(s.inbounds, accounted.inbounds, renewed.inbounds);
    var last := if RenewLoad in fails then accounted else renewed;
    AlikeTwice(s.inbounds, last.inbounds, InboundsDisabled(last, clock.inbounds).inbounds);
  }

  // ---- inbounds are charged and limited ----

  ghost predicate OnlyClients(inbounds: seq<Inbound>, after: seq<Inbound>) {
    |after| == |inbounds| && forall i :: 0 <= i < |inbounds| ==> after[i] == inbounds[i].(clients := after[i].clients)
  }

  lemma {:induction false} SweepOnlyClients(pass: Pass, inbounds: seq<Inbound>, ids: set<int>, m: map<string, Row>)
    ensures OnlyClients(inbounds, SweepInbounds(pass, inbounds, ids, m).0)
    decreases |inbounds|
  {
    hide SweepClients;
    if inbounds != [] {
      SweepOnlyClients(pass, inbounds[..|inbounds| - 1], ids, m);
    }
  }

  /**
     In every store a committed tick adds to each inbound what the inbound counters of its tag sum up
     to.  It is enabled afterwards exactly if it was, and neither over its quota with the new numbers
     nor expired.  Besides, only expiries of its clients change.
   */
  lemma InboundsCharged(s: Store, traffics: seq<Traffic>, usages: seq<Usage>, clock: Clock, fails: set<Stage>)
    requires InboundUpdate !in fails && ClientLoad !in fails && InboundDisabling !in fails
    ensures (var after := Outcome(s, traffics, usages, clock, fails).1;
      && |after.inbounds| == |s.inbounds| && after.nextId == s.nextId
      && forall i :: 0 <= i < |s.inbounds| ==>
        var ib, now := s.inbounds[i], after.inbounds[i];
        && now.up == ib.up + TagSum(traffics, ib.tag, false)
        && now.down == ib.down + TagSum(traffics, ib.tag, true)
        && (now.enable <==> (ib.enable && !(ib.total > 0 && now.up + now.down >= ib.total)
                             && !(0 < ib.expiry <= clock.inbounds)))
        && now == ib.(up := now.up, down := now.down, enable := now.enable, clients := now.clients)
        && ClientsAlike(ib.clients, now.clients))
  {
    hide SweepInbounds, TagSum, Charged, LoadedFor, DueRows, ClientsAlike;
    OutcomeKeepsClients(s, traffics, usages, clock, fails);
    var counted := s.(inbounds := Counted(s.inbounds, traffics));
    var m := LoadedFor(counted.rows, usages);
    SweepOnlyClients(Adjusting(clock.adjust), counted.inbounds, NegativeIds(m), m);
    var accounted := Accounted(counted, usages, clock.adjust);
    var due := DueRows(accounted.rows, clock.renew);
    SweepOnlyClients(Renewing(clock.renew), accounted.inbounds, IdsOf(due), due);
  }

  /** With distinct tags the inbounds together grow by every reported byte of an existing inbound, once. */
  lemma TickTotals(s: Store, traffics: seq<Traffic>, usages: seq<Usage>, clock: Clock, fails: set<Stage>, isDown: bool)
    requires InboundUpdate !in fails && ClientLoad !in fails && InboundDisabling !in fails && TagsApart(s.inbounds)
    ensures TotalOf(Outcome(s, traffics, usages, clock, fails).1.inbounds, isDown)
      == TotalOf(s.inbounds, isDown) + Delivered(s.inbounds, traffics, isDown)
  {
    hide Outcome, TagSum, TotalOf, Delivered;
    InboundsCharged(s, traffics, usages, clock, fails);
    InboundTrafficConserved(s.inbounds, traffics, isDown);
    SameTotals(Outcome(s, traffics, usages, clock, fails).1.inbounds, Counted(s.inbounds, traffics), isDown);
  }

  lemma {:induction false} SameTotals(a: seq<Inbound>, b: seq<Inbound>, isDown: bool)
    requires |a| == |b| && forall i :: 0 <= i < |a| ==> a[i].up == b[i].up && a[i].down == b[i].down
    ensures TotalOf(a, isDown) == TotalOf(b, isDown)
    decreases |a|
  {
    if a != [] {
      SameTotals(a[..|a| - 1], b[..|b| - 1], isDown);
    }
  }

  // ---- rows are renewed and limited ----

  /**
     What a tick in which every call succeeds makes of a client's row, in numbers: the first traffic
     starts a delayed expiry; a row that is due starts over at the first later period; any other
     row is charged; and the row is enabled afterwards exactly if it was, or was renewed, and is
     neither over its quota nor expired.
   */
  lemma RowTick(s: Store, traffics: seq<Traffic>, usages: seq<Usage>, clock: Clock, e: string) returns (periods: nat)
    requires Consistent(s) && e in s.rows && e != ""
    ensures (var row, used := s.rows[e], FirstUsage(usages, e);
      var rows := Outcome(s, traffics, usages, clock, {}).1.rows;
      var expiry := if used.Some? && row.expiry < 0 then clock.adjust - row.expiry else row.expiry;
      && e in rows && rows[e]
        == row.(up := rows[e].up, down := rows[e].down, expiry := rows[e].expiry, enable := rows[e].enable)
      && if row.reset > 0 && 0 < expiry <= clock.renew then
           && rows[e].up == 0 && rows[e].down == 0
           && rows[e].expiry == expiry + periods * (row.reset * 86400000) >= clock.renew
           && (forall j: nat :: expiry + j * (row.reset * 86400000) >= clock.renew ==> j >= periods)
           && (rows[e].enable <==> clock.clients < rows[e].expiry)
         else
           && rows[e].up == row.up + (if used.Some? then used.value.up else 0)
           && rows[e].down == row.down + (if used.Some? then used.value.down else 0)
           && rows[e].expiry == expiry
           && (rows[e].enable <==> (row.enable && !(row.total > 0 && rows[e].up + rows[e].down >= row.total)
                                    && !(0 < expiry <= clock.clients))))
  {
    hide Outcome, Consistent, FirstUsage, NextExpiry;
    OutcomeLaw(s, traffics, usages, clock, {});
    var row, used := s.rows[e], FirstUsage(usages, e);
    var expiry := if used.Some? && row.expiry < 0 then clock.adjust - row.expiry else row.expiry;
    periods := 0;
    if row.reset > 0 && 0 < expiry <= clock.renew {
      periods := NextExpiryIsLeast(expiry, row.reset * DAY, clock.renew);
    }
  }

  // ---- limits are enforced ----

  ghost predicate RowsWithinLimits(rows: map<string, Row>, now: int) {
    forall e :: e in rows && rows[e].enable ==> !RowExhausted(rows[e], now)
  }

  /** The same for the rows of clients with an email. */
  ghost predicate UsersWithinLimits(rows: map<string, Row>, now: int) {
    forall e :: e in rows && e != "" && rows[e].enable ==> !RowExhausted(rows[e], now)
  }

  ghost predicate InboundsWithinLimits(inbounds: seq<Inbound>, now: int) {
    forall i :: 0 <= i < |inbounds| && inbounds[i].enable ==>
      !Exhausted(inbounds[i].total, inbounds[i].up, inbounds[i].down, inbounds[i].expiry, now)
  }

  /** Whether a row would have to be disabled: known from the row, its traffic and the clock before the tick. */
  predicate NeedsDisabling(row: Row, used: Option<Usage>, clock: Clock, fails: set<Stage>) {
    var expiry := if used.Some? && row.expiry < 0 then clock.adjust - row.expiry else row.expiry;
    if RenewLoad !in fails && row.reset > 0 && 0 < expiry <= clock.renew
    then NextExpiry(expiry, row.reset * DAY, clock.renew) <= clock.clients
    else row.enable && Exhausted(row.total, row.up + UsedUp(used), row.down + UsedDown(used), expiry, clock.clients)
  }

  lemma DisablingNeeded(row: Row, used: Option<Usage>, clock: Clock, fails: set<Stage>)
    requires Commits(fails) && ClientDisabling in fails
    ensures (var after := RowAfter(row, used, clock, fails);
      after.enable && RowExhausted(after, clock.clients) <==> NeedsDisabling(row, used, clock, fails))
  {
    hide NextExpiry;
    var accounted := AccountedRow(row, used, clock.adjust);
    if RenewLoad !in fails && Due(accounted, clock.renew) {
      var k := NextExpiryIsLeast(accounted.expiry, accounted.reset * DAY, clock.renew);
    }
  }

  /**
     In any store, consistent or not, a tick that reports success leaves nobody enabled who is over
     the quota or expired, and no such inbound, unless a disabling call failed.  A failed disabling of
     inbounds undoes the tick, so then all is as it was before.
   */
  lemma TickEnforces(s: Store, traffics: seq<Traffic>, usages: seq<Usage>, clock: Clock, fails: set<Stage>)
    requires Outcome(s, traffics, usages, clock, fails).0
    ensures (var after := Outcome(s, traffics, usages, clock, fails).1;
      && (InboundDisabling in fails ==> after == s)
      && (ClientDisabling !in fails && InboundDisabling !in fails ==> RowsWithinLimits(after.rows, clock.clients))
      && (InboundsWithinLimits(after.inbounds, clock.inbounds) <==>
            (InboundDisabling !in fails || InboundsWithinLimits(s.inbounds, clock.inbounds))))
  {
    hide Accounted, Renewed, Exhausted, Counted;
  }

  /**
     A failed disabling of clients is only logged.  It leaves every client within limits exactly if none
     needed disabling, which in a consistent store shows row by row before the tick.
   */
  lemma FailedDisablingLeaves(s: Store, traffics: seq<Traffic>, usages: seq<Usage>, clock: Clock, fails: set<Stage>)
    requires Consistent(s) && Commits(fails) && ClientDisabling in fails
    ensures (UsersWithinLimits(Outcome(s, traffics, usages, clock, fails).1.rows, clock.clients) <==>
             forall e :: e in s.rows && e != "" ==> !NeedsDisabling(s.rows[e], FirstUsage(usages, e), clock, fails))
  {
    hide FirstUsage, Outcome, RowExhausted, Consistent, RowAfter, NeedsDisabling;
    OutcomeLaw(s, traffics, usages, clock, fails);
    var after := Outcome(s, traffics, usages, clock, fails).1;
    forall e | e in s.rows && e != ""
      ensures after.rows[e].enable && RowExhausted(after.rows[e], clock.clients)
        <==> NeedsDisabling(s.rows[e], FirstUsage(usages, e), clock, fails)
    {
      DisablingNeeded(s.rows[e], FirstUsage(usages, e), clock, fails);
    }
  }
}
