/**
 Starting delayed expiries and renewing: both passes walk over the clients of some inbounds and
 rewrite a client together with its loaded row.
 */
module PanelSweep {
  import opened PanelModel
  import opened PanelStore
  import opened PanelTick

  datatype Pass = Adjusting(now: int) | Renewing(now: int)

  predicate Wants(pass: Pass, row: Row) {
    if pass.Adjusting? then row.expiry < 0 else row.reset > 0
  }

  /** A delayed expiry starts from the client's own number, a renewal from the row's. */
  function TouchedRow(pass: Pass, row: Row, clientExpiry: int): Row {
    if !Wants(pass, row) then row
    else if pass.Adjusting? then row.(expiry := pass.now - clientExpiry)
    else RenewedRow(row, pass.now)
  }

  function TouchedClient(pass: Pass, row: Row, c: Client): Client {
    if Wants(pass, row) then c.(expiry := TouchedRow(pass, row, c.expiry).expiry) else c
  }

  /** What a pass makes of a row that agrees with its client. */
  function New(pass: Pass, row: Row): Row {
    TouchedRow(pass, row, row.expiry)
  }

  /** The loop over one inbound's clients. */
  function SweepClients(pass: Pass, clients: seq<Client>, m: map<string, Row>): (seq<Client>, map<string, Row>) {
    if clients == [] then ([], m)
    else
      var n := |clients| - 1;
      var (done, after) := SweepClients(pass, clients[..n], m);
      var c := clients[n];
      if c.email in after
      then (done + [TouchedClient(pass, after[c.email], c)],
        after[c.email := TouchedRow(pass, after[c.email], c.expiry)])
      else (done + [c], after)
  }

  /** The loop over the inbounds that were loaded. */
  function SweepInbounds(pass: Pass, inbounds: seq<Inbound>, ids: set<int>, m: map<string, Row>)
    : (seq<Inbound>, map<string, Row>)
  {
    if inbounds == [] then ([], m)
    else
      var n := |inbounds| - 1;
      var (done, after) := SweepInbounds(pass, inbounds[..n], ids, m);
      var ib := inbounds[n];
      if ib.id in ids then
        var (clients, next) := SweepClients(pass, ib.clients, after);
        (done + [ib.(clients := clients)], next)
      else (done + [ib], after)
  }

  // ---- one inbound ----

  /** The clients after a pass, when each finds its row as it was loaded. */
  ghost predicate ClientsTouched(pass: Pass, clients: seq<Client>, m: map<string, Row>, after: seq<Client>) {
    |after| == |clients| && forall a :: 0 <= a < |clients| ==>
      && after[a] == clients[a].(expiry := after[a].expiry)
      && (clients[a].email != "" ==>
            after[a] == if clients[a].email in m then TouchedClient(pass, m[clients[a].email], clients[a])
              else clients[a])
  }

  ghost predicate RowsTouched(pass: Pass, clients: seq<Client>, m: map<string, Row>, after: map<string, Row>) {
    && after.Keys == m.Keys
    && (forall e :: e in m && !HasEmail(clients, e) ==> after[e] == m[e])
    && (forall a :: 0 <= a < |clients| && clients[a].email != "" && clients[a].email in m ==>
          after[clients[a].email] == TouchedRow(pass, m[clients[a].email], clients[a].expiry))
  }

  lemma HasEmailPrefix(clients: seq<Client>, n: nat, e: string)
    requires n + 1 == |clients|
    ensures HasEmail(clients, e) <==> HasEmail(clients[..n], e) || clients[n].email == e
  {
    if HasEmail(clients, e) {
      var a :| 0 <= a < |clients| && clients[a].email == e;
      if a < n {
        assert clients[..n][a].email == e;
      }
    }
    if HasEmail(clients[..n], e) {
      var a :| 0 <= a < n && clients[..n][a].email == e;
      assert clients[a].email == e;
    }
  }

  lemma ClientsStep(pass: Pass, clients: seq<Client>, n: nat, m: map<string, Row>,
    done: seq<Client>, after: map<string, Row>)
    requires n + 1 == |clients| && DistinctWithin(clients)
    requires ClientsTouched(pass, clients[..n], m, done) && RowsTouched(pass, clients[..n], m, after)
    ensures (var c := clients[n];
      ClientsTouched(pass, clients, m, done + [if c.email in after then TouchedClient(pass, after[c.email], c) else c]))
  {
    hide TouchedRow, HasEmail;
    var c := clients[n];
    if c.email != "" {
      NewToPrefix(clients, n);
    }
    var next := done + [if c.email in after then TouchedClient(pass, after[c.email], c) else c];
    forall a | 0 <= a < |clients|
      ensures next[a] == clients[a].(expiry := next[a].expiry)
      ensures clients[a].email != "" ==>
        next[a] == if clients[a].email in m then TouchedClient(pass, m[clients[a].email], clients[a]) else clients[a]
    {
      if a < n {
        assert clients[..n][a] == clients[a] && next[a] == done[a];
      }
    }
  }

  lemma RowsStep(pass: Pass, clients: seq<Client>, n: nat, m: map<string, Row>, after: map<string, Row>)
    requires n + 1 == |clients| && DistinctWithin(clients)
    requires RowsTouched(pass, clients[..n], m, after)
    ensures (var c := clients[n];
      RowsTouched(pass, clients, m,
                  if c.email in after then after[c.email := TouchedRow(pass, after[c.email], c.expiry)] else after))
  {
    hide TouchedRow, HasEmail;
    var c := clients[n];
    if c.email != "" {
      NewToPrefix(clients, n);
    }
    forall e: string
      ensures HasEmail(clients, e) <==> HasEmail(clients[..n], e) || clients[n].email == e
    {
      HasEmailPrefix(clients, n, e);
    }
    var next := if c.email in after then after[c.email := TouchedRow(pass, after[c.email], c.expiry)] else after;
    forall a | 0 <= a < |clients| && clients[a].email != "" && clients[a].email in m
      ensures next[clients[a].email] == TouchedRow(pass, m[clients[a].email], clients[a].expiry)
    {
      if a < n {
        assert clients[..n][a] == clients[a];
      }
    }
  }

  lemma {:induction false} SweepClientsTouches(pass: Pass, clients: seq<Client>, m: map<string, Row>)
    requires DistinctWithin(clients)
    ensures ClientsTouched(pass, clients, m, SweepClients(pass, clients, m).0)
    ensures RowsTouched(pass, clients, m, SweepClients(pass, clients, m).1)
    decreases |clients|
  {
    hide TouchedRow, TouchedClient, HasEmail;
    if clients != [] {
      var n := |clients| - 1;
      SweepClientsTouches(pass, clients[..n], m);
      var (done, after) := SweepClients(pass, clients[..n], m);
      ClientsStep(pass, clients, n, m, done, after);
      RowsStep(pass, clients, n, m, after);
      hide ClientsTouched, RowsTouched;
    }
  }

  lemma NewToPrefix(clients: seq<Client>, n: nat)
    requires DistinctWithin(clients) && n + 1 == |clients| && clients[n].email != ""
    ensures !HasEmail(clients[..n], clients[n].email)
  {
  }

  // ---- all loaded inbounds ----

  /** Distinct keys, no repeated email in an inbound, and every client's row agrees with it. */
  ghost predicate Sound(inbounds: seq<Inbound>, rows: map<string, Row>) {
    && IdsDistinct(inbounds)
    && forall i :: 0 <= i < |inbounds| ==>
      DistinctWithin(inbounds[i].clients) && AllMirrored(inbounds[i].clients, inbounds[i].id, rows)
  }

  /** The loaded rows: a part of the table. */
  ghost predicate Loaded(m: map<string, Row>, rows: map<string, Row>) {
    forall e :: e in m ==> e in rows && m[e] == rows[e] && m[e].email == e
  }

  ghost predicate Reached(inbounds: seq<Inbound>, ids: set<int>, row: Row) {
    exists i :: 0 <= i < |inbounds| && inbounds[i].id == row.inboundId && inbounds[i].id in ids
                && HasEmail(inbounds[i].clients, row.email)
  }

  ghost predicate RowsSwept(pass: Pass, inbounds: seq<Inbound>, ids: set<int>, m: map<string, Row>,
    after: map<string, Row>)
  {
    && after.Keys == m.Keys
    && forall e :: e in m && e != "" ==> after[e] == if Reached(inbounds, ids, m[e]) then New(pass, m[e]) else m[e]
  }

  /** Only expiries change, and a client with a loaded row gets that row's new expiry. */
  ghost predicate InboundSwept(pass: Pass, ib: Inbound, ids: set<int>, m: map<string, Row>, after: Inbound) {
    && after == ib.(clients := after.clients) && |after.clients| == |ib.clients|
    && forall a :: 0 <= a < |ib.clients| ==>
      && after.clients[a] == ib.clients[a].(expiry := after.clients[a].expiry)
      && (ib.clients[a].email != "" ==>
            after.clients[a].expiry ==
            if ib.id in ids && ib.clients[a].email in m then New(pass, m[ib.clients[a].email]).expiry
              else ib.clients[a].expiry)
  }

  ghost predicate InboundsSwept(pass: Pass, inbounds: seq<Inbound>, ids: set<int>, m: map<string, Row>,
    after: seq<Inbound>)
  {
    |after| == |inbounds| && forall i :: 0 <= i < |inbounds| ==> InboundSwept(pass, inbounds[i], ids, m, after[i])
  }

  lemma ReachedPrefix(inbounds: seq<Inbound>, n: nat, ids: set<int>, row: Row)
    requires n + 1 == |inbounds|
    ensures (Reached(inbounds, ids, row) <==>
             Reached(inbounds[..n], ids, row)
               || (inbounds[n].id == row.inboundId && inbounds[n].id in ids
                 && HasEmail(inbounds[n].clients, row.email)))
  {
    hide HasEmail;
    if Reached(inbounds[..n], ids, row) {
      var i :| 0 <= i < n && inbounds[..n][i].id == row.inboundId && inbounds[..n][i].id in ids
               && HasEmail(inbounds[..n][i].clients, row.email);
      assert inbounds[i].id == row.inboundId;
    }
    if Reached(inbounds, ids, row) {
      var i :| 0 <= i < |inbounds| && inbounds[i].id == row.inboundId && inbounds[i].id in ids
               && HasEmail(inbounds[i].clients, row.email);
      if i < n {
        assert inbounds[..n][i].id == row.inboundId;
      }
    }
  }

  /** A client's row has not been reached through another inbound. */
  lemma NotReachedBefore(inbounds: seq<Inbound>, rows: map<string, Row>, n: nat, ids: set<int>, row: Row)
    requires Sound(inbounds, rows) && n + 1 == |inbounds| && row.inboundId == inbounds[n].id
    ensures !Reached(inbounds[..n], ids, row)
  {
  }

  lemma MirroredAt(clients: seq<Client>, id: int, rows: map<string, Row>, e: string)
    requires AllMirrored(clients, id, rows) && HasEmail(clients, e) && e != ""
    ensures e in rows && rows[e].inboundId == id
  {
    var a :| 0 <= a < |clients| && clients[a].email == e;
    assert Mirrored(clients[a], id, rows);
  }

  /** The step for one inbound: its rows are still as they were loaded. */
  lemma InboundStep(pass: Pass, inbounds: seq<Inbound>, rows: map<string, Row>, n: nat, ids: set<int>,
    m: map<string, Row>,
                    before: map<string, Row>, clients: seq<Client>, after: map<string, Row>)
    requires n + 1 == |inbounds| && Sound(inbounds, rows) && Loaded(m, rows) && inbounds[n].id in ids
    requires RowsSwept(pass, inbounds[..n], ids, m, before)
    requires ClientsTouched(pass, inbounds[n].clients, before, clients)
    requires RowsTouched(pass, inbounds[n].clients, before, after)
    ensures RowsSwept(pass, inbounds, ids, m, after)
    ensures InboundSwept(pass, inbounds[n], ids, m, inbounds[n].(clients := clients))
  {
    hide HasEmail, TouchedRow, Reached, IdsDistinct;
    var ib := inbounds[n];
    forall e | e in m && e != "" && HasEmail(ib.clients, e)
      ensures before[e] == m[e] == rows[e]
    {
      MirroredAt(ib.clients, ib.id, rows, e);
      NotReachedBefore(inbounds, rows, n, ids, m[e]);
    }
    forall e | e in m && e != ""
      ensures after[e] == if Reached(inbounds, ids, m[e]) then New(pass, m[e]) else m[e]
    {
      ReachedPrefix(inbounds, n, ids, m[e]);
      if HasEmail(ib.clients, e) {
        MirroredAt(ib.clients, ib.id, rows, e);
        TouchedAt(pass, ib.clients, before, after, e, m[e], ib.id, rows);
      }
    }
    ClientsSwept(pass, ib, rows, ids, m, before, clients);
  }

  lemma ClientsSwept(pass: Pass, ib: Inbound, rows: map<string, Row>, ids: set<int>, m: map<string, Row>,
                     before: map<string, Row>, clients: seq<Client>)
    requires AllMirrored(ib.clients, ib.id, rows) && Loaded(m, rows) && ib.id in ids && before.Keys == m.Keys
    requires ClientsTouched(pass, ib.clients, before, clients)
    requires forall e :: e in m && e != "" && HasEmail(ib.clients, e) ==> before[e] == m[e]
    ensures InboundSwept(pass, ib, ids, m, ib.(clients := clients))
  {
    hide TouchedRow;
    forall a | 0 <= a < |ib.clients| && ib.clients[a].email != ""
      ensures clients[a].expiry ==
              if ib.clients[a].email in m then New(pass, m[ib.clients[a].email]).expiry else ib.clients[a].expiry
    {
      var e := ib.clients[a].email;
      assert Mirrored(ib.clients[a], ib.id, rows);
      assert HasEmail(ib.clients, e);
      if e in m && !Wants(pass, m[e]) {
        Unwanted(pass, m[e]);
      }
    }
  }

  lemma TouchedAt(pass: Pass, clients: seq<Client>, before: map<string, Row>, after: map<string, Row>,
    e: string, row: Row,
                  id: int, rows: map<string, Row>)
    requires RowsTouched(pass, clients, before, after) && HasEmail(clients, e) && e != "" && e in before
    requires before[e] == row
    requires AllMirrored(clients, id, rows) && e in rows && rows[e] == row
    ensures after[e] == New(pass, row)
  {
    var a :| 0 <= a < |clients| && clients[a].email == e;
    assert Mirrored(clients[a], id, rows);
  }

  lemma {:induction false} SweepInboundsSweeps(pass: Pass, inbounds: seq<Inbound>, rows: map<string, Row>,
    ids: set<int>, m: map<string, Row>)
    requires Sound(inbounds, rows) && Loaded(m, rows)
    ensures InboundsSwept(pass, inbounds, ids, m, SweepInbounds(pass, inbounds, ids, m).0)
    ensures RowsSwept(pass, inbounds, ids, m, SweepInbounds(pass, inbounds, ids, m).1)
    decreases |inbounds|
  {
    hide HasEmail, TouchedRow, Reached, IdsDistinct, InboundSwept, ClientsTouched, RowsTouched, RowsSwept, SweepClients;
    if inbounds == [] {
      NothingSwept(pass, ids, m);
    } else {
      var n := |inbounds| - 1;
      var ib := inbounds[n];
      SoundPrefix(inbounds, rows, n);
      SweepInboundsSweeps(pass, inbounds[..n], rows, ids, m);
      var (done, before) := SweepInbounds(pass, inbounds[..n], ids, m);
      if ib.id in ids {
        SweepClientsTouches(pass, ib.clients, before);
        InboundStep(pass, inbounds, rows, n, ids, m, before, SweepClients(pass, ib.clients, before).0,
                    SweepClients(pass, ib.clients, before).1);
      } else {
        InboundSkipped(pass, inbounds, n, ids, m, before);
      }
    }
  }

  lemma SoundPrefix(inbounds: seq<Inbound>, rows: map<string, Row>, n: nat)
    requires Sound(inbounds, rows) && n <= |inbounds|
    ensures Sound(inbounds[..n], rows)
  {
  }

  lemma NothingSwept(pass: Pass, ids: set<int>, m: map<string, Row>)
    ensures RowsSwept(pass, [], ids, m, m)
  {
  }

  lemma InboundSkipped(pass: Pass, inbounds: seq<Inbound>, n: nat, ids: set<int>, m: map<string, Row>,
    before: map<string, Row>)
    requires n + 1 == |inbounds| && inbounds[n].id !in ids
    requires RowsSwept(pass, inbounds[..n], ids, m, before)
    ensures RowsSwept(pass, inbounds, ids, m, before)
    ensures InboundSwept(pass, inbounds[n], ids, m, inbounds[n])
  {
    hide HasEmail, New, Reached;
    forall e | e in m && e != ""
      ensures before[e] == if Reached(inbounds, ids, m[e]) then New(pass, m[e]) else m[e]
    {
      ReachedPrefix(inbounds, n, ids, m[e]);
    }
  }

  // ---- consistency ----

  /** The inbounds of all rows that the pass wants to change were loaded. */
  ghost predicate Covers(pass: Pass, ids: set<int>, m: map<string, Row>) {
    forall e :: e in m && Wants(pass, m[e]) ==> m[e].inboundId in ids
  }

  /** In a consistent store a pass rewrites exactly the rows it wants, and their clients alike. */
  lemma SweepKeeps(pass: Pass, s: Store, ids: set<int>, m: map<string, Row>)
    requires Consistent(s) && Loaded(m, s.rows) && Covers(pass, ids, m)
    ensures (var (inbounds, rows) := SweepInbounds(pass, s.inbounds, ids, m);
      && rows.Keys == m.Keys && InboundsSwept(pass, s.inbounds, ids, m, inbounds)
      && forall e :: e in m && e != "" ==> rows[e] == New(pass, m[e]))
  {
    hide HasEmail, TouchedRow, IdsDistinct, InboundSwept, SweepInbounds;
    SweepInboundsSweeps(pass, s.inbounds, s.rows, ids, m);
    forall e | e in m && e != "" && Wants(pass, m[e])
      ensures Reached(s.inbounds, ids, m[e])
    {
      assert Owned(s.inbounds, s.rows[e]);
    }
    forall e | e in m && !Wants(pass, m[e])
      ensures New(pass, m[e]) == m[e]
    {
      Unwanted(pass, m[e]);
    }
  }

  lemma Unwanted(pass: Pass, row: Row)
    requires !Wants(pass, row)
    ensures New(pass, row) == row
  {
  }

  /** The same owner, expiry, quota and period. */
  predicate SameTerms(a: Row, b: Row) {
    a.inboundId == b.inboundId && a.expiry == b.expiry && a.total == b.total && a.reset == b.reset
  }

  /** A pass changes neither owner, quota nor period. */
  lemma NewKeepsTerms(pass: Pass, row: Row)
    ensures SameTerms(New(pass, row), row.(expiry := New(pass, row).expiry))
  {
  }

  /** Rows with the terms that the pass gives them leave the store consistent. */
  lemma SweptConsistent(pass: Pass, s: Store, ids: set<int>, m: map<string, Row>, inbounds: seq<Inbound>,
    rows: map<string, Row>)
    requires Consistent(s) && Loaded(m, s.rows) && Covers(pass, ids, m)
    requires InboundsSwept(pass, s.inbounds, ids, m, inbounds)
    requires rows.Keys == m.Keys && Keyed(rows)
    requires forall e :: e in m && e != "" ==> SameTerms(rows[e], New(pass, m[e]))
    ensures Consistent(s.(inbounds := inbounds, rows := s.rows + rows))
  {
    hide New, TouchedRow, HasEmail, DistinctWithin, AllMirrored, Owned, InboundSwept;
    var after := s.(inbounds := inbounds, rows := s.rows + rows);
    forall i | 0 <= i < |inbounds|
      ensures inbounds[i].id == s.inbounds[i].id
      ensures forall e: string :: HasEmail(inbounds[i].clients, e) <==> HasEmail(s.inbounds[i].clients, e)
      ensures DistinctWithin(inbounds[i].clients)
      ensures AllMirrored(inbounds[i].clients, inbounds[i].id, after.rows)
    {
      SweptMirrored(pass, s, ids, m, i, inbounds[i], after.rows, rows);
      SweptEmails(pass, s.inbounds[i], ids, m, inbounds[i]);
    }
    forall e | e in after.rows && e != ""
      ensures Owned(inbounds, after.rows[e])
    {
      assert Owned(s.inbounds, s.rows[e]);
      if e in m {
        NewKeepsTerms(pass, m[e]);
      }
      OwnedStill(s.inbounds, s.rows[e], inbounds, after.rows[e]);
    }
  }

  lemma OwnedStill(inbounds: seq<Inbound>, row: Row, after: seq<Inbound>, rowAfter: Row)
    requires Owned(inbounds, row) && |after| == |inbounds| && rowAfter.inboundId == row.inboundId
    requires rowAfter.email == row.email
    requires forall i :: 0 <= i < |inbounds| ==> after[i].id == inbounds[i].id
    requires forall i, e: string :: 0 <= i < |inbounds| && HasEmail(inbounds[i].clients, e) ==>
      HasEmail(after[i].clients, e)
    ensures Owned(after, rowAfter)
  {
    hide HasEmail;
  }

  lemma SweptEmails(pass: Pass, ib: Inbound, ids: set<int>, m: map<string, Row>, after: Inbound)
    requires InboundSwept(pass, ib, ids, m, after) && DistinctWithin(ib.clients)
    ensures after.id == ib.id
    ensures forall e: string :: HasEmail(after.clients, e) <==> HasEmail(ib.clients, e)
    ensures DistinctWithin(after.clients)
  {
    hide New;
    assert forall a :: 0 <= a < |ib.clients| ==> after.clients[a].email == ib.clients[a].email;
  }

  lemma SweptMirrored(pass: Pass, s: Store, ids: set<int>, m: map<string, Row>, i: nat, after: Inbound,
                      all: map<string, Row>, rows: map<string, Row>)
    requires i < |s.inbounds| && AllMirrored(s.inbounds[i].clients, s.inbounds[i].id, s.rows)
    requires Loaded(m, s.rows) && Covers(pass, ids, m) && all == s.rows + rows && rows.Keys == m.Keys
    requires InboundSwept(pass, s.inbounds[i], ids, m, after)
    requires forall e :: e in m && e != "" ==> SameTerms(rows[e], New(pass, m[e]))
    ensures AllMirrored(after.clients, after.id, all)
  {
    hide TouchedRow;
    var ib := s.inbounds[i];
    forall a | 0 <= a < |ib.clients|
      ensures Mirrored(after.clients[a], after.id, all)
    {
      assert Mirrored(ib.clients[a], ib.id, s.rows);
      var e := ib.clients[a].email;
      if e != "" && e in m {
        NewKeepsTerms(pass, m[e]);
        if !Wants(pass, m[e]) {
          Unwanted(pass, m[e]);
        }
      }
    }
  }
}
