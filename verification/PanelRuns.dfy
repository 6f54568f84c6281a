/**
 Runs of all operations on the tables: emails stay distinct in every run, and the settings agree
 with the rows in every run that avoids three kinds of calls.
 */
module PanelRuns {
  import opened Options
  import opened PanelModel
  import opened PanelStore
  import opened PanelClients
  import opened PanelClientLaws
  import opened PanelTraffic
  import opened PanelTickLaws

  datatype Op =
    | AddInbound(ib: Inbound, imported: Option<map<string, Row>>)
    | AddClients(id: int, clients: seq<Client>)
    | DelClient(id: int, key: string)
    | UpdateClient(id: int, clients: seq<Client>, key: string)
    | DelInbound(id: int)
    | AddTraffic(traffics: seq<Traffic>, usages: seq<Usage>, clock: Clock, fails: set<Stage>)

  /** The store after an operation; a refused one changes nothing. */
  ghost function After(s: Store, op: Op): Store {
    var next := (
      match op
      case AddInbound(ib, imported) => AddedInbound(s, ib, imported)
      case AddClients(id, clients) => AddedClients(s, id, clients)
      case DelClient(id, key) => DeletedClient(s, id, key)
      case UpdateClient(id, clients, key) => UpdatedClient(s, id, clients, key)
      case DelInbound(id) => Some(DeletedInbound(s, id))
      case AddTraffic(traffics, usages, clock, fails) => Some(Outcome(s, traffics, usages, clock, fails).1));
    if next.Some? then next.value else s
  }

  ghost function Run(s: Store, ops: seq<Op>): Store {
    if ops == [] then s else After(Run(s, ops[..|ops| - 1]), ops[|ops| - 1])
  }

  // ---- the two copies agree ----

  /** No supplied stats, no form that overwrites clients with emails, no key that several clients with emails share. */
  ghost predicate Admissible(s: Store, op: Op) {
    match op
    case AddInbound(ib, imported) => imported.None? && HarmlessKey(s, ib.id)
    case DelClient(id, key) =>
      var i := IndexOf(s.inbounds, id);
      i < |s.inbounds| ==> OneEmailPerKey(s.inbounds[i].protocol, s.inbounds[i].clients, key)
    case _ => true
  }

  ghost predicate AdmissibleRun(s: Store, ops: seq<Op>) {
    forall k :: 0 <= k < |ops| ==> Admissible(Run(s, ops[..k]), ops[k])
  }

  lemma StepConsistent(s: Store, op: Op)
    requires Consistent(s) && Admissible(s, op)
    ensures Consistent(After(s, op))
  {
    hide Consistent, AddedInbound, AddedClients, DeletedClient, UpdatedClient, DeletedInbound, Outcome, OneEmailPerKey;
    match op {
      case AddInbound(ib, _) =>
        if AddedInbound(s, ib, None).Some? { AddedInboundConsistent(s, ib); }
      case AddClients(id, clients) =>
        if AddedClients(s, id, clients).Some? { AddedClientsConsistent(s, id, clients); }
      case DelClient(id, key) =>
        if DeletedClient(s, id, key).Some? {
          DeletedFound(s, id, key);
          DeletedClientConsistent(s, id, key);
        }
      case UpdateClient(id, clients, key) =>
        if UpdatedClient(s, id, clients, key).Some? { UpdatedClientConsistent(s, id, clients, key); }
      case DelInbound(id) =>
        DeletedInboundConsistent(s, id);
      case AddTraffic(traffics, usages, clock, fails) =>
        OutcomeLaw(s, traffics, usages, clock, fails);
    }
  }

  lemma DeletedFound(s: Store, id: int, key: string)
    requires DeletedClient(s, id, key).Some?
    ensures IndexOf(s.inbounds, id) < |s.inbounds|
  {
  }

  /** Every client with an email keeps having one row with its expiry, whatever is done. */
  lemma {:induction false} RunConsistent(s: Store, ops: seq<Op>)
    requires Consistent(s) && AdmissibleRun(s, ops)
    ensures Consistent(Run(s, ops))
    decreases |ops|
  {
    hide Consistent, After, Admissible;
    if ops != [] {
      var n := |ops| - 1;
      forall k | 0 <= k < n
        ensures Admissible(Run(s, ops[..n][..k]), ops[..n][k])
      {
        assert ops[..n][..k] == ops[..k];
      }
      RunConsistent(s, ops[..n]);
      StepConsistent(Run(s, ops[..n]), ops[n]);
    }
  }

  /** The tables of a new installation agree, and so does everything an admissible run makes of them. */
  lemma RunFromEmpty(nextId: int, ops: seq<Op>)
    requires AdmissibleRun(Store([], map[], nextId), ops)
    ensures Consistent(Run(Store([], map[], nextId), ops))
  {
    EmptyConsistent(nextId);
    hide Consistent, AdmissibleRun, Run;
    RunConsistent(Store([], map[], nextId), ops);
  }

  lemma EmptyConsistent(nextId: int)
    ensures Consistent(Store([], map[], nextId))
  {
  }

  // ---- emails stay distinct, with no condition on the run ----

  lemma ReplaceKeepsDistinct(inbounds: seq<Inbound>, i: nat, ib: Inbound)
    requires EmailsDistinct(inbounds) && i < |inbounds| && DistinctWithin(ib.clients)
    requires forall e: string :: e != "" && HasEmail(ib.clients, e) ==>
      HasEmail(inbounds[i].clients, e) || !EmailTaken(inbounds, e)
    ensures EmailsDistinct(inbounds[i := ib])
  {
    hide HasEmail, DistinctWithin;
    var after := inbounds[i := ib];
    forall j, k, e: string | 0 <= j < k < |after| && e != "" && HasEmail(after[j].clients, e)
      ensures !HasEmail(after[k].clients, e)
    {
      if j == i && !EmailTaken(inbounds, e) {
        assert after[k] == inbounds[k];
      }
    }
  }

  lemma InsertKeepsDistinct(inbounds: seq<Inbound>, ib: Inbound)
    requires EmailsDistinct(inbounds) && BatchFree(ib.clients, inbounds)
    ensures EmailsDistinct(inbounds + [ib])
  {
    var after := inbounds + [ib];
    forall j, k, e: string | 0 <= j < k < |after| && e != "" && HasEmail(after[j].clients, e)
      ensures !HasEmail(after[k].clients, e)
    {
      if k == |inbounds| {
        assert EmailTaken(inbounds, e);
      }
    }
  }

  lemma BatchEmails(clients: seq<Client>, inbounds: seq<Inbound>, e: string)
    requires BatchFree(clients, inbounds) && e != "" && HasEmail(clients, e)
    ensures !EmailTaken(inbounds, e)
  {
  }

  lemma HasEmailJoin(a: seq<Client>, b: seq<Client>, e: string)
    ensures HasEmail(a + b, e) <==> HasEmail(a, e) || HasEmail(b, e)
  {
    var both := a + b;
    if HasEmail(a, e) {
      var k :| 0 <= k < |a| && a[k].email == e;
      assert both[k].email == e;
    }
    if HasEmail(b, e) {
      var k :| 0 <= k < |b| && b[k].email == e;
      assert both[|a| + k].email == e;
    }
  }

  lemma AddedInboundDistinct(s: Store, ib: Inbound, imported: Option<map<string, Row>>)
    requires EmailsDistinct(s.inbounds) && AddedInbound(s, ib, imported).Some?
    ensures EmailsDistinct(AddedInbound(s, ib, imported).value.inbounds)
  {
    var saved := ib.(id := if ib.id == 0 then s.nextId else ib.id);
    var i := IndexOf(s.inbounds, saved.id);
    if i < |s.inbounds| {
      forall e: string | e != "" && HasEmail(ib.clients, e)
        ensures !EmailTaken(s.inbounds, e)
      {
        BatchEmails(ib.clients, s.inbounds, e);
      }
      ReplaceKeepsDistinct(s.inbounds, i, saved);
    } else {
      InsertKeepsDistinct(s.inbounds, saved);
    }
  }

  lemma AddedClientsDistinct(s: Store, id: int, clients: seq<Client>)
    requires EmailsDistinct(s.inbounds) && AddedClients(s, id, clients).Some?
    ensures EmailsDistinct(AddedClients(s, id, clients).value.inbounds)
  {
    hide HasEmail, DistinctWithin, EmailTaken;
    var i := IndexOf(s.inbounds, id);
    var ib := s.inbounds[i];
    JoinDistinct(s.inbounds, i, clients);
    forall e: string | e != "" && HasEmail(ib.clients + clients, e)
      ensures HasEmail(ib.clients, e) || !EmailTaken(s.inbounds, e)
    {
      HasEmailJoin(ib.clients, clients, e);
      if HasEmail(clients, e) {
        BatchEmails(clients, s.inbounds, e);
      }
    }
    ReplaceKeepsDistinct(s.inbounds, i, ib.(clients := ib.clients + clients));
  }

  lemma DeletedClientDistinct(s: Store, id: int, key: string)
    requires EmailsDistinct(s.inbounds) && DeletedClient(s, id, key).Some?
    ensures EmailsDistinct(DeletedClient(s, id, key).value.inbounds)
  {
    var i := IndexOf(s.inbounds, id);
    var ib := s.inbounds[i];
    var left := WithoutKey(ib.protocol, ib.clients, key);
    WithoutKeyDistinct(ib.protocol, ib.clients, key);
    WithoutKeyMembers(ib.protocol, ib.clients, key);
    forall e: string | HasEmail(left, e)
      ensures HasEmail(ib.clients, e)
    {
      var b :| 0 <= b < |left| && left[b].email == e;
      assert left[b] in left;
    }
    ReplaceKeepsDistinct(s.inbounds, i, ib.(clients := left));
  }

  lemma UpdatedClientDistinct(s: Store, id: int, clients: seq<Client>, key: string)
    requires EmailsDistinct(s.inbounds) && UpdatedClient(s, id, clients, key).Some?
    ensures EmailsDistinct(UpdatedClient(s, id, clients, key).value.inbounds)
  {
    var i := IndexOf(s.inbounds, id);
    var ib := s.inbounds[i];
    var a := FindKey(ib.protocol, ib.clients, key);
    assert DistinctWithin(ib.clients);
    assert clients[0].email != "" && clients[0].email != ib.clients[a].email ==>
      !EmailTaken(s.inbounds, clients[0].email);
    ExchangeKeepsDistinct(s.inbounds, i, a, clients[0]);
  }

  lemma ExchangeKeepsDistinct(inbounds: seq<Inbound>, i: nat, a: nat, c: Client)
    requires EmailsDistinct(inbounds) && i < |inbounds| && a < |inbounds[i].clients|
    requires c.email != "" && c.email != inbounds[i].clients[a].email ==> !EmailTaken(inbounds, c.email)
    ensures EmailsDistinct(inbounds[i := inbounds[i].(clients := inbounds[i].clients[a := c])])
  {
    var clients := inbounds[i].clients;
    var after := clients[a := c];
    assert DistinctWithin(clients);
    assert HasEmail(clients, c.email) ==> EmailTaken(inbounds, c.email);
    assert DistinctWithin(after);
    forall e: string | e != "" && HasEmail(after, e)
      ensures HasEmail(clients, e) || !EmailTaken(inbounds, e)
    {
      var b :| 0 <= b < |after| && after[b].email == e;
      assert b != a ==> clients[b].email == e;
      assert b == a && e == clients[a].email ==> HasEmail(clients, e);
    }
    ReplaceKeepsDistinct(inbounds, i, inbounds[i].(clients := after));
  }

  lemma DeletedInboundDistinct(s: Store, id: int)
    requires EmailsDistinct(s.inbounds)
    ensures EmailsDistinct(DeletedInbound(s, id).inbounds)
  {
    hide HasEmail, DistinctWithin;
  }

  lemma AlikeDistinct(inbounds: seq<Inbound>, after: seq<Inbound>)
    requires EmailsDistinct(inbounds) && InboundsAlike(inbounds, after)
    ensures EmailsDistinct(after)
  {
    forall i | 0 <= i < |after|
      ensures DistinctWithin(after[i].clients)
      ensures forall e: string :: HasEmail(after[i].clients, e) <==> HasEmail(inbounds[i].clients, e)
    {
      assert DistinctWithin(inbounds[i].clients);
      assert forall a :: 0 <= a < |after[i].clients| ==> after[i].clients[a].email == inbounds[i].clients[a].email;
    }
    hide HasEmail, DistinctWithin;
  }

  lemma OutcomeDistinct(s: Store, traffics: seq<Traffic>, usages: seq<Usage>, clock: Clock, fails: set<Stage>)
    requires EmailsDistinct(s.inbounds)
    ensures EmailsDistinct(Outcome(s, traffics, usages, clock, fails).1.inbounds)
  {
    OutcomeKeepsClients(s, traffics, usages, clock, fails);
    AlikeDistinct(s.inbounds, Outcome(s, traffics, usages, clock, fails).1.inbounds);
  }

  lemma StepDistinct(s: Store, op: Op)
    requires EmailsDistinct(s.inbounds)
    ensures EmailsDistinct(After(s, op).inbounds)
  {
    hide EmailsDistinct, AddedInbound, AddedClients, DeletedClient, UpdatedClient, DeletedInbound, Outcome;
    match op {
      case AddInbound(ib, imported) =>
        if AddedInbound(s, ib, imported).Some? { AddedInboundDistinct(s, ib, imported); }
      case AddClients(id, clients) =>
        if AddedClients(s, id, clients).Some? { AddedClientsDistinct(s, id, clients); }
      case DelClient(id, key) =>
        if DeletedClient(s, id, key).Some? { DeletedClientDistinct(s, id, key); }
      case UpdateClient(id, clients, key) =>
        if UpdatedClient(s, id, clients, key).Some? { UpdatedClientDistinct(s, id, clients, key); }
      case DelInbound(id) =>
        DeletedInboundDistinct(s, id);
      case AddTraffic(traffics, usages, clock, fails) =>
        OutcomeDistinct(s, traffics, usages, clock, fails);
    }
  }

  /** In every run of these operations no two clients share an email, imports and reused keys included. */
  lemma {:induction false} RunDistinct(s: Store, ops: seq<Op>)
    requires EmailsDistinct(s.inbounds)
    ensures EmailsDistinct(Run(s, ops).inbounds)
    decreases |ops|
  {
    hide EmailsDistinct, After;
    if ops != [] {
      RunDistinct(s, ops[..|ops| - 1]);
      StepDistinct(Run(s, ops[..|ops| - 1]), ops[|ops| - 1]);
    }
  }
}
