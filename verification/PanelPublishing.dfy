/**
 From a call that adds clients to the configuration generated next: who is published.
 */
module PanelPublishing {
  import opened Options
  import opened PanelModel
  import opened PanelStore
  import opened PanelClients
  import opened PanelClientLaws
  import opened PanelClientEffects
  import opened PanelTick
  import opened PanelTraffic
  import opened PanelTickLaws
  import opened PanelConfig

  /** The expiry is none, or still to start, or later than the clock readings of the tick. */
  predicate NotYetExpired(expiry: int, clock: Clock) {
    expiry <= 0 || (clock.renew < expiry && clock.clients < expiry)
  }

  /**
     A client with an unused row that is not yet expired is published by the next configuration
     exactly if its inbound is enabled then and it is not switched off itself.
   */
  lemma UnusedRowPublished(s: Store, i: nat, a: nat, clock: Clock, fails: set<Stage>, rows: seq<Row>,
    configs: seq<ConfigInbound>)
    requires Consistent(s) && i < |s.inbounds| && a < |s.inbounds[i].clients|
    requires (var ib, c := s.inbounds[i], s.inbounds[i].clients[a];
      && c.email != "" && c.email in s.rows && UnusedRow(s.rows[c.email], ib.id, c) && NotYetExpired(c.expiry, clock))
    requires (var after := Outcome(s, [], [], clock, fails).1;
      && Lists(rows, after.rows) && IsConfiguration(after.inbounds, rows, configs)
      && ("" in after.rows ==> after.rows[""].enable))
    ensures (var after, c := Outcome(s, [], [], clock, fails).1, s.inbounds[i].clients[a];
      && |after.inbounds| == |s.inbounds| && after.inbounds[i].tag == s.inbounds[i].tag
      && (Publishes(configs, c.email) <==> after.inbounds[i].enable && c.enable != Some(false))
      && (Publishes(configs, c.email) ==> PublishesAs(configs, s.inbounds[i].tag, c)))
  {
    hide Outcome, Consistent, Lists, IsConfiguration, NextExpiry, Publishes, PublishesAs;
    var after, c := Outcome(s, [], [], clock, fails).1, s.inbounds[i].clients[a];
    OutcomeLaw(s, [], [], clock, fails);
    OutcomeKeepsClients(s, [], [], clock, fails);
    TagsKept(s, clock, fails);
    assert after.rows[c.email].enable;
    ConfigurationPublishes(after, rows, configs);
    assert after.inbounds[i].clients[a] == c.(expiry := after.inbounds[i].clients[a].expiry);
    SameIdentity(configs, s.inbounds[i].tag, c, after.inbounds[i].clients[a]);
  }

  lemma TagsKept(s: Store, clock: Clock, fails: set<Stage>)
    ensures (var after := Outcome(s, [], [], clock, fails).1;
      |after.inbounds| == |s.inbounds| && forall i :: 0 <= i < |s.inbounds| ==>
        after.inbounds[i].tag == s.inbounds[i].tag)
  {
    if Commits(fails) {
      InboundsCharged(s, [], [], clock, fails);
      hide Outcome;
    }
  }

  lemma SameIdentity(configs: seq<ConfigInbound>, tag: string, c: Client, d: Client)
    requires d == c.(expiry := d.expiry)
    ensures PublishesAs(configs, tag, c) <==> PublishesAs(configs, tag, d)
  {
  }

  /** So it is for whoever `AddInboundClient` adds. */
  lemma AddedClientPublished(s: Store, id: int, clients: seq<Client>, b: nat, clock: Clock, fails: set<Stage>,
    rows: seq<Row>, configs: seq<ConfigInbound>) returns (i: nat)
    requires Consistent(s) && AddedClients(s, id, clients).Some?
    requires b < |clients| && clients[b].email != "" && NotYetExpired(clients[b].expiry, clock)
    requires (var after := Outcome(AddedClients(s, id, clients).value, [], [], clock, fails).1;
      && Lists(rows, after.rows) && IsConfiguration(after.inbounds, rows, configs)
      && ("" in after.rows ==> after.rows[""].enable))
    ensures i < |s.inbounds| && s.inbounds[i].id == id
    ensures (var after := Outcome(AddedClients(s, id, clients).value, [], [], clock, fails).1;
      && i < |after.inbounds|
      && (Publishes(configs, clients[b].email) <==> after.inbounds[i].enable && clients[b].enable != Some(false)))
  {
    hide Outcome, Consistent, Lists, IsConfiguration, Publishes, PublishesAs, AddedClients;
    var added := AddedClients(s, id, clients).value;
    i := ClientsAdded(s, id, clients);
    AddedClientsConsistent(s, id, clients);
    var a := |s.inbounds[i].clients| + b;
    assert added.inbounds[i].clients[a] == clients[b];
    UnusedRowPublished(added, i, a, clock, fails, rows, configs);
  }

  /** And for the clients of a new inbound. */
  lemma AddedInboundPublished(s: Store, ib: Inbound, b: nat, clock: Clock, fails: set<Stage>,
    rows: seq<Row>, configs: seq<ConfigInbound>) returns (i: nat)
    requires Consistent(s) && AddedInbound(s, ib, None).Some? && HarmlessKey(s, ib.id)
    requires b < |ib.clients| && ib.clients[b].email != "" && NotYetExpired(ib.clients[b].expiry, clock)
    requires (var after := Outcome(AddedInbound(s, ib, None).value, [], [], clock, fails).1;
      && Lists(rows, after.rows) && IsConfiguration(after.inbounds, rows, configs)
      && ("" in after.rows ==> after.rows[""].enable))
    ensures (var after := Outcome(AddedInbound(s, ib, None).value, [], [], clock, fails).1;
      && i < |after.inbounds| && after.inbounds[i].tag == ib.tag
      && (Publishes(configs, ib.clients[b].email) <==> after.inbounds[i].enable && ib.clients[b].enable != Some(false)))
  {
    hide Outcome, Consistent, Lists, IsConfiguration, Publishes, PublishesAs, AddedInbound, HarmlessKey;
    var id;
    id, i := InboundAdded(s, ib);
    AddedInboundConsistent(s, ib);
    UnusedRowPublished(AddedInbound(s, ib, None).value, i, b, clock, fails, rows, configs);
  }
}
