/**
 Adding, editing and deleting clients: what the handlers' service calls do to the settings and to
 the rows of client_traffics.
 */
module PanelClients {
  import opened Options
  import opened PanelModel
  import opened PanelStore
  import PanelPorts

  // ---- specification ----

  /** What identifies a client in its protocol. */
  function KeyOf(protocol: string, c: Client): string {
    if protocol == "trojan" then c.password else if protocol == "shadowsocks" then c.email else c.id
  }

  ghost predicate EmailTaken(inbounds: seq<Inbound>, email: string) {
    exists i :: 0 <= i < |inbounds| && HasEmail(inbounds[i].clients, email)
  }

  /** No non-empty email of the batch repeats or is in use. */
  ghost predicate BatchFree(clients: seq<Client>, inbounds: seq<Inbound>) {
    && DistinctWithin(clients)
    && forall a :: 0 <= a < |clients| && clients[a].email != "" ==> !EmailTaken(inbounds, clients[a].email)
  }

  predicate KeysGiven(protocol: string, clients: seq<Client>) {
    forall a :: 0 <= a < |clients| ==> KeyOf(protocol, clients[a]) != ""
  }

  /** A new row of a client. */
  function Stat(id: int, c: Client): Row {
    Row(id, true, c.email, 0, 0, c.expiry, c.total, c.reset)
  }

  /** `AddClientStat`: refused by the unique email column, and the refusal is ignored. */
  function Created(rows: map<string, Row>, row: Row): map<string, Row> {
    if row.email in rows then rows else rows[row.email := row]
  }

  /** One row per client; clients without email only `AddInbound` gives a row. */
  function AddStats(rows: map<string, Row>, id: int, clients: seq<Client>, all: bool): map<string, Row> {
    if clients == [] then rows
    else
      var before, c := AddStats(rows, id, clients[..|clients| - 1], all), clients[|clients| - 1];
      if all || c.email != "" then Created(before, Stat(id, c)) else before
  }

  /** Position of the inbound with this key, or the length. */
  function IndexOf(inbounds: seq<Inbound>, id: int): (i: nat)
    ensures i <= |inbounds|
    ensures i < |inbounds| ==> inbounds[i].id == id
    ensures forall j :: 0 <= j < i ==> inbounds[j].id != id
  {
    if inbounds == [] || inbounds[0].id == id then 0 else 1 + IndexOf(inbounds[1..], id)
  }

  /** `Save`: overwrite the inbound with this key, or insert. */
  function Put(inbounds: seq<Inbound>, ib: Inbound): seq<Inbound> {
    var i := IndexOf(inbounds, ib.id);
    if i < |inbounds| then inbounds[i := ib] else inbounds + [ib]
  }

  function WithClients(s: Store, i: nat, clients: seq<Client>, rows: map<string, Row>): Store
    requires i < |s.inbounds|
  {
    s.(inbounds := s.inbounds[i := s.inbounds[i].(clients := clients)], rows := rows)
  }

  /** `checkPortExist` finds nothing, no inbound being ignored. */
  predicate PortFree(inbounds: seq<Inbound>, listen: string, port: int) {
    forall i :: 0 <= i < |inbounds| ==>
      !PanelPorts.Clash(listen, port, PanelPorts.Listener(inbounds[i].listen, inbounds[i].port, inbounds[i].tag))
  }

  /** `AddInbound`.  `imported` is what a save of supplied stats leaves of the rows. */
  ghost function AddedInbound(s: Store, ib: Inbound, imported: Option<map<string, Row>>): Option<Store> {
    if !PortFree(s.inbounds, ib.listen, ib.port) || !BatchFree(ib.clients, s.inbounds)
      || !KeysGiven(ib.protocol, ib.clients) then None
    else
      var id := if ib.id == 0 then s.nextId else ib.id;
      Some(Store(Put(s.inbounds, ib.(id := id)),
                 if imported.Some? then imported.value else AddStats(s.rows, id, ib.clients, true),
                 if id < s.nextId then s.nextId else id + 1))
  }

  ghost function AddedClients(s: Store, id: int, clients: seq<Client>): Option<Store> {
    var i := IndexOf(s.inbounds, id);
    if !BatchFree(clients, s.inbounds) || i == |s.inbounds| || !KeysGiven(s.inbounds[i].protocol, clients) then None
    else Some(WithClients(s, i, s.inbounds[i].clients + clients, AddStats(s.rows, id, clients, false)))
  }

  function WithoutKey(protocol: string, clients: seq<Client>, key: string): seq<Client> {
    if clients == [] then []
    else
      var before, c := WithoutKey(protocol, clients[..|clients| - 1], key), clients[|clients| - 1];
      if KeyOf(protocol, c) == key then before else before + [c]
  }

  /** The email of the last client with this key. */
  function EmailOfKey(protocol: string, clients: seq<Client>, key: string): string {
    if clients == [] then ""
    else
      var c := clients[|clients| - 1];
      if KeyOf(protocol, c) == key then c.email else EmailOfKey(protocol, clients[..|clients| - 1], key)
  }

  function DeletedClient(s: Store, id: int, key: string): Option<Store> {
    var i := IndexOf(s.inbounds, id);
    if i == |s.inbounds| then None
    else
      var ib := s.inbounds[i];
      var left := WithoutKey(ib.protocol, ib.clients, key);
      if left == [] then None
      else Some(WithClients(s, i, left, s.rows - {EmailOfKey(ib.protocol, ib.clients, key)}))
  }

  /** Position of the first client with this key, or the length. */
  function FindKey(protocol: string, clients: seq<Client>, key: string): (a: nat)
    ensures a <= |clients|
    ensures a < |clients| ==> KeyOf(protocol, clients[a]) == key
    ensures forall b :: 0 <= b < a ==> KeyOf(protocol, clients[b]) != key
  {
    if clients == [] || KeyOf(protocol, clients[0]) == key then 0 else 1 + FindKey(protocol, clients[1..], key)
  }

  /** `UpdateClientStat`: None if another row has the new email. */
  function StatUpdated(rows: map<string, Row>, email: string, c: Client): Option<map<string, Row>> {
    if email !in rows then Some(rows)
    else if c.email != email && c.email in rows then None
    else
      var row := rows[email].(enable := true, email := c.email, total := c.total, expiry := c.expiry, reset := c.reset);
      Some((rows - {email})[c.email := row])
  }

  /** The rows after the client with email `was` has become c. */
  function RowsForUpdate(rows: map<string, Row>, id: int, was: string, c: Client): Option<map<string, Row>> {
    if c.email == "" then Some(rows - {was})
    else if was == "" then Some(Created(rows, Stat(id, c)))
    else StatUpdated(rows, was, c)
  }

  /** `UpdateInboundClient`: only the first client of the request is stored, but all emails are checked. */
  ghost function UpdatedClient(s: Store, id: int, clients: seq<Client>, key: string): Option<Store> {
    var i := IndexOf(s.inbounds, id);
    if i == |s.inbounds| || clients == [] then None
    else
      var ib, c := s.inbounds[i], clients[0];
      var a := FindKey(ib.protocol, ib.clients, key);
      if a == |ib.clients| || KeyOf(ib.protocol, c) == "" then None
      else
        var was := ib.clients[a].email;
        if c.email != "" && c.email != was && !BatchFree(clients, s.inbounds) then None
        else
          var rows := RowsForUpdate(s.rows, id, was, c);
          if rows.None? then None else Some(WithClients(s, i, ib.clients[a := c], rows.value))
  }

  /** `DelInbound`: the rows go even if there is no such inbound. */
  function DeletedInbound(s: Store, id: int): Store {
    var i := IndexOf(s.inbounds, id);
    s.(inbounds := if i < |s.inbounds| then s.inbounds[..i] + s.inbounds[i + 1..] else s.inbounds,
       rows := map e | e in s.rows && s.rows[e].inboundId != id :: s.rows[e])
  }

  // ---- the methods ----

  class InboundService {
    var store: Store

    constructor (store: Store)
      ensures this.store == store
    {
      this.store := store;
    }

    method GetAllEmails() returns (emails: seq<string>)
      ensures forall e: string :: e in emails <==> EmailTaken(store.inbounds, e)
    {
      emails := [];
      for i := 0 to |store.inbounds|
        invariant forall e: string :: e in emails <==> EmailTaken(store.inbounds[..i], e)
      {
        var clients := store.inbounds[i].clients;
        ghost var before := emails;
        for a := 0 to |clients|
          invariant forall e: string :: e in emails <==> e in before || HasEmail(clients[..a], e)
        {
          emails := emails + [clients[a].email];
          HasEmailNext(clients, a);
        }
        assert clients[..|clients|] == clients;
        TakenNext(store.inbounds, i);
      }
      assert store.inbounds[..|store.inbounds|] == store.inbounds;
    }

    /** The check loops: empty exactly if the batch is free, otherwise the first email that is not. */
    method CheckEmailsExistForClients(clients: seq<Client>) returns (exist: string)
      ensures exist == "" <==> BatchFree(clients, store.inbounds)
      ensures exist != "" ==> exists a ::
        0 <= a < |clients| && clients[a].email == exist && BatchFree(clients[..a], store.inbounds)
          && !BatchFree(clients[..a + 1], store.inbounds)
    {
      var allEmails := GetAllEmails();
      var emails: seq<string> := [];
      for a := 0 to |clients|
        invariant BatchFree(clients[..a], store.inbounds)
        invariant forall e: string :: e in emails <==> e != "" && HasEmail(clients[..a], e)
      {
        var email := clients[a].email;
        HasEmailNext(clients, a);
        if email != "" {
          if email in emails || email in allEmails {
            BatchStops(clients, a, store.inbounds);
            return email;
          }
          emails := emails + [email];
        }
        BatchGrows(clients, a, store.inbounds);
      }
      assert clients[..|clients|] == clients;
      return "";
    }

    /** The "secure client ID" loops. */
    method CheckKeys(protocol: string, clients: seq<Client>) returns (given: bool)
      ensures given == KeysGiven(protocol, clients)
    {
      for a := 0 to |clients|
        invariant forall b :: 0 <= b < a ==> KeyOf(protocol, clients[b]) != ""
      {
        var c := clients[a];
        if protocol == "trojan" {
          if c.password == "" { return false; }
        } else if protocol == "shadowsocks" {
          if c.email == "" { return false; }
        } else {
          if c.id == "" { return false; }
        }
      }
      return true;
    }

    method AddClientStats(id: int, clients: seq<Client>, all: bool)
      modifies this
      ensures store == old(store).(rows := AddStats(old(store).rows, id, clients, all))
    {
      for a := 0 to |clients|
        invariant store == old(store).(rows := AddStats(old(store).rows, id, clients[..a], all))
      {
        assert clients[..a + 1][..a] == clients[..a];
        if all || |clients[a].email| > 0 {
          store := store.(rows := Created(store.rows, Stat(id, clients[a])));
        }
      }
      assert clients[..|clients|] == clients;
    }

    method AddInbound(ib: Inbound, imported: Option<map<string, Row>>) returns (ok: bool)
      modifies this
      ensures (var spec := AddedInbound(old(store), ib, imported);
        ok == spec.Some? && store == if ok then spec.value else old(store))
    {
      if !PortFree(store.inbounds, ib.listen, ib.port) {
        return false;
      }
      var existEmail := CheckEmailsExistForClients(ib.clients);
      if existEmail != "" {
        return false;
      }
      var given := CheckKeys(ib.protocol, ib.clients);
      if !given {
        return false;
      }
      var id := if ib.id == 0 then store.nextId else ib.id;
      var next := if id < store.nextId then store.nextId else id + 1;
      store := store.(inbounds := Put(store.inbounds, ib.(id := id)), nextId := next);
      if imported.Some? {
        store := store.(rows := imported.value);
      } else {
        AddClientStats(id, ib.clients, true);
      }
      return true;
    }

    method AddInboundClient(id: int, clients: seq<Client>) returns (ok: bool)
      modifies this
      ensures (var spec := AddedClients(old(store), id, clients);
        ok == spec.Some? && store == if ok then spec.value else old(store))
    {
      var existEmail := CheckEmailsExistForClients(clients);
      if existEmail != "" {
        return false;
      }
      var i := IndexOf(store.inbounds, id);
      if i == |store.inbounds| {
        return false;
      }
      var given := CheckKeys(store.inbounds[i].protocol, clients);
      if !given {
        return false;
      }
      var oldInbound := store.inbounds[i];
      AddClientStats(id, clients, false);
      store := store.(inbounds := store.inbounds[i := oldInbound.(clients := oldInbound.clients + clients)]);
      return true;
    }

    method DelInboundClient(id: int, key: string) returns (ok: bool)
      modifies this
      ensures (var spec := DeletedClient(old(store), id, key);
        ok == spec.Some? && store == if ok then spec.value else old(store))
    {
      var i := IndexOf(store.inbounds, id);
      if i == |store.inbounds| {
        return false;
      }
      var oldInbound := store.inbounds[i];
      var clients := oldInbound.clients;
      var email := "";
      var newClients: seq<Client> := [];
      for a := 0 to |clients|
        invariant newClients == WithoutKey(oldInbound.protocol, clients[..a], key)
        invariant email == EmailOfKey(oldInbound.protocol, clients[..a], key)
      {
        assert clients[..a + 1][..a] == clients[..a];
        if KeyOf(oldInbound.protocol, clients[a]) == key {
          email := clients[a].email;
        } else {
          newClients := newClients + [clients[a]];
        }
      }
      assert clients[..|clients|] == clients;
      if |newClients| == 0 {
        return false;
      }
      store := store.(inbounds := store.inbounds[i := oldInbound.(clients := newClients)],
        rows := store.rows - {email});
      return true;
    }

    method UpdateInboundClient(id: int, clients: seq<Client>, key: string) returns (ok: bool)
      modifies this
      ensures (var spec := UpdatedClient(old(store), id, clients, key);
        ok == spec.Some? && store == if ok then spec.value else old(store))
    {
      var i := IndexOf(store.inbounds, id);
      if i == |store.inbounds| || clients == [] {
        return false;
      }
      var oldInbound := store.inbounds[i];
      var oldClients := oldInbound.clients;
      var oldEmail, newClientId, clientIndex := "", "", -1;
      for a := 0 to |oldClients|
        invariant clientIndex == -1 && oldEmail == ""
        invariant forall b :: 0 <= b < a ==> KeyOf(oldInbound.protocol, oldClients[b]) != key
      {
        newClientId := KeyOf(oldInbound.protocol, clients[0]);
        if key == KeyOf(oldInbound.protocol, oldClients[a]) {
          oldEmail := oldClients[a].email;
          clientIndex := a;
          break;
        }
      }
      if newClientId == "" || clientIndex == -1 {
        return false;
      }
      if |clients[0].email| > 0 && clients[0].email != oldEmail {
        var existEmail := CheckEmailsExistForClients(clients);
        if existEmail != "" {
          return false;
        }
      }
      var rows := RowsForUpdate(store.rows, id, oldEmail, clients[0]);
      if rows.None? {
        return false;
      }
      store := store.(inbounds := store.inbounds[i := oldInbound.(clients := oldClients[clientIndex := clients[0]])],
                      rows := rows.value);
      return true;
    }

    method DelInbound(id: int) returns (ok: bool)
      modifies this
      ensures ok == (IndexOf(old(store).inbounds, id) < |old(store).inbounds|)
      ensures store == DeletedInbound(old(store), id)
    {
      var rows := store.rows;
      store := store.(rows := map e | e in rows && rows[e].inboundId != id :: rows[e]);
      var i := IndexOf(store.inbounds, id);
      if i == |store.inbounds| {
        return false;
      }
      store := store.(inbounds := store.inbounds[..i] + store.inbounds[i + 1..]);
      return true;
    }
  }

  // ---- helpers of the loops ----

  /** A free batch behind an inbound's clients repeats no email. */
  lemma JoinDistinct(inbounds: seq<Inbound>, i: nat, clients: seq<Client>)
    requires i < |inbounds| && DistinctWithin(inbounds[i].clients) && BatchFree(clients, inbounds)
    ensures DistinctWithin(inbounds[i].clients + clients)
  {
    var held := inbounds[i].clients;
    var both := held + clients;
    forall a, b | 0 <= a < b < |both| && both[a].email != ""
      ensures both[a].email != both[b].email
    {
      if a < |held| <= b {
        assert HasEmail(held, held[a].email);
        assert EmailTaken(inbounds, held[a].email);
        assert both[b] == clients[b - |held|];
      }
    }
  }

  lemma HasEmailNext(clients: seq<Client>, a: nat)
    requires a < |clients|
    ensures forall e: string :: HasEmail(clients[..a + 1], e) <==> HasEmail(clients[..a], e) || clients[a].email == e
  {
    var next := clients[..a + 1];
    forall e: string
      ensures HasEmail(next, e) <==> HasEmail(clients[..a], e) || clients[a].email == e
    {
      if HasEmail(clients[..a], e) {
        var b :| 0 <= b < a && clients[..a][b].email == e;
        assert next[b].email == e;
      }
      if HasEmail(next, e) {
        var b :| 0 <= b < a + 1 && next[b].email == e;
        if b < a {
          assert clients[..a][b].email == e;
        }
      }
      assert next[a] == clients[a];
    }
  }

  lemma TakenNext(inbounds: seq<Inbound>, i: nat)
    requires i < |inbounds|
    ensures forall e: string ::
      EmailTaken(inbounds[..i + 1], e) <==> EmailTaken(inbounds[..i], e) || HasEmail(inbounds[i].clients, e)
  {
    hide HasEmail;
    var next := inbounds[..i + 1];
    forall e: string
      ensures EmailTaken(next, e) <==> EmailTaken(inbounds[..i], e) || HasEmail(inbounds[i].clients, e)
    {
      if EmailTaken(inbounds[..i], e) {
        var j :| 0 <= j < i && HasEmail(inbounds[..i][j].clients, e);
        assert HasEmail(next[j].clients, e);
      }
      if EmailTaken(next, e) {
        var j :| 0 <= j < i + 1 && HasEmail(next[j].clients, e);
        if j < i {
          assert HasEmail(inbounds[..i][j].clients, e);
        }
      }
      assert next[i] == inbounds[i];
    }
  }

  lemma BatchStops(clients: seq<Client>, a: nat, inbounds: seq<Inbound>)
    requires a < |clients| && clients[a].email != ""
    requires HasEmail(clients[..a], clients[a].email) || EmailTaken(inbounds, clients[a].email)
    ensures !BatchFree(clients, inbounds) && !BatchFree(clients[..a + 1], inbounds)
  {
    var next := clients[..a + 1];
    assert next[a] == clients[a];
    if HasEmail(clients[..a], clients[a].email) {
      var b :| 0 <= b < a && clients[..a][b].email == clients[a].email;
      assert clients[b].email == clients[a].email && next[b].email == next[a].email;
    }
  }

  lemma BatchGrows(clients: seq<Client>, a: nat, inbounds: seq<Inbound>)
    requires a < |clients| && BatchFree(clients[..a], inbounds)
    requires clients[a].email != "" ==>
      !HasEmail(clients[..a], clients[a].email) && !EmailTaken(inbounds, clients[a].email)
    ensures BatchFree(clients[..a + 1], inbounds)
  {
    hide EmailTaken;
    var next := clients[..a + 1];
    forall b, c | 0 <= b < c < |next| && next[b].email != ""
      ensures next[b].email != next[c].email
    {
      assert clients[..a][b] == next[b];
      if c < a {
        assert clients[..a][c] == next[c];
      }
    }
    forall b | 0 <= b < |next| && next[b].email != ""
      ensures !EmailTaken(inbounds, next[b].email)
    {
      if b < a {
        assert clients[..a][b] == next[b];
      }
    }
  }
}
