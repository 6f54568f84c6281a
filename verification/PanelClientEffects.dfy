/**
 What each client operation does to the settings and to the rows, said of the tables alone: whom a
 successful call adds, replaces or removes, what the new rows hold, and that nothing else changes.
 */
module PanelClientEffects {
  import opened Options
  import opened PanelModel
  import opened PanelStore
  import opened PanelClients
  import opened PanelClientLaws

  /** The row of a client that has just been added: enabled, unused, and with the client's own terms. */
  predicate UnusedRow(row: Row, id: int, c: Client) {
    && row.inboundId == id && row.email == c.email && row.enable && row.up == 0 && row.down == 0
    && row.expiry == c.expiry && row.total == c.total && row.reset == c.reset
  }

  /** Every new client with an email has an unused row, and no other row with an email changes. */
  ghost predicate RowsAdded(rows: map<string, Row>, id: int, clients: seq<Client>, after: map<string, Row>) {
    && (forall a :: 0 <= a < |clients| && clients[a].email != "" ==>
          clients[a].email in after && UnusedRow(after[clients[a].email], id, clients[a]))
    && (forall e :: e in rows ==> e in after && after[e] == rows[e])
    && (forall e :: e in after && e != "" && !HasEmail(clients, e) ==> e in rows)
  }

  lemma RowsAreAdded(s: Store, id: int, clients: seq<Client>, all: bool)
    requires Consistent(s) && BatchFree(clients, s.inbounds)
    ensures RowsAdded(s.rows, id, clients, AddStats(s.rows, id, clients, all))
  {
    hide HasEmail, AddStats, Owned;
    BatchUnrowed(s, clients);
    AddStatsAdds(s.rows, id, clients, all);
  }

  /** New clients go behind the old ones of their inbound and have unused rows. */
  lemma ClientsAdded(s: Store, id: int, clients: seq<Client>) returns (i: nat)
    requires Consistent(s) && AddedClients(s, id, clients).Some?
    ensures i < |s.inbounds| && s.inbounds[i].id == id
    ensures (var after := AddedClients(s, id, clients).value;
      && after.inbounds == s.inbounds[i := s.inbounds[i].(clients := s.inbounds[i].clients + clients)]
      && RowsAdded(s.rows, id, clients, after.rows))
  {
    hide RowsAdded, Consistent;
    i := IndexOf(s.inbounds, id);
    RowsAreAdded(s, id, clients, false);
  }

  /** Inbound i is the first one with the id. */
  predicate FirstWithId(inbounds: seq<Inbound>, id: int, i: int) {
    0 <= i < |inbounds| && inbounds[i].id == id && forall j :: 0 <= j < i ==> inbounds[j].id != id
  }

  /** It fails exactly if an email is in use or repeated, there is no such inbound, or a client has no key. */
  lemma ClientsRefused(s: Store, id: int, clients: seq<Client>)
    ensures AddedClients(s, id, clients).None? <==>
      !BatchFree(clients, s.inbounds) || (forall i :: 0 <= i < |s.inbounds| ==> s.inbounds[i].id != id)
      || exists i, a :: FirstWithId(s.inbounds, id, i)
           && 0 <= a < |clients| && KeyOf(s.inbounds[i].protocol, clients[a]) == ""
  {
    hide BatchFree, KeyOf;
    var i := IndexOf(s.inbounds, id);
    if i < |s.inbounds| && !KeysGiven(s.inbounds[i].protocol, clients) {
      var a :| 0 <= a < |clients| && KeyOf(s.inbounds[i].protocol, clients[a]) == "";
      assert FirstWithId(s.inbounds, id, i);
    }
  }

  /** A new inbound is refused exactly if it shares a port, an email is in use or repeated, or a client has no key. */
  lemma InboundRefused(s: Store, ib: Inbound, imported: Option<map<string, Row>>)
    ensures AddedInbound(s, ib, imported).None? <==>
      || (exists i :: 0 <= i < |s.inbounds| && s.inbounds[i].port == ib.port
            && (s.inbounds[i].listen == ib.listen || AnyAddress(s.inbounds[i].listen) || AnyAddress(ib.listen)))
      || !BatchFree(ib.clients, s.inbounds)
      || exists a :: 0 <= a < |ib.clients| && KeyOf(ib.protocol, ib.clients[a]) == ""
  {
    hide BatchFree, KeyOf;
  }

  predicate AnyAddress(listen: string) {
    listen in {"", "0.0.0.0", "::", "::0"}
  }

  /** A new inbound is stored under its key or a fresh one, as it was sent, and its clients have unused rows. */
  lemma InboundAdded(s: Store, ib: Inbound) returns (id: int, i: nat)
    requires Consistent(s) && AddedInbound(s, ib, None).Some?
    ensures ib.id != 0 ==> id == ib.id
    ensures ib.id == 0 ==> forall j :: 0 <= j < |s.inbounds| ==> s.inbounds[j].id != id
    ensures (var after := AddedInbound(s, ib, None).value;
      && i < |after.inbounds| && after.inbounds[i] == ib.(id := id)
      && (forall j :: 0 <= j < |s.inbounds| && s.inbounds[j].id != id ==>
            j < |after.inbounds| && after.inbounds[j] == s.inbounds[j])
      && RowsAdded(s.rows, id, ib.clients, after.rows))
  {
    hide RowsAdded, HasEmail, AllMirrored, Owned, BatchFree, KeysGiven, PortFree;
    id := if ib.id == 0 then s.nextId else ib.id;
    i := IndexOf(s.inbounds, id);
    RowsAreAdded(s, id, ib.clients, true);
  }

  lemma {:induction false} WithoutKeyCounts(protocol: string, clients: seq<Client>, key: string, c: Client)
    ensures multiset(WithoutKey(protocol, clients, key))[c] ==
      if KeyOf(protocol, c) == key then 0 else multiset(clients)[c]
    decreases |clients|
  {
    hide KeyOf;
    if clients != [] {
      var n := |clients| - 1;
      WithoutKeyCounts(protocol, clients[..n], key, c);
      assert clients == clients[..n] + [clients[n]];
    }
  }

  /** Client a is the last one with the key. */
  predicate LastWithKey(protocol: string, clients: seq<Client>, key: string, a: int) {
    && 0 <= a < |clients| && KeyOf(protocol, clients[a]) == key
    && forall b :: a < b < |clients| ==> KeyOf(protocol, clients[b]) != key
  }

  lemma {:induction false} LastEmail(protocol: string, clients: seq<Client>, key: string, a: nat)
    requires LastWithKey(protocol, clients, key, a)
    ensures EmailOfKey(protocol, clients, key) == clients[a].email
    decreases |clients|
  {
    hide KeyOf;
    var n := |clients| - 1;
    if KeyOf(protocol, clients[n]) != key {
      LastEmail(protocol, clients[..n], key, a);
    }
  }

  lemma {:induction false} NoEmail(protocol: string, clients: seq<Client>, key: string)
    requires forall c :: c in clients ==> KeyOf(protocol, c) != key
    ensures EmailOfKey(protocol, clients, key) == ""
    decreases |clients|
  {
    hide KeyOf;
    if clients != [] {
      NoEmail(protocol, clients[..|clients| - 1], key);
    }
  }

  /** Every client with the key leaves its inbound, all others stay, and the last one's row goes. */
  lemma ClientDeleted(s: Store, id: int, key: string) returns (i: nat)
    requires DeletedClient(s, id, key).Some?
    ensures i < |s.inbounds| && s.inbounds[i].id == id
    ensures (var after, ib := DeletedClient(s, id, key).value, s.inbounds[i];
      && |after.inbounds| == |s.inbounds|
      && after.inbounds == s.inbounds[i := ib.(clients := after.inbounds[i].clients)]
      && (forall c :: multiset(after.inbounds[i].clients)[c] ==
            if KeyOf(ib.protocol, c) == key then 0 else multiset(ib.clients)[c])
      && (forall a :: LastWithKey(ib.protocol, ib.clients, key, a) ==> after.rows == s.rows - {ib.clients[a].email})
      && ((forall c :: c in ib.clients ==> KeyOf(ib.protocol, c) != key) ==> after.rows == s.rows - {""}))
  {
    hide KeyOf, WithoutKey, EmailOfKey;
    i := IndexOf(s.inbounds, id);
    var ib := s.inbounds[i];
    forall a | LastWithKey(ib.protocol, ib.clients, key, a)
      ensures EmailOfKey(ib.protocol, ib.clients, key) == ib.clients[a].email
    {
      LastEmail(ib.protocol, ib.clients, key, a);
    }
    if forall c :: c in ib.clients ==> KeyOf(ib.protocol, c) != key {
      NoEmail(ib.protocol, ib.clients, key);
    }
    forall c: Client
      ensures multiset(WithoutKey(ib.protocol, ib.clients, key))[c] ==
        if KeyOf(ib.protocol, c) == key then 0 else multiset(ib.clients)[c]
    {
      WithoutKeyCounts(ib.protocol, ib.clients, key, c);
    }
  }

  /** It fails exactly if there is no such inbound, or no client would be left. */
  lemma DeletionRefused(s: Store, id: int, key: string)
    ensures DeletedClient(s, id, key).None? <==>
      (forall i :: 0 <= i < |s.inbounds| ==> s.inbounds[i].id != id)
      || exists i :: FirstWithId(s.inbounds, id, i)
           && forall c :: c in s.inbounds[i].clients ==> KeyOf(s.inbounds[i].protocol, c) == key
  {
    hide KeyOf, WithoutKey, EmailOfKey;
    var i := IndexOf(s.inbounds, id);
    if i < |s.inbounds| {
      var ib := s.inbounds[i];
      assert FirstWithId(s.inbounds, id, i);
      WithoutKeyMembers(ib.protocol, ib.clients, key);
      var left := WithoutKey(ib.protocol, ib.clients, key);
      assert left == [] <==> forall c :: c in ib.clients ==> KeyOf(ib.protocol, c) == key by {
        if left != [] {
          assert left[0] in left;
        }
      }
    }
  }

  /** An edit keeps the traffic and the inbound, switches the row on, and takes over email and terms. */
  predicate StillUsedRow(before: Row, c: Client, row: Row) {
    && row.inboundId == before.inboundId && row.up == before.up && row.down == before.down && row.enable
    && row.email == c.email && row.expiry == c.expiry && row.total == c.total && row.reset == c.reset
  }

  /** What an edit from email `was` to client c makes of the rows. */
  ghost predicate RowEdited(rows: map<string, Row>, id: int, was: string, c: Client, after: map<string, Row>) {
    && (c.email != "" ==> c.email in after)
    && (c.email != "" && was == "" ==> UnusedRow(after[c.email], id, c))
    && (c.email != "" && was != "" ==> was in rows && StillUsedRow(rows[was], c, after[c.email]))
    && (was != "" && was != c.email ==> was !in after)
    && (forall e :: e != "" && e != was && e != c.email ==>
          (e in after <==> e in rows) && (e in rows ==> after[e] == rows[e]))
  }

  /**
     The first client with the key is replaced.  Its row keeps the traffic, takes over email and terms, and is
     enabled; without an old email the row is an unused one, and without a new email it goes.
   */
  lemma ClientEdited(s: Store, id: int, clients: seq<Client>, key: string) returns (i: nat, a: nat)
    requires Consistent(s) && UpdatedClient(s, id, clients, key).Some?
    ensures i < |s.inbounds| && s.inbounds[i].id == id && clients != []
    ensures a < |s.inbounds[i].clients| && KeyOf(s.inbounds[i].protocol, s.inbounds[i].clients[a]) == key
    ensures forall b :: 0 <= b < a ==> KeyOf(s.inbounds[i].protocol, s.inbounds[i].clients[b]) != key
    ensures (var after := UpdatedClient(s, id, clients, key).value;
      && after.inbounds == s.inbounds[i := s.inbounds[i].(clients := s.inbounds[i].clients[a := clients[0]])]
      && RowEdited(s.rows, id, s.inbounds[i].clients[a].email, clients[0], after.rows))
  {
    hide KeyOf, RowEdited, RowsForUpdate;
    i := IndexOf(s.inbounds, id);
    var ib, c := s.inbounds[i], clients[0];
    a := FindKey(ib.protocol, ib.clients, key);
    var was := ib.clients[a].email;
    MirroredHere(s, i, a);
    if c.email != "" && c.email != was {
      assert !EmailTaken(s.inbounds, c.email);
      if c.email in s.rows {
        RowedMeansTaken(s, c.email);
      }
    }
    hide Consistent;
    RowsAreEdited(s.rows, id, was, c);
  }

  /** The request edits client a of inbound i: the first one with the key, and the new email may be used. */
  ghost predicate Editable(s: Store, id: int, clients: seq<Client>, key: string, i: int, a: int) {
    && 0 <= i < |s.inbounds| && s.inbounds[i].id == id && 0 <= a < |s.inbounds[i].clients| && clients != []
    && KeyOf(s.inbounds[i].protocol, s.inbounds[i].clients[a]) == key
    && (forall b :: 0 <= b < a ==> KeyOf(s.inbounds[i].protocol, s.inbounds[i].clients[b]) != key)
    && KeyOf(s.inbounds[i].protocol, clients[0]) != ""
    && (clients[0].email == "" || clients[0].email == s.inbounds[i].clients[a].email || BatchFree(clients, s.inbounds))
  }

  /** In a consistent store an edit succeeds exactly if there is such a client. */
  lemma EditRefused(s: Store, id: int, clients: seq<Client>, key: string)
    requires Consistent(s)
    ensures UpdatedClient(s, id, clients, key).Some? <==> exists i, a :: Editable(s, id, clients, key, i, a)
  {
    hide KeyOf, RowsForUpdate, IndexOf, FindKey;
    if i, a :| Editable(s, id, clients, key, i, a) {
      IndexFound(s, id, i);
      MirroredHere(s, i, a);
      assert FindKey(s.inbounds[i].protocol, s.inbounds[i].clients, key) == a;
      EmailFree(s, i, a, clients);
      RowsCanChange(s.rows, id, s.inbounds[i].clients[a].email, clients[0]);
    }
    if UpdatedClient(s, id, clients, key).Some? {
      var i := IndexOf(s.inbounds, id);
      assert Editable(s, id, clients, key, i, FindKey(s.inbounds[i].protocol, s.inbounds[i].clients, key));
    }
  }

  lemma EmailFree(s: Store, i: nat, a: nat, clients: seq<Client>)
    requires Consistent(s) && i < |s.inbounds| && a < |s.inbounds[i].clients| && clients != []
    requires clients[0].email == "" || clients[0].email == s.inbounds[i].clients[a].email
      || BatchFree(clients, s.inbounds)
    ensures clients[0].email != "" && clients[0].email != s.inbounds[i].clients[a].email ==> clients[0].email !in s.rows
  {
    if clients[0].email != "" && clients[0].email in s.rows {
      RowedMeansTaken(s, clients[0].email);
    }
  }

  lemma RowsCanChange(rows: map<string, Row>, id: int, was: string, c: Client)
    requires c.email != "" && c.email != was ==> c.email !in rows
    ensures RowsForUpdate(rows, id, was, c).Some?
  {
  }

  lemma RowsAreEdited(rows: map<string, Row>, id: int, was: string, c: Client)
    requires was != "" ==> was in rows
    requires c.email != "" && c.email != was ==> c.email !in rows
    requires RowsForUpdate(rows, id, was, c).Some?
    ensures RowEdited(rows, id, was, c, RowsForUpdate(rows, id, was, c).value)
  {
  }

  /** The inbound and all its rows go, and nothing else does. */
  lemma InboundDeleted(s: Store, id: int)
    requires Consistent(s)
    ensures (var after := DeletedInbound(s, id);
      && (forall ib :: ib in after.inbounds <==> ib in s.inbounds && ib.id != id)
      && (forall e :: e in after.rows <==> e in s.rows && s.rows[e].inboundId != id)
      && (forall e :: e in after.rows ==> after.rows[e] == s.rows[e]))
  {
    hide AllMirrored, Owned, DistinctWithin, Keyed;
    var i := IndexOf(s.inbounds, id);
    if i < |s.inbounds| {
      assert s.inbounds == s.inbounds[..i] + [s.inbounds[i]] + s.inbounds[i + 1..];
    }
  }
}
