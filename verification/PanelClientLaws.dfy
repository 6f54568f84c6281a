/**
 What runs of the client operations keep: emails stay distinct, and every client agrees with its row.
 */
module PanelClientLaws {
  import opened Options
  import opened PanelModel
  import opened PanelStore
  import opened PanelClients
  import opened PanelTickLaws

  // ---- one inbound gets new clients ----

  /** The clients of inbound i change: rows of other inbounds must stay, and its own must match. */
  ghost predicate RowsFollow(s: Store, i: nat, clients: seq<Client>, rows: map<string, Row>)
    requires i < |s.inbounds|
  {
    var id := s.inbounds[i].id;
    && Keyed(rows) && AllMirrored(clients, id, rows)
    && (forall e :: e in s.rows && e != "" && s.rows[e].inboundId != id ==> e in rows && rows[e] == s.rows[e])
    && (forall e :: e in rows && e != "" ==>
          if e in s.rows && s.rows[e].inboundId != id then rows[e] == s.rows[e]
          else rows[e].inboundId == id && HasEmail(clients, e))
  }

  lemma ClientsReplaced(s: Store, i: nat, clients: seq<Client>, rows: map<string, Row>)
    requires Consistent(s) && i < |s.inbounds| && DistinctWithin(clients) && RowsFollow(s, i, clients, rows)
    ensures Consistent(WithClients(s, i, clients, rows))
  {
    hide HasEmail, DistinctWithin;
    var after := WithClients(s, i, clients, rows);
    forall j | 0 <= j < |s.inbounds|
      ensures AllMirrored(after.inbounds[j].clients, after.inbounds[j].id, rows)
    {
      if j != i {
        MirroredElsewhere(s, i, j, rows);
      }
    }
    hide AllMirrored;
    forall e | e in rows && e != ""
      ensures Owned(after.inbounds, rows[e])
    {
      if e in s.rows && s.rows[e].inboundId != s.inbounds[i].id {
        assert Owned(s.inbounds, s.rows[e]);
        var j :| 0 <= j < |s.inbounds| && s.inbounds[j].id == s.rows[e].inboundId && HasEmail(s.inbounds[j].clients, e);
        assert after.inbounds[j] == s.inbounds[j];
      } else {
        assert after.inbounds[i].clients == clients && after.inbounds[i].id == rows[e].inboundId;
      }
    }
  }

  lemma MirroredElsewhere(s: Store, i: nat, j: nat, rows: map<string, Row>)
    requires Consistent(s) && i < |s.inbounds| && j < |s.inbounds| && i != j
    requires forall e :: e in s.rows && e != "" && s.rows[e].inboundId != s.inbounds[i].id ==>
      e in rows && rows[e] == s.rows[e]
    ensures AllMirrored(s.inbounds[j].clients, s.inbounds[j].id, rows)
  {
    var ib := s.inbounds[j];
    assert ib.id != s.inbounds[i].id;
    assert AllMirrored(ib.clients, ib.id, s.rows);
    forall a | 0 <= a < |ib.clients|
      ensures Mirrored(ib.clients[a], ib.id, rows)
    {
      assert Mirrored(ib.clients[a], ib.id, s.rows);
    }
  }

  // ---- new rows ----

  /** No client's email has a row yet. */
  ghost predicate Unrowed(clients: seq<Client>, rows: map<string, Row>) {
    forall a :: 0 <= a < |clients| && clients[a].email != "" ==> clients[a].email !in rows
  }

  /** What the new rows are: one for each new client with an email. */
  ghost predicate StatsAdded(rows: map<string, Row>, id: int, clients: seq<Client>, after: map<string, Row>) {
    && (forall e :: e in rows ==> e in after && after[e] == rows[e])
    && (forall e :: e in after && e !in rows && e != "" ==> HasEmail(clients, e))
    && (forall a :: 0 <= a < |clients| && clients[a].email != "" ==>
          clients[a].email in after && after[clients[a].email] == Stat(id, clients[a]))
  }

  lemma {:induction false} AddStatsAdds(rows: map<string, Row>, id: int, clients: seq<Client>, all: bool)
    requires DistinctWithin(clients) && Unrowed(clients, rows) && Keyed(rows)
    ensures Keyed(AddStats(rows, id, clients, all)) && StatsAdded(rows, id, clients, AddStats(rows, id, clients, all))
    decreases |clients|
  {
    hide HasEmail;
    if clients != [] {
      var n := |clients| - 1;
      AddStatsAdds(rows, id, clients[..n], all);
      var before := AddStats(rows, id, clients[..n], all);
      var after := if all || clients[n].email != "" then Created(before, Stat(id, clients[n])) else before;
      StatNext(rows, id, clients, n, before, after);
    }
  }

  lemma StatNext(rows: map<string, Row>, id: int, clients: seq<Client>, n: nat, before: map<string, Row>,
    after: map<string, Row>)
    requires n + 1 == |clients| && DistinctWithin(clients) && Unrowed(clients, rows) && Keyed(before)
    requires StatsAdded(rows, id, clients[..n], before)
    requires after == Created(before, Stat(id, clients[n])) || (clients[n].email == "" && after == before)
    ensures Keyed(after) && StatsAdded(rows, id, clients, after)
  {
    hide HasEmail;
    assert clients[..n + 1] == clients;
    HasEmailNext(clients, n);
    if clients[n].email != "" {
      NewAtEnd(clients, n);
      assert clients[n].email !in before;
    }
    forall a | 0 <= a < |clients| && clients[a].email != ""
      ensures clients[a].email in after && after[clients[a].email] == Stat(id, clients[a])
    {
      if a < n {
        assert clients[..n][a] == clients[a];
      }
    }
  }

  lemma NewAtEnd(clients: seq<Client>, n: nat)
    requires DistinctWithin(clients) && n + 1 == |clients| && clients[n].email != ""
    ensures !HasEmail(clients[..n], clients[n].email)
  {
  }

  /** In a consistent store an email with a row is in some settings. */
  lemma RowedMeansTaken(s: Store, email: string)
    requires Consistent(s) && email != "" && email in s.rows
    ensures EmailTaken(s.inbounds, email)
  {
    assert s.rows[email].email == email;
    assert Owned(s.inbounds, s.rows[email]);
  }

  lemma BatchUnrowed(s: Store, clients: seq<Client>)
    requires Consistent(s) && BatchFree(clients, s.inbounds)
    ensures Unrowed(clients, s.rows)
  {
    forall a | 0 <= a < |clients| && clients[a].email != ""
      ensures clients[a].email !in s.rows
    {
      if clients[a].email in s.rows {
        RowedMeansTaken(s, clients[a].email);
      }
    }
  }

  lemma OwnersClients(s: Store, i: nat, e: string)
    requires Consistent(s) && i < |s.inbounds| && e in s.rows && e != "" && s.rows[e].inboundId == s.inbounds[i].id
    ensures HasEmail(s.inbounds[i].clients, e)
  {
    assert Owned(s.inbounds, s.rows[e]);
  }

  lemma MirroredHere(s: Store, i: nat, a: nat)
    requires Consistent(s) && i < |s.inbounds| && a < |s.inbounds[i].clients|
    ensures Mirrored(s.inbounds[i].clients[a], s.inbounds[i].id, s.rows)
  {
    assert AllMirrored(s.inbounds[i].clients, s.inbounds[i].id, s.rows);
  }

  lemma IndexFound(s: Store, id: int, i: nat)
    requires Consistent(s) && i < |s.inbounds| && s.inbounds[i].id == id
    ensures IndexOf(s.inbounds, id) == i
  {
  }

  // ---- AddInboundClient ----

  lemma AddedClientsConsistent(s: Store, id: int, clients: seq<Client>)
    requires Consistent(s) && AddedClients(s, id, clients).Some?
    ensures Consistent(AddedClients(s, id, clients).value)
  {
    var i := IndexOf(s.inbounds, id);
    var both := s.inbounds[i].clients + clients;
    var rows := AddStats(s.rows, id, clients, false);
    BatchUnrowed(s, clients);
    AddStatsAdds(s.rows, id, clients, false);
    JoinDistinct(s.inbounds, i, clients);
    JoinFollows(s, i, clients, rows);
    ClientsReplaced(s, i, both, rows);
  }

  lemma JoinFollows(s: Store, i: nat, clients: seq<Client>, rows: map<string, Row>)
    requires Consistent(s) && i < |s.inbounds| && Keyed(rows) && StatsAdded(s.rows, s.inbounds[i].id, clients, rows)
    ensures RowsFollow(s, i, s.inbounds[i].clients + clients, rows)
  {
    var id, ib := s.inbounds[i].id, s.inbounds[i];
    var both := ib.clients + clients;
    forall a | 0 <= a < |both|
      ensures Mirrored(both[a], id, rows)
    {
      if a < |ib.clients| {
        MirroredHere(s, i, a);
      } else {
        assert both[a] == clients[a - |ib.clients|];
      }
    }
    forall e | e in rows && e != "" && !(e in s.rows && s.rows[e].inboundId != id)
      ensures rows[e].inboundId == id && HasEmail(both, e)
    {
      if e in s.rows {
        OwnersClients(s, i, e);
        var a :| 0 <= a < |ib.clients| && ib.clients[a].email == e;
        assert both[a].email == e;
      } else {
        assert HasEmail(clients, e);
        var a :| 0 <= a < |clients| && clients[a].email == e;
        assert both[|ib.clients| + a].email == e;
      }
    }
  }

  // ---- AddInbound ----

  /** The form's key is none, or not in use. */
  predicate NewKey(s: Store, id: int) {
    id == 0 || IndexOf(s.inbounds, id) == |s.inbounds|
  }

  /** The form does not overwrite an inbound that has clients with emails. */
  predicate HarmlessKey(s: Store, id: int) {
    NewKey(s, id) || forall c :: c in s.inbounds[IndexOf(s.inbounds, id)].clients ==> c.email == ""
  }

  /** A new inbound keeps the copies in agreement exactly if its form overwrites no clients with emails. */
  lemma AddedInboundConsistent(s: Store, ib: Inbound)
    requires Consistent(s) && AddedInbound(s, ib, None).Some?
    ensures Consistent(AddedInbound(s, ib, None).value) <==> HarmlessKey(s, ib.id)
  {
    hide Consistent, AddedInbound, HasEmail;
    if NewKey(s, ib.id) {
      NewInboundConsistent(s, ib);
    } else if HarmlessKey(s, ib.id) {
      OverwrittenConsistent(s, ib);
    } else {
      var i := IndexOf(s.inbounds, ib.id);
      var c :| c in s.inbounds[i].clients && c.email != "";
      var a :| 0 <= a < |s.inbounds[i].clients| && s.inbounds[i].clients[a] == c;
      ReusedKeyBreaks(s, ib, i, a);
    }
  }

  lemma OverwrittenConsistent(s: Store, ib: Inbound)
    requires Consistent(s) && AddedInbound(s, ib, None).Some? && !NewKey(s, ib.id) && HarmlessKey(s, ib.id)
    ensures Consistent(AddedInbound(s, ib, None).value)
  {
    var i := IndexOf(s.inbounds, ib.id);
    var rows := AddStats(s.rows, ib.id, ib.clients, true);
    var after := AddedInbound(s, ib, None).value;
    BatchUnrowed(s, ib.clients);
    AddStatsAdds(s.rows, ib.id, ib.clients, true);
    OverwriteFollows(s, i, ib.clients, rows);
    ClientsReplaced(s, i, ib.clients, rows);
    assert ib.id < s.nextId;
    assert after == Store(s.inbounds[i := ib], rows, s.nextId);
    SameCopies(WithClients(s, i, ib.clients, rows), after);
  }

  lemma OverwriteFollows(s: Store, i: nat, clients: seq<Client>, rows: map<string, Row>)
    requires Consistent(s) && i < |s.inbounds| && (forall c :: c in s.inbounds[i].clients ==> c.email == "")
    requires Keyed(rows) && StatsAdded(s.rows, s.inbounds[i].id, clients, rows)
    ensures RowsFollow(s, i, clients, rows)
  {
    var id := s.inbounds[i].id;
    forall e | e in s.rows && e != ""
      ensures s.rows[e].inboundId != id
    {
      if s.rows[e].inboundId == id {
        OwnersClients(s, i, e);
      }
    }
    forall e | e in rows && e != "" && e !in s.rows
      ensures rows[e].inboundId == id && HasEmail(clients, e)
    {
      var a :| 0 <= a < |clients| && clients[a].email == e;
    }
  }

  lemma NewInboundConsistent(s: Store, ib: Inbound)
    requires Consistent(s) && NewKey(s, ib.id) && AddedInbound(s, ib, None).Some?
    ensures Consistent(AddedInbound(s, ib, None).value)
  {
    var id := if ib.id == 0 then s.nextId else ib.id;
    var next := if id < s.nextId then s.nextId else id + 1;
    var rows := AddStats(s.rows, id, ib.clients, true);
    assert IndexOf(s.inbounds, id) == |s.inbounds|;
    EmptyInboundAdded(s, ib.(id := id, clients := []), next);
    var empty := s.(inbounds := s.inbounds + [ib.(id := id, clients := [])], nextId := next);
    BatchUnrowed(s, ib.clients);
    AddStatsAdds(s.rows, id, ib.clients, true);
    JoinFollows(empty, |s.inbounds|, ib.clients, rows);
    assert [] + ib.clients == ib.clients;
    ClientsReplaced(empty, |s.inbounds|, ib.clients, rows);
    assert WithClients(empty, |s.inbounds|, ib.clients, rows).inbounds == s.inbounds + [ib.(id := id)];
  }

  lemma EmptyInboundAdded(s: Store, ib: Inbound, next: int)
    requires Consistent(s) && ib.clients == [] && IndexOf(s.inbounds, ib.id) == |s.inbounds|
    requires s.nextId <= next && ib.id < next
    ensures Consistent(s.(inbounds := s.inbounds + [ib], nextId := next))
  {
    hide HasEmail;
    var after := s.inbounds + [ib];
    forall e | e in s.rows && e != ""
      ensures Owned(after, s.rows[e])
    {
      assert Owned(s.inbounds, s.rows[e]);
      var i :| 0 <= i < |s.inbounds| && s.inbounds[i].id == s.rows[e].inboundId
        && HasEmail(s.inbounds[i].clients, s.rows[e].email);
      assert after[i] == s.inbounds[i];
    }
  }

  /** A form that carries the key of an inbound overwrites it, and the rows of its clients lose their owner. */
  lemma ReusedKeyBreaks(s: Store, ib: Inbound, i: nat, a: nat)
    requires Consistent(s) && i < |s.inbounds| && s.inbounds[i].id == ib.id != 0
    requires a < |s.inbounds[i].clients| && s.inbounds[i].clients[a].email != ""
    requires AddedInbound(s, ib, None).Some?
    ensures !Consistent(AddedInbound(s, ib, None).value)
  {
    var after := AddedInbound(s, ib, None).value;
    var e := s.inbounds[i].clients[a].email;
    IndexFound(s, ib.id, i);
    MirroredHere(s, i, a);
    assert HasEmail(s.inbounds[i].clients, e);
    assert EmailTaken(s.inbounds, e);
    assert !HasEmail(ib.clients, e);
    RowsStay(s.rows, ib.id, ib.clients, true, e);
    assert after.rows[e] == s.rows[e] && after.inbounds == s.inbounds[i := ib];
    assert forall j :: 0 <= j < |after.inbounds| && after.inbounds[j].id == ib.id ==> j == i;
    assert !Owned(after.inbounds, after.rows[e]);
  }

  lemma {:induction false} RowsStay(rows: map<string, Row>, id: int, clients: seq<Client>, all: bool, e: string)
    requires e in rows
    ensures e in AddStats(rows, id, clients, all) && AddStats(rows, id, clients, all)[e] == rows[e]
    decreases |clients|
  {
    if clients != [] {
      RowsStay(rows, id, clients[..|clients| - 1], all, e);
    }
  }

  // ---- DelInboundClient ----

  lemma {:induction false} WithoutKeyMembers(protocol: string, clients: seq<Client>, key: string)
    ensures forall c :: c in WithoutKey(protocol, clients, key) <==> c in clients && KeyOf(protocol, c) != key
    decreases |clients|
  {
    hide KeyOf;
    if clients != [] {
      var n := |clients| - 1;
      WithoutKeyMembers(protocol, clients[..n], key);
      assert clients == clients[..n] + [clients[n]];
    }
  }

  lemma {:induction false} WithoutKeyDistinct(protocol: string, clients: seq<Client>, key: string)
    requires DistinctWithin(clients)
    ensures DistinctWithin(WithoutKey(protocol, clients, key))
    decreases |clients|
  {
    hide KeyOf;
    if clients != [] {
      var n := |clients| - 1;
      WithoutKeyDistinct(protocol, clients[..n], key);
      WithoutKeyMembers(protocol, clients[..n], key);
      assert forall c :: c in clients[..n] && c.email != "" ==> c.email != clients[n].email;
      assert forall c :: c in WithoutKey(protocol, clients[..n], key) ==> c in clients[..n];
    }
  }

  /** The email found belongs to a dropped client, or none was dropped. */
  lemma {:induction false} EmailOfKeyBelongs(protocol: string, clients: seq<Client>, key: string)
    ensures EmailOfKey(protocol, clients, key) == "" || exists a ::
      0 <= a < |clients| && KeyOf(protocol, clients[a]) == key && clients[a].email == EmailOfKey(protocol, clients, key)
    decreases |clients|
  {
    hide KeyOf;
    if clients != [] {
      var n := |clients| - 1;
      if KeyOf(protocol, clients[n]) != key {
        EmailOfKeyBelongs(protocol, clients[..n], key);
        assert forall a :: 0 <= a < n ==> clients[..n][a] == clients[a];
      }
    }
  }

  /** Among the clients with the key, only the last one has an email. */
  ghost predicate OneEmailPerKey(protocol: string, clients: seq<Client>, key: string) {
    forall a :: 0 <= a < |clients| && KeyOf(protocol, clients[a]) == key && clients[a].email != "" ==>
      clients[a].email == EmailOfKey(protocol, clients, key)
  }

  /**
     Deleting by key drops every client with that key but only the last one's row: the store stays
     consistent exactly if no other dropped client had an email.
   */
  lemma DeletedClientConsistent(s: Store, id: int, key: string)
    requires Consistent(s) && DeletedClient(s, id, key).Some?
    ensures (var ib := s.inbounds[IndexOf(s.inbounds, id)];
      Consistent(DeletedClient(s, id, key).value) <==> OneEmailPerKey(ib.protocol, ib.clients, key))
  {
    var i := IndexOf(s.inbounds, id);
    var ib := s.inbounds[i];
    var left := WithoutKey(ib.protocol, ib.clients, key);
    WithoutKeyDistinct(ib.protocol, ib.clients, key);
    if OneEmailPerKey(ib.protocol, ib.clients, key) {
      DropFollows(s, i, key);
      ClientsReplaced(s, i, left, s.rows - {EmailOfKey(ib.protocol, ib.clients, key)});
    } else {
      hide OneEmailPerKey;
      OrphanLeft(s, i, key);
    }
  }

  lemma DropFollows(s: Store, i: nat, key: string)
    requires Consistent(s) && i < |s.inbounds|
    requires OneEmailPerKey(s.inbounds[i].protocol, s.inbounds[i].clients, key)
    ensures (var ib := s.inbounds[i];
      RowsFollow(s, i, WithoutKey(ib.protocol, ib.clients, key), s.rows - {EmailOfKey(ib.protocol, ib.clients, key)}))
  {
    hide KeyOf, WithoutKey, EmailOfKey;
    var ib := s.inbounds[i];
    var left := WithoutKey(ib.protocol, ib.clients, key);
    var email := EmailOfKey(ib.protocol, ib.clients, key);
    var rows := s.rows - {email};
    WithoutKeyMembers(ib.protocol, ib.clients, key);
    EmailOfKeyBelongs(ib.protocol, ib.clients, key);
    EmailHasRow(s, i, key);
    forall b | 0 <= b < |left|
      ensures Mirrored(left[b], ib.id, rows)
    {
      assert left[b] in left;
      var a :| 0 <= a < |ib.clients| && ib.clients[a] == left[b];
      MirroredHere(s, i, a);
      KeptHasOtherEmail(ib.protocol, ib.clients, key, a);
    }
    forall e | e in rows && e != "" && s.rows[e].inboundId == ib.id
      ensures HasEmail(left, e)
    {
      OwnersClients(s, i, e);
      var c :| 0 <= c < |ib.clients| && ib.clients[c].email == e;
      assert ib.clients[c] in left;
    }
    assert Keyed(s.rows) by {
      hide HasEmail, DistinctWithin, AllMirrored;
    }
  }

  lemma EmailHasRow(s: Store, i: nat, key: string)
    requires Consistent(s) && i < |s.inbounds|
    ensures (var email := EmailOfKey(s.inbounds[i].protocol, s.inbounds[i].clients, key);
      email != "" ==> email in s.rows && s.rows[email].inboundId == s.inbounds[i].id)
  {
    var ib := s.inbounds[i];
    EmailOfKeyBelongs(ib.protocol, ib.clients, key);
    if EmailOfKey(ib.protocol, ib.clients, key) != "" {
      var a :| 0 <= a < |ib.clients| && KeyOf(ib.protocol, ib.clients[a]) == key
               && ib.clients[a].email == EmailOfKey(ib.protocol, ib.clients, key);
      MirroredHere(s, i, a);
    }
  }

  lemma KeptHasOtherEmail(protocol: string, clients: seq<Client>, key: string, a: nat)
    requires a < |clients| && KeyOf(protocol, clients[a]) != key && DistinctWithin(clients)
    ensures clients[a].email != "" ==> clients[a].email != EmailOfKey(protocol, clients, key)
  {
    hide KeyOf;
    EmailOfKeyBelongs(protocol, clients, key);
  }

  lemma OrphanLeft(s: Store, i: nat, key: string)
    requires Consistent(s) && i < |s.inbounds|
    requires !OneEmailPerKey(s.inbounds[i].protocol, s.inbounds[i].clients, key)
    ensures (var ib := s.inbounds[i];
      !Consistent(WithClients(s, i, WithoutKey(ib.protocol, ib.clients, key),
        s.rows - {EmailOfKey(ib.protocol, ib.clients, key)})))
  {
    hide KeyOf, WithoutKey, EmailOfKey;
    var ib := s.inbounds[i];
    var left := WithoutKey(ib.protocol, ib.clients, key);
    var after := WithClients(s, i, left, s.rows - {EmailOfKey(ib.protocol, ib.clients, key)});
    var a :| 0 <= a < |ib.clients| && KeyOf(ib.protocol, ib.clients[a]) == key && ib.clients[a].email != ""
             && ib.clients[a].email != EmailOfKey(ib.protocol, ib.clients, key);
    var e := ib.clients[a].email;
    MirroredHere(s, i, a);
    WithoutKeyMembers(ib.protocol, ib.clients, key);
    assert DistinctWithin(ib.clients);
    assert !HasEmail(left, e) by {
      forall b | 0 <= b < |left|
        ensures left[b].email != e
      {
        assert left[b] in left;
      }
    }
    assert forall j :: 0 <= j < |after.inbounds| && after.inbounds[j].id == ib.id ==> j == i;
    assert !Owned(after.inbounds, after.rows[e]);
  }

  // ---- UpdateInboundClient ----

  lemma UpdatedClientConsistent(s: Store, id: int, clients: seq<Client>, key: string)
    requires Consistent(s) && UpdatedClient(s, id, clients, key).Some?
    ensures Consistent(UpdatedClient(s, id, clients, key).value)
  {
    var i := IndexOf(s.inbounds, id);
    var ib, c := s.inbounds[i], clients[0];
    var a := FindKey(ib.protocol, ib.clients, key);
    var was := ib.clients[a].email;
    if c.email != "" && c.email != was {
      assert !EmailTaken(s.inbounds, c.email);
      if c.email in s.rows {
        RowedMeansTaken(s, c.email);
      }
    }
    ClientExchanged(s, i, a, c, RowsForUpdate(s.rows, id, was, c).value);
  }

  /** The new client's email is free or the old one's, and its row replaces the old one's. */
  lemma ClientExchanged(s: Store, i: nat, a: nat, c: Client, rows: map<string, Row>)
    requires Consistent(s) && i < |s.inbounds| && a < |s.inbounds[i].clients|
    requires (var was := s.inbounds[i].clients[a].email;
      && (c.email != "" && c.email != was ==> !EmailTaken(s.inbounds, c.email) && c.email !in s.rows)
      && RowsForUpdate(s.rows, s.inbounds[i].id, was, c) == Some(rows))
    ensures Consistent(WithClients(s, i, s.inbounds[i].clients[a := c], rows))
  {
    var ib := s.inbounds[i];
    var was := ib.clients[a].email;
    MirroredHere(s, i, a);
    ExchangedRows(s, ib.id, was, c, rows);
    ExchangeDistinct(s, i, a, c);
    hide RowsForUpdate;
    ExchangeFollows(s, i, a, c, rows);
    ClientsReplaced(s, i, ib.clients[a := c], rows);
  }

  /** The row of the new email agrees with the new client, the old one's is gone, all others stay. */
  ghost predicate RowExchanged(rows: map<string, Row>, id: int, was: string, c: Client, after: map<string, Row>) {
    && Keyed(after) && Mirrored(c, id, after)
    && (forall e :: e in rows && e != "" && e != was && e != c.email ==> e in after && after[e] == rows[e])
    && (forall e :: e in after && e != "" && e != c.email ==> e in rows && e != was && after[e] == rows[e])
  }

  lemma ExchangedRows(s: Store, id: int, was: string, c: Client, rows: map<string, Row>)
    requires Consistent(s) && (was != "" ==> was in s.rows && s.rows[was].inboundId == id)
    requires c.email != "" && c.email != was ==> c.email !in s.rows
    requires RowsForUpdate(s.rows, id, was, c) == Some(rows)
    ensures RowExchanged(s.rows, id, was, c, rows)
  {
    hide Owned, AllMirrored, DistinctWithin;
  }

  lemma ExchangeDistinct(s: Store, i: nat, a: nat, c: Client)
    requires Consistent(s) && i < |s.inbounds| && a < |s.inbounds[i].clients|
    requires c.email != "" && c.email != s.inbounds[i].clients[a].email ==> !EmailTaken(s.inbounds, c.email)
    ensures DistinctWithin(s.inbounds[i].clients[a := c])
  {
    var clients := s.inbounds[i].clients;
    assert DistinctWithin(clients);
    assert HasEmail(clients, c.email) ==> EmailTaken(s.inbounds, c.email);
  }

  lemma ExchangeMirrored(s: Store, i: nat, a: nat, b: nat, c: Client, rows: map<string, Row>)
    requires Consistent(s) && i < |s.inbounds| && a < |s.inbounds[i].clients| && b < |s.inbounds[i].clients|
    requires DistinctWithin(s.inbounds[i].clients[a := c])
    requires RowExchanged(s.rows, s.inbounds[i].id, s.inbounds[i].clients[a].email, c, rows)
    ensures Mirrored(s.inbounds[i].clients[a := c][b], s.inbounds[i].id, rows)
  {
    if b != a {
      MirroredHere(s, i, b);
      assert DistinctWithin(s.inbounds[i].clients);
      var after := s.inbounds[i].clients[a := c];
      assert after[a] == c && after[b] == s.inbounds[i].clients[b];
    }
  }

  lemma ExchangeOwned(s: Store, i: nat, a: nat, c: Client, e: string)
    requires Consistent(s) && i < |s.inbounds| && a < |s.inbounds[i].clients|
    requires e in s.rows && e != "" && s.rows[e].inboundId == s.inbounds[i].id && e != s.inbounds[i].clients[a].email
    ensures HasEmail(s.inbounds[i].clients[a := c], e)
  {
    OwnersClients(s, i, e);
    var b :| 0 <= b < |s.inbounds[i].clients| && s.inbounds[i].clients[b].email == e;
    assert s.inbounds[i].clients[a := c][b].email == e;
  }

  lemma ExchangeFollows(s: Store, i: nat, a: nat, c: Client, rows: map<string, Row>)
    requires Consistent(s) && i < |s.inbounds| && a < |s.inbounds[i].clients|
    requires DistinctWithin(s.inbounds[i].clients[a := c])
    requires c.email != "" && c.email != s.inbounds[i].clients[a].email ==> c.email !in s.rows
    requires RowExchanged(s.rows, s.inbounds[i].id, s.inbounds[i].clients[a].email, c, rows)
    ensures RowsFollow(s, i, s.inbounds[i].clients[a := c], rows)
  {
    var ib := s.inbounds[i];
    var after := ib.clients[a := c];
    MirroredHere(s, i, a);
    forall b | 0 <= b < |after|
      ensures Mirrored(after[b], ib.id, rows)
    {
      ExchangeMirrored(s, i, a, b, c, rows);
    }
    assert c.email != "" ==> HasEmail(after, c.email) by {
      assert after[a] == c;
    }
    forall e | e in rows && e != "" && e != c.email && s.rows[e].inboundId == ib.id
      ensures HasEmail(after, e)
    {
      ExchangeOwned(s, i, a, c, e);
    }
    hide HasEmail, Consistent, DistinctWithin;
  }

  // ---- DelInbound ----

  lemma MirroredAfterDelete(s: Store, id: int, k: nat)
    requires Consistent(s) && k < |s.inbounds| && s.inbounds[k].id != id
    ensures AllMirrored(s.inbounds[k].clients, s.inbounds[k].id, DeletedInbound(s, id).rows)
  {
    forall a | 0 <= a < |s.inbounds[k].clients|
      ensures Mirrored(s.inbounds[k].clients[a], s.inbounds[k].id, DeletedInbound(s, id).rows)
    {
      MirroredHere(s, k, a);
    }
  }

  lemma OwnedAfterDelete(inbounds: seq<Inbound>, i: nat, row: Row)
    requires Owned(inbounds, row) && i <= |inbounds| && (i < |inbounds| ==> inbounds[i].id != row.inboundId)
    ensures Owned(if i < |inbounds| then inbounds[..i] + inbounds[i + 1..] else inbounds, row)
  {
    hide HasEmail;
    var after := if i < |inbounds| then inbounds[..i] + inbounds[i + 1..] else inbounds;
    var k :| 0 <= k < |inbounds| && inbounds[k].id == row.inboundId && HasEmail(inbounds[k].clients, row.email);
    assert after[if k < i then k else k - 1] == inbounds[k];
  }

  lemma DeletedInboundConsistent(s: Store, id: int)
    requires Consistent(s)
    ensures Consistent(DeletedInbound(s, id))
  {
    hide HasEmail, DistinctWithin, AllMirrored, Owned, IndexOf;
    var i := IndexOf(s.inbounds, id);
    var after := DeletedInbound(s, id);
    InboundsLeft(s, id);
    forall j | 0 <= j < |after.inbounds|
      ensures AllMirrored(after.inbounds[j].clients, after.inbounds[j].id, after.rows)
    {
      MirroredAfterDelete(s, id, if j < i then j else j + 1);
    }
    forall e | e in after.rows && e != ""
      ensures Owned(after.inbounds, after.rows[e])
    {
      assert Owned(s.inbounds, s.rows[e]);
      OwnedAfterDelete(s.inbounds, i, s.rows[e]);
    }
  }

  /** The inbounds behind the deleted one move up. */
  lemma InboundsLeft(s: Store, id: int)
    ensures (var i, after := IndexOf(s.inbounds, id), DeletedInbound(s, id).inbounds;
      && |after| == (if i < |s.inbounds| then |s.inbounds| - 1 else |s.inbounds|)
      && forall j :: 0 <= j < |after| ==> after[j] == s.inbounds[if j < i then j else j + 1])
  {
    hide IndexOf;
  }
}
