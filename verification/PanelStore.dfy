/**
 The two copies of every client: the JSON object in its inbound's settings and the row in
 client_traffics, whose email column is unique.
 */
module PanelStore {
  import opened PanelModel

  /** `rows` is keyed by the unique email column, `nextId` is the key the next new inbound gets. */
  datatype Store = Store(inbounds: seq<Inbound>, rows: map<string, Row>, nextId: int)

  /** Non-empty emails do not repeat in one inbound. */
  ghost predicate DistinctWithin(clients: seq<Client>) {
    forall a, b :: 0 <= a < b < |clients| && clients[a].email != "" ==> clients[a].email != clients[b].email
  }

  ghost predicate HasEmail(clients: seq<Client>, email: string) {
    exists a :: 0 <= a < |clients| && clients[a].email == email
  }

  /** Non-empty emails do not repeat anywhere. */
  ghost predicate EmailsDistinct(inbounds: seq<Inbound>) {
    && (forall i :: 0 <= i < |inbounds| ==> DistinctWithin(inbounds[i].clients))
    && (forall i, j, email :: 0 <= i < j < |inbounds| && email != "" && HasEmail(inbounds[i].clients, email) ==>
          !HasEmail(inbounds[j].clients, email))
  }

  ghost predicate IdsDistinct(inbounds: seq<Inbound>) {
    forall i, j :: 0 <= i < j < |inbounds| ==> inbounds[i].id != inbounds[j].id
  }

  ghost predicate Keyed(rows: map<string, Row>) {
    forall e :: e in rows ==> rows[e].email == e
  }

  /** The row has the client's expiry, quota and renewal period. */
  predicate Alike(c: Client, row: Row) {
    row.expiry == c.expiry && row.total == c.total && row.reset == c.reset
  }

  /** The client's row exists, belongs to its inbound and agrees with it. */
  ghost predicate Mirrored(c: Client, id: int, rows: map<string, Row>) {
    c.email != "" ==> c.email in rows && rows[c.email].inboundId == id && Alike(c, rows[c.email])
  }

  ghost predicate AllMirrored(clients: seq<Client>, id: int, rows: map<string, Row>) {
    forall a :: 0 <= a < |clients| ==> Mirrored(clients[a], id, rows)
  }

  /** Some inbound holds the client the row was made for. */
  ghost predicate Owned(inbounds: seq<Inbound>, row: Row) {
    exists i :: 0 <= i < |inbounds| && inbounds[i].id == row.inboundId && HasEmail(inbounds[i].clients, row.email)
  }

  /** Every client with an email has one row, which agrees with it, and every such row has a client. */
  ghost predicate Consistent(s: Store) {
    && IdsDistinct(s.inbounds) && Keyed(s.rows)
    && (forall i :: 0 <= i < |s.inbounds| ==>
          s.inbounds[i].id < s.nextId && DistinctWithin(s.inbounds[i].clients)
          && AllMirrored(s.inbounds[i].clients, s.inbounds[i].id, s.rows))
    && (forall e :: e in s.rows && e != "" ==> Owned(s.inbounds, s.rows[e]))
  }

  /** The inbound in a row keeps the emails of different inbounds apart. */
  lemma ConsistentMeansDistinct(s: Store)
    requires Consistent(s)
    ensures EmailsDistinct(s.inbounds)
  {
    forall i, j, email | 0 <= i < j < |s.inbounds| && email != "" && HasEmail(s.inbounds[i].clients, email)
      ensures !HasEmail(s.inbounds[j].clients, email)
    {
      var a :| 0 <= a < |s.inbounds[i].clients| && s.inbounds[i].clients[a].email == email;
      assert Mirrored(s.inbounds[i].clients[a], s.inbounds[i].id, s.rows);
      forall b | 0 <= b < |s.inbounds[j].clients|
        ensures s.inbounds[j].clients[b].email != email
      {
        assert Mirrored(s.inbounds[j].clients[b], s.inbounds[j].id, s.rows);
      }
    }
  }
}
