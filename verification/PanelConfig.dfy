/**
 The clients of a generated configuration.  Disabled clients are removed from the slice that is
 being ranged over, so the loop reads a backing array that its own removals have shifted.
 */
module PanelConfig {
  import opened Options
  import opened PanelModel
  import opened PanelStore
  import opened PanelTraffic
  import opened PanelTickLaws

  function Min(a: int, b: int): int {
    if a <= b then a else b
  }

  /** `RemoveIndex` on the first `len` elements of the backing array: the tail moves left by one. */
  method RemoveIndex<T>(s: array<T>, len: nat, index: nat)
    requires index < len <= s.Length
    modifies s
    ensures forall p :: 0 <= p < s.Length ==> s[p] == if index <= p < len - 1 then old(s[p + 1]) else old(s[p])
  {
    var j := index;
    while j < len - 1
      invariant index <= j <= len - 1
      invariant forall p :: 0 <= p < s.Length ==> s[p] == if index <= p < j then old(s[p + 1]) else old(s[p])
    {
      s[j] := s[j + 1];
      j := j + 1;
    }
  }

  predicate Matches(o: seq<Client>, email: string, i: nat)
    requires i < |o|
  {
    o[i].email == email
  }

  /** What position p of the backing array holds after d removals further left. */
  function Shifted(o: seq<Client>, p: nat, d: nat): nat
    requires |o| > 0
    ensures Shifted(o, p, d) < |o|
  {
    Min(p + d, |o| - 1)
  }

  /**
     What the loop leaves of o from index i on, after d removals: it tests the client that has
     been shifted to index i, but it removes the one that was at index i.
   */
  function Survivors(o: seq<Client>, email: string, i: nat, d: nat): seq<Client>
    decreases |o| - i
  {
    if i >= |o| then []
    else if Matches(o, email, Shifted(o, i, d)) then Survivors(o, email, i + 1, d + 1)
    else [o[i]] + Survivors(o, email, i + 1, d)
  }

  /** Positions from `from` on hold what d removals further left have shifted there. */
  ghost predicate Behind(s: seq<Client>, o: seq<Client>, from: nat, d: nat)
    requires |o| <= |s|
  {
    forall p: nat :: from <= p < |o| ==> s[p] == o[Shifted(o, p, d)]
  }

  lemma RemovalShifts(s: seq<Client>, after: seq<Client>, o: seq<Client>, i: nat, d: nat)
    requires d <= i < |o| <= |s| == |after| && Behind(s, o, i - d, d)
    requires forall p :: i - d <= p < |o| - d - 1 ==> after[p] == s[p + 1]
    requires forall p :: |o| - d - 1 <= p < |s| ==> after[p] == s[p]
    ensures Behind(after, o, i - d, d + 1)
  {
    forall p: nat | i - d <= p < |o|
      ensures after[p] == o[Shifted(o, p, d + 1)]
    {
      if p < |o| - d - 1 {
        assert after[p] == s[p + 1] == o[Shifted(o, p + 1, d)];
      } else {
        assert after[p] == s[p] == o[Shifted(o, p, d)];
      }
    }
  }

  lemma BehindAt(s: seq<Client>, o: seq<Client>, from: nat, d: nat)
    requires |o| <= |s| && Behind(s, o, from, d) && from + d < |o|
    ensures s[from] == o[from + d] && s[from + d] == o[Shifted(o, from + d, d)]
    ensures Behind(s, o, from + 1, d)
  {
  }

  lemma SurvivorsStep(o: seq<Client>, email: string, i: nat, d: nat, kept: seq<Client>, all: seq<Client>)
    requires i < |o| && kept + Survivors(o, email, i, d) == all
    ensures if Matches(o, email, Shifted(o, i, d)) then kept + Survivors(o, email, i + 1, d + 1) == all
            else kept + [o[i]] + Survivors(o, email, i + 1, d) == all
  {
    if !Matches(o, email, Shifted(o, i, d)) {
      assert kept + [o[i]] + Survivors(o, email, i + 1, d) == kept + ([o[i]] + Survivors(o, email, i + 1, d));
    }
  }

  /** One round of the loop: look at the client at `index`, and remove at `index - indexDecrease`. */
  method Visit(backing: array<Client>, left: nat, index: nat, indexDecrease: nat, email: string, ghost o: seq<Client>)
    returns (removed: bool)
    requires |o| <= backing.Length && left == |o| - indexDecrease && indexDecrease <= index < |o|
    requires Behind(backing[..], o, index - indexDecrease, indexDecrease)
    modifies backing
    ensures removed == Matches(o, email, Shifted(o, index, indexDecrease))
    ensures backing[..index - indexDecrease] == old(backing[..index - indexDecrease])
    ensures (if removed then Behind(backing[..], o, index - indexDecrease, indexDecrease + 1)
             else (&& backing[index - indexDecrease] == o[index]
                   && Behind(backing[..], o, index - indexDecrease + 1, indexDecrease)))
  {
    hide Behind, Shifted, Min;
    ghost var was := backing[..];
    BehindAt(was, o, index - indexDecrease, indexDecrease);
    removed := backing[index].email == email;
    if removed {
      RemoveIndex(backing, left, index - indexDecrease);
      RemovalShifts(was, backing[..], o, index, indexDecrease);
    }
  }

  /** The loop over one inbound's clients for one disabled row. */
  method DropClients(backing: array<Client>, len: nat, email: string) returns (left: nat)
    requires len <= backing.Length
    modifies backing
    ensures left <= len
    ensures backing[..left] == Survivors(old(backing[..len]), email, 0, 0)
  {
    hide Survivors, Behind, Shifted, Min, Matches;
    ghost var o := backing[..len];
    NothingRemoved(backing[..], o);
    left := len;
    var indexDecrease := 0;
    for index := 0 to len
      invariant 0 <= indexDecrease <= index && left == len - indexDecrease
      invariant Behind(backing[..], o, index - indexDecrease, indexDecrease)
      invariant backing[..index - indexDecrease] + Survivors(o, email, index, indexDecrease)
        == Survivors(o, email, 0, 0)
    {
      SurvivorsStep(o, email, index, indexDecrease, backing[..index - indexDecrease], Survivors(o, email, 0, 0));
      var removed := Visit(backing, left, index, indexDecrease, email, o);
      if removed {
        left := left - 1;
        indexDecrease := indexDecrease + 1;
      } else {
        assert backing[..index - indexDecrease + 1] == backing[..index - indexDecrease] + [o[index]];
      }
    }
    NothingLeft(o, email, indexDecrease);
  }

  lemma NothingRemoved(s: seq<Client>, o: seq<Client>)
    requires o <= s
    ensures Behind(s, o, 0, 0)
  {
  }

  lemma NothingLeft(o: seq<Client>, email: string, d: nat)
    ensures Survivors(o, email, |o|, d) == []
  {
  }

  /** The clients with another email, in order. */
  function Without(o: seq<Client>, email: string): seq<Client> {
    if o == [] then [] else (if o[0].email == email then [] else [o[0]]) + Without(o[1..], email)
  }

  /** Behind an entry with the email, either all entries carry it or none does. */
  predicate Uniform(o: seq<Client>, email: string) {
    forall f: nat, i: nat, j: nat :: f < i < |o| && f < j < |o| && Matches(o, email, f) ==>
      (Matches(o, email, i) <==> Matches(o, email, j))
  }

  /** From step i on, the tested client matches exactly when the removed one does. */
  predicate Tracks(o: seq<Client>, email: string, i: nat, d: nat)
    decreases |o| - i
  {
    i < |o| ==>
      && (Matches(o, email, i) <==> Matches(o, email, Shifted(o, i, d)))
      && Tracks(o, email, i + 1, if Matches(o, email, i) then d + 1 else d)
  }

  lemma {:induction false} TracksFilters(o: seq<Client>, email: string, i: nat, d: nat)
    requires i <= |o| && Tracks(o, email, i, d)
    ensures Survivors(o, email, i, d) == Without(o[i..], email)
    decreases |o| - i
  {
    if i < |o| {
      assert o[i..][1..] == o[i + 1..];
      TracksFilters(o, email, i + 1, if Matches(o, email, i) then d + 1 else d);
    }
  }

  /** If only strangers are left, no more of them than there were, and as many only if the loop tracks. */
  lemma {:induction false} FilterTracks(o: seq<Client>, email: string, i: nat, d: nat)
    requires i <= |o| && forall c :: c in Survivors(o, email, i, d) ==> c.email != email
    ensures |Survivors(o, email, i, d)| <= |Without(o[i..], email)|
    ensures |Survivors(o, email, i, d)| == |Without(o[i..], email)| ==> Tracks(o, email, i, d)
    decreases |o| - i
  {
    if i < |o| {
      assert o[i..][1..] == o[i + 1..];
      if Matches(o, email, Shifted(o, i, d)) {
        FilterTracks(o, email, i + 1, d + 1);
      } else {
        assert o[i] in Survivors(o, email, i, d);
        assert forall c :: c in Survivors(o, email, i + 1, d) ==> c in Survivors(o, email, i, d);
        FilterTracks(o, email, i + 1, d);
      }
    }
  }

  lemma {:induction false} WithoutHasNone(o: seq<Client>, email: string)
    ensures forall c :: c in Without(o, email) <==> c in o && c.email != email
  {
    if o != [] {
      WithoutHasNone(o[1..], email);
      assert o == [o[0]] + o[1..];
    }
  }

  /** After a removal the loop looks ahead, so it only tracks an unchanging tail. */
  lemma {:induction false} TracksUniformTail(o: seq<Client>, email: string, i: nat, d: nat, j: nat)
    requires d > 0 && i <= j < |o| && Tracks(o, email, i, d)
    ensures Matches(o, email, i) <==> Matches(o, email, j)
    decreases |o| - i
  {
    if i < |o| - 1 {
      var next := if Matches(o, email, i) then d + 1 else d;
      TracksUniformTail(o, email, i + 1, next, Shifted(o, i, d));
      TracksUniformTail(o, email, i + 1, next, if j > i then j else i + 1);
    }
  }

  lemma {:induction false} TracksUniform(o: seq<Client>, email: string, i: nat, d: nat, f: nat, j: nat, k: nat)
    requires i <= f < j < |o| && f < k < |o| && Tracks(o, email, i, d) && Matches(o, email, f)
    ensures Matches(o, email, j) <==> Matches(o, email, k)
    decreases |o| - i
  {
    var next := if Matches(o, email, i) then d + 1 else d;
    if i == f {
      TracksUniformTail(o, email, i + 1, next, j);
      TracksUniformTail(o, email, i + 1, next, k);
    } else {
      TracksUniform(o, email, i + 1, next, f, j, k);
    }
  }

  lemma {:induction false} UniformTracks(o: seq<Client>, email: string, i: nat, d: nat)
    requires Uniform(o, email) && i <= |o|
    requires d > 0 ==> exists f: nat :: f < i && Matches(o, email, f)
    ensures Tracks(o, email, i, d)
    decreases |o| - i
  {
    if i < |o| {
      if d > 0 {
        var f: nat :| f < i && Matches(o, email, f);
        assert Matches(o, email, i) <==> Matches(o, email, Shifted(o, i, d));
      }
      UniformTracks(o, email, i + 1, if Matches(o, email, i) then d + 1 else d);
    }
  }

  /** Removing while ranging is a filter exactly if the email's entries have an unchanging tail behind them. */
  lemma RemovalIsFilter(o: seq<Client>, email: string)
    ensures Survivors(o, email, 0, 0) == Without(o, email) <==> Uniform(o, email)
  {
    assert o[0..] == o;
    if Uniform(o, email) {
      UniformTracks(o, email, 0, 0);
      TracksFilters(o, email, 0, 0);
    }
    if Survivors(o, email, 0, 0) == Without(o, email) {
      WithoutHasNone(o, email);
      FilterTracks(o, email, 0, 0);
      forall f: nat, j: nat, k: nat | f < j < |o| && f < k < |o| && Matches(o, email, f)
        ensures Matches(o, email, j) <==> Matches(o, email, k)
      {
        TracksUniform(o, email, 0, 0, f, j, k);
      }
    }
  }

  /** Two clients of one email around a stranger: the stranger is removed in place of the second. */
  lemma StrangerRemoved(a: Client, x: Client, b: Client)
    requires a.email == b.email != x.email
    ensures Survivors([a, x, b], a.email, 0, 0) == []
  {
    var o := [a, x, b];
    assert Survivors(o, a.email, 3, 3) == [];
    assert Survivors(o, a.email, 2, 2) == [];
    assert Survivors(o, a.email, 1, 1) == [];
  }

  // ---- all rows of an inbound ----

  ghost predicate AtMostOnce(clients: seq<Client>, email: string) {
    forall i, j :: 0 <= i < j < |clients| ==> clients[i].email != email || clients[j].email != email
  }

  /** No two clients share the email of a disabled row. */
  ghost predicate NoTwins(clients: seq<Client>, stats: seq<Row>) {
    forall k :: 0 <= k < |stats| && !stats[k].enable ==> AtMostOnce(clients, stats[k].email)
  }

  predicate Disabled(stats: seq<Row>, email: string) {
    exists k :: 0 <= k < |stats| && !stats[k].enable && stats[k].email == email
  }

  /** The clients without a disabled row, in order. */
  function Active(clients: seq<Client>, stats: seq<Row>): seq<Client> {
    if clients == [] then []
    else (if Disabled(stats, clients[0].email) then [] else [clients[0]]) + Active(clients[1..], stats)
  }

  /** The loop over the rows. */
  function AfterRows(clients: seq<Client>, stats: seq<Row>): seq<Client> {
    if stats == [] then clients
    else
      var before, row := AfterRows(clients, stats[..|stats| - 1]), stats[|stats| - 1];
      if row.enable then before else Survivors(before, row.email, 0, 0)
  }

  /** A client object of the generated configuration: only these keys are kept. */
  datatype ConfigClient = ConfigClient(id: string, password: string, email: string, flow: string)

  function Published(c: Client): ConfigClient {
    ConfigClient(c.id, c.password, c.email, if c.flow == "xtls-rprx-vision-udp443" then "xtls-rprx-vision" else c.flow)
  }

  /** The clients that are not switched off themselves. */
  function Final(clients: seq<Client>): seq<ConfigClient> {
    if clients == [] then []
    else
      var before, c := Final(clients[..|clients| - 1]), clients[|clients| - 1];
      if c.enable == Some(false) then before else before + [Published(c)]
  }

  /** The `clients` block of `GetXrayConfig`. */
  method ConfigClients(clients: seq<Client>, stats: seq<Row>) returns (final: seq<ConfigClient>)
    ensures final == Final(AfterRows(clients, stats))
    ensures NoTwins(clients, stats) ==> final == Final(Active(clients, stats))
  {
    var backing := new Client[|clients|](i requires 0 <= i < |clients| => clients[i]);
    var len := |clients|;
    assert backing[..len] == clients;
    for k := 0 to |stats|
      invariant 0 <= len <= backing.Length
      invariant backing[..len] == AfterRows(clients, stats[..k])
    {
      assert stats[..k + 1][..k] == stats[..k];
      if !stats[k].enable {
        len := DropClients(backing, len, stats[k].email);
      }
    }
    assert stats[..|stats|] == stats;
    final := [];
    for k := 0 to len
      invariant final == Final(backing[..k])
    {
      assert backing[..k + 1][..k] == backing[..k];
      if backing[k].enable != Some(false) {
        final := final + [Published(backing[k])];
      }
    }
    if NoTwins(clients, stats) {
      AfterRowsIsFilter(clients, stats);
    }
  }

  lemma DisabledNext(stats: seq<Row>, row: Row, email: string)
    ensures Disabled(stats + [row], email) <==> Disabled(stats, email) || (!row.enable && row.email == email)
  {
    var all := stats + [row];
    if Disabled(stats, email) {
      var k :| 0 <= k < |stats| && !stats[k].enable && stats[k].email == email;
      assert all[k] == stats[k];
    }
    assert all[|stats|] == row;
  }

  lemma {:induction false} ActiveKeepsOrder(clients: seq<Client>, stats: seq<Row>, row: Row)
    ensures Active(clients, stats + [row]) ==
            if row.enable then Active(clients, stats) else Without(Active(clients, stats), row.email)
  {
    if clients != [] {
      ActiveKeepsOrder(clients[1..], stats, row);
      DisabledNext(stats, row, clients[0].email);
      hide Disabled;
      var rest := Active(clients[1..], stats);
      if !Disabled(stats, clients[0].email) {
        assert Active(clients, stats) == [clients[0]] + rest;
        assert ([clients[0]] + rest)[1..] == rest;
      } else {
        assert Active(clients, stats) == rest;
      }
    }
  }

  lemma {:induction false} ActiveAtMostOnce(clients: seq<Client>, stats: seq<Row>, email: string)
    requires AtMostOnce(clients, email)
    ensures AtMostOnce(Active(clients, stats), email)
  {
    hide Disabled;
    if clients != [] {
      ActiveAtMostOnce(clients[1..], stats, email);
      ActiveMembers(clients[1..], stats);
      assert forall c :: c in clients[1..] ==> clients[0].email != email || c.email != email;
    }
  }

  lemma {:induction false} NothingDisabled(clients: seq<Client>)
    ensures Active(clients, []) == clients
  {
    if clients != [] {
      NothingDisabled(clients[1..]);
    }
  }

  /** Whenever a disabled row is reached, its email's clients have an unchanging tail behind them. */
  ghost predicate TailsUniform(clients: seq<Client>, stats: seq<Row>) {
    forall k :: 0 <= k < |stats| && !stats[k].enable ==> Uniform(Active(clients, stats[..k]), stats[k].email)
  }

  /** After each row, exactly the clients without a disabled row so far are left. */
  ghost predicate RightSoFar(clients: seq<Client>, stats: seq<Row>) {
    forall k :: 0 <= k <= |stats| ==> AfterRows(clients, stats[..k]) == Active(clients, stats[..k])
  }

  lemma RightAfterRow(clients: seq<Client>, stats: seq<Row>, k: nat)
    requires k < |stats| && AfterRows(clients, stats[..k]) == Active(clients, stats[..k])
    ensures (AfterRows(clients, stats[..k + 1]) == Active(clients, stats[..k + 1]) <==>
             stats[k].enable || Uniform(Active(clients, stats[..k]), stats[k].email))
  {
    var next := stats[..k + 1];
    assert next[..k] == stats[..k] && next == stats[..k] + [stats[k]];
    ActiveKeepsOrder(clients, stats[..k], stats[k]);
    RemovalIsFilter(Active(clients, stats[..k]), stats[k].email);
  }

  /** All removals are right, row by row, if and only if each meets an unchanging tail. */
  lemma RowsAreFilters(clients: seq<Client>, stats: seq<Row>)
    ensures RightSoFar(clients, stats) <==> TailsUniform(clients, stats)
  {
    hide Uniform, AfterRows, Active;
    if RightSoFar(clients, stats) {
      forall k | 0 <= k < |stats| && !stats[k].enable
        ensures Uniform(Active(clients, stats[..k]), stats[k].email)
      {
        RightAfterRow(clients, stats, k);
      }
    }
    if TailsUniform(clients, stats) {
      assert AfterRows(clients, stats[..0]) == Active(clients, stats[..0]) by { NoRows(clients, stats[..0]); }
      for k := 0 to |stats|
        invariant forall j :: 0 <= j <= k ==> AfterRows(clients, stats[..j]) == Active(clients, stats[..j])
      {
        RightAfterRow(clients, stats, k);
      }
    }
  }

  lemma NoRows(clients: seq<Client>, stats: seq<Row>)
    requires stats == []
    ensures AfterRows(clients, stats) == Active(clients, stats)
  {
    NothingDisabled(clients);
  }

  /** Without twins, the removals leave exactly the clients without a disabled row. */
  lemma AfterRowsIsFilter(clients: seq<Client>, stats: seq<Row>)
    requires NoTwins(clients, stats)
    ensures AfterRows(clients, stats) == Active(clients, stats)
  {
    forall k | 0 <= k < |stats| && !stats[k].enable
      ensures Uniform(Active(clients, stats[..k]), stats[k].email)
    {
      ActiveAtMostOnce(clients, stats[..k], stats[k].email);
    }
    RowsAreFilters(clients, stats);
    assert stats[..|stats|] == stats;
  }

  /** Who is listed: the clients whose row is not disabled and whose own switch is not off. */
  lemma ListedExactly(clients: seq<Client>, stats: seq<Row>, e: ConfigClient)
    ensures e in Final(Active(clients, stats)) <==>
      exists c :: c in clients && !Disabled(stats, c.email) && c.enable != Some(false) && e == Published(c)
  {
    ActiveMembers(clients, stats);
    FinalMembers(Active(clients, stats), e);
  }

  lemma {:induction false} ActiveMembers(clients: seq<Client>, stats: seq<Row>)
    ensures forall c :: c in Active(clients, stats) <==> c in clients && !Disabled(stats, c.email)
  {
    hide Disabled;
    if clients != [] {
      ActiveMembers(clients[1..], stats);
      assert clients == [clients[0]] + clients[1..];
    }
  }

  lemma {:induction false} FinalMembers(clients: seq<Client>, e: ConfigClient)
    ensures e in Final(clients) <==> exists c :: c in clients && c.enable != Some(false) && e == Published(c)
    decreases |clients|
  {
    hide Published;
    if clients != [] {
      var n := |clients| - 1;
      FinalMembers(clients[..n], e);
      assert clients == clients[..n] + [clients[n]];
    }
  }

  /** Entry k is client at[k], in order, and these are all clients that are not switched off. */
  ghost predicate KeepsOrder(clients: seq<Client>, final: seq<ConfigClient>, at: seq<nat>) {
    && |at| == |final|
    && (forall j, k :: 0 <= j < k < |at| ==> at[j] < at[k])
    && (forall i: nat :: i in at <==> i < |clients| && clients[i].enable != Some(false))
    && forall k :: 0 <= k < |at| ==> at[k] in at && at[k] < |clients| && final[k] == Published(clients[at[k]])
  }

  lemma {:induction false} FinalKeepsOrder(clients: seq<Client>) returns (at: seq<nat>)
    ensures KeepsOrder(clients, Final(clients), at)
    decreases |clients|
  {
    hide Published, KeepsOrder;
    if clients == [] {
      at := [];
      NoOrder();
    } else {
      var n := |clients| - 1;
      at := FinalKeepsOrder(clients[..n]);
      OrderGrows(clients, n, Final(clients[..n]), at);
      assert clients[..n + 1] == clients;
      if clients[n].enable != Some(false) {
        at := at + [n];
      }
    }
  }

  lemma NoOrder()
    ensures KeepsOrder([], [], [])
  {
  }

  lemma OrderGrows(clients: seq<Client>, n: nat, final: seq<ConfigClient>, at: seq<nat>)
    requires n < |clients| && KeepsOrder(clients[..n], final, at)
    ensures clients[n].enable == Some(false) ==> KeepsOrder(clients[..n + 1], final, at)
    ensures clients[n].enable != Some(false) ==> KeepsOrder(clients[..n + 1], final + [Published(clients[n])], at + [n])
  {
    hide Published;
    assert forall i: nat :: i < n ==> clients[..n][i] == clients[i] == clients[..n + 1][i];
    assert clients[..n + 1][n] == clients[n];
  }

  /** Distinct emails rule twins out, unless the row without email is a disabled one. */
  lemma DistinctMeansNoTwins(inbounds: seq<Inbound>, i: nat, stats: seq<Row>)
    requires EmailsDistinct(inbounds) && i < |inbounds|
    requires forall k :: 0 <= k < |stats| && !stats[k].enable ==> stats[k].email != ""
    ensures NoTwins(inbounds[i].clients, stats)
  {
    assert DistinctWithin(inbounds[i].clients);
  }

  // ---- all inbounds ----

  /** An inbound of the generated configuration, as far as its clients go. */
  datatype ConfigInbound = ConfigInbound(tag: string, clients: seq<ConfigClient>)

  /** The rows that are loaded together with an inbound. */
  function StatsOf(rows: seq<Row>, id: int): seq<Row> {
    if rows == [] then []
    else
      var before, row := StatsOf(rows[..|rows| - 1], id), rows[|rows| - 1];
      if row.inboundId == id then before + [row] else before
  }

  /**
     A generated configuration: entry k is made of inbound at[k], and these are the enabled inbounds, each
     once and in order.  Its clients are those that the inbound's own rows leave.
   */
  ghost predicate Configures(inbounds: seq<Inbound>, rows: seq<Row>, configs: seq<ConfigInbound>, at: seq<nat>) {
    && |at| == |configs|
    && (forall j, k :: 0 <= j < k < |at| ==> at[j] < at[k])
    && (forall i: nat :: i in at <==> i < |inbounds| && inbounds[i].enable)
    && forall k :: 0 <= k < |at| ==> at[k] in at && at[k] < |inbounds| && EntryOf(inbounds[at[k]], rows, configs[k])
  }

  /** The same without the list of origins. */
  ghost predicate IsConfiguration(inbounds: seq<Inbound>, rows: seq<Row>, configs: seq<ConfigInbound>) {
    exists at: seq<nat> :: Configures(inbounds, rows, configs, at)
  }

  ghost predicate EntryOf(ib: Inbound, rows: seq<Row>, config: ConfigInbound) {
    config.tag == ib.tag && config.clients == Final(AfterRows(ib.clients, StatsOf(rows, ib.id)))
  }

  /** The enabled inbounds, each with the clients its own rows leave. */
  method ConfigInbounds(inbounds: seq<Inbound>, rows: seq<Row>) returns (configs: seq<ConfigInbound>)
    ensures IsConfiguration(inbounds, rows, configs)
  {
    configs := [];
    ghost var at: seq<nat> := [];
    for i := 0 to |inbounds|
      invariant |at| == |configs|
      invariant forall j, k :: 0 <= j < k < |at| ==> at[j] < at[k]
      invariant forall n: nat :: n in at <==> n < i && inbounds[n].enable
      invariant forall k :: 0 <= k < |at| ==> at[k] in at && EntryOf(inbounds[at[k]], rows, configs[k])
    {
      hide AfterRows, StatsOf, Final, EntryOf;
      if !inbounds[i].enable {
        continue;
      }
      var final := ConfigClients(inbounds[i].clients, StatsOf(rows, inbounds[i].id));
      var config := ConfigInbound(inbounds[i].tag, final);
      EntryMade(inbounds[i], rows, config);
      configs, at := configs + [config], at + [i];
    }
    assert Configures(inbounds, rows, configs, at);
  }

  lemma EntryMade(ib: Inbound, rows: seq<Row>, config: ConfigInbound)
    requires config == ConfigInbound(ib.tag, Final(AfterRows(ib.clients, StatsOf(rows, ib.id))))
    ensures EntryOf(ib, rows, config)
  {
  }

  /** The rows of a table, in the order the database happens to give them. */
  method LoadRows(table: map<string, Row>) returns (rows: seq<Row>)
    ensures Lists(rows, table)
  {
    rows := [];
    var todo := table.Keys;
    while todo != {}
      invariant todo <= table.Keys
      invariant forall row :: row in rows ==> exists e :: e in table && table[e] == row
      invariant forall e :: e in table ==> e in todo || table[e] in rows
    {
      var e :| e in todo;
      rows := rows + [table[e]];
      todo := todo - {e};
    }
  }

  /** `GetXrayConfig`: a tick without counters comes first, and its result is not looked at. */
  method GetXrayConfig(panel: Panel, clock: Clock, fails: set<Stage>)
    returns (configs: seq<ConfigInbound>, ghost rows: seq<Row>)
    modifies panel
    ensures panel.store == Outcome(old(panel.store), [], [], clock, fails).1
    ensures Lists(rows, panel.store.rows) && IsConfiguration(panel.store.inbounds, rows, configs)
    ensures Consistent(old(panel.store)) && ("" in panel.store.rows ==> panel.store.rows[""].enable) ==>
      PublishesEnabled(panel.store, configs)
  {
    hide Outcome, IsConfiguration, Consistent, PublishesEnabled;
    var _ := panel.AddTraffic([], [], clock, fails);
    var loaded := LoadRows(panel.store.rows);
    rows := loaded;
    configs := ConfigInbounds(panel.store.inbounds, loaded);
    if Consistent(old(panel.store)) && ("" in panel.store.rows ==> panel.store.rows[""].enable) {
      OutcomeLaw(old(panel.store), [], [], clock, fails);
      ConfigurationPublishes(panel.store, rows, configs);
    }
  }

  // ---- who is published ----

  /** Some entry of the configuration lists a client with this email. */
  ghost predicate Publishes(configs: seq<ConfigInbound>, email: string) {
    exists k, e :: 0 <= k < |configs| && e in configs[k].clients && e.email == email
  }

  /** An entry with this tag lists the client with its identity. */
  ghost predicate PublishesAs(configs: seq<ConfigInbound>, tag: string, c: Client) {
    exists k, e :: 0 <= k < |configs| && configs[k].tag == tag && e in configs[k].clients
      && e.id == c.id && e.password == c.password && e.email == c.email
      && (e.flow == c.flow || (c.flow == "xtls-rprx-vision-udp443" && e.flow == "xtls-rprx-vision"))
  }

  /**
     A client with an email occurs in the configuration if and only if its inbound and its row are
     enabled and it is not switched off itself, and then it occurs under its inbound's tag.
   */
  ghost predicate PublishesEnabled(s: Store, configs: seq<ConfigInbound>) {
    forall i, a :: 0 <= i < |s.inbounds| && 0 <= a < |s.inbounds[i].clients| && s.inbounds[i].clients[a].email != "" ==>
      var ib, c := s.inbounds[i], s.inbounds[i].clients[a];
      && (Publishes(configs, c.email) <==>
            ib.enable && c.email in s.rows && s.rows[c.email].enable && c.enable != Some(false))
      && (Publishes(configs, c.email) ==> PublishesAs(configs, ib.tag, c))
  }

  lemma {:induction false} StatsMembers(rows: seq<Row>, id: int)
    ensures forall row :: row in StatsOf(rows, id) <==> row in rows && row.inboundId == id
    decreases |rows|
  {
    if rows != [] {
      var n := |rows| - 1;
      StatsMembers(rows[..n], id);
      assert rows == rows[..n] + [rows[n]];
    }
  }

  /** A listing of the table of rows, in any order. */
  ghost predicate Lists(rows: seq<Row>, table: map<string, Row>) {
    && (forall row :: row in rows ==> exists e :: e in table && table[e] == row)
    && (forall e :: e in table ==> table[e] in rows)
  }

  lemma DisabledMeansRow(s: Store, i: nat, a: nat, rows: seq<Row>)
    requires Consistent(s) && Lists(rows, s.rows) && i < |s.inbounds| && a < |s.inbounds[i].clients|
    requires s.inbounds[i].clients[a].email != ""
    ensures (var ib := s.inbounds[i]; var e := ib.clients[a].email;
      e in s.rows && (Disabled(StatsOf(rows, ib.id), e) <==> !s.rows[e].enable))
  {
    var ib := s.inbounds[i];
    var e := ib.clients[a].email;
    var stats := StatsOf(rows, ib.id);
    StatsMembers(rows, ib.id);
    assert Mirrored(ib.clients[a], ib.id, s.rows) by {
      assert AllMirrored(ib.clients, ib.id, s.rows);
    }
    assert s.rows[e].email == e && s.rows[e] in stats;
    forall k | 0 <= k < |stats| && stats[k].email == e
      ensures stats[k] == s.rows[e]
    {
      assert stats[k] in stats;
      var f :| f in s.rows && s.rows[f] == stats[k];
    }
  }

  /**
     In a consistent store a client with an email is listed if and only if its row is enabled and it
     is not switched off, provided the row without email, if there is one, is not a disabled one.
   */
  lemma ListedIffEnabled(s: Store, i: nat, a: nat, rows: seq<Row>)
    requires Consistent(s) && Lists(rows, s.rows) && i < |s.inbounds| && a < |s.inbounds[i].clients|
    requires s.inbounds[i].clients[a].email != ""
    requires "" in s.rows ==> s.rows[""].enable
    ensures (var ib := s.inbounds[i]; var c := ib.clients[a];
      c.email in s.rows
      && (Published(c) in Final(AfterRows(ib.clients, StatsOf(rows, ib.id)))
        <==> s.rows[c.email].enable && c.enable != Some(false)))
  {
    hide Disabled, Final, AfterRows, StatsOf, Active, Owned;
    var ib := s.inbounds[i];
    var c, stats := ib.clients[a], StatsOf(rows, ib.id);
    ConsistentMeansDistinct(s);
    StatsMembers(rows, ib.id);
    forall k | 0 <= k < |stats| && !stats[k].enable
      ensures stats[k].email != ""
    {
      assert stats[k] in stats;
      var f :| f in s.rows && s.rows[f] == stats[k];
    }
    DistinctMeansNoTwins(s.inbounds, i, stats);
    AfterRowsIsFilter(ib.clients, stats);
    DisabledMeansRow(s, i, a, rows);
    ListedExactly(ib.clients, stats, Published(c));
    assert DistinctWithin(ib.clients);
    assert forall b :: 0 <= b < |ib.clients| && Published(ib.clients[b]) == Published(c) ==> b == a;
  }

  lemma RowsWithoutTwins(s: Store, i: nat, rows: seq<Row>)
    requires Consistent(s) && Lists(rows, s.rows) && i < |s.inbounds| && ("" in s.rows ==> s.rows[""].enable)
    ensures NoTwins(s.inbounds[i].clients, StatsOf(rows, s.inbounds[i].id))
  {
    hide Owned, StatsOf;
    var stats := StatsOf(rows, s.inbounds[i].id);
    ConsistentMeansDistinct(s);
    StatsMembers(rows, s.inbounds[i].id);
    forall k | 0 <= k < |stats| && !stats[k].enable
      ensures stats[k].email != ""
    {
      assert stats[k] in stats;
      var f :| f in s.rows && s.rows[f] == stats[k];
    }
    DistinctMeansNoTwins(s.inbounds, i, stats);
  }

  /** Whoever an entry lists is a client of its inbound. */
  lemma ListedIsClient(s: Store, i: nat, rows: seq<Row>, e: ConfigClient) returns (a: nat)
    requires Consistent(s) && Lists(rows, s.rows) && i < |s.inbounds| && ("" in s.rows ==> s.rows[""].enable)
    requires e in Final(AfterRows(s.inbounds[i].clients, StatsOf(rows, s.inbounds[i].id)))
    ensures a < |s.inbounds[i].clients| && Published(s.inbounds[i].clients[a]) == e
  {
    hide Consistent, Disabled, Final, AfterRows, StatsOf, Active;
    var ib := s.inbounds[i];
    RowsWithoutTwins(s, i, rows);
    AfterRowsIsFilter(ib.clients, StatsOf(rows, ib.id));
    ListedExactly(ib.clients, StatsOf(rows, ib.id), e);
    var c :| c in ib.clients && e == Published(c);
    a :| 0 <= a < |ib.clients| && ib.clients[a] == c;
  }

  /** With distinct tags exactly the tags of enabled inbounds occur. */
  lemma TagsPublished(inbounds: seq<Inbound>, rows: seq<Row>, configs: seq<ConfigInbound>, i: nat)
    requires IsConfiguration(inbounds, rows, configs) && TagsApart(inbounds) && i < |inbounds|
    ensures inbounds[i].enable <==> exists k :: 0 <= k < |configs| && configs[k].tag == inbounds[i].tag
  {
    hide Configures;
    var at :| Configures(inbounds, rows, configs, at);
    TagPublished(inbounds, rows, configs, at, i);
  }

  lemma TagPublished(inbounds: seq<Inbound>, rows: seq<Row>, configs: seq<ConfigInbound>, at: seq<nat>, i: nat)
    requires Configures(inbounds, rows, configs, at) && TagsApart(inbounds) && i < |inbounds|
    ensures inbounds[i].enable <==> exists k :: 0 <= k < |configs| && configs[k].tag == inbounds[i].tag
  {
    hide Final, AfterRows, StatsOf;
    if inbounds[i].enable {
      assert i in at;
      var k :| 0 <= k < |at| && at[k] == i;
      assert configs[k].tag == inbounds[i].tag;
    }
    if k :| 0 <= k < |configs| && configs[k].tag == inbounds[i].tag {
      assert at[k] == i;
    }
  }

  lemma SameEmailSameClient(s: Store, i: nat, a: nat, j: nat, b: nat)
    requires Consistent(s) && i < |s.inbounds| && j < |s.inbounds|
    requires a < |s.inbounds[i].clients| && b < |s.inbounds[j].clients| && s.inbounds[i].clients[a].email != ""
    requires s.inbounds[i].clients[a].email == s.inbounds[j].clients[b].email
    ensures i == j && a == b
  {
    hide Owned;
    ConsistentMeansDistinct(s);
    var e := s.inbounds[i].clients[a].email;
    assert HasEmail(s.inbounds[i].clients, e) && HasEmail(s.inbounds[j].clients, e);
    assert DistinctWithin(s.inbounds[i].clients);
  }

  lemma ConfigurationPublishes(s: Store, rows: seq<Row>, configs: seq<ConfigInbound>)
    requires Consistent(s) && Lists(rows, s.rows) && ("" in s.rows ==> s.rows[""].enable)
    requires IsConfiguration(s.inbounds, rows, configs)
    ensures PublishesEnabled(s, configs)
  {
    hide Consistent, Lists, Configures;
    var at :| Configures(s.inbounds, rows, configs, at);
    forall i, a | 0 <= i < |s.inbounds| && 0 <= a < |s.inbounds[i].clients| && s.inbounds[i].clients[a].email != ""
      ensures (var ib, c := s.inbounds[i], s.inbounds[i].clients[a];
        && (Publishes(configs, c.email) <==>
              ib.enable && c.email in s.rows && s.rows[c.email].enable && c.enable != Some(false))
        && (Publishes(configs, c.email) ==> PublishesAs(configs, ib.tag, c)))
    {
      ClientPublished(s, rows, configs, at, i, a);
    }
  }

  lemma ClientPublished(s: Store, rows: seq<Row>, configs: seq<ConfigInbound>, at: seq<nat>, i: nat, a: nat)
    requires Consistent(s) && Lists(rows, s.rows) && ("" in s.rows ==> s.rows[""].enable)
    requires Configures(s.inbounds, rows, configs, at)
    requires i < |s.inbounds| && a < |s.inbounds[i].clients| && s.inbounds[i].clients[a].email != ""
    ensures (var ib, c := s.inbounds[i], s.inbounds[i].clients[a];
      && (Publishes(configs, c.email) <==>
            ib.enable && c.email in s.rows && s.rows[c.email].enable && c.enable != Some(false))
      && (Publishes(configs, c.email) ==> PublishesAs(configs, ib.tag, c)))
  {
    hide Consistent, Lists, Final, AfterRows, StatsOf;
    var ib, c := s.inbounds[i], s.inbounds[i].clients[a];
    ListedIffEnabled(s, i, a, rows);
    if Publishes(configs, c.email) {
      var k, e :| 0 <= k < |configs| && e in configs[k].clients && e.email == c.email;
      var b := ListedIsClient(s, at[k], rows, e);
      SameEmailSameClient(s, i, a, at[k], b);
    }
    if ib.enable && s.rows[c.email].enable && c.enable != Some(false) {
      assert i in at;
      var k :| 0 <= k < |at| && at[k] == i;
      assert Published(c) in configs[k].clients;
    }
  }

  /**
     From the store before the call to the configuration: a client with an email is published if and only
     if it is not switched off and its row, renewed and disabled as the tick without counters does it, is
     enabled, provided the row without email, if there is one, does not end up disabled.
   */
  lemma PublishedIffEnabled(s: Store, clock: Clock, fails: set<Stage>, i: nat, a: nat, rows: seq<Row>)
    requires Consistent(s) && i < |s.inbounds| && a < |s.inbounds[i].clients| && s.inbounds[i].clients[a].email != ""
    requires Lists(rows, Outcome(s, [], [], clock, fails).1.rows)
    requires (var after := Outcome(s, [], [], clock, fails).1; "" in after.rows ==> after.rows[""].enable)
    ensures (var after, c := Outcome(s, [], [], clock, fails).1, s.inbounds[i].clients[a];
      |after.inbounds| == |s.inbounds| && c.email in s.rows
      && (Published(c) in Final(AfterRows(after.inbounds[i].clients, StatsOf(rows, after.inbounds[i].id))) <==>
            RowAfter(s.rows[c.email], None, clock, fails).enable && c.enable != Some(false)))
  {
    hide Outcome, Consistent, RowAfter, Final, AfterRows, StatsOf, Published;
    var after := Outcome(s, [], [], clock, fails).1;
    OutcomeLaw(s, [], [], clock, fails);
    OutcomeKeepsClients(s, [], [], clock, fails);
    var c, c' := s.inbounds[i].clients[a], after.inbounds[i].clients[a];
    SamePublished(c, c');
    ListedIffEnabled(after, i, a, rows);
    assert FirstUsage([], c.email) == None;
  }

  lemma SamePublished(c: Client, c': Client)
    requires c' == c.(expiry := c'.expiry)
    ensures Published(c') == Published(c)
  {
  }
}
