/**
 `AddTraffic`: one accounting tick over the tables, step by step, with the errors that the source
 reports and those it swallows.
 */
module PanelTraffic {
  import opened Options
  import opened PanelModel
  import opened PanelStore
  import opened PanelTick
  import opened PanelSweep

  /** Counters of one tag, and of one user. */
  datatype Traffic = Traffic(isInbound: bool, tag: string, up: int, down: int)
  datatype Usage = Usage(email: string, up: int, down: int)

  /** The clock readings of one tick. */
  datatype Clock = Clock(adjust: int, renew: int, clients: int, inbounds: int)

  /** The database calls of a tick that may return an error. */
  datatype Stage = InboundUpdate | ClientLoad | RenewLoad | ClientDisabling | InboundDisabling

  // ---- specification ----

  /** What the inbound counters of a tag add up to, in one direction. */
  function TagSum(traffics: seq<Traffic>, tag: string, isDown: bool): int {
    if traffics == [] then 0
    else
      var t := traffics[|traffics| - 1];
      TagSum(traffics[..|traffics| - 1], tag, isDown) + if t.isInbound && t.tag == tag then Amount(t, isDown) else 0
  }

  function Amount(t: Traffic, isDown: bool): int {
    if isDown then t.down else t.up
  }

  /** Every inbound has the traffic of its tag added. */
  function Counted(inbounds: seq<Inbound>, traffics: seq<Traffic>): seq<Inbound> {
    seq(|inbounds|, i requires 0 <= i < |inbounds| =>
      inbounds[i].(up := inbounds[i].up + TagSum(traffics, inbounds[i].tag, false),
                   down := inbounds[i].down + TagSum(traffics, inbounds[i].tag, true)))
  }

  /** The counter the inner loop stops at. */
  function FirstUsage(usages: seq<Usage>, email: string): Option<Usage> {
    if usages == [] then None
    else if usages[0].email == email then Some(usages[0])
    else FirstUsage(usages[1..], email)
  }

  function ChargedRow(row: Row, used: Option<Usage>): Row {
    if used.None? then row else row.(up := row.up + used.value.up, down := row.down + used.value.down)
  }

  function LoadedFor(rows: map<string, Row>, usages: seq<Usage>): map<string, Row> {
    map e | e in rows && FirstUsage(usages, e).Some? :: rows[e]
  }

  function NegativeIds(m: map<string, Row>): set<int> {
    set e | e in m && m[e].expiry < 0 :: m[e].inboundId
  }

  function Charged(m: map<string, Row>, usages: seq<Usage>): map<string, Row> {
    map e | e in m :: ChargedRow(m[e], FirstUsage(usages, e))
  }

  /** `addClientTraffic` */
  function Accounted(s: Store, usages: seq<Usage>, now: int): Store {
    var m := LoadedFor(s.rows, usages);
    var (inbounds, adjusted) := SweepInbounds(Adjusting(now), s.inbounds, NegativeIds(m), m);
    s.(inbounds := inbounds, rows := s.rows + Charged(adjusted, usages))
  }

  function DueRows(rows: map<string, Row>, now: int): map<string, Row> {
    map e | e in rows && Due(rows[e], now) :: rows[e]
  }

  function IdsOf(m: map<string, Row>): set<int> {
    set e | e in m :: m[e].inboundId
  }

  /** `autoRenewClients` */
  function Renewed(s: Store, now: int): Store {
    var m := DueRows(s.rows, now);
    var (inbounds, renewed) := SweepInbounds(Renewing(now), s.inbounds, IdsOf(m), m);
    s.(inbounds := inbounds, rows := s.rows + renewed)
  }

  function ClientsDisabled(s: Store, now: int): Store {
    s.(rows := map e | e in s.rows :: DisabledRow(s.rows[e], now))
  }

  function InboundsDisabled(s: Store, now: int): Store {
    s.(inbounds := seq(|s.inbounds|, i requires 0 <= i < |s.inbounds| => DisabledInbound(s.inbounds[i], now)))
  }

  predicate RowExhausted(row: Row, now: int) {
    Exhausted(row.total, row.up, row.down, row.expiry, now)
  }

  /** The exhausted rows have lost their switch, and nothing else differs. */
  ghost predicate OnlyDisabled(before: map<string, Row>, after: map<string, Row>, now: int) {
    after.Keys == before.Keys && forall e :: e in before ==>
      after[e].(enable := before[e].enable) == before[e]
        && (after[e].enable <==> before[e].enable && !RowExhausted(before[e], now))
  }

  predicate InboundOnlyDisabled(before: Inbound, after: Inbound, now: int) {
    && after.(enable := before.enable) == before
    && (after.enable <==> before.enable && !Exhausted(before.total, before.up, before.down, before.expiry, now))
  }

  /**
     `AddTraffic`: errors of the first two steps are returned and roll everything back.  Later
     errors are only logged; the last one alone decides whether the transaction is committed.
   */
  function Outcome(s: Store, traffics: seq<Traffic>, usages: seq<Usage>, clock: Clock, fails: set<Stage>)
    : (bool, Store)
  {
    if InboundUpdate in fails || ClientLoad in fails then (false, s)
    else
      var accounted := Accounted(s.(inbounds := Counted(s.inbounds, traffics)), usages, clock.adjust);
      var renewed := if RenewLoad in fails then accounted else Renewed(accounted, clock.renew);
      var disabled := if ClientDisabling in fails then renewed else ClientsDisabled(renewed, clock.clients);
      (true, if InboundDisabling in fails then s else InboundsDisabled(disabled, clock.inbounds))
  }

  lemma DisabledRowsAre(s: Store, after: map<string, Row>, now: int)
    requires OnlyDisabled(s.rows, after, now)
    ensures after == ClientsDisabled(s, now).rows
  {
    forall e | e in after
      ensures after[e] == DisabledRow(s.rows[e], now)
    {
      assert after[e] == after[e].(enable := s.rows[e].enable).(enable := after[e].enable);
    }
  }

  lemma DisabledInboundsAre(s: Store, after: seq<Inbound>, now: int)
    requires |after| == |s.inbounds| && forall i :: 0 <= i < |after| ==>
      InboundOnlyDisabled(s.inbounds[i], after[i], now)
    ensures after == InboundsDisabled(s, now).inbounds
  {
    forall i | 0 <= i < |after|
      ensures after[i] == DisabledInbound(s.inbounds[i], now)
    {
      assert after[i] == after[i].(enable := s.inbounds[i].enable).(enable := after[i].enable);
    }
  }

  // ---- the methods ----

  class Panel {
    var store: Store

    constructor (store: Store)
      ensures this.store == store
    {
      this.store := store;
    }

    method AddInboundTraffic(traffics: seq<Traffic>)
      modifies this
      ensures store == old(store).(inbounds := Counted(old(store).inbounds, traffics))
    {
      assert Counted(store.inbounds, []) == store.inbounds;
      for k := 0 to |traffics|
        invariant store == old(store).(inbounds := Counted(old(store).inbounds, traffics[..k]))
      {
        var t := traffics[k];
        assert traffics[..k + 1][..k] == traffics[..k];
        if t.isInbound {
          var inbounds := store.inbounds;
          store := store.(inbounds := seq(|inbounds|, i requires 0 <= i < |inbounds| =>
            if inbounds[i].tag == t.tag then
              inbounds[i].(up := inbounds[i].up + t.up, down := inbounds[i].down + t.down)
            else inbounds[i]));
        }
        assert store.inbounds == Counted(old(store).inbounds, traffics[..k + 1]);
      }
      assert traffics[..|traffics|] == traffics;
    }

    /** The loop of `adjustTraffics` over one inbound's clients. */
    method AdjustClients(clients: seq<Client>, m: map<string, Row>, now: int)
      returns (newClients: seq<Client>, adjusted: map<string, Row>)
      ensures (newClients, adjusted) == SweepClients(Adjusting(now), clients, m)
    {
      newClients, adjusted := [], m;
      for a := 0 to |clients|
        invariant (newClients, adjusted) == SweepClients(Adjusting(now), clients[..a], m)
      {
        var c := clients[a];
        assert clients[..a + 1][..a] == clients[..a];
        if c.email in adjusted {
          assert adjusted[c.email := adjusted[c.email]] == adjusted;
          if adjusted[c.email].expiry < 0 {
            var newExpiry := now - c.expiry;
            c := c.(expiry := newExpiry);
            adjusted := adjusted[c.email := adjusted[c.email].(expiry := newExpiry)];
          }
        }
        newClients := newClients + [c];
      }
      assert clients[..|clients|] == clients;
    }

    /** `adjustTraffics`: delayed expiries of the loaded rows start now, in the row and in the settings. */
    method AdjustTraffics(m: map<string, Row>, now: int) returns (adjusted: map<string, Row>)
      modifies this
      ensures store == old(store).(inbounds := SweepInbounds(Adjusting(now), old(store).inbounds, NegativeIds(m), m).0)
      ensures adjusted == SweepInbounds(Adjusting(now), old(store).inbounds, NegativeIds(m), m).1
    {
      adjusted := m;
      var ids := NegativeIds(m);
      SweepNothing(Adjusting(now), store.inbounds, m);
      if ids != {} {
        var inbounds := [];
        for i := 0 to |store.inbounds|
          invariant store == old(store)
          invariant (inbounds, adjusted) == SweepInbounds(Adjusting(now), store.inbounds[..i], ids, m)
        {
          hide SweepClients;
          var ib := store.inbounds[i];
          assert store.inbounds[..i + 1][..i] == store.inbounds[..i];
          if ib.id in ids {
            var newClients;
            newClients, adjusted := AdjustClients(ib.clients, adjusted, now);
            ib := ib.(clients := newClients);
          }
          inbounds := inbounds + [ib];
        }
        assert store.inbounds[..|store.inbounds|] == store.inbounds;
        store := store.(inbounds := inbounds);
      }
    }

    method Find(usages: seq<Usage>, email: string) returns (used: Option<Usage>)
      ensures used == FirstUsage(usages, email)
    {
      for k := 0 to |usages|
        invariant FirstUsage(usages, email) == FirstUsage(usages[k..], email)
      {
        if usages[k].email == email {
          return Some(usages[k]);
        }
      }
      return None;
    }

    method AddClientTraffic(usages: seq<Usage>, now: int)
      modifies this
      ensures store == Accounted(old(store), usages, now)
    {
      var loaded := LoadedFor(store.rows, usages);
      NothingLoaded(store, usages, now);
      if usages == [] || loaded == map[] {
        return;
      }
      var adjusted := AdjustTraffics(loaded, now);
      var todo := adjusted.Keys;
      ghost var before := adjusted;
      while todo != {}
        invariant todo <= before.Keys == adjusted.Keys && store.rows == old(store).rows
        invariant store.nextId == old(store).nextId
        invariant store.inbounds == SweepInbounds(Adjusting(now), old(store).inbounds, NegativeIds(loaded), loaded).0
        invariant forall e :: e in before ==>
          adjusted[e] == if e in todo then before[e] else ChargedRow(before[e], FirstUsage(usages, e))
      {
        hide SweepInbounds, FirstUsage;
        var e :| e in todo;
        var used := Find(usages, e);
        if used.Some? {
          var row := adjusted[e];
          adjusted := adjusted[e := row.(up := row.up + used.value.up, down := row.down + used.value.down)];
        }
        todo := todo - {e};
      }
      assert adjusted == Charged(before, usages);
      store := store.(rows := store.rows + adjusted);
    }

    /** The loop of `autoRenewClients` over one inbound's clients. */
    method RenewClients(clients: seq<Client>, m: map<string, Row>, now: int)
      returns (newClients: seq<Client>, renewed: map<string, Row>)
      requires forall e :: e in m ==> m[e].reset > 0
      ensures (newClients, renewed) == SweepClients(Renewing(now), clients, m)
      ensures forall e :: e in renewed ==> renewed[e].reset > 0
    {
      newClients, renewed := [], m;
      for a := 0 to |clients|
        invariant (newClients, renewed) == SweepClients(Renewing(now), clients[..a], m)
        invariant forall e :: e in renewed ==> renewed[e].reset > 0
      {
        var c := clients[a];
        assert clients[..a + 1][..a] == clients[..a];
        if c.email in renewed {
          var row := renewed[c.email];
          var newExpiry := RenewedExpiry(row.expiry, row.reset, now);
          c := c.(expiry := newExpiry);
          row := row.(expiry := newExpiry, down := 0, up := 0);
          if !row.enable {
            row := row.(enable := true);
          }
          renewed := renewed[c.email := row];
        }
        newClients := newClients + [c];
      }
      assert clients[..|clients|] == clients;
    }

    method AutoRenewClients(now: int)
      modifies this
      ensures store == Renewed(old(store), now)
    {
      var due := DueRows(store.rows, now);
      NothingDue(store, now);
      if due == map[] {
        return;
      }
      var ids := IdsOf(due);
      var inbounds, renewed := [], due;
      for i := 0 to |store.inbounds|
        invariant store == old(store)
        invariant (inbounds, renewed) == SweepInbounds(Renewing(now), store.inbounds[..i], ids, due)
        invariant forall e :: e in renewed ==> renewed[e].reset > 0
      {
        hide SweepClients;
        var ib := store.inbounds[i];
        assert store.inbounds[..i + 1][..i] == store.inbounds[..i];
        if ib.id in ids {
          var newClients;
          newClients, renewed := RenewClients(ib.clients, renewed, now);
          ib := ib.(clients := newClients);
        }
        inbounds := inbounds + [ib];
      }
      assert store.inbounds[..|store.inbounds|] == store.inbounds;
      store := store.(inbounds := inbounds, rows := store.rows + renewed);
    }

    /** `disableInvalidClients`: whoever was enabled and is exhausted is disabled and counted; nothing else changes. */
    method DisableInvalidClients(now: int) returns (count: nat)
      modifies this
      ensures store.inbounds == old(store).inbounds && store.nextId == old(store).nextId
      ensures OnlyDisabled(old(store).rows, store.rows, now)
      ensures count == |set e | e in old(store).rows && old(store).rows[e].enable
        && RowExhausted(old(store).rows[e], now)|
      ensures count == 0 <==> store == old(store)
    {
      var rows := store.rows;
      var affected := set e | e in rows && rows[e].enable && RowExhausted(rows[e], now);
      store := store.(rows := rows + map e | e in affected :: rows[e].(enable := false));
      count := |affected|;
      if affected == {} {
        assert store.rows == rows;
      } else {
        var e :| e in affected;
        assert store.rows[e] != rows[e];
      }
    }

    /** `disableInvalidInbounds`: the same for the inbounds. */
    method DisableInvalidInbounds(now: int) returns (count: nat)
      modifies this
      ensures store.rows == old(store).rows && store.nextId == old(store).nextId
      ensures |store.inbounds| == |old(store).inbounds|
      ensures forall i :: 0 <= i < |store.inbounds| ==>
        InboundOnlyDisabled(old(store).inbounds[i], store.inbounds[i], now)
      ensures count == 0 <==> store == old(store)
    {
      count := 0;
      var inbounds := store.inbounds;
      for i := 0 to |inbounds|
        invariant |inbounds| == |store.inbounds| && store == old(store)
        invariant forall k :: 0 <= k < i ==> InboundOnlyDisabled(store.inbounds[k], inbounds[k], now)
        invariant forall k :: i <= k < |inbounds| ==> inbounds[k] == store.inbounds[k]
        invariant count == 0 <==> inbounds == store.inbounds
      {
        var ib := inbounds[i];
        if ib.enable && Exhausted(ib.total, ib.up, ib.down, ib.expiry, now) {
          inbounds := inbounds[i := ib.(enable := false)];
          count := count + 1;
          assert inbounds[i] != store.inbounds[i];
        }
      }
      store := store.(inbounds := inbounds);
    }

    method AddTraffic(traffics: seq<Traffic>, usages: seq<Usage>, clock: Clock, fails: set<Stage>) returns (ok: bool)
      modifies this
      ensures (ok, store) == Outcome(old(store), traffics, usages, clock, fails)
      ensures ok <==> InboundUpdate !in fails && ClientLoad !in fails
      ensures !ok || InboundDisabling in fails ==> store == old(store)
    {
      hide OnlyDisabled, InboundOnlyDisabled, Counted, Accounted, Renewed, Exhausted, RowExhausted;
      var begin := store;
      if InboundUpdate in fails {
        return false;
      }
      AddInboundTraffic(traffics);
      if ClientLoad in fails {
        store := begin;
        return false;
      }
      AddClientTraffic(usages, clock.adjust);
      if RenewLoad !in fails {
        AutoRenewClients(clock.renew);
      }
      if ClientDisabling !in fails {
        ghost var before := store;
        var _ := DisableInvalidClients(clock.clients);
        DisabledRowsAre(before, store.rows, clock.clients);
      }
      if InboundDisabling !in fails {
        ghost var before := store;
        var _ := DisableInvalidInbounds(clock.inbounds);
        DisabledInboundsAre(before, store.inbounds, clock.inbounds);
      } else {
        store := begin;
      }
      return true;
    }
  }

  lemma {:induction false} SweepNothing(pass: Pass, inbounds: seq<Inbound>, m: map<string, Row>)
    ensures SweepInbounds(pass, inbounds, {}, m) == (inbounds, m)
    decreases |inbounds|
  {
    if inbounds != [] {
      var n := |inbounds| - 1;
      SweepNothing(pass, inbounds[..n], m);
      assert inbounds == inbounds[..n] + [inbounds[n]];
    }
  }

  lemma NothingLoaded(s: Store, usages: seq<Usage>, now: int)
    ensures usages == [] || LoadedFor(s.rows, usages) == map[] ==> Accounted(s, usages, now) == s
  {
    var m := LoadedFor(s.rows, usages);
    SweepNothing(Adjusting(now), s.inbounds, m);
    if m == map[] {
      assert NegativeIds(m) == {};
      assert Charged(m, usages) == map[];
    }
  }

  lemma NothingDue(s: Store, now: int)
    ensures DueRows(s.rows, now) == map[] ==> Renewed(s, now) == s
  {
    var m := DueRows(s.rows, now);
    SweepNothing(Renewing(now), s.inbounds, m);
    if m == map[] {
      assert IdsOf(m) == {};
    }
  }
}
