/**
 The accounting tick: traffic is added, delayed expiries start, due clients are renewed, and what
 is over its quota or expired is disabled.
 */
module PanelTick {
  import opened PanelModel

  const DAY := 86400000

  // ---- renewal ----

  function NextExpiry(expiry: int, period: int, now: int): int
    requires period > 0
    decreases now - expiry
  {
    if expiry >= now then expiry else NextExpiry(expiry + period, period, now)
  }

  /** The least expiry a whole number of periods later that is not before now. */
  lemma {:induction false} NextExpiryIsLeast(expiry: int, period: int, now: int) returns (k: nat)
    requires period > 0
    ensures NextExpiry(expiry, period, now) == expiry + k * period >= now
    ensures forall j: nat :: expiry + j * period >= now ==> j >= k
    decreases now - expiry
  {
    if expiry >= now {
      k := 0;
    } else {
      var rest := NextExpiryIsLeast(expiry + period, period, now);
      k := rest + 1;
      PeriodsAdd(expiry, rest, period);
      forall j: nat | expiry + j * period >= now
        ensures j >= k
      {
        if j > 0 {
          PeriodsAdd(expiry, j - 1, period);
        }
      }
    }
  }

  lemma PeriodsAdd(expiry: int, k: int, period: int)
    ensures expiry + (k + 1) * period == expiry + period + k * period
  {
  }

  method RenewedExpiry(expiry: int, reset: int, now: int) returns (newExpiry: int)
    requires reset > 0
    ensures newExpiry == NextExpiry(expiry, reset * DAY, now)
  {
    newExpiry := expiry;
    while newExpiry < now
      invariant NextExpiry(newExpiry, reset * DAY, now) == NextExpiry(expiry, reset * DAY, now)
      decreases now - newExpiry
    {
      newExpiry := newExpiry + reset * DAY;
    }
  }

  // ---- disabling ----

  predicate Exhausted(total: int, up: int, down: int, expiry: int, now: int) {
    (total > 0 && up + down >= total) || (expiry > 0 && expiry <= now)
  }

  function DisabledRow(row: Row, now: int): Row {
    if Exhausted(row.total, row.up, row.down, row.expiry, now) then row.(enable := false) else row
  }

  function DisabledInbound(ib: Inbound, now: int): Inbound {
    if Exhausted(ib.total, ib.up, ib.down, ib.expiry, now) then ib.(enable := false) else ib
  }

  function RenewedRow(row: Row, now: int): Row
    requires row.reset > 0
  {
    row.(expiry := NextExpiry(row.expiry, row.reset * DAY, now), up := 0, down := 0, enable := true)
  }

  predicate Due(row: Row, now: int) {
    row.reset > 0 && 0 < row.expiry <= now
  }

  predicate WholePeriods(expiry: int, period: int, j: nat, now: int) {
    expiry + j * period == now
  }

  /** A renewal survives the disabling step of the same instant unless it lands exactly on it. */
  lemma RenewalWasted(row: Row, now: int)
    requires Due(row, now)
    ensures !DisabledRow(RenewedRow(row, now), now).enable <==>
      exists j: nat :: WholePeriods(row.expiry, row.reset * DAY, j, now)
  {
    var period := row.reset * DAY;
    var k := NextExpiryIsLeast(row.expiry, period, now);
    if NextExpiry(row.expiry, period, now) == now {
      assert WholePeriods(row.expiry, period, k, now);
    }
    if j: nat :| WholePeriods(row.expiry, period, j, now) {
      assert j >= k;
      MultiplesGrow(k, j, period);
    }
  }

  lemma MultiplesGrow(k: nat, j: nat, period: int)
    requires k <= j && period > 0
    ensures k * period <= j * period
  {
  }
}
