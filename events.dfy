/**
 * The three periodic in-game events and the countdown to the next occurrence
 * of each (`calc_delta` in src/d4evts.rs). Time is a Unix timestamp in
 * seconds, passed in by the caller.
 */
module Events {

  import opened Arith

  datatype EventType = WB | LE | RW

  // World Boss: every 3.5 hours
  const WbInit: U64 := 1708381800
  const WbEvery: U64 := 60 * 210
  // Legion Event: every 25 minutes
  const LeInit: U64 := 1708381200
  const LeEvery: U64 := 60 * 25
  // Realm Walker: every 15 minutes
  const RwInit: U64 := 1728414300
  const RwEvery: U64 := 60 * 15

  /**
   * A timestamp at which the event is known to have occurred. Every epoch
   * falls on a whole minute, and the Realm Walker's is the latest, so a time
   * at or after it is valid for all three events.
   */
  function Epoch(ev: EventType): (e: U64)
    ensures e % 60 == 0
    ensures e <= RwInit
  {
    match ev
    case WB => WbInit
    case LE => LeInit
    case RW => RwInit
  }

  /** The event's repeat period in seconds. */
  function Every(ev: EventType): (p: U64)
    ensures p > 0
  {
    match ev
    case WB => WbEvery
    case LE => LeEvery
    case RW => RwEvery
  }

  /** The event occurs at time `t`: a whole number of periods after its epoch. */
  ghost predicate IsOccurrence(ev: EventType, t: int) {
    t >= Epoch(ev) && (t - Epoch(ev)) % Every(ev) == 0
  }

  /**
   * Seconds until the next occurrence of `ev` after time `ts`
   * (`calc_delta(ev, Some(ts))`). `calc_delta` subtracts the epoch on `u64`,
   * so it needs `ts` at or after the epoch.
   */
  function CalcDelta(ev: EventType, ts: U64): (delta: U64)
    requires Epoch(ev) <= ts
    ensures 1 <= delta <= Every(ev)
    ensures IsOccurrence(ev, ts + delta)
    ensures delta == Every(ev) <==> IsOccurrence(ev, ts)
  {
    var elapsed := (ts - Epoch(ev)) % Every(ev);
    var m, x := Every(ev), ts - Epoch(ev);
    DivModUnique(x + m - elapsed, m, x / m + 1, 0);
    Every(ev) - elapsed
  }

  /** No occurrence falls strictly between `ts` and `ts + CalcDelta(ev, ts)`. */
  lemma NoOccurrenceBefore(ev: EventType, ts: U64)
    requires Epoch(ev) <= ts
    ensures forall t :: ts < t < ts + CalcDelta(ev, ts) ==> !IsOccurrence(ev, t)
  {
    var m, x := Every(ev), ts - Epoch(ev);
    forall t | ts < t < ts + CalcDelta(ev, ts)
      ensures !IsOccurrence(ev, t)
    {
      DivModUnique(t - Epoch(ev), m, x / m, x % m + (t - ts));
    }
  }

  /**
   * `CalcDelta` is exactly the distance to the next occurrence: the one
   * positive `d` such that `ts + d` is an occurrence and nothing in between is.
   */
  lemma CalcDeltaIsNextOccurrence(ev: EventType, ts: U64, d: int)
    requires Epoch(ev) <= ts
    ensures d == CalcDelta(ev, ts) <==>
      && d > 0
      && IsOccurrence(ev, ts + d)
      && forall t :: ts < t < ts + d ==> !IsOccurrence(ev, t)
  {
    var delta := CalcDelta(ev, ts);
    NoOccurrenceBefore(ev, ts);
    if d > 0 && IsOccurrence(ev, ts + d) && d > delta {
      assert ts < ts + delta < ts + d;
    }
  }

  /** Shifting the time by one period leaves the countdown unchanged. */
  lemma CalcDeltaShift(ev: EventType, ts: U64)
    requires Epoch(ev) <= ts && ts + Every(ev) < 0x1_0000_0000_0000_0000
    ensures CalcDelta(ev, ts + Every(ev)) == CalcDelta(ev, ts)
  {
    var m, x := Every(ev), ts - Epoch(ev);
    DivModUnique(x + m, m, x / m + 1, x % m);
  }

  /** The countdown repeats with the event's period. */
  lemma {:induction false} CalcDeltaPeriodic(ev: EventType, ts: U64, n: nat)
    requires Epoch(ev) <= ts
    requires ts + n * Every(ev) < 0x1_0000_0000_0000_0000
    ensures CalcDelta(ev, ts + n * Every(ev)) == CalcDelta(ev, ts)
  {
    if n > 0 {
      var m := Every(ev);
      var prev := ts + (n - 1) * m;
      assert prev + m == ts + n * m;
      CalcDeltaPeriodic(ev, ts, n - 1);
      CalcDeltaShift(ev, prev);
    }
  }

  /**
   * One second later the countdown is one less, except that after reaching 1
   * it restarts at the full period.
   */
  lemma CalcDeltaTick(ev: EventType, ts: U64)
    requires Epoch(ev) <= ts < 0x1_0000_0000_0000_0000 - 1
    ensures CalcDelta(ev, ts + 1) ==
      if CalcDelta(ev, ts) == 1 then Every(ev) else CalcDelta(ev, ts) - 1
  {
    var m, x := Every(ev), ts - Epoch(ev);
    if x % m + 1 < m {
      DivModUnique(x + 1, m, x / m, x % m + 1);
    } else {
      DivModUnique(x + 1, m, x / m + 1, 0);
    }
  }

  // The cases of `test_calc_delta` in src/d4evts.rs.

  lemma WorldBossVector()
    ensures CalcDelta(WB, WbInit + 3600 * 4 + 40 * 60 + 8) == WbEvery - (3600 + 600 + 8)
  {
  }

  lemma LegionEventVector()
    ensures CalcDelta(LE, LeInit + 3600 + 600 + 8) == LeEvery - (20 * 60 + 8)
  {
  }

  lemma RealmWalkerVector()
    ensures CalcDelta(RW, RwInit + 3600 + 600 + 8) == RwEvery - (10 * 60 + 8)
  {
  }
}
