/**
 * What the update loop of src/d4evts.rs shows for each event once a second:
 * the countdown text and a background colour that turns light red when the
 * event is at most five minutes away.
 */
module Display {

  import opened Arith
  import opened Events
  import opened Hms
  import opened Wrappers

  datatype Colour = Gray | LightRed

  /** Countdowns at or below this many seconds are highlighted. */
  const AlertThreshold: nat := 300

  /** The background colour for a countdown of `delta` seconds. */
  function UrgencyColour(delta: U64): (c: Colour)
    ensures c == LightRed <==> delta <= AlertThreshold
  {
    if delta <= AlertThreshold then LightRed else Gray
  }

  /** The text and colour of one event's row. */
  datatype Readout = Readout(text: string, colour: Colour)

  /**
   * One event's row as the loop computes it at time `ts`; the same rule is
   * used for all three events. The text shows the countdown, and the row is
   * light red exactly when the event occurs within the next five minutes.
   */
  function Refresh(ev: EventType, ts: U64): (r: Readout)
    requires Epoch(ev) <= ts
    ensures DecodeHms(r.text) == Some(CalcDelta(ev, ts))
    ensures r.colour == LightRed <==>
      exists t :: ts < t <= ts + AlertThreshold && IsOccurrence(ev, t)
  {
    var delta := CalcDelta(ev, ts);
    DecodeGetHms(delta);
    AlertIffEventSoon(ev, ts);
    Readout(GetHms(delta), UrgencyColour(delta))
  }

  /** The row is highlighted exactly when an occurrence falls in the next `AlertThreshold` seconds. */
  lemma AlertIffEventSoon(ev: EventType, ts: U64)
    requires Epoch(ev) <= ts
    ensures UrgencyColour(CalcDelta(ev, ts)) == LightRed <==>
      exists t :: ts < t <= ts + AlertThreshold && IsOccurrence(ev, t)
  {
    var delta := CalcDelta(ev, ts);
    NoOccurrenceBefore(ev, ts);
    if delta <= AlertThreshold {
      assert ts < ts + delta <= ts + AlertThreshold && IsOccurrence(ev, ts + delta);
    }
  }

  /** Every event has a period longer than the threshold, so each cycle starts gray. */
  lemma GrayAfterOccurrence(ev: EventType, ts: U64)
    requires Epoch(ev) <= ts && IsOccurrence(ev, ts)
    ensures UrgencyColour(CalcDelta(ev, ts)) == Gray
  {
  }
}
