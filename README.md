# d4evts countdown core in Dafny

d4evts is a small desktop widget. It shows countdowns to three periodic Diablo 4 events: the World Boss (WB), the Legion Event (LE) and the Realm Walker (RW). Each event has a fixed epoch (a Unix timestamp at which it occurred) and a fixed repeat interval. Once a second the widget recomputes, for each event, the seconds until its next occurrence. It renders that number as `"  H:MM:SS  "` and colours the row light red when the event is at most 300 seconds away.

This project models that computation and proves its properties:

- `arith.dfy` (module `Arith`): Rust's `u64` as a subset type, and the uniqueness of Euclidean quotient and remainder that the proofs use.
- `decimal.dfy` (module `Decimal`): decimal printing as `format!` does it. `{}` becomes `NatToString` and `{:02}` becomes `ZeroPad2`. `ParseDecimal` is the reading-back function they are proved against.
- `events.dfy` (module `Events`): the event kinds and their constants, and `calc_delta` as `CalcDelta`. The specification it is proved against is `IsOccurrence`, which holds when the event happens at a given second.
- `hms.dfy` (module `Hms`): `get_hms` as `SplitHms` plus `GetHms`, and `DecodeHms`, which reads a display string back. The two are proved inverse to each other.
- `display.dfy` (module `Display`): the colour threshold from the update loop as `UrgencyColour`, and one event's row of the display as `Refresh`.

`calc_delta` matches on the event kind and has three copies of the same two lines. The model writes those lines once and takes the constants from `Epoch(ev)` and `Every(ev)`, which match on the kind. All arithmetic is on unbounded integers. Inputs and results are limited to the `u64` range with the subset type `U64`. No step of the modelled computation can overflow once `ts >= epoch`.

## Model

| member | source | states |
|---|---|---|
| `Events.Epoch` | src/d4evts.rs:35-41 | the epochs `WB_INIT`, `LE_INIT` and `RW_INIT`; each falls on a whole minute and none is later than the Realm Walker's, so one time at or after that epoch is valid for all three events |
| `Events.Every` | src/d4evts.rs:35-42 | every event's repeat interval is positive, so the modulo in `calc_delta` is defined |
| `Events.CalcDelta` | src/d4evts.rs:174-203 | for `ts` at or after the epoch, the countdown lies in `1..interval`; `ts + delta` is an occurrence; the result is the full interval exactly when `ts` itself is an occurrence |
| `Events.NoOccurrenceBefore` | src/d4evts.rs:186-199 | no occurrence falls strictly between `ts` and `ts + delta` |
| `Events.CalcDeltaIsNextOccurrence` | src/d4evts.rs:171-199 | in both directions, `d` equals the countdown iff `d > 0`, `ts + d` is an occurrence and no occurrence lies between; this is the "time in seconds until the next" event |
| `Events.CalcDeltaShift` | src/d4evts.rs:186-199 | moving the time forward by one interval leaves the countdown unchanged |
| `Events.CalcDeltaPeriodic` | src/d4evts.rs:186-199 | moving the time forward by any whole number of intervals leaves the countdown unchanged (by induction) |
| `Events.CalcDeltaTick` | src/d4evts.rs:186-199 | one second later the countdown is one less, or it restarts at the full interval after reaching 1 |
| `Events.WorldBossVector` | src/d4evts.rs:307-312 | WB at its epoch plus 4:40:08 gives `12600 - 4208` |
| `Events.LegionEventVector` | src/d4evts.rs:314-319 | LE at its epoch plus 1:10:08 gives `1500 - 1208` |
| `Events.RealmWalkerVector` | src/d4evts.rs:321-326 | RW at its epoch plus 1:10:08 gives `900 - 608` |
| `Decimal.NatToString` | src/d4evts.rs:217 | `{}` of an unsigned integer is a non-empty digit string with no leading zero; it starts with `0` only for zero and is one character long exactly below ten |
| `Decimal.ParseNatToString` | src/d4evts.rs:217 | reading back the printed hours gives the number |
| `Decimal.NatToStringParse` | src/d4evts.rs:217 | every canonical digit string is the printing of its value, so printing and parsing are inverse on canonical strings |
| `Decimal.NatToStringInjective` | src/d4evts.rs:217 | distinct numbers print differently |
| `Decimal.ZeroPad2` | src/d4evts.rs:217 | `{:02}` gives a digit string of width 2 for values below 10, exactly the plain digits of `{}` otherwise, and width exactly 2 for every value below 100 |
| `Decimal.ParseZeroPad2` | src/d4evts.rs:217 | reading back a zero-padded field gives the number |
| `Decimal.ZeroPad2Parse` | src/d4evts.rs:217 | every two-digit string is the padded printing of its value |
| `Hms.SplitHms` | src/d4evts.rs:208-215 | the conditional split yields minutes and seconds below 60, and `3600*h + 60*m + s` equals the input |
| `Hms.SplitHmsUnique` | src/d4evts.rs:208-215 | any hours, minutes below 60 and seconds below 60 that add up to the input are the split |
| `Hms.SplitHmsClosedForm` | src/d4evts.rs:208-215 | the conditional split agrees with `delta / 3600`, `(delta / 60) % 60` and `delta % 60` |
| `Hms.GetHms` | src/d4evts.rs:207-218 | the display is 10 characters longer than the hour digits, with two spaces at each end and `:` at the two separator positions |
| `Hms.DecodeGetHms` | src/d4evts.rs:207-218 | the display of `delta` reads back as `delta` |
| `Hms.GetHmsDecode` | src/d4evts.rs:207-218 | every well-formed display string that reads back as `delta` is exactly the display of `delta` |
| `Hms.DisplayIffDecodes` | src/d4evts.rs:207-218 | in both directions, a string decodes to `delta` iff it is the display of `delta` |
| `Hms.GetHmsInjective` | src/d4evts.rs:207-218 | distinct durations are displayed differently |
| `Hms.HmsVectorOneHour` | src/d4evts.rs:295-296 | 4114 seconds (`3600 + 8*60 + 34`, that is 1:08:34) display as `"  1:08:34  "` |
| `Hms.HmsVectorJustUnderAnHour` | src/d4evts.rs:298-299 | 3599 seconds display as `"  0:59:59  "` |
| `Hms.HmsVectorOneSecond` | src/d4evts.rs:301-302 | 1 second displays as `"  0:00:01  "` |
| `Display.UrgencyColour` | src/d4evts.rs:237-241 | the colour is light red exactly when the countdown is at most 300 seconds, gray otherwise |
| `Display.AlertIffEventSoon` | src/d4evts.rs:237-253 | in both directions, an event's row is light red iff the event occurs within the next 300 seconds |
| `Display.GrayAfterOccurrence` | src/d4evts.rs:237-253 | at the second an event occurs, its row is gray again, because every interval exceeds 300 seconds |
| `Display.Refresh` | src/d4evts.rs:232-254 | one event's row, computed by the same rule for all three events: its text reads back as the countdown, and it is light red iff an occurrence falls within the next 300 seconds |

## Left out

- The `None` branch of `calc_delta` reads the system clock. The time is a parameter of `CalcDelta`, which is the `Some(ts)` path.
- `Events.CalcDelta`: requires `ts` at or after the event's epoch. Below the epoch, `now - *_INIT` underflows on `u64`. A debug build panics and a release build wraps. Neither behaviour is modelled.
- The `debug!` log line in `calc_delta`, the logger (`GlobalLogger`, `setup_logging`) and command-line parsing (`Args`, `get_args`). These are I/O and do not affect any computed value.
- `run_update_thread`: the endless loop, the one-second sleep and the writes through `Arc<Mutex<_>>` are concurrency plumbing. Only what one iteration computes for one event is modelled, as `Refresh`. `CalcDeltaTick` states how that value changes from one second to the next.
- The egui/eframe GUI (`MyApp`, its `update`, `main`'s window setup) is presentation only. Concrete `Color32` values are reduced to the two-valued `Colour`.
