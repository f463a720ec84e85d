# Mapty workout records in Dafny

Mapty is a browser application that logs running and cycling workouts at
points clicked on a map. Beneath its DOM, map and storage code sits a small
model of workout records, which this project states and proves:

- `Workouts` (`workouts.dfy`) covers the `Workout` base class and its `Running` and
  `Cycling` subclasses. They are one tagged union with a shared base: id, date,
  coordinates, distance in km, duration in min and description. A run adds
  cadence and the derived pace in min/km. A ride adds elevation gain and the
  derived speed in km/h. The module also holds the description
  "<Type> on <Month> <day>" and the id, which is the last ten characters of the
  millisecond timestamp's numeral.
- `App` (`app.dfy`) covers the controller's record keeping. `_newWorkout`
  checks the form per discipline and then appends exactly one record, or
  rejects the form with an alert and changes nothing. The `#workouts` list is a
  `seq` that only grows. `_moveToPopup` looks up a record by id.
- `Decimal` (`decimal.dfy`) renders a non-negative integer as `n + ''` does.
  It also reads a digit string back, which is how the id lemmas are stated.
- `Wrappers` (`wrappers.dfy`) holds `Option` and `Result`.

JavaScript numbers from the form are `Num = Finite(real) | PosInfinity |
NegInfinity | NaN`. `Number.isFinite` and `> 0` follow IEEE semantics on that
type, so the guard is modelled as the source writes it and then proved
equivalent to a field-by-field statement. The map click's coordinates, the
timestamp from `Date.now()`, and the month and day from `new Date()` are
parameters.

Three behaviours of the code are worth stating plainly:

- The ride branch checks elevation gain only for finiteness (script.js:160).
  Zero and negative gains are accepted (`App.NonPositiveElevationAccepted`).
- When a clicked list item's id matches no record, `find` returns `undefined`
  and reading `obj.coords` throws (script.js:240-243). `App.MoveToPopup`
  returns `Unresolved` for this case.
- A lookup after an append returns the new record only when no earlier record
  has its id (`App.SubmitThenFind`). Two timestamps of at least ten digits
  that agree modulo 10^10 give the same id
  (`Workouts.CongruentTimestampsCollide`). When ids collide, lookups keep
  returning the earlier record (`App.CollidingIdFindsEarlier`).

## Model

| member | source | states |
|---|---|---|
| Decimal.FromNat | script.js:15 | the numeral of a timestamp is a non-empty string of decimal digits that starts with '0' only when the number is 0 |
| Decimal.NumeralBounds | script.js:15 | a numeral of L digits names a number below 10^L, and at least 10^(L-1) when L > 1 |
| Decimal.ToNatFromNat | script.js:15 | reading the numeral back as digits gives the number: rendering loses nothing |
| Decimal.SuffixValue | script.js:15 | the last k characters of a numeral spell the number modulo 10^k |
| Decimal.SuffixMod | script.js:15 | the last k characters of any digit string spell its value modulo 10^k |
| Workouts.Pace | script.js:41-45 | a run's pace times its distance is its duration, and pace is positive for a positive duration |
| Workouts.Speed | script.js:58-63 | a ride's speed times its duration in minutes is 60 times its distance, and speed is positive for a positive distance |
| Workouts.SpeedTimesPace | script.js:41-63 | for one distance and duration, speed in km/h times pace in min/km is exactly 60 |
| Workouts.Capitalize | script.js:27 | the first character of a lower-case ASCII word is upper-cased and the rest is kept; a string whose first character is not lower-case is unchanged |
| Workouts.TypeName | script.js:32 | the `type` string of either discipline ('running' at line 32, 'cycling' at line 49) is seven lower-case ASCII letters |
| Workouts.Title | script.js:27 | the capitalised type is seven characters: an upper-case ASCII letter 32 code points below the type's first letter, followed by the rest of the type unchanged |
| Workouts.TitleNames | script.js:27 | the capitalised type names are "Running" and "Cycling" |
| Workouts.Description | script.js:23-28 | a description opens with the seven-letter capitalised type, then " on " |
| Workouts.DescriptionOpens | script.js:27 | the first eleven characters are "Running on " for a run and "Cycling on " for a ride |
| Workouts.DescriptionExample | script.js:25-27 | month index 3 and day 14 of a run give "Running on April 14" |
| Workouts.DescriptionInjective | script.js:23-28 | a description determines the type, month and day it was built from |
| Workouts.SliceFromEnd | script.js:15 | `slice(-k)` returns a suffix of the string: for k > 0 exactly k characters, or the whole string when it is shorter; for k = 0 (a start of -0, which converts to 0) the whole string |
| Workouts.Id | script.js:15 | an id has between one and ten decimal digits, and exactly ten for a timestamp of at least 10^9 |
| Workouts.IdValue | script.js:15 | an id, read as digits, is the creation timestamp modulo 10^10 |
| Workouts.IdCollisionNeedsCongruence | script.js:15 | two equal ids come from timestamps that agree modulo 10^10 |
| Workouts.CongruentTimestampsCollide | script.js:15 | two timestamps of at least ten digits that agree modulo 10^10 give the same id |
| Workouts.NewRunning | script.js:31-39 | a new run keeps the given coords, distance, duration, cadence and date, and its pace times distance is its duration |
| Workouts.NewCycling | script.js:48-56 | a new ride keeps the given coords, distance, duration, elevation gain and date, and its speed times duration is 60 times its distance |
| Workouts.WellFormed | script.js:17-63 | the record invariant (positive distance and duration, the description of its own type and date, a one-to-ten-digit id, a positive cadence and pace times distance equal to duration for a run, speed times duration equal to 60 times distance for a ride) implies a positive pace for a run and a positive speed for a ride |
| App.IsFinite | script.js:135 | `Number.isFinite` is false exactly for NaN, +Infinity and -Infinity |
| App.IsPositive | script.js:138 | `x > 0` is false for NaN and -Infinity, true for +Infinity, and the real comparison for a finite number |
| App.ValidInputs | script.js:135 | the check holds exactly when every input is finite |
| App.AllPositive | script.js:138 | the check holds exactly when every input is `> 0`, with +Infinity counting as positive and NaN not |
| App.Accepts | script.js:149-163 | an accepted form has a finite positive distance and duration, plus a finite positive cadence for a run or a finite elevation gain for a ride |
| App.AcceptsExactly | script.js:149-163 | a run is accepted iff distance, duration and cadence are finite and > 0; a ride is accepted iff distance and duration are finite and > 0 and elevation is finite |
| App.NonPositiveElevationAccepted | script.js:158-163 | a ride with zero or negative elevation gain and a valid distance and duration is accepted |
| App.NonPositiveDistanceRejected | script.js:149-163 | a non-finite or non-positive distance or duration is rejected for both disciplines |
| App.Create | script.js:148-164 | the record built from an accepted form has the form's type, the clicked coords, the typed numbers, the timestamp's id and the date, and is well formed |
| App.NewWorkout | script.js:133-166 | the form fails with the alert iff the guard rejects it; on acceptance the list grows by one, earlier records are kept, and the new last record carries the submitted values |
| App.AfterSubmit | script.js:152-166 | a rejected form leaves the list unchanged; an accepted one appends exactly the new record |
| App.SubmitPreservesWellFormed | script.js:147-166 | if every record in the list is well formed, it stays so after any submission |
| App.ReplayAppendsRecords | script.js:166 | after a series of submissions the list is the old list followed by the records of the accepted submissions, in order |
| App.FirstIndexOf | script.js:240 | returns the first position holding the id, with no earlier match; None iff no record holds it |
| App.Find | script.js:240 | returns the first record in insertion order with the id; None iff no record has it |
| App.FindAfterAppend | script.js:240 | appending a record changes the lookup only for an id no earlier record has, which then finds the new record |
| App.SubmitThenFind | script.js:240 | after an accepted submission whose id is new, looking up that id finds the new record |
| App.CollidingIdFindsEarlier | script.js:240 | when an earlier record has the new id, the lookup still returns the earlier record |
| App.MoveToPopup | script.js:236-249 | a click outside any item is ignored; a known id pans to the first matching record's coords; an unknown id gives Unresolved |

## Left out

- DOM queries, showing and hiding the form, clearing the fields, the one-second `setTimeout` and `_toggleElevationField` (script.js:4-10, 113-131): user-interface only.
- Leaflet map setup, tile layer, markers, popups and the `setView` pan itself (script.js:94-110, 180-188, 243-248): calls into a foreign library. `App.MoveToPopup` returns the target of the pan.
- Geolocation (script.js:86-92): an asynchronous browser API.
- `localStorage` persistence, `JSON` serialisation, reloading and `reset` (script.js:251-268): browser I/O. Reloaded records are untyped objects.
- HTML templating and `toFixed(1)` rendering (script.js:190-234): string rendering with float formatting.
- IEEE-754 arithmetic: numbers are exact `real`s. Rounding in `duration / distance` and `distance / (duration / 60)` is not modelled.
- The `+input.value` string-to-number coercion: each field arrives as a `Num`.
- `Date` internals: the timestamp, month index and day are inputs. So is the fact that `new Date()` and `Date.now()` are read separately.
- Form types other than "running" and "cycling": the type is a two-valued enum. The source would append `undefined` for any other value, but its form cannot produce one.
- Reading `this.#mapEvent.latlng` before any map click: the form is shown only after a click, so the coordinates are a parameter.
- Workouts.Pace: requires a positive distance, so IEEE division by zero (Infinity or NaN) is not modelled. The only caller has already checked the distance.
- Workouts.Speed: requires a positive duration, for the same reason as `Pace`.
- Workouts.Capitalize: upper-cases ASCII `a`-`z` only, not all of `toUpperCase`. Both type names are ASCII. Capitalising an empty string, where `type[0]` would be undefined, is excluded by its precondition.
- Decimal.FromNat: produces plain digits only. JavaScript switches to exponent notation from 10^21, which millisecond timestamps do not reach.
