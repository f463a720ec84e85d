/**
  The `App` controller's record-keeping: the form guard and append step of
  `_newWorkout`, the `#workouts` list it grows, and the lookup by id that
  `_moveToPopup` performs. The list is a value; each handler returns the
  list the controller holds afterwards.
 */
module App {
  import opened Wrappers
  import opened Workouts

  /** A JavaScript number as read from a form field. */
  datatype Num = Finite(value: real) | PosInfinity | NegInfinity | NaN

  /** `Number.isFinite(x)`: false exactly for NaN, +Infinity and -Infinity. */
  function IsFinite(x: Num): (ok: bool)
    ensures ok <==> !(x.NaN? || x.PosInfinity? || x.NegInfinity?)
  {
    x.Finite?
  }

  /**
    `x > 0` under IEEE comparison: NaN compares false with everything,
    +Infinity is above and -Infinity below every finite value.
   */
  function IsPositive(x: Num): (ok: bool)
    ensures x.NaN? ==> !ok
    ensures x.PosInfinity? ==> ok
    ensures x.NegInfinity? ==> !ok
    ensures x.Finite? ==> (ok <==> x.value > 0.0)
  {
    if x.Finite? then x.value > 0.0 else x.PosInfinity?
  }

  /** The field values `_newWorkout` reads on submit. */
  datatype Form = Form(discipline: Discipline, distance: Num, duration: Num, cadence: Num, elevation: Num)

  /** The text of the alert shown on rejection. */
  const InvalidInputsAlert: string := "Inputs have to be positive value"

  // ------------------------------------------------------------- the guard

  /** `validInputs(...inputs)`: every input satisfies `Number.isFinite`. */
  function ValidInputs(inputs: seq<Num>): (ok: bool)
    ensures ok <==> forall i | 0 <= i < |inputs| :: IsFinite(inputs[i])
  {
    if inputs == [] then true else IsFinite(inputs[0]) && ValidInputs(inputs[1..])
  }

  /** `allPositive(...inputs)`: every input is `> 0`. */
  function AllPositive(inputs: seq<Num>): (ok: bool)
    ensures ok <==> forall i | 0 <= i < |inputs| :: IsPositive(inputs[i])
  {
    if inputs == [] then true else IsPositive(inputs[0]) && AllPositive(inputs[1..])
  }

  /**
    The guard of `_newWorkout` for the selected discipline: a run checks
    distance, duration and cadence for finiteness and positivity; a ride
    checks all three of distance, duration and elevation for finiteness but
    only distance and duration for positivity.
   */
  function Accepts(form: Form): (ok: bool)
    ensures ok ==> PositiveReal(form.distance) && PositiveReal(form.duration)
    ensures ok && form.discipline == Running ==> PositiveReal(form.cadence)
    ensures ok && form.discipline == Cycling ==> IsFinite(form.elevation)
  {
    match form.discipline
    case Running =>
      var xs := [form.distance, form.duration, form.cadence];
      assert xs[0] == form.distance && xs[1] == form.duration && xs[2] == form.cadence;
      ValidInputs(xs) && AllPositive(xs)
    case Cycling =>
      var xs, ys := [form.distance, form.duration, form.elevation], [form.distance, form.duration];
      assert xs[0] == form.distance && xs[1] == form.duration && xs[2] == form.elevation;
      assert ys[0] == form.distance && ys[1] == form.duration;
      ValidInputs(xs) && AllPositive(ys)
  }

  /** A finite number greater than zero. */
  predicate PositiveReal(x: Num) {
    x.Finite? && x.value > 0.0
  }

  /** The guard, stated field by field. */
  lemma AcceptsExactly(form: Form)
    ensures Accepts(form) <==>
      && PositiveReal(form.distance)
      && PositiveReal(form.duration)
      && (form.discipline == Running ==> PositiveReal(form.cadence))
      && (form.discipline == Cycling ==> IsFinite(form.elevation))
  {
    var d, t := form.distance, form.duration;
    match form.discipline
    case Running =>
      var xs := [d, t, form.cadence];
      assert xs[0] == d && xs[1] == t && xs[2] == form.cadence;
    case Cycling =>
      var xs, ys := [d, t, form.elevation], [d, t];
      assert xs[0] == d && xs[1] == t && xs[2] == form.elevation;
      assert ys[0] == d && ys[1] == t;
  }

  /** A ride's elevation gain may be zero or negative. */
  lemma NonPositiveElevationAccepted(form: Form)
    requires form.discipline == Cycling
    requires PositiveReal(form.distance) && PositiveReal(form.duration)
    requires form.elevation.Finite? && form.elevation.value <= 0.0
    ensures Accepts(form)
  {
    AcceptsExactly(form);
  }

  /** An infinite, NaN, zero or negative distance or duration is refused for either discipline. */
  lemma NonPositiveDistanceRejected(form: Form)
    requires !PositiveReal(form.distance) || !PositiveReal(form.duration)
    ensures !Accepts(form)
  {
    AcceptsExactly(form);
  }

  // ---------------------------------------------------------- construction

  /** The record the handler builds from accepted field values. */
  function Create(coords: Coords, form: Form, now: nat, date: Date): (w: Workout)
    requires Accepts(form)
    ensures Recorded(w, coords, form, now, date)
  {
    AcceptsExactly(form);
    match form.discipline
    case Running =>
      NewRunning(coords, form.distance.value, form.duration.value, form.cadence.value, now, date)
    case Cycling =>
      NewCycling(coords, form.distance.value, form.duration.value, form.elevation.value, now, date)
  }

  /**
    `w` carries the clicked coordinates, the submitted numbers, the id of
    the timestamp and the date, and satisfies the record invariant.
   */
  ghost predicate Recorded(w: Workout, coords: Coords, form: Form, now: nat, date: Date)
    requires Accepts(form)
  {
    AcceptsExactly(form);
    && w.Type() == form.discipline
    && w.coords == coords
    && w.distance == form.distance.value
    && w.duration == form.duration.value
    && (w.RunningWorkout? ==> w.cadence == form.cadence.value)
    && (w.CyclingWorkout? ==> w.elevationGain == form.elevation.value)
    && w.id == Id(now)
    && w.date == date
    && WellFormed(w)
  }

  /**
    `_newWorkout`: validate the form; on rejection return the alert, the
    controller keeping its list as it was; on acceptance append exactly one
    record and keep every earlier one.
   */
  function NewWorkout(workouts: seq<Workout>, coords: Coords, form: Form, now: nat, date: Date)
    : (r: Result<seq<Workout>, string>)
    ensures r.Failure? <==> !Accepts(form)
    ensures r.Failure? ==> r.error == InvalidInputsAlert
    ensures r.Success? ==> |r.value| == |workouts| + 1 && r.value[..|workouts|] == workouts
    ensures r.Success? ==> Recorded(r.value[|workouts|], coords, form, now, date)
  {
    if !Accepts(form) then Failure(InvalidInputsAlert)
    else
      var ws := workouts + [Create(coords, form, now, date)];
      assert ws[..|workouts|] == workouts;
      Success(ws)
  }

  /** The list the controller holds after a submission, accepted or not. */
  function AfterSubmit(workouts: seq<Workout>, coords: Coords, form: Form, now: nat, date: Date)
    : (ws: seq<Workout>)
    ensures !Accepts(form) ==> ws == workouts
    ensures Accepts(form) ==> ws == workouts + [Create(coords, form, now, date)]
  {
    match NewWorkout(workouts, coords, form, now, date)
    case Success(ws) =>
      assert ws == ws[..|workouts|] + [ws[|workouts|]];
      ws
    case Failure(_) => workouts
  }

  // ------------------------------------------------------- store invariant

  ghost predicate AllWellFormed(workouts: seq<Workout>) {
    forall i | 0 <= i < |workouts| :: WellFormed(workouts[i])
  }

  /** Submissions keep every record of the list well formed. */
  lemma SubmitPreservesWellFormed(workouts: seq<Workout>, coords: Coords, form: Form, now: nat, date: Date)
    requires AllWellFormed(workouts)
    ensures AllWellFormed(AfterSubmit(workouts, coords, form, now, date))
  {
    var ws := AfterSubmit(workouts, coords, form, now, date);
    if Accepts(form) {
      forall i | 0 <= i < |ws| ensures WellFormed(ws[i]) {
        if i < |workouts| {
          assert ws[i] == workouts[i];
        }
      }
    }
  }

  // -------------------------------------------------------------- sessions

  /** One form submission with the map click and clock readings it used. */
  datatype Submission = Submission(coords: Coords, form: Form, now: nat, date: Date)

  /** The list after a series of submissions, each applied in turn. */
  function Replay(workouts: seq<Workout>, subs: seq<Submission>): seq<Workout>
    decreases |subs|
  {
    if subs == [] then workouts
    else
      var s := subs[0];
      Replay(AfterSubmit(workouts, s.coords, s.form, s.now, s.date), subs[1..])
  }

  /** The record a submission creates: one if its form is accepted, none otherwise. */
  function Created(s: Submission): seq<Workout> {
    if Accepts(s.form) then [Create(s.coords, s.form, s.now, s.date)] else []
  }

  /** The records the accepted submissions of a series create, in submission order. */
  function Records(subs: seq<Submission>): seq<Workout>
    decreases |subs|
  {
    if subs == [] then [] else Created(subs[0]) + Records(subs[1..])
  }

  lemma SubmitAppendsCreated(workouts: seq<Workout>, s: Submission)
    ensures AfterSubmit(workouts, s.coords, s.form, s.now, s.date) == workouts + Created(s)
  {
    if !Accepts(s.form) {
      assert workouts + [] == workouts;
    }
  }

  lemma ConcatAssociative<T>(a: seq<T>, b: seq<T>, c: seq<T>)
    ensures (a + b) + c == a + (b + c)
  {
  }

  /**
    The list is append-only: a series of submissions extends it by exactly
    the records of the accepted ones, in order, and rejections leave no trace.
   */
  lemma {:induction false} ReplayAppendsRecords(workouts: seq<Workout>, subs: seq<Submission>)
    ensures Replay(workouts, subs) == workouts + Records(subs)
    decreases |subs|
  {
    if subs != [] {
      var s := subs[0];
      var next := AfterSubmit(workouts, s.coords, s.form, s.now, s.date);
      SubmitAppendsCreated(workouts, s);
      ReplayAppendsRecords(next, subs[1..]);
      ConcatAssociative(workouts, Created(s), Records(subs[1..]));
    }
  }

  // --------------------------------------------------------------- lookup

  /** `Array.prototype.findIndex` on the id: the first position holding a record with `id`. */
  function FirstIndexOf(workouts: seq<Workout>, id: string): (r: Option<nat>)
    ensures r.Some? ==> r.value < |workouts| && workouts[r.value].id == id
    ensures r.Some? ==> forall j | 0 <= j < r.value :: workouts[j].id != id
    ensures r.None? ==> forall j | 0 <= j < |workouts| :: workouts[j].id != id
  {
    if workouts == [] then None
    else if workouts[0].id == id then Some(0)
    else
      match FirstIndexOf(workouts[1..], id)
      case None => None
      case Some(i) => Some(i + 1)
  }

  /** `this.#workouts.find(el => el.id === id)`. */
  function Find(workouts: seq<Workout>, id: string): (r: Option<Workout>)
    ensures r.None? <==> forall j | 0 <= j < |workouts| :: workouts[j].id != id
    ensures r.Some? ==> exists i | 0 <= i < |workouts| ::
      workouts[i] == r.value && r.value.id == id && forall j | 0 <= j < i :: workouts[j].id != id
  {
    match FirstIndexOf(workouts, id)
    case None => None
    case Some(i) => Some(workouts[i])
  }

  /** Appending a record changes a lookup only for an id no earlier record carries. */
  lemma FindAfterAppend(workouts: seq<Workout>, w: Workout, id: string)
    ensures Find(workouts + [w], id) ==
      if Find(workouts, id).Some? then Find(workouts, id)
      else if w.id == id then Some(w)
      else None
  {
    var ws := workouts + [w];
    assert forall j | 0 <= j < |workouts| :: ws[j] == workouts[j];
    assert ws[|workouts|] == w;
  }

  /**
    Submitting and then looking up the new record's id finds that record,
    provided no earlier record carries the same id.
   */
  lemma SubmitThenFind(workouts: seq<Workout>, coords: Coords, form: Form, now: nat, date: Date)
    requires Accepts(form)
    requires forall j | 0 <= j < |workouts| :: workouts[j].id != Id(now)
    ensures Find(AfterSubmit(workouts, coords, form, now, date), Id(now))
         == Some(Create(coords, form, now, date))
  {
    FindAfterAppend(workouts, Create(coords, form, now, date), Id(now));
  }

  /**
    When an earlier record already carries the new record's id (a timestamp
    collision), lookups keep returning the earlier record.
   */
  lemma CollidingIdFindsEarlier(workouts: seq<Workout>, coords: Coords, form: Form, now: nat, date: Date)
    requires Find(workouts, Id(now)).Some?
    ensures Find(AfterSubmit(workouts, coords, form, now, date), Id(now)) == Find(workouts, Id(now))
  {
    if Accepts(form) {
      FindAfterAppend(workouts, Create(coords, form, now, date), Id(now));
    }
  }

  // ---------------------------------------------------------- move to popup

  /**
    What a click on the workout list asks of the map: nothing, a pan to a
    record's coordinates, or (the clicked id matching no record) a read of
    `coords` from `undefined`, which throws.
   */
  datatype Pan = Ignored | PanTo(target: Coords) | Unresolved

  /**
    `_moveToPopup`: `clicked` is the `data-id` of the `.workout` element
    enclosing the click target, `None` when the click fell outside every item.
   */
  function MoveToPopup(workouts: seq<Workout>, clicked: Option<string>): (p: Pan)
    ensures p.Ignored? <==> clicked.None?
    ensures p.Unresolved? <==>
      clicked.Some? && forall j | 0 <= j < |workouts| :: workouts[j].id != clicked.value
    ensures p.PanTo? ==> exists i | 0 <= i < |workouts| ::
      && workouts[i].id == clicked.value
      && workouts[i].coords == p.target
      && forall j | 0 <= j < i :: workouts[j].id != clicked.value
  {
    match clicked
    case None => Ignored
    case Some(id) =>
      match Find(workouts, id)
      case None => Unresolved
      case Some(w) => PanTo(w.coords)
  }
}
