/**
  Workout records: the `Workout` base class with its `Running` and `Cycling`
  subclasses, as a tagged union with a shared base (id, date, coordinates,
  distance in km, duration in min, description) and one discipline-specific
  input plus one derived metric per variant.
 */
module Workouts {
  import Decimal

  /** The `[lat, lng]` pair of the map click that created the record. */
  datatype Coords = Coords(lat: real, lng: real)

  /** The discriminant `type`; the form offers exactly these two values. */
  datatype Discipline = Running | Cycling

  /** `Date.prototype.getMonth()`: 0 for January through 11 for December. */
  type MonthIndex = m: nat | m < 12

  /** `Date.prototype.getDate()`: the day of the month. */
  type DayOfMonth = d: nat | 1 <= d <= 31 witness 1

  /** The parts of the creation date the record uses. */
  datatype Date = Date(month: MonthIndex, day: DayOfMonth)

  datatype Workout =
    | RunningWorkout(id: string, date: Date, coords: Coords, distance: real, duration: real,
                     description: string, cadence: real, pace: real)
    | CyclingWorkout(id: string, date: Date, coords: Coords, distance: real, duration: real,
                     description: string, elevationGain: real, speed: real)
  {
    function Type(): Discipline {
      if RunningWorkout? then Running else Cycling
    }
  }

  /** Number of trailing characters of the timestamp numeral kept as the id. */
  const IdLength: nat := 10

  const MonthNames: seq<string> :=
    ["January", "February", "March", "April", "May", "June", "July",
     "August", "September", "October", "November", "December"]

  /** The string stored in the `type` field: seven lower-case ASCII letters. */
  function TypeName(t: Discipline): (name: string)
    ensures |name| == 7
    ensures forall i | 0 <= i < |name| :: 'a' <= name[i] <= 'z'
  {
    match t
    case Running => "running"
    case Cycling => "cycling"
  }

  // ---------------------------------------------------------------- metrics

  /** `Running._calcPace`: minutes per kilometre. */
  function Pace(distance: real, duration: real): (pace: real)
    requires distance > 0.0
    ensures pace * distance == duration
    ensures duration > 0.0 ==> pace > 0.0
  {
    duration / distance
  }

  /** `Cycling._calcSpeed`: kilometres per hour, the duration being in minutes. */
  function Speed(distance: real, duration: real): (speed: real)
    requires duration > 0.0
    ensures speed * duration == 60.0 * distance
    ensures distance > 0.0 ==> speed > 0.0
  {
    distance / (duration / 60.0)
  }

  /** For one distance and duration, km/h and min/km are reciprocal up to the 60 min in an hour. */
  lemma SpeedTimesPace(distance: real, duration: real)
    requires distance > 0.0 && duration > 0.0
    ensures Speed(distance, duration) * Pace(distance, duration) == 60.0
  {
    var s, p := Speed(distance, duration), Pace(distance, duration);
    calc {
      s * p * distance;
      s * (p * distance);
      s * duration;
      60.0 * distance;
    }
    CancelFactor(s * p, 60.0, distance);
  }

  lemma CancelFactor(x: real, y: real, d: real)
    requires d != 0.0 && x * d == y * d
    ensures x == y
  {
    assert (x - y) * d == 0.0;
  }

  // ------------------------------------------------------------ description

  function UpperChar(c: char): char {
    if 'a' <= c <= 'z' then (c as int - 32) as char else c
  }

  /** `s[0].toUpperCase() + s.slice(1)` over the ASCII letters the type names use. */
  function Capitalize(s: string): (r: string)
    requires |s| > 0
    ensures |r| == |s| && r[1..] == s[1..]
    ensures 'a' <= s[0] <= 'z' ==> 'A' <= r[0] <= 'Z' && r[0] as int + 32 == s[0] as int
    ensures !('a' <= s[0] <= 'z') ==> r == s
  {
    [UpperChar(s[0])] + s[1..]
  }

  /** The capitalised type name that opens a description. */
  function Title(t: Discipline): (title: string)
    ensures |title| == 7
    ensures 'A' <= title[0] <= 'Z' && title[0] as int + 32 == TypeName(t)[0] as int
    ensures title[1..] == TypeName(t)[1..]
  {
    Capitalize(TypeName(t))
  }

  /** `Workout._setDescription`: "<Type> on <Month> <day>". */
  function Description(t: Discipline, date: Date): (s: string)
    ensures |s| > 11 && s[..7] == Title(t) && s[7..11] == " on "
  {
    Title(t) + " on " + MonthNames[date.month] + " " + Decimal.FromNat(date.day)
  }

  /** Every description opens with the capitalised type followed by " on ". */
  lemma DescriptionOpens(t: Discipline, date: Date)
    ensures |Description(t, date)| > 11
    ensures Description(t, date)[..11] == Title(t) + " on "
    ensures Description(t, date)[..11] == if t == Running then "Running on " else "Cycling on "
  {
    var rest := MonthNames[date.month] + " " + Decimal.FromNat(date.day);
    assert Description(t, date) == (Title(t) + " on ") + rest;
    TitleNames();
  }

  lemma TitleNames()
    ensures Title(Running) == "Running" && Title(Cycling) == "Cycling"
  {
  }

  /** The worked example of the record format. */
  lemma DescriptionExample()
    ensures Description(Running, Date(3, 14)) == "Running on April 14"
  {
    assert Decimal.FromNat(14) == "14" by {
      assert Decimal.FromNat(1) == "1";
    }
  }

  predicate NoSpace(s: string) {
    forall i | 0 <= i < |s| :: s[i] != ' '
  }

  lemma MonthNamesDistinct(i: MonthIndex, j: MonthIndex)
    requires MonthNames[i] == MonthNames[j]
    ensures i == j
  {
  }

  lemma MonthNamesSpaceless(i: MonthIndex)
    ensures NoSpace(MonthNames[i])
  {
  }

  lemma NumeralSpaceless(n: nat)
    ensures NoSpace(Decimal.FromNat(n))
  {
    var s := Decimal.FromNat(n);
    forall i | 0 <= i < |s| ensures s[i] != ' ' {
      assert Decimal.IsDigit(s[i]);
    }
  }

  /** A word without spaces followed by a space is recovered as the text before the first space. */
  lemma {:induction false} SplitAtSpace(a1: string, b1: string, a2: string, b2: string)
    requires NoSpace(a1) && NoSpace(a2)
    requires a1 + " " + b1 == a2 + " " + b2
    ensures a1 == a2 && b1 == b2
  {
    var x, y := a1 + " " + b1, a2 + " " + b2;
    FirstSpace(a1, b1);
    FirstSpace(a2, b2);
    assert |a1| == |a2|;
    assert a1 == x[..|a1|] && a2 == y[..|a2|];
    assert b1 == x[|a1| + 1..] && b2 == y[|a2| + 1..];
  }

  lemma FirstSpace(a: string, b: string)
    requires NoSpace(a)
    ensures forall i | 0 <= i < |a| :: (a + " " + b)[i] != ' '
    ensures (a + " " + b)[|a|] == ' '
  {
  }

  /** A description splits into its title and its "<Month> <day>" part. */
  lemma DescriptionParts(t: Discipline, date: Date)
    ensures |Description(t, date)| > 11
    ensures Description(t, date)[..7] == Title(t)
    ensures Description(t, date)[11..] == MonthNames[date.month] + " " + Decimal.FromNat(date.day)
  {
    var rest := MonthNames[date.month] + " " + Decimal.FromNat(date.day);
    assert Description(t, date) == Title(t) + " on " + rest;
  }

  lemma TitleInjective(t1: Discipline, t2: Discipline)
    requires Title(t1) == Title(t2)
    ensures t1 == t2
  {
    TitleNames();
  }

  /** A description determines the discipline, month and day it was made from. */
  lemma DescriptionInjective(t1: Discipline, d1: Date, t2: Discipline, d2: Date)
    requires Description(t1, d1) == Description(t2, d2)
    ensures t1 == t2 && d1 == d2
  {
    DescriptionParts(t1, d1);
    DescriptionParts(t2, d2);
    TitleInjective(t1, t2);
    MonthNamesSpaceless(d1.month);
    MonthNamesSpaceless(d2.month);
    SplitAtSpace(MonthNames[d1.month], Decimal.FromNat(d1.day),
                 MonthNames[d2.month], Decimal.FromNat(d2.day));
    MonthNamesDistinct(d1.month, d2.month);
    Decimal.FromNatInjective(d1.day, d2.day);
  }

  // --------------------------------------------------------------------- id

  /**
    `String.prototype.slice(-k)`: the last `k` characters, or all of a
    shorter string. For `k = 0` the start `-0` converts to 0, so the whole
    string is returned.
   */
  function SliceFromEnd(s: string, k: nat): (r: string)
    ensures |r| <= |s| && r == s[|s| - |r|..]
    ensures k == 0 ==> r == s
    ensures 0 < k ==> |r| <= k && (|r| == k || r == s)
  {
    if k == 0 || |s| <= k then s else s[|s| - k..]
  }

  /** `(Date.now() + '').slice(-10)`. */
  function Id(now: nat): (id: string)
    ensures Decimal.AllDigits(id)
    ensures 1 <= |id| <= IdLength
    ensures Decimal.Pow10(IdLength - 1) <= now ==> |id| == IdLength
  {
    var s := Decimal.FromNat(now);
    Decimal.LongNumeral(now, IdLength - 1);
    Decimal.DigitsSuffix(s, |s| - |SliceFromEnd(s, IdLength)|);
    SliceFromEnd(s, IdLength)
  }

  /** The id spells the creation timestamp modulo 10^10. */
  lemma IdValue(now: nat)
    ensures Decimal.ToNat(Id(now)) == now % Decimal.Pow10(IdLength)
  {
    var s, p := Decimal.FromNat(now), Decimal.Pow10(IdLength);
    if |s| > IdLength {
      assert Id(now) == s[|s| - IdLength..];
      Decimal.SuffixValue(now, IdLength);
    } else {
      assert Id(now) == s;
      Decimal.ToNatFromNat(now);
      Decimal.NumeralBounds(now);
      Decimal.Pow10Monotonic(|s|, IdLength);
      Decimal.ModUnique(now, p, 0, now);
    }
  }

  /** Two records can share an id only if their timestamps agree modulo 10^10. */
  lemma IdCollisionNeedsCongruence(now1: nat, now2: nat)
    requires Id(now1) == Id(now2)
    ensures now1 % Decimal.Pow10(IdLength) == now2 % Decimal.Pow10(IdLength)
  {
    IdValue(now1);
    IdValue(now2);
  }

  /**
    Conversely, timestamps of at least ten digits that agree modulo 10^10
    (for instance two records created in the same millisecond) share an id.
   */
  lemma CongruentTimestampsCollide(now1: nat, now2: nat)
    requires Decimal.Pow10(IdLength - 1) <= now1 && Decimal.Pow10(IdLength - 1) <= now2
    requires now1 % Decimal.Pow10(IdLength) == now2 % Decimal.Pow10(IdLength)
    ensures Id(now1) == Id(now2)
  {
    IdValue(now1);
    IdValue(now2);
    Decimal.ToNatInjective(Id(now1), Id(now2));
  }

  // ------------------------------------------------------------ construction

  /** `new Running(coords, distance, duration, cadence)`. */
  function NewRunning(coords: Coords, distance: real, duration: real, cadence: real,
                      now: nat, date: Date): (w: Workout)
    requires distance > 0.0
    ensures w.Type() == Running && w.RunningWorkout?
    ensures w.coords == coords && w.distance == distance && w.duration == duration
    ensures w.cadence == cadence && w.date == date
    ensures w.pace * w.distance == w.duration
    ensures w.id == Id(now)
    ensures w.description == Description(w.Type(), w.date)
    ensures duration > 0.0 && cadence > 0.0 ==> WellFormed(w)
  {
    RunningWorkout(Id(now), date, coords, distance, duration,
                   Description(Running, date), cadence, Pace(distance, duration))
  }

  /** `new Cycling(coords, distance, duration, elevationGain)`. */
  function NewCycling(coords: Coords, distance: real, duration: real, elevationGain: real,
                      now: nat, date: Date): (w: Workout)
    requires duration > 0.0
    ensures w.Type() == Cycling && w.CyclingWorkout?
    ensures w.coords == coords && w.distance == distance && w.duration == duration
    ensures w.elevationGain == elevationGain && w.date == date
    ensures w.speed * w.duration == 60.0 * w.distance
    ensures w.id == Id(now)
    ensures w.description == Description(w.Type(), w.date)
    ensures distance > 0.0 ==> WellFormed(w)
  {
    var w := CyclingWorkout(Id(now), date, coords, distance, duration,
                            Description(Cycling, date), elevationGain, Speed(distance, duration));
    assert w.speed * w.duration == 60.0 * w.distance;
    w
  }

  /**
    What every record built from accepted form values satisfies: positive
    distance and duration, a positive cadence for a run, the derived metric
    consistent with them, the description of its own type and date, and an
    id of at most ten digits.
   */
  ghost function WellFormed(w: Workout): (ok: bool)
    ensures ok && w.RunningWorkout? ==> w.pace > 0.0
    ensures ok && w.CyclingWorkout? ==> w.speed > 0.0
  {
    && w.distance > 0.0 && w.duration > 0.0
    && w.description == Description(w.Type(), w.date)
    && Decimal.AllDigits(w.id) && 1 <= |w.id| <= IdLength
    && match w
       case RunningWorkout(_, _, _, _, _, _, cadence, pace) =>
         cadence > 0.0 && pace * w.distance == w.duration
       case CyclingWorkout(_, _, _, _, _, _, _, speed) =>
         speed * w.duration == 60.0 * w.distance
  }
}
