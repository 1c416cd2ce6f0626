/**
 * The time units of `java.time.temporal.ChronoUnit` and the enum's
 * `valueOf(String)`, which resolves a unit from its exact declared name.
 */
module ChronoUnits {
  import opened Wrappers

  /** The sixteen constants of `ChronoUnit`, in declaration order. */
  datatype ChronoUnit =
    | Nanos | Micros | Millis | Seconds | Minutes | Hours | HalfDays | Days
    | Weeks | Months | Years | Decades | Centuries | Millennia | Eras | Forever

  /** The constant's declared name, as `name()` returns it. */
  function Name(u: ChronoUnit): string
  {
    match u
    case Nanos => "NANOS"
    case Micros => "MICROS"
    case Millis => "MILLIS"
    case Seconds => "SECONDS"
    case Minutes => "MINUTES"
    case Hours => "HOURS"
    case HalfDays => "HALF_DAYS"
    case Days => "DAYS"
    case Weeks => "WEEKS"
    case Months => "MONTHS"
    case Years => "YEARS"
    case Decades => "DECADES"
    case Centuries => "CENTURIES"
    case Millennia => "MILLENNIA"
    case Eras => "ERAS"
    case Forever => "FOREVER"
  }

  /** `ChronoUnit.values()`: every constant, in declaration order. */
  const Values: seq<ChronoUnit> :=
    [Nanos, Micros, Millis, Seconds, Minutes, Hours, HalfDays, Days,
     Weeks, Months, Years, Decades, Centuries, Millennia, Eras, Forever]

  lemma ValuesListsEveryUnit(u: ChronoUnit)
    ensures u in Values
  {
  }

  /** Distinct constants have distinct names. */
  lemma NameInjective(u: ChronoUnit, v: ChronoUnit)
    requires Name(u) == Name(v)
    ensures u == v
  {
  }

  /** The first unit of `units` whose name is exactly `s`. */
  function Find(s: string, units: seq<ChronoUnit>): (r: Option<ChronoUnit>)
    ensures r.Some? ==> r.value in units && Name(r.value) == s
    ensures r.None? ==> forall u :: u in units ==> Name(u) != s
    decreases |units|
  {
    if |units| == 0 then None
    else if Name(units[0]) == s then Some(units[0])
    else Find(s, units[1..])
  }

  /**
   * `ChronoUnit.valueOf(s)`: the constant whose name equals `s`, compared
   * case-sensitively and without trimming. `None` models the
   * IllegalArgumentException thrown for any other string.
   */
  function ValueOf(s: string): (r: Option<ChronoUnit>)
    ensures r.Some? ==> Name(r.value) == s
    ensures r.None? ==> forall u: ChronoUnit :: Name(u) != s
  {
    var r := Find(s, Values);
    assert r.None? ==> forall u: ChronoUnit :: Name(u) != s by {
      forall u: ChronoUnit ensures r.None? ==> Name(u) != s {
        ValuesListsEveryUnit(u);
      }
    }
    r
  }

  /** Round trip: every unit is found again from its own name. */
  lemma ValueOfName(u: ChronoUnit)
    ensures ValueOf(Name(u)) == Some(u)
  {
    var r := ValueOf(Name(u));
    assert r.Some?;
    NameInjective(r.value, u);
  }

  /** `ValueOf` succeeds on exactly the declared names. */
  lemma ValueOfAcceptsExactlyNames(s: string)
    ensures ValueOf(s).Some? <==> exists u: ChronoUnit :: Name(u) == s
  {
  }
}
