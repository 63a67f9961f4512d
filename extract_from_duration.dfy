// fn:years-from-duration … fn:minutes-from-duration (section 10.5 of XQuery
// 1.0 and XPath 2.0 Functions and Operators): one integer component of a
// duration, negative for a negative duration.

module ExtractFromDuration {
  import opened Base

  /** The duration types told apart: yearMonthDuration, dayTimeDuration and
    * plain duration. */
  datatype DurationType = YearMonth | DayTime | PlainDuration

  /** A duration: its type, its sign and its (non-negative) components. */
  datatype Duration = Duration(ty: DurationType, negative: bool,
                               years: nat, months: nat, days: nat, hours: nat, minutes: nat)

  /** The integer components; seconds are a double and not part of this model. */
  datatype Comp = Years | Months | Days | Hours | Minutes

  /** The component's magnitude, as the duration's getter returns it. */
  function Component(d: Duration, comp: Comp): nat
  {
    match comp
    case Years => d.years
    case Months => d.months
    case Days => d.days
    case Hours => d.hours
    case Minutes => d.minutes
  }

  /** Whether the duration's type has no such component, so that it is 0. */
  predicate Absent(d: Duration, comp: Comp)
  {
    match comp
    case Years => d.ty == DayTime
    case Months => d.ty == DayTime
    case _ => d.ty == YearMonth
  }

  /** execute: None (the empty sequence) without an argument; 0 for a
    * component the type does not have; otherwise the component, negated for
    * a negative duration. */
  function Extract(args: seq<Option<Duration>>, comp: Comp): (r: Option<int>)
    ensures r.None? <==> |args| == 0 || args[0].None?
    ensures r.Some? && Absent(args[0].value, comp) ==> r.value == 0
    ensures r.Some? && !Absent(args[0].value, comp) ==>
              (if args[0].value.negative then -r.value else r.value) == Component(args[0].value, comp)
  {
    if |args| == 0 || args[0].None? then None
    else
      var dur := args[0].value;
      if Absent(dur, comp) then Some(0)
      else
        var value := Component(dur, comp);
        if dur.negative then Some(value * -1) else Some(value)
  }

  /** Flipping the sign of a duration flips the sign of every component
    * extracted from it. */
  lemma ExtractNegation(d: Duration, comp: Comp)
    ensures Extract([Some(d.(negative := !d.negative))], comp).value == - Extract([Some(d)], comp).value
  {
  }

  /** Only the first argument is looked at. */
  lemma ExtractFirstArgument(args: seq<Option<Duration>>, comp: Comp)
    requires |args| >= 1
    ensures Extract(args, comp) == Extract([args[0]], comp)
  {
  }
}
