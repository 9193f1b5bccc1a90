/**
 * The two command-line validators of the exporter: the update interval,
 * which the Tankerkönig terms of use bound below by five minutes, and the
 * search radius, which the Tankerkönig API bounds by 25 km.  Each reads its
 * argument text and returns the value or the message shown to the user.
 */
module Cli {
  import opened Outcomes
  import opened Ascii
  import opened Numbers

  /** The shortest update interval, in seconds, the terms of use allow. */
  const MinUpdateSeconds: nat := 5 * 60

  /** The largest search radius, in kilometres, the API accepts. */
  const MaxRadius: real := 25.0

  /** The defaults of the two options. */
  const DefaultUpdateSeconds: nat := 300
  const DefaultRadius: real := 2.0

  const NotAnInteger: string := "Your update time is not a valid (unsigned) integer!"
  const NotAFloat: string := "The radius is not a valid floating point number!"

  function ShortCycle(t: nat): string
  {
    "Your update cycle " + NatText(t)
    + " is shorter than five minutes. You have to use at least five minutes (300s) to comply with the Tankerkönig API Terms."
  }

  function NegativeRadius(r: real): string
  {
    "The provided radius " + RealText(r) + " is less than 0!"
  }

  function LargeRadius(r: real): string
  {
    "The provided radius " + RealText(r)
    + " is larger than 25km, which is not allowed by the Tankerkönig API. Please choose a radius <= 25."
  }

  /**
   * The update interval: an unsigned 64-bit integer of at least five minutes.
   * An accepted interval is the number the text denotes.
   */
  function ValidateUpdateTime(time: string): (r: Result<nat, string>)
    ensures r.Ok? <==> ParseU64(time).Some? && ParseU64(time).value >= MinUpdateSeconds
    ensures r.Ok? ==> ParseU64(time) == Some(r.value) && r.value <= U64Max
  {
    match ParseU64(time)
    case Some(t) => if t >= MinUpdateSeconds then Ok(t) else Err(ShortCycle(t))
    case None => Err(NotAnInteger)
  }

  /**
   * The search radius: a number from 0 to 25 km, both included.  Negative
   * radii and radii above 25 km each have their own message.
   */
  function ValidateRadius(radius: string): (r: Result<real, string>)
    ensures r.Ok? <==> ParseFloat(radius).Some? && 0.0 <= ParseFloat(radius).value <= MaxRadius
    ensures r.Ok? ==> ParseFloat(radius) == Some(r.value)
  {
    match ParseFloat(radius)
    case None => Err(NotAFloat)
    case Some(r) =>
      if r < 0.0 then Err(NegativeRadius(r))
      else if r <= MaxRadius then Ok(r)
      else Err(LargeRadius(r))
  }

  /**
   * The decimal text of any number is read back as that number: accepted from
   * five minutes up to `u64::MAX`, refused as too short below five minutes,
   * and refused as no integer above `u64::MAX`.
   */
  lemma UpdateTimeOfText(n: nat)
    ensures ValidateUpdateTime(NatText(n))
      == if n > U64Max then Err(NotAnInteger) else if n < MinUpdateSeconds then Err(ShortCycle(n)) else Ok(n)
  {
    ParseU64NatText(n);
  }

  /** A leading `+` does not change how an update interval is read. */
  lemma UpdateTimePlusSign(n: nat)
    ensures ValidateUpdateTime("+" + NatText(n)) == ValidateUpdateTime(NatText(n))
  {
    ParseU64PlusSign(NatText(n));
  }

  /**
   * 299 seconds is refused with the interval in the message; 300 seconds, the
   * default, is accepted.  The two numbers are parameters fixed by the
   * precondition, which keeps the verifier from unfolding the texts' parser
   * on literals.
   */
  lemma UpdateTimeThreshold(short: nat, default: nat)
    requires short == MinUpdateSeconds - 1 && default == DefaultUpdateSeconds
    ensures ValidateUpdateTime(NatText(short)) == Err(ShortCycle(short))
    ensures ValidateUpdateTime(NatText(default)) == Ok(default)
  {
    UpdateTimeOfText(short);
    UpdateTimeOfText(default);
  }

  /**
   * The text `Display` writes for a number is validated as that number:
   * accepted from 0 to 25 included, refused with its own message outside.
   */
  lemma RadiusOfText(x: real)
    requires IsShortDecimal(x)
    ensures ValidateRadius(RealText(x))
      == if x < 0.0 then Err(NegativeRadius(x)) else if x <= MaxRadius then Ok(x) else Err(LargeRadius(x))
  {
    RealTextRoundTrip(x);
  }

  /** The default radius of 2 km and both ends of the allowed range are accepted. */
  lemma RadiusBounds()
    ensures ValidateRadius(RealText(DefaultRadius)) == Ok(2.0)
    ensures ValidateRadius(RealText(0.0)) == Ok(0.0)
    ensures ValidateRadius(RealText(MaxRadius)) == Ok(25.0)
  {
    ShortDecimalIntro(DefaultRadius, 0);
    ShortDecimalIntro(0.0, 0);
    ShortDecimalIntro(MaxRadius, 0);
    RadiusOfText(DefaultRadius);
    RadiusOfText(0.0);
    RadiusOfText(MaxRadius);
  }

  /** Any number just outside the range is refused: the bounds are sharp. */
  lemma RadiusOutside(x: real)
    requires IsShortDecimal(x) && (x < 0.0 || x > MaxRadius)
    ensures ValidateRadius(RealText(x)).Err?
  {
    RadiusOfText(x);
  }
}
