/**
 * `locator.rs`: the locations a user can give, how a text is read as one,
 * how a location is written back, and how a named place is resolved to
 * coordinates from the answer of the geocoder.
 */
module Locator {
  import opened Outcomes
  import opened Ascii
  import opened Numbers
  import opened PairPattern
  import opened DmsPattern

  // ---------------------------------------------------------------------------
  // Degrees, minutes and seconds

  /** `sexagesimal_to_decimal`: degrees, minutes and seconds as degrees; an absent minute or second counts as 0. */
  function Sexagesimal(degree: real, minutes: Option<real>, seconds: Option<real>): (v: real)
    ensures v * 3600.0 == degree * 3600.0 + minutes.UnwrapOr(0.0) * 60.0 + seconds.UnwrapOr(0.0)
    ensures minutes.None? && seconds.None? ==> v == degree
    ensures minutes.UnwrapOr(0.0) >= 0.0 && seconds.UnwrapOr(0.0) >= 0.0 ==> v >= degree
  {
    degree + minutes.UnwrapOr(0.0) / 60.0 + seconds.UnwrapOr(0.0) / 60.0 / 60.0
  }

  /** Sixty minutes make a degree and sixty seconds a minute. */
  lemma SexagesimalCarry(degree: real, minutes: real, seconds: real)
    ensures Sexagesimal(degree, Some(minutes + 60.0), Some(seconds)) == Sexagesimal(degree + 1.0, Some(minutes), Some(seconds))
    ensures Sexagesimal(degree, Some(minutes), Some(seconds + 60.0)) == Sexagesimal(degree, Some(minutes + 1.0), Some(seconds))
  {
    var a := Sexagesimal(degree, Some(minutes + 60.0), Some(seconds));
    var b := Sexagesimal(degree + 1.0, Some(minutes), Some(seconds));
    assert a * 3600.0 == b * 3600.0;
    var c := Sexagesimal(degree, Some(minutes), Some(seconds + 60.0));
    var d := Sexagesimal(degree, Some(minutes + 1.0), Some(seconds));
    assert c * 3600.0 == d * 3600.0;
  }

  // ---------------------------------------------------------------------------
  // Compass directions

  datatype CompassDirection = North | East | South | West

  /** The tokens `CompassDirection::from` accepts, upper-cased. */
  predicate IsCompassToken(token: string)
  {
    token in {"N", "NORTH", "E", "EAST", "S", "SOUTH", "W", "WEST"}
  }

  /**
   * `CompassDirection::from`: the direction a token names, in any case.  Any
   * other token is outside its domain (the source panics with
   * `unreachable!`), which is None here.
   */
  function CompassFrom(dir: string): (r: Option<CompassDirection>)
    ensures r.Some? <==> IsCompassToken(ToUpper(dir))
  {
    var token := ToUpper(dir);
    if token == "N" || token == "NORTH" then Some(North)
    else if token == "E" || token == "EAST" then Some(East)
    else if token == "S" || token == "SOUTH" then Some(South)
    else if token == "W" || token == "WEST" then Some(West)
    else None
  }

  /** Upper-casing twice is upper-casing once. */
  lemma ToUpperTwice(s: string)
    ensures ToUpper(ToUpper(s)) == ToUpper(s)
  {
    var u := ToUpper(s);
    forall i | 0 <= i < |u|
      ensures !IsLower(u[i])
    {
      assert u[i] == Upper(s[i]);
    }
    ToUpperIdentity(u);
  }

  /** `CompassDirection::from` does not depend on case. */
  lemma CompassCaseInsensitive(dir: string)
    ensures CompassFrom(dir) == CompassFrom(ToUpper(dir))
  {
    ToUpperTwice(dir);
  }

  /** The letters the degree/minute/second pattern captures name their directions. */
  lemma CompassLetters()
    ensures CompassFrom("N") == Some(North) && CompassFrom("S") == Some(South)
    ensures CompassFrom("E") == Some(East) && CompassFrom("W") == Some(West)
  {
    ToUpperIdentity("N");
    ToUpperIdentity("S");
    ToUpperIdentity("E");
    ToUpperIdentity("W");
  }

  /** Each direction has a one-letter and a spelled-out token, accepted in any case; other tokens have no direction. */
  lemma CompassTokens()
    ensures CompassFrom("n") == Some(North) && CompassFrom("North") == Some(North)
    ensures CompassFrom("e") == Some(East) && CompassFrom("east") == Some(East)
    ensures CompassFrom("s") == Some(South) && CompassFrom("SOUTH") == Some(South)
    ensures CompassFrom("w") == Some(West) && CompassFrom("West") == Some(West)
    ensures CompassFrom("X") == None && CompassFrom("") == None
  {
    assert ToUpper("n") == "N";
    assert ToUpper("North") == "NORTH";
    assert ToUpper("e") == "E";
    assert ToUpper("east") == "EAST";
    assert ToUpper("s") == "S";
    assert ToUpper("SOUTH") == "SOUTH";
    assert ToUpper("w") == "W";
    assert ToUpper("West") == "WEST";
    assert ToUpper("X") == "X";
    assert ToUpper("") == "";
  }

  // ---------------------------------------------------------------------------
  // Locations and their errors

  /** A point given by its longitude and latitude in degrees. */
  datatype CoordinateLocation = CoordinateLocation(long: real, lat: real)

  /** A place: coordinates, or a name for the geocoder. */
  datatype Location = Coordinates(coordinates: CoordinateLocation) | Named(name: string)

  /** `LocationError` */
  datatype LocationError =
    | Malformed
    | ParseFloatError
    | ReqwestError(failure: TransportFailure)
    | Unresolveable

  /** A hit of the geocoder, with its coordinates as texts. */
  datatype OsmLocation = OsmLocation(lat: string, lon: string)

  /** `str::parse::<f64>` and `?`: a text that is no float is a `ParseFloatError`. */
  function ParseCoordinate(s: string): Result<real, LocationError>
  {
    match ParseFloat(s)
    case Some(v) => Ok(v)
    case None => Err(ParseFloatError)
  }

  /** An optional captured group parsed as a float. */
  function ParseOptional(group: Option<string>): Result<Option<real>, LocationError>
  {
    match group
    case None => Ok(None)
    case Some(s) =>
      match ParseCoordinate(s)
      case Ok(v) => Ok(Some(v))
      case Err(e) => Err(e)
  }

  /** The value of a numeral of the location patterns. */
  function NumeralValue(s: string): (v: real)
    requires IsDecimalText(s)
    ensures ParseFloat(s) == Some(v)
  {
    DecimalTextParses(s);
    PartsValue(SignPart(s), WholePart(s), FracPart(s))
  }

  // ---------------------------------------------------------------------------
  // Reading a location

  /** The text the patterns are matched against: upper-cased, then trimmed. */
  function Normalize(raw: string): string
  {
    Trim(ToUpper(raw))
  }

  /** The decimal-pair branch: longitude parsed first, then latitude. */
  function PairLocation(c: PairCaptures): (r: Result<Location, LocationError>)
    ensures r.Ok? <==> c.long.Some? && c.lat.Some? && ParseFloat(c.long.value).Some? && ParseFloat(c.lat.value).Some?
    ensures r.Ok? ==>
      (r.value.Coordinates?
       && ParseFloat(c.long.value) == Some(r.value.coordinates.long)
       && ParseFloat(c.lat.value) == Some(r.value.coordinates.lat))
    ensures r.Err? ==> (r.error == Malformed <==> c.long.None? || c.lat.None?)
    ensures r.Err? ==> r.error == Malformed || r.error == ParseFloatError
  {
    if c.long.None? || c.lat.None? then Err(Malformed)
    else
      match ParseCoordinate(c.long.value)
      case Err(e) => Err(e)
      case Ok(long) =>
        match ParseCoordinate(c.lat.value)
        case Err(e) => Err(e)
        case Ok(lat) => Ok(Coordinates(CoordinateLocation(long, lat)))
  }

  /**
   * One axis of the degree/minute/second branch: +1 times its sexagesimal
   * value when its letter names `positive`, otherwise -1 times.  The letter
   * is read before the numbers are parsed, in degree, minute, second order.
   */
  function AxisValue(a: AxisCaptures, positive: CompassDirection): (r: Result<real, LocationError>)
    requires a.deg.Some? && CompassFrom(a.dir).Some?
    ensures r.Ok? <==> ParseCoordinate(a.deg.value).Ok? && ParseOptional(a.min).Ok? && ParseOptional(a.sec).Ok?
    ensures r.Err? ==> r.error == ParseFloatError
  {
    var sign := if CompassFrom(a.dir) == Some(positive) then 1.0 else -1.0;
    match ParseCoordinate(a.deg.value)
    case Err(e) => Err(e)
    case Ok(degree) =>
      match ParseOptional(a.min)
      case Err(e) => Err(e)
      case Ok(minutes) =>
        match ParseOptional(a.sec)
        case Err(e) => Err(e)
        case Ok(seconds) => Ok(sign * Sexagesimal(degree, minutes, seconds))
  }

  /** The degree/minute/second branch: latitude first, then longitude. */
  function DmsLocation(c: DmsCaptures): (r: Result<Location, LocationError>)
    requires CompassFrom(c.lat.dir).Some? && CompassFrom(c.long.dir).Some?
    ensures r.Ok? ==>
      (r.value.Coordinates? && c.lat.deg.Some? && c.long.deg.Some?
       && AxisValue(c.lat, North) == Ok(r.value.coordinates.lat)
       && AxisValue(c.long, East) == Ok(r.value.coordinates.long))
    ensures r.Err? ==> (r.error == Malformed <==> c.lat.deg.None? || c.long.deg.None?)
    ensures r.Err? ==> r.error == Malformed || r.error == ParseFloatError
  {
    if c.lat.deg.None? || c.long.deg.None? then Err(Malformed)
    else
      match AxisValue(c.lat, North)
      case Err(e) => Err(e)
      case Ok(lat) =>
        match AxisValue(c.long, East)
        case Err(e) => Err(e)
        case Ok(long) => Ok(Coordinates(CoordinateLocation(long, lat)))
  }

  /**
   * `Location::from_str`: the decimal pair first, then degrees, minutes and
   * seconds; a text that matches neither is a name, kept exactly as given.
   */
  function FromStr(raw: string): (r: Result<Location, LocationError>)
    ensures r.Ok? && r.value.Named? ==> r.value.name == raw
    ensures r.Err? ==> r.error == Malformed || r.error == ParseFloatError
  {
    var loc := Normalize(raw);
    match MatchDecimalPair(loc)
    case Some(c) => PairLocation(c)
    case None =>
      match MatchDms(loc)
      case Some(c) =>
        DmsValid(loc);
        CompassLetters();
        DmsLocation(c)
      case None => Ok(Named(raw))
  }

  // ---------------------------------------------------------------------------
  // Writing a location

  /** `Display` for `CoordinateLocation`: latitude, a comma, longitude. */
  function CoordinateText(c: CoordinateLocation): (r: string)
    ensures var lat, long := RealText(c.lat), RealText(c.long);
      |r| == |lat| + 1 + |long| && r[..|lat|] == lat && r[|lat|] == ',' && r[|lat| + 1..] == long
  {
    var lat, long := RealText(c.lat), RealText(c.long);
    CommaJoin(lat, long);
    lat + "," + long
  }

  /** Where the parts of a comma-joined text lie. */
  lemma CommaJoin(lat: string, long: string)
    ensures var r := lat + "," + long;
      |r| == |lat| + 1 + |long| && r[..|lat|] == lat && r[|lat|] == ',' && r[|lat| + 1..] == long
  {
  }

  /** `Display` for `Location`: a name as it is, coordinates as `CoordinateText`. */
  function LocationText(l: Location): (r: string)
    ensures l.Named? ==> r == l.name
    ensures l.Coordinates? ==> r == CoordinateText(l.coordinates)
  {
    match l
    case Named(name) => name
    case Coordinates(c) => CoordinateText(c)
  }

  // ---------------------------------------------------------------------------
  // Resolving a location

  /**
   * `resolve_to_coordinates`: coordinates are returned as they are; a name is
   * looked up with `geocode` (the decoded answer of the geocoder, or the
   * failure of the request) and the first hit is parsed, its longitude
   * first; no hit is `Unresolveable`.
   */
  function Resolve(l: Location, geocode: string -> Result<seq<OsmLocation>, TransportFailure>): (r: Result<CoordinateLocation, LocationError>)
    ensures l.Coordinates? ==> r == Ok(l.coordinates)
    ensures l.Named? && geocode(l.name).Err? ==> r == Err(ReqwestError(geocode(l.name).error))
    ensures l.Named? && geocode(l.name) == Ok([]) ==> r == Err(Unresolveable)
    ensures l.Named? && r.Ok? ==>
      geocode(l.name).Ok? && |geocode(l.name).value| > 0
      && ParseFloat(geocode(l.name).value[0].lon) == Some(r.value.long)
      && ParseFloat(geocode(l.name).value[0].lat) == Some(r.value.lat)
    ensures l.Named? && geocode(l.name).Ok? && |geocode(l.name).value| > 0 ==>
      (r.Ok? <==> ParseFloat(geocode(l.name).value[0].lon).Some? && ParseFloat(geocode(l.name).value[0].lat).Some?)
    ensures l.Named? && geocode(l.name).Ok? && |geocode(l.name).value| > 0 && r.Err? ==> r.error == ParseFloatError
    ensures r.Err? ==> r.error != Malformed
  {
    match l
    case Coordinates(c) => Ok(c)
    case Named(name) =>
      match geocode(name)
      case Err(failure) => Err(ReqwestError(failure))
      case Ok(hits) =>
        if |hits| == 0 then Err(Unresolveable)
        else
          match ParseCoordinate(hits[0].lon)
          case Err(e) => Err(e)
          case Ok(long) =>
            match ParseCoordinate(hits[0].lat)
            case Err(e) => Err(e)
            case Ok(lat) => Ok(CoordinateLocation(long, lat))
  }

  /** Only the first hit of the geocoder decides where a name lies. */
  lemma ResolveFirstHit(name: string, geocode: string -> Result<seq<OsmLocation>, TransportFailure>, other: string -> Result<seq<OsmLocation>, TransportFailure>)
    requires geocode(name).Ok? && other(name).Ok?
    requires |geocode(name).value| > 0 && |other(name).value| > 0
    requires geocode(name).value[0] == other(name).value[0]
    ensures Resolve(Named(name), geocode) == Resolve(Named(name), other)
  {
  }

  // ---------------------------------------------------------------------------
  // What a text is read as

  /** A numeral of the patterns parses to its value. */
  lemma NumeralCoordinate(s: string)
    requires IsDecimalText(s)
    ensures ParseCoordinate(s) == Ok(NumeralValue(s))
  {
  }

  /** The value of an unsigned numeral. */
  function UnsignedValue(u: string): (v: real)
    requires IsUnsignedText(u)
    ensures ParseFloat(u) == Some(v)
  {
    UnsignedIsDecimal(u);
    NumeralValue(u)
  }

  /** The value of an optional unsigned numeral. */
  function OptionalValue(o: Option<string>): (v: Option<real>)
    requires ValidOptional(o)
    ensures v.Some? <==> o.Some?
    ensures o.Some? ==> ParseFloat(o.value) == Some(v.value)
  {
    match o
    case None => None
    case Some(u) => Some(UnsignedValue(u))
  }

  /** The size in degrees of an axis of the degree/minute/second pattern. */
  function Degrees(a: AxisCaptures): real
    requires a.deg.Some? && IsUnsignedText(a.deg.value) && ValidOptional(a.min) && ValidOptional(a.sec)
  {
    Sexagesimal(UnsignedValue(a.deg.value), OptionalValue(a.min), OptionalValue(a.sec))
  }

  /** An optional unsigned numeral parses to its value. */
  lemma OptionalCoordinate(o: Option<string>)
    requires ValidOptional(o)
    ensures ParseOptional(o) == Ok(OptionalValue(o))
  {
  }

  /** The numbers of a valid axis all parse. */
  lemma AxisParses(a: AxisCaptures)
    requires a.deg.Some? && IsUnsignedText(a.deg.value) && ValidOptional(a.min) && ValidOptional(a.sec)
    ensures ParseCoordinate(a.deg.value) == Ok(UnsignedValue(a.deg.value))
    ensures ParseOptional(a.min) == Ok(OptionalValue(a.min))
    ensures ParseOptional(a.sec) == Ok(OptionalValue(a.sec))
  {
    OptionalCoordinate(a.min);
    OptionalCoordinate(a.sec);
  }

  /** An axis whose numbers parse has their sexagesimal value, signed by its letter. */
  lemma AxisValueOf(a: AxisCaptures, positive: CompassDirection, degree: real, minutes: Option<real>, seconds: Option<real>)
    requires a.deg.Some? && CompassFrom(a.dir).Some?
    requires ParseCoordinate(a.deg.value) == Ok(degree)
    requires ParseOptional(a.min) == Ok(minutes) && ParseOptional(a.sec) == Ok(seconds)
    ensures AxisValue(a, positive) == Ok((if CompassFrom(a.dir) == Some(positive) then 1.0 else -1.0) * Sexagesimal(degree, minutes, seconds))
  {
  }

  /** A valid axis has its sexagesimal value, signed by its letter. */
  lemma AxisBranch(a: AxisCaptures, positive: CompassDirection) returns (v: real)
    requires a.deg.Some? && IsUnsignedText(a.deg.value) && ValidOptional(a.min) && ValidOptional(a.sec)
    requires CompassFrom(a.dir).Some?
    ensures AxisValue(a, positive) == Ok(v)
    ensures v == if CompassFrom(a.dir) == Some(positive) then Degrees(a) else -Degrees(a)
  {
    AxisParses(a);
    var degree, minutes, seconds := UnsignedValue(a.deg.value), OptionalValue(a.min), OptionalValue(a.sec);
    AxisValueOf(a, positive, degree, minutes, seconds);
    v := (if CompassFrom(a.dir) == Some(positive) then 1.0 else -1.0) * Sexagesimal(degree, minutes, seconds);
    assert Degrees(a) == Sexagesimal(degree, minutes, seconds);
  }

  /** A text the decimal pair matches holds no degree sign. */
  lemma NoDegreeSign(s: string)
    requires MatchDecimalPair(s).Some?
    ensures forall k | 0 <= k < |s| :: s[k] != '°'
  {
    PairChars(s);
  }

  /** No text matches both patterns. */
  lemma PatternsExclusive(s: string)
    ensures MatchDecimalPair(s).None? || MatchDms(s).None?
  {
    if MatchDecimalPair(s).Some? {
      NoDegreeSign(s);
      if MatchDms(s).Some? {
        DegreeSign(s);
      }
    }
  }

  /** A text the decimal pair matches is read as the coordinates its numerals denote, the first being the latitude. */
  lemma PairBranch(raw: string)
    requires MatchDecimalPair(Normalize(raw)).Some?
    ensures var c := MatchDecimalPair(Normalize(raw)).value;
      c.lat.Some? && c.long.Some? && IsDecimalText(c.lat.value) && IsDecimalText(c.long.value)
      && FromStr(raw) == Ok(Coordinates(CoordinateLocation(NumeralValue(c.long.value), NumeralValue(c.lat.value))))
  {
    PairSound(Normalize(raw));
    var c := MatchDecimalPair(Normalize(raw)).value;
    PairRead(raw, c.lat.value, c.long.value);
  }

  /** A valid latitude is positive when north and negative when south. */
  lemma LatitudeValue(lat: AxisCaptures) returns (v: real)
    requires ValidLatitude(lat)
    ensures AxisValue(lat, North) == Ok(v)
    ensures v == if lat.dir == "N" then Degrees(lat) else -Degrees(lat)
  {
    CompassLetters();
    v := AxisBranch(lat, North);
  }

  /** A valid longitude is positive when east and negative when west. */
  lemma LongitudeValue(long: AxisCaptures) returns (v: real)
    requires ValidLongitude(long)
    ensures AxisValue(long, East) == Ok(v)
    ensures v == if long.dir == "E" then Degrees(long) else -Degrees(long)
  {
    CompassLetters();
    v := AxisBranch(long, East);
  }

  /** The degree/minute/second branch on axes whose values are known. */
  lemma DmsLocationOf(c: DmsCaptures, long: real, lat: real)
    requires c.lat.deg.Some? && c.long.deg.Some?
    requires CompassFrom(c.lat.dir).Some? && CompassFrom(c.long.dir).Some?
    requires AxisValue(c.lat, North) == Ok(lat) && AxisValue(c.long, East) == Ok(long)
    ensures DmsLocation(c) == Ok(Coordinates(CoordinateLocation(long, lat)))
  {
  }

  /** Valid captures of the degree/minute/second pattern give the signed values of their axes. */
  lemma DmsValue(c: DmsCaptures) returns (lat: real, long: real)
    requires ValidLatitude(c.lat) && ValidLongitude(c.long)
    requires CompassFrom(c.lat.dir).Some? && CompassFrom(c.long.dir).Some?
    ensures DmsLocation(c) == Ok(Coordinates(CoordinateLocation(long, lat)))
    ensures lat == if c.lat.dir == "N" then Degrees(c.lat) else -Degrees(c.lat)
    ensures long == if c.long.dir == "E" then Degrees(c.long) else -Degrees(c.long)
  {
    lat := LatitudeValue(c.lat);
    long := LongitudeValue(c.long);
    DmsLocationOf(c, long, lat);
  }

  /** A text only the degree/minute/second pattern matches is read by its branch. */
  lemma DmsRead(raw: string)
    requires MatchDecimalPair(Normalize(raw)).None? && MatchDms(Normalize(raw)).Some?
    ensures ValidLatitude(MatchDms(Normalize(raw)).value.lat) && ValidLongitude(MatchDms(Normalize(raw)).value.long)
    ensures CompassFrom(MatchDms(Normalize(raw)).value.lat.dir).Some? && CompassFrom(MatchDms(Normalize(raw)).value.long.dir).Some?
    ensures FromStr(raw) == DmsLocation(MatchDms(Normalize(raw)).value)
  {
    DmsValid(Normalize(raw));
    CompassLetters();
  }

  /**
   * A text the degree/minute/second pattern matches is read as its two axes,
   * the latitude positive when north and the longitude positive when east.
   */
  lemma DmsBranch(raw: string) returns (lat: real, long: real)
    requires MatchDms(Normalize(raw)).Some?
    ensures ValidLatitude(MatchDms(Normalize(raw)).value.lat) && ValidLongitude(MatchDms(Normalize(raw)).value.long)
    ensures FromStr(raw) == Ok(Coordinates(CoordinateLocation(long, lat)))
    ensures var c := MatchDms(Normalize(raw)).value;
      lat == if c.lat.dir == "N" then Degrees(c.lat) else -Degrees(c.lat)
    ensures var c := MatchDms(Normalize(raw)).value;
      long == if c.long.dir == "E" then Degrees(c.long) else -Degrees(c.long)
  {
    var loc := Normalize(raw);
    PatternsExclusive(loc);
    DmsRead(raw);
    var c := MatchDms(loc).value;
    lat, long := DmsValue(c);
    assert FromStr(raw) == DmsLocation(c);
  }

  /** A text is read as a name exactly when neither pattern matches it, and the name is the text as given. */
  lemma NamedBranch(raw: string)
    ensures FromStr(raw) == Ok(Named(raw)) <==> MatchDecimalPair(Normalize(raw)).None? && MatchDms(Normalize(raw)).None?
    ensures FromStr(raw).Ok? && FromStr(raw).value.Named? ==> FromStr(raw).value.name == raw
  {
    if MatchDecimalPair(Normalize(raw)).Some? {
      PairBranch(raw);
    } else if MatchDms(Normalize(raw)).Some? {
      var lat, long := DmsBranch(raw);
    }
  }

  /** Reading a location never fails: `Malformed` and `ParseFloatError` cannot come out of it. */
  lemma FromStrTotal(raw: string)
    ensures FromStr(raw).Ok?
  {
    if MatchDecimalPair(Normalize(raw)).Some? {
      PairBranch(raw);
    } else if MatchDms(Normalize(raw)).Some? {
      var lat, long := DmsBranch(raw);
    }
  }

  /** A decimal pair has no lower-case letter and no white space at its ends. */
  lemma NormalPair(t: string, lat: string, gap: string, long: string)
    requires IsDecimalText(lat) && IsSeparatorGap(gap) && IsDecimalText(long)
    requires t == lat + gap + long
    ensures forall i | 0 <= i < |t| :: !IsLower(t[i])
    ensures |t| > 0 && !IsSpace(t[0]) && !IsSpace(t[|t| - 1])
  {
    NumeralChars(lat);
    NumeralChars(long);
    GapChars(gap);
    forall i | 0 <= i < |t|
      ensures !IsLower(t[i])
    {
      if i < |lat| {
        assert t[i] == lat[i];
      } else if i < |lat| + |gap| {
        assert t[i] == gap[i - |lat|];
      } else {
        assert t[i] == long[i - |lat| - |gap|];
      }
    }
    assert t[0] == lat[0];
    assert t[|t| - 1] == long[|long| - 1];
  }

  /** A pair that is its own normal form is read by the decimal-pair branch with the captures it was written with. */
  lemma PairRead(raw: string, lat: string, long: string)
    requires IsDecimalText(lat) && IsDecimalText(long)
    requires MatchDecimalPair(Normalize(raw)) == Some(PairCaptures(Some(lat), Some(long)))
    ensures FromStr(raw) == Ok(Coordinates(CoordinateLocation(NumeralValue(long), NumeralValue(lat))))
  {
    NumeralCoordinate(lat);
    NumeralCoordinate(long);
  }

  /**
   * Two numerals with a separator gap, and white space around them, are read
   * as the latitude and the longitude they denote, unless the pair is the
   * ambiguous one (see `WrittenAmbiguousPair`).
   */
  lemma WrittenPair(w1: string, lat: string, gap: string, long: string, w2: string)
    requires AllSpaces(w1) && AllSpaces(w2)
    requires IsDecimalText(lat) && IsSeparatorGap(gap) && IsDecimalText(long)
    requires !IsAmbiguousPair(lat, gap, long)
    ensures FromStr(w1 + (lat + gap + long) + w2) == Ok(Coordinates(CoordinateLocation(NumeralValue(long), NumeralValue(lat))))
  {
    var t := lat + gap + long;
    NormalPair(t, lat, gap, long);
    NormalizePadded(w1, t, w2);
    PairComplete(lat, gap, long);
    PairRead(w1 + t + w2, lat, long);
  }

  /**
   * With a bare `.` between them, a latitude without a fraction and an
   * unsigned longitude with one are read differently: the latitude takes the
   * longitude's integer digits as its fraction.
   */
  lemma WrittenAmbiguousPair(lat: string, long: string)
    requires IsDecimalText(lat) && IsDecimalText(long) && IsAmbiguousPair(lat, ".", long)
    ensures IsDecimalText(lat + "." + WholePart(long)) && IsDecimalText(FracPart(long))
    ensures FromStr(lat + "." + long)
      == Ok(Coordinates(CoordinateLocation(NumeralValue(FracPart(long)), NumeralValue(lat + "." + WholePart(long)))))
  {
    var t := lat + "." + long;
    assert IsSeparatorGap(".");
    NormalPair(t, lat, ".", long);
    NormalizeBare(t);
    SplitLongitude(long);
    PairAmbiguousRead(lat, ".", long);
    PairRead(t, lat + "." + WholePart(long), FracPart(long));
  }

  // ---------------------------------------------------------------------------
  // Writing and reading back

  /** Coordinates written out are read back as the same coordinates. */
  lemma CoordinateRoundTrip(c: CoordinateLocation)
    requires IsShortDecimal(c.lat) && IsShortDecimal(c.long)
    ensures FromStr(CoordinateText(c)) == Ok(Coordinates(c))
  {
    var lat, long := RealText(c.lat), RealText(c.long);
    RealTextRoundTrip(c.lat);
    RealTextRoundTrip(c.long);
    CommaGap(",");
    BarePair(lat, ",", long);
    assert NumeralValue(long) == c.long && NumeralValue(lat) == c.lat;
    assert CoordinateLocation(NumeralValue(long), NumeralValue(lat)) == c;
  }

  /** A location written out is read back as itself: a name that matches no pattern, or short decimal coordinates. */
  lemma LocationRoundTrip(l: Location)
    requires l.Named? ==> MatchDecimalPair(Normalize(l.name)).None? && MatchDms(Normalize(l.name)).None?
    requires l.Coordinates? ==> IsShortDecimal(l.coordinates.lat) && IsShortDecimal(l.coordinates.long)
    ensures FromStr(LocationText(l)) == Ok(l)
  {
    match l
    case Named(name) => NamedBranch(name);
    case Coordinates(c) => CoordinateRoundTrip(c);
  }

  // ---------------------------------------------------------------------------
  // Worked texts
  //
  // The worked examples take the pieces of their texts as parameters fixed by
  // their preconditions (`requires lat == "52"`) rather than as literals in
  // the statement.  A literal such as `FromStr("52.5,13.4")` lets the verifier
  // unfold the scanners and the float parser character by character, which is
  // far more costly than reasoning about a text built from parts; small
  // lemmas such as `TwoDigits`, `PointGap`, `CommaGap` and `Regroup` state the
  // facts about those parts that the general lemmas need.

  /** A numeral built from its parts has the value of those parts. */
  lemma NumeralOf(sign: string, whole: string, frac: string)
    requires ValidParts(sign, whole, frac)
    ensures IsDecimalText(DecimalText(sign, whole, frac))
    ensures NumeralValue(DecimalText(sign, whole, frac)) == PartsValue(sign, whole, frac)
  {
    DecimalTextPartsOf(sign, whole, frac);
    ParseFloatDecimal(sign, whole, frac);
  }

  /** A run of digits is an unsigned numeral whose value is the integer the digits spell. */
  lemma IntegerNumeral(s: string)
    requires |s| > 0 && AllDigits(s)
    ensures IsUnsignedText(s) && IsDecimalText(s)
    ensures NumeralValue(s) == DigitsValue(s) as real && UnsignedValue(s) == DigitsValue(s) as real
  {
    NumeralOf("", s, "");
    UnsignedTextShape(s, "");
    assert DecimalText("", s, "") == s;
  }

  lemma TwoDigits(s: string)
    requires |s| == 2 && AllDigits(s)
    ensures DigitsValue(s) == 10 * DigitValue(s[0]) + DigitValue(s[1])
  {
    assert s[..1][..0] == [];
  }

  lemma PointGap()
    ensures IsSeparatorGap(".")
  {
    SpacesEndOf(".", 0, 0);
    SpacesEndOf(".", 1, 1);
  }

  /** A decimal pair with nothing around it is read as written, unless it is the ambiguous one. */
  lemma BarePair(lat: string, gap: string, long: string)
    requires IsDecimalText(lat) && IsSeparatorGap(gap) && IsDecimalText(long)
    requires !IsAmbiguousPair(lat, gap, long)
    ensures FromStr(lat + gap + long) == Ok(Coordinates(CoordinateLocation(NumeralValue(long), NumeralValue(lat))))
  {
    var t := lat + gap + long;
    NormalPair(t, lat, gap, long);
    NormalizeBare(t);
    PairComplete(lat, gap, long);
    PairRead(t, lat, long);
  }

  /** `52.13` is latitude 52 and longitude 13. */
  lemma ExampleWholePair(lat: string, long: string)
    requires lat == "52" && long == "13"
    ensures FromStr(lat + "." + long) == Ok(Coordinates(CoordinateLocation(13.0, 52.0)))
  {
    TwoDigits(lat);
    TwoDigits(long);
    IntegerNumeral(lat);
    IntegerNumeral(long);
    PointGap();
    BarePair(lat, ".", long);
  }

  /** A run of digits, a point and a run of digits is a numeral with a fraction, whose value is the decimal it spells. */
  lemma FractionNumeral(whole: string, frac: string)
    requires |whole| > 0 && AllDigits(whole) && |frac| > 0 && AllDigits(frac)
    ensures IsDecimalText(whole + "." + frac) && HasFraction(whole + "." + frac) && SignPart(whole + "." + frac) == ""
    ensures WholePart(whole + "." + frac) == whole && FracPart(whole + "." + frac) == frac
    ensures NumeralValue(whole + "." + frac) == DigitsValue(whole) as real + FracValue(frac)
  {
    NumeralOf("", whole, frac);
    DecimalTextShape("", whole, frac);
    DecimalTextPartsOf("", whole, frac);
    assert DecimalText("", whole, frac) == whole + "." + frac;
  }

  lemma Regroup(a: string, b: string, gap: string, c: string, d: string)
    ensures a + "." + b + gap + c + "." + d == (a + "." + b) + gap + (c + "." + d)
    ensures a + gap + c + "." + d == a + gap + (c + "." + d)
  {
  }

  /** The digit runs of the worked pairs and their values. */
  lemma WorkedDigits(a: string, b: string, c: string, d: string)
    requires a == "52" && b == "5" && c == "13" && d == "4"
    ensures AllDigits(a) && AllDigits(b) && AllDigits(c) && AllDigits(d)
    ensures DigitsValue(a) == 52 && DigitsValue(c) == 13 && DigitsValue(d) == 4
    ensures FracValue(b) == 0.5 && FracValue(c) == 0.13 && FracValue(d) == 0.4
  {
    TwoDigits(a);
    TwoDigits(c);
    assert c[1..][1..] == [];
  }

  /** `52.5.13.4` is latitude 52.5 and longitude 13.4. */
  lemma ExampleFractionPair(latWhole: string, latFrac: string, longWhole: string, longFrac: string)
    requires latWhole == "52" && latFrac == "5" && longWhole == "13" && longFrac == "4"
    ensures FromStr(latWhole + "." + latFrac + "." + longWhole + "." + longFrac) == Ok(Coordinates(CoordinateLocation(13.4, 52.5)))
  {
    WorkedDigits(latWhole, latFrac, longWhole, longFrac);
    FractionNumeral(latWhole, latFrac);
    FractionNumeral(longWhole, longFrac);
    PointGap();
    BarePair(latWhole + "." + latFrac, ".", longWhole + "." + longFrac);
    Regroup(latWhole, latFrac, ".", longWhole, longFrac);
  }

  lemma CommaGap(gap: string)
    requires gap == ","
    ensures IsSeparatorGap(gap)
  {
    SpacesEndOf(gap, 0, 0);
    SpacesEndOf(gap, 1, 1);
  }

  /** `52.5,13.4` is latitude 52.5 and longitude 13.4. */
  lemma ExampleCommaPair(latWhole: string, latFrac: string, comma: string, longWhole: string, longFrac: string)
    requires latWhole == "52" && latFrac == "5" && comma == "," && longWhole == "13" && longFrac == "4"
    ensures FromStr(latWhole + "." + latFrac + comma + longWhole + "." + longFrac) == Ok(Coordinates(CoordinateLocation(13.4, 52.5)))
  {
    WorkedDigits(latWhole, latFrac, longWhole, longFrac);
    FractionNumeral(latWhole, latFrac);
    FractionNumeral(longWhole, longFrac);
    CommaGap(comma);
    BarePair(latWhole + "." + latFrac, comma, longWhole + "." + longFrac);
    Regroup(latWhole, latFrac, comma, longWhole, longFrac);
  }

  /** `52.13.4` is latitude 52.13 and longitude 4: the latitude takes the digits after the first point. */
  lemma ExampleAmbiguousPair(lat: string, longWhole: string, longFrac: string)
    requires lat == "52" && longWhole == "13" && longFrac == "4"
    ensures FromStr(lat + "." + longWhole + "." + longFrac) == Ok(Coordinates(CoordinateLocation(4.0, 52.13)))
  {
    WorkedDigits(lat, "5", longWhole, longFrac);
    IntegerNumeral(lat);
    IntegerNumeral(longFrac);
    DecimalTextShape("", lat, "");
    assert DecimalText("", lat, "") == lat;
    FractionNumeral(longWhole, longFrac);
    WrittenAmbiguousPair(lat, longWhole + "." + longFrac);
    FractionNumeral(lat, longWhole);
    Regroup(lat, "", ".", longWhole, longFrac);
  }

  /** `s` holds no lower-case letter. */
  predicate NoLower(s: string)
  {
    forall i | 0 <= i < |s| :: !IsLower(s[i])
  }

  lemma NoLowerJoin(a: string, b: string)
    requires NoLower(a) && NoLower(b)
    ensures NoLower(a + b)
  {
    forall i | 0 <= i < |a + b|
      ensures !IsLower((a + b)[i])
    {
      if i < |a| {
        assert (a + b)[i] == a[i];
      } else {
        assert (a + b)[i] == b[i - |a|];
      }
    }
  }

  lemma MarkedNoLower(o: Option<string>, mark: char)
    requires ValidOptional(o) && !IsLower(mark)
    ensures NoLower(Marked(o, mark))
  {
    if o.Some? {
      UnsignedIsDecimal(o.value);
      NumeralChars(o.value);
      NoLowerJoin(o.value, [mark]);
    }
  }

  /** A text of the degree/minute/second pattern holds no lower-case letter, starts with a digit and ends with its letter. */
  lemma DmsNoLower(c: DmsCaptures, quote: bool, gap: string)
    requires ValidLatitude(c.lat) && ValidLongitude(c.long) && AllSpaces(gap)
    ensures NoLower(DmsText(c, quote, gap))
    ensures IsDigit(DmsText(c, quote, gap)[0]) && !IsSpace(DmsText(c, quote, gap)[|DmsText(c, quote, gap)| - 1])
  {
    var q := if quote then "\"" else "";
    MarkedNoLower(c.lat.deg, '°');
    MarkedNoLower(c.lat.min, '\'');
    MarkedNoLower(c.lat.sec, 'N');
    MarkedNoLower(c.long.deg, '°');
    MarkedNoLower(c.long.min, '\'');
    MarkedNoLower(c.long.sec, '"');
    assert NoLower(q) && NoLower(c.lat.dir) && NoLower(c.long.dir) && NoLower(gap);
    var lat := Marked(c.lat.deg, '°') + Marked(c.lat.min, '\'') + c.lat.sec.value + q + c.lat.dir;
    var long := Marked(c.long.deg, '°') + Marked(c.long.min, '\'') + Marked(c.long.sec, '"') + c.long.dir;
    UnsignedIsDecimal(c.lat.sec.value);
    NumeralChars(c.lat.sec.value);
    NoLowerJoin(Marked(c.lat.deg, '°'), Marked(c.lat.min, '\''));
    NoLowerJoin(Marked(c.lat.deg, '°') + Marked(c.lat.min, '\''), c.lat.sec.value);
    NoLowerJoin(Marked(c.lat.deg, '°') + Marked(c.lat.min, '\'') + c.lat.sec.value, q);
    NoLowerJoin(Marked(c.lat.deg, '°') + Marked(c.lat.min, '\'') + c.lat.sec.value + q, c.lat.dir);
    NoLowerJoin(Marked(c.long.deg, '°'), Marked(c.long.min, '\''));
    NoLowerJoin(Marked(c.long.deg, '°') + Marked(c.long.min, '\''), Marked(c.long.sec, '"'));
    NoLowerJoin(Marked(c.long.deg, '°') + Marked(c.long.min, '\'') + Marked(c.long.sec, '"'), c.long.dir);
    NoLowerJoin(lat, gap);
    NoLowerJoin(lat + gap, long);
    DmsTextJoin(c, quote, gap);
    UnsignedIsDecimal(c.lat.deg.value);
    NumeralStart(c.lat.deg.value);
  }

  /** The text of the degree/minute/second pattern as the joined groups. */
  lemma DmsTextJoin(c: DmsCaptures, quote: bool, gap: string)
    requires ValidLatitude(c.lat) && ValidLongitude(c.long)
    ensures DmsText(c, quote, gap)
      == Marked(c.lat.deg, '°') + Marked(c.lat.min, '\'') + c.lat.sec.value + (if quote then "\"" else "") + c.lat.dir + gap
         + (Marked(c.long.deg, '°') + Marked(c.long.min, '\'') + Marked(c.long.sec, '"') + c.long.dir)
    ensures DmsText(c, quote, gap)[0] == c.lat.deg.value[0]
    ensures DmsText(c, quote, gap)[|DmsText(c, quote, gap)| - 1] == c.long.dir[0]
  {
  }

  /**
   * A text of the degree/minute/second pattern, with white space around it, is
   * read as its two axes: the latitude positive when north, the longitude
   * positive when east.
   */
  lemma WrittenDms(w1: string, c: DmsCaptures, quote: bool, gap: string, w2: string) returns (lat: real, long: real)
    requires AllSpaces(w1) && AllSpaces(w2)
    requires ValidLatitude(c.lat) && ValidLongitude(c.long) && AllSpaces(gap)
    ensures FromStr(w1 + DmsText(c, quote, gap) + w2) == Ok(Coordinates(CoordinateLocation(long, lat)))
    ensures lat == if c.lat.dir == "N" then Degrees(c.lat) else -Degrees(c.lat)
    ensures long == if c.long.dir == "E" then Degrees(c.long) else -Degrees(c.long)
  {
    DmsNormal(w1, c, quote, gap, w2);
    lat, long := DmsBranch(w1 + DmsText(c, quote, gap) + w2);
  }

  /** A text of the degree/minute/second pattern with nothing around it (see `WrittenDms`). */
  lemma BareDms(c: DmsCaptures, quote: bool, gap: string) returns (lat: real, long: real)
    requires ValidLatitude(c.lat) && ValidLongitude(c.long) && AllSpaces(gap)
    ensures FromStr(DmsText(c, quote, gap)) == Ok(Coordinates(CoordinateLocation(long, lat)))
    ensures lat == if c.lat.dir == "N" then Degrees(c.lat) else -Degrees(c.lat)
    ensures long == if c.long.dir == "E" then Degrees(c.long) else -Degrees(c.long)
  {
    lat, long := WrittenDms("", c, quote, gap, "");
    EmptyPadding(DmsText(c, quote, gap));
  }

  /** Normalising a padded text of the degree/minute/second pattern gives the text, which the pattern reads back. */
  lemma DmsNormal(w1: string, c: DmsCaptures, quote: bool, gap: string, w2: string)
    requires AllSpaces(w1) && AllSpaces(w2)
    requires ValidLatitude(c.lat) && ValidLongitude(c.long) && AllSpaces(gap)
    ensures MatchDms(Normalize(w1 + DmsText(c, quote, gap) + w2)) == Some(c)
  {
    var t := DmsText(c, quote, gap);
    DmsNoLower(c, quote, gap);
    NormalizePadded(w1, t, w2);
    DmsComplete(c, quote, gap);
  }

  lemma DmsWorkedText(a: string, b: string, c: string, d: string, e: string)
    ensures a + "°" + b + "'" + c + "\"N " + d + "°" + e + "'E"
      == (a + "°" + Marked(Some(b), '\'') + c + "\"" + "N") + " " + (d + "°" + Marked(Some(e), '\'') + Marked(None, '"') + "E")
    ensures a + "°" + c + "S " + d + "°W"
      == (a + "°" + Marked(None, '\'') + c + "" + "S") + " " + (d + "°" + Marked(None, '\'') + Marked(None, '"') + "W")
  {
  }

  /** The worked numerals of the degree/minute/second latitude and their values. */
  lemma LatitudeAngles(a: string, b: string, c: string)
    requires a == "52" && b == "30" && c == "36"
    ensures IsUnsignedText(a) && IsUnsignedText(b) && IsUnsignedText(c)
    ensures UnsignedValue(a) == 52.0 && UnsignedValue(b) == 30.0 && UnsignedValue(c) == 36.0
  {
    TwoDigitNumeral(a);
    TwoDigitNumeral(b);
    TwoDigitNumeral(c);
  }

  /** The worked numerals of the degree/minute/second longitude and their values. */
  lemma LongitudeAngles(d: string, e: string)
    requires d == "13" && e == "24"
    ensures IsUnsignedText(d) && IsUnsignedText(e)
    ensures UnsignedValue(d) == 13.0 && UnsignedValue(e) == 24.0
  {
    TwoDigitNumeral(d);
    TwoDigitNumeral(e);
  }

  lemma TwoDigitNumeral(s: string)
    requires |s| == 2 && AllDigits(s)
    ensures IsUnsignedText(s) && UnsignedValue(s) == (10 * DigitValue(s[0]) + DigitValue(s[1])) as real
  {
    TwoDigits(s);
    IntegerNumeral(s);
  }

  /** `52°30'36"N 13°24'E` is latitude 52.51 and longitude 13.4. */
  lemma ExampleDms(latDeg: string, latMin: string, latSec: string, longDeg: string, longMin: string)
    requires latDeg == "52" && latMin == "30" && latSec == "36" && longDeg == "13" && longMin == "24"
    ensures FromStr(latDeg + "°" + latMin + "'" + latSec + "\"N " + longDeg + "°" + longMin + "'E")
      == Ok(Coordinates(CoordinateLocation(13.4, 52.51)))
  {
    LatitudeAngles(latDeg, latMin, latSec);
    LongitudeAngles(longDeg, longMin);
    var c := DmsCaptures(AxisCaptures(Some(latDeg), Some(latMin), Some(latSec), "N"), AxisCaptures(Some(longDeg), Some(longMin), None, "E"));
    DmsWorkedText(latDeg, latMin, latSec, longDeg, longMin);
    var lat, long := BareDms(c, true, " ");
  }

  /** The worked numerals of the southern and western text and their values. */
  lemma SouthWestAngles(a: string, b: string, c: string)
    requires a == "52" && b == "0" && c == "13"
    ensures IsUnsignedText(a) && IsUnsignedText(b) && IsUnsignedText(c)
    ensures UnsignedValue(a) == 52.0 && UnsignedValue(b) == 0.0 && UnsignedValue(c) == 13.0
  {
    TwoDigitNumeral(a);
    TwoDigitNumeral(c);
    IntegerNumeral(b);
  }

  /** The captures of a text of degrees and seconds south, then degrees west. */
  function SouthWestCaptures(latDeg: string, latSec: string, longDeg: string): (c: DmsCaptures)
    requires IsUnsignedText(latDeg) && IsUnsignedText(latSec) && IsUnsignedText(longDeg)
    ensures ValidLatitude(c.lat) && ValidLongitude(c.long)
    ensures DmsText(c, false, " ") == latDeg + "°" + latSec + "S " + longDeg + "°W"
    ensures Degrees(c.lat) == UnsignedValue(latDeg) + UnsignedValue(latSec) / 3600.0
    ensures Degrees(c.long) == UnsignedValue(longDeg)
    ensures c.lat.dir != "N" && c.long.dir != "E"
  {
    DmsWorkedText(latDeg, "", latSec, longDeg, "");
    assert "S"[0] != "N"[0] && "W"[0] != "E"[0];
    DmsCaptures(AxisCaptures(Some(latDeg), None, Some(latSec), "S"), AxisCaptures(Some(longDeg), None, None, "W"))
  }

  /** Degrees and seconds south, then degrees west, give a negative latitude and a negative longitude. */
  lemma SouthWestText(latDeg: string, latSec: string, longDeg: string, text: string) returns (lat: real, long: real)
    requires IsUnsignedText(latDeg) && IsUnsignedText(latSec) && IsUnsignedText(longDeg)
    requires text == latDeg + "°" + latSec + "S " + longDeg + "°W"
    ensures FromStr(text) == Ok(Coordinates(CoordinateLocation(long, lat)))
    ensures lat == -(UnsignedValue(latDeg) + UnsignedValue(latSec) / 3600.0)
    ensures long == -UnsignedValue(longDeg)
  {
    var c := SouthWestCaptures(latDeg, latSec, longDeg);
    lat, long := BareDms(c, false, " ");
  }

  /** `52°0S 13°W` is latitude -52 and longitude -13: south and west count negative. */
  lemma ExampleDmsSouthWest(latDeg: string, latSec: string, longDeg: string) returns (lat: real, long: real)
    requires latDeg == "52" && latSec == "0" && longDeg == "13"
    ensures FromStr(latDeg + "°" + latSec + "S " + longDeg + "°W") == Ok(Coordinates(CoordinateLocation(long, lat)))
    ensures lat == -52.0 && long == -13.0
  {
    SouthWestAngles(latDeg, latSec, longDeg);
    lat, long := SouthWestText(latDeg, latSec, longDeg, latDeg + "°" + latSec + "S " + longDeg + "°W");
  }

  /** A text with no upper-case-sensitive letter and no white space at its ends is its own normal form. */
  lemma WorkedNormal(s: string)
    requires s == "52°30'N 13°24'E" || s == "52°S 13°W"
    ensures Normalize(s) == s
  {
    assert NoLower(s);
    NormalizeBare(s);
  }

  /** Neither pattern matches the worked texts without seconds. */
  lemma WorkedUnmatched(s: string)
    requires s == "52°30'N 13°24'E" || s == "52°S 13°W"
    ensures MatchLatitude(s).None? && MatchDecimalPair(s).None?
  {
    DigitsEndOf(s, 0, 2);
    SpacesEndOf(s, 2, 2);
    if s == "52°30'N 13°24'E" {
      DigitsEndOf(s, 3, 5);
      DigitsEndOf(s, 6, 6);
    } else {
      DigitsEndOf(s, 3, 3);
    }
  }

  /**
   * `52°30'N 13°24'E`, degrees and minutes without seconds, is not read as
   * coordinates: the pattern demands the latitude's seconds, so the text is a
   * name.
   */
  lemma ExampleMinutesOnly(raw: string)
    requires raw == "52°30'N 13°24'E"
    ensures FromStr(raw) == Ok(Named(raw))
  {
    WorkedNormal(raw);
    WorkedUnmatched(raw);
    NamedBranch(raw);
  }

  /** `52°S 13°W`, degrees alone, is not read as coordinates either: it is a name. */
  lemma ExampleDegreesOnly(raw: string)
    requires raw == "52°S 13°W"
    ensures FromStr(raw) == Ok(Named(raw))
  {
    WorkedNormal(raw);
    WorkedUnmatched(raw);
    NamedBranch(raw);
  }
}
