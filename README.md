# tanker_price: locations, argument checks and price responses in Dafny

`tanker_price` is a Prometheus exporter for fuel prices from the Tankerkönig
API. Its one piece of real logic is its location handling. A location text
becomes one of three things:
- a decimal latitude/longitude pair (`52.5,13.4`);
- a degree/minute/second pair (`52°30'36"N 13°24'E`);
- a free-text place name, which a geocoder resolves to coordinates later.

This project models that logic as pure Dafny functions and proves properties
of it. It also models:
- the two validators of the command-line arguments, update interval and radius;
- the conversion of the Tankerkönig API's station records;
- the rule that decides whether an API response is a list of stations or an
  API error.

Modules, one per concern:

| module | file | models |
|---|---|---|
| `Outcomes` | `outcomes.dfy` | Rust's `Option`/`Result`, and the HTTP client's failure as an opaque value |
| `Ascii` | `ascii.dfy` | `to_uppercase`, `trim`, and digit and white-space runs |
| `Numbers` | `numbers.dfy` | `str::parse::<u64>`, `str::parse::<f64>`, and `Display` for `u64` and `f64` |
| `PairPattern` | `pairs.dfy` | the decimal-pair regular expression, as a greedy, leftmost-first scanner |
| `DmsPattern` | `dms.dfy` | the degree/minute/second regular expression, as a scanner |
| `Locator` | `locator.dfy` | `sexagesimal_to_decimal`, `CompassDirection`, `LocationError`, `Location::from_str`, both `Display` impls, `resolve_to_coordinates` |
| `Cli` | `cli.dfy` | `arg_validate_update_time`, `arg_validate_radius` |
| `Tankerkoenig` | `tankerkoenig.dfy` | fuel types, `From<TankerAPIStation>`, the result of `load_prices` |

Numbers are exact `real`s. A parser returns the exact value its decimal text
denotes. `Display` of a float writes the exact decimal expansion, with the
fewest digits.

The geocoder's answer and the Tankerkönig API's answer are parameters. Each is
an already-decoded value, or a transport failure.

**What the code decides.** The degree/minute/second expression at
src/locator.rs:172 is taken exactly as written:
- The latitude's seconds group is not optional. Its quote mark is optional.
- The longitude's seconds group is optional, but only together with its `"`.

So a latitude needs a number after the degrees or after the minutes, and
`52°30'N 13°24'E` or `52°S 13°W` are read as place names, not as coordinates.
One might expect minutes and seconds to be optional independently on both
axes, which would make these two texts coordinates; the expression at
src/locator.rs:172 does not allow that, and the model follows it:
`Locator.ExampleMinutesOnly` and `Locator.ExampleDegreesOnly` prove that both
texts come back as `Named`.

`52°0S 13°W` shows the intended reading. It is latitude -52 and longitude -13
(`Locator.ExampleDmsSouthWest`).

**Other points about the code:**
- A `.` serves as both decimal point and separator, so `52.13.4` is latitude
  52.13 and longitude 4. `Locator.WrittenAmbiguousPair` characterises exactly
  when this happens.
- The two regular expressions never both match.
- On ASCII text, neither branch of `from_str` can produce `Malformed` or
  `ParseFloatError`, so `from_str` always succeeds (`Locator.FromStrTotal`).
  With non-ASCII digits the program can return `ParseFloatError`; see the
  Unicode entry under "Left out".

## Model

| member | source | states |
|---|---|---|
| `Locator.Sexagesimal` | src/locator.rs:10-13 | the value times 3600 is degrees·3600 + minutes·60 + seconds, with missing parts counting 0; with neither part it is the degrees; with non-negative parts it is at least the degrees |
| `Locator.SexagesimalCarry` | src/locator.rs:11-12 | 60 minutes carry into one degree and 60 seconds into one minute |
| `Locator.CompassFrom` | src/locator.rs:37-47 | a direction comes out exactly when the upper-cased token is one of N, NORTH, E, EAST, S, SOUTH, W, WEST (the `unreachable!` arm is `None`) |
| `Locator.CompassCaseInsensitive` | src/locator.rs:39 | a token and its upper-cased form give the same direction |
| `Locator.ToUpperTwice` | src/locator.rs:39 | upper-casing twice is upper-casing once |
| `Locator.CompassLetters` | src/locator.rs:40-43 | the letters N, S, E, W map to North, South, East, West |
| `Locator.CompassTokens` | src/locator.rs:39-44 | lower, mixed and upper case letters and words map to their directions; `X` and the empty token map to none |
| `Locator.NumeralValue` | src/locator.rs:166-167 | a numeral of the patterns parses, as `f64::from_str` does, to the value returned |
| `Locator.PairLocation` | src/locator.rs:159-169 | the decimal-pair branch succeeds exactly when both groups are captured and parse, with the longitude from `long` and the latitude from `lat`; a missing group is `Malformed`, a numeral that does not parse `ParseFloatError` |
| `Locator.AxisValue` | src/locator.rs:187-220 | one axis succeeds exactly when its degrees, and its minutes and seconds where captured, parse; otherwise the error is `ParseFloatError`. `Locator.AxisValueOf` and `Locator.AxisBranch` give its value |
| `Locator.DmsLocation` | src/locator.rs:175-224 | the degree/minute/second branch puts the latitude axis (signed by North) and the longitude axis (signed by East) into their fields; a missing degree group is `Malformed`, a numeral that does not parse `ParseFloatError` |
| `Locator.FromStr` | src/locator.rs:149-227 | `from_str` never fails with a network error, only `Malformed` or `ParseFloatError`, and a name it returns is the text as given. Its branches are characterised by `Locator.PairBranch`, `Locator.DmsBranch`, `Locator.NamedBranch` and `Locator.FromStrTotal` |
| `Locator.Resolve` | src/locator.rs:115-137 | coordinates are returned unchanged; a transport failure is `ReqwestError`; no hit is `Unresolveable`; a resolved name has the first hit's parsed `lon` and `lat`; with hits, success exactly when both parse, and `ParseFloatError` otherwise; never `Malformed` |
| `Locator.ResolveFirstHit` | src/locator.rs:127-131 | two geocoder answers whose first hits agree resolve a name alike: later hits are ignored |
| `Locator.AxisBranch` | src/locator.rs:187-220 | an axis of valid captures has the sexagesimal value of its numbers, times 1 when its letter names the positive direction and -1 otherwise |
| `Locator.LatitudeValue` | src/locator.rs:187-203 | a valid latitude is positive when its letter is N and negative when it is S |
| `Locator.LongitudeValue` | src/locator.rs:204-220 | a valid longitude is positive when its letter is E and negative when it is W |
| `Locator.DmsValue` | src/locator.rs:185-221 | valid degree/minute/second captures give the coordinates of their two signed axes |
| `Locator.PatternsExclusive` | src/locator.rs:155-172 | no text matches both patterns: a decimal pair holds no degree sign |
| `Locator.NoDegreeSign` | src/locator.rs:156 | a text the decimal pair matches holds no `°` |
| `Locator.PairBranch` | src/locator.rs:152-169 | when the normalised text is a decimal pair, both captures are numerals and the location is their values, longitude parsed from the second |
| `Locator.DmsBranch` | src/locator.rs:152-221 | when the normalised text matches the degree/minute/second pattern, the location is the two signed sexagesimal values |
| `Locator.DmsRead` | src/locator.rs:172-185 | a text that only the degree/minute/second pattern matches is read by that branch, whose letters are valid compass tokens |
| `Locator.NamedBranch` | src/locator.rs:226 | a text is read as `Named` exactly when neither pattern matches its normal form, and the name is the text as given |
| `Locator.FromStrTotal` | src/locator.rs:149-227 | reading a location never fails |
| `Locator.WrittenPair` | src/locator.rs:152-168 | two numerals with a separator gap, and white space around them, are read as the latitude and longitude they denote, unless the pair is the ambiguous one |
| `Locator.BarePair` | src/locator.rs:155-168 | the same for a pair with nothing around it |
| `Locator.WrittenAmbiguousPair` | src/locator.rs:156 | with a bare `.` between a latitude without a fraction and an unsigned longitude with one, the latitude takes the longitude's integer digits as its fraction |
| `Locator.WrittenDms` | src/locator.rs:172-221 | a degree/minute/second text with white space around it is read as its two axes, latitude positive when north and longitude positive when east |
| `Locator.BareDms` | src/locator.rs:172-221 | the same for a degree/minute/second text with nothing around it |
| `Locator.CoordinateText` | src/locator.rs:93-97 | `Display` for coordinates writes the latitude, a comma, then the longitude; `Locator.CoordinateRoundTrip` reads that text back |
| `Locator.LocationText` | src/locator.rs:140-147 | `Display` for a location writes a name verbatim and coordinates as `Locator.CoordinateText`; `Locator.LocationRoundTrip` reads that text back |
| `Locator.CoordinateRoundTrip` | src/locator.rs:93-97 | reading the text `Display` writes for coordinates gives back the same coordinates |
| `Locator.LocationRoundTrip` | src/locator.rs:140-147 | reading the `Display` text of a location gives back the same location (a name that matches neither pattern, or coordinates) |
| `Locator.ExampleWholePair` | src/locator.rs:156 | `52.13` is latitude 52 and longitude 13 |
| `Locator.ExampleFractionPair` | src/locator.rs:156 | `52.5.13.4` is latitude 52.5 and longitude 13.4 |
| `Locator.ExampleCommaPair` | src/locator.rs:156 | `52.5,13.4` is latitude 52.5 and longitude 13.4 |
| `Locator.ExampleAmbiguousPair` | src/locator.rs:156 | `52.13.4` is latitude 52.13 and longitude 4 |
| `Locator.ExampleDms` | src/locator.rs:172-221 | `52°30'36"N 13°24'E` is latitude 52.51 and longitude 13.4 |
| `Locator.SouthWestText` | src/locator.rs:172-221 | degrees and seconds south, then degrees west, give a negative latitude and a negative longitude |
| `Locator.ExampleDmsSouthWest` | src/locator.rs:172-221 | `52°0S 13°W` is latitude -52 and longitude -13 |
| `Locator.ExampleMinutesOnly` | src/locator.rs:172 | `52°30'N 13°24'E` is read as a place name |
| `Locator.ExampleDegreesOnly` | src/locator.rs:172 | `52°S 13°W` is read as a place name |
| `Ascii.ToUpper` | src/locator.rs:152 | upper-casing keeps the length and maps each character by itself, lower-case ASCII letters to upper case |
| `Ascii.TrimStart` | src/locator.rs:153 | the result is a suffix of the text, preceded only by white space, and starts with no white space |
| `Ascii.TrimEnd` | src/locator.rs:153 | the result is a prefix of the text, followed only by white space, and ends with no white space |
| `Ascii.NormalizePadded` | src/locator.rs:152-153 | upper-casing and trimming a text with no lower-case letter and white space only around it gives the text |
| `Numbers.ParseU64` | src/main.rs:28 | an accepted number is at most `u64::MAX` |
| `Numbers.ParseU64NatText` | src/main.rs:28 | the decimal text of a number parses back to it, up to `u64::MAX`, and fails above |
| `Numbers.ParseU64PlusSign` | src/main.rs:28 | a leading `+` is read over |
| `Numbers.ParseFloat` | src/locator.rs:166-167 | `f64::from_str` on ASCII text: an accepted text is not empty, a negative value only comes from a leading `-`, and a leading `-` never gives a positive value; `Numbers.DecimalTextParses` and `Numbers.RealTextRoundTrip` give its value on numerals |
| `Numbers.RealText` | src/locator.rs:95 | `Display` for `f64` writes a non-empty text that starts with `-` exactly for negative numbers; `Numbers.RealTextRoundTrip` parses it back |
| `Numbers.RealTextRoundTrip` | src/locator.rs:95 | the text `Display` writes for a number with a finite decimal expansion is a numeral, unsigned when the number is not negative, and parses back to the number |
| `Numbers.DecimalTextParses` | src/locator.rs:166-167 | a numeral of shape `[+-]?\d+(\.\d+)?` parses to the value of its parts |
| `PairPattern.MatchDecimalPair` | src/locator.rs:155-158 | a match captures both groups: the latitude a non-empty prefix of the text, the longitude a non-empty suffix, with a separator between; `PairPattern.PairSound`, `PairPattern.PairComplete` and `PairPattern.PairAmbiguousRead` characterise the matches exactly |
| `PairPattern.PairSound` | src/locator.rs:155-158 | a match of the decimal pair captures both groups, and the text is the latitude numeral, a separator gap and the longitude numeral |
| `PairPattern.PairComplete` | src/locator.rs:155-158 | two numerals around a separator gap are matched with exactly those captures, unless the pair is the ambiguous one |
| `PairPattern.PairAmbiguousRead` | src/locator.rs:156 | the ambiguous pair is matched with the latitude taking the longitude's integer digits as its fraction |
| `PairPattern.PairChars` | src/locator.rs:156 | a decimal pair holds only numeral characters, white space and separators |
| `DmsPattern.MatchDms` | src/locator.rs:172-173 | a match always captures both degree groups and the latitude's seconds, with a latitude letter N or S and a longitude letter E or W; `DmsPattern.DmsSound` and `DmsPattern.DmsComplete` characterise the matches exactly |
| `DmsPattern.DmsSound` | src/locator.rs:172-173 | a match of the degree/minute/second pattern has valid groups, and the text is those groups written out |
| `DmsPattern.DmsComplete` | src/locator.rs:172-173 | valid groups written out are matched with exactly those groups |
| `DmsPattern.DegreeSign` | src/locator.rs:172 | a match of the degree/minute/second pattern holds a `°` |
| `DmsPattern.DmsValid` | src/locator.rs:172 | a match has a latitude letter N or S, a longitude letter E or W, and numerals in its groups |
| `Cli.ValidateUpdateTime` | src/main.rs:26-33 | accepted exactly when the text is an unsigned 64-bit integer of at least 300; the accepted value is that integer |
| `Cli.UpdateTimeOfText` | src/main.rs:27-33 | the decimal text of n is accepted as n from 300 to `u64::MAX`, refused with the short-cycle message naming n below 300, and refused as no integer above `u64::MAX` |
| `Cli.UpdateTimePlusSign` | src/main.rs:28 | a leading `+` changes nothing |
| `Cli.UpdateTimeThreshold` | src/main.rs:29-30 | 299 is refused with its message; 300, the default at src/main.rs:63, is accepted |
| `Cli.ValidateRadius` | src/main.rs:35-43 | accepted exactly when the text is a number from 0 to 25 included; the accepted value is that number |
| `Cli.RadiusOfText` | src/main.rs:36-43 | the `Display` text of a number is refused as negative below 0, accepted from 0 to 25, and refused as too large above 25, with the number in the message |
| `Cli.RadiusBounds` | src/main.rs:41 | 0, 25 and the default 2 (src/main.rs:55) are accepted |
| `Cli.RadiusOutside` | src/main.rs:40-42 | every number below 0 or above 25 is refused |
| `Tankerkoenig.FuelName` | src/tankerkoenig.rs:90-98 | the `String` conversion of a fuel type equals its `Display` text |
| `Tankerkoenig.FuelText` | src/tankerkoenig.rs:80-88 | the names are `E10`, `E5` and `Diesel` |
| `Tankerkoenig.FuelTextInjective` | src/tankerkoenig.rs:80-88 | two fuel types have the same name exactly when they are the same |
| `Tankerkoenig.PricesOf` | src/tankerkoenig.rs:52-60 | one price for each reported entry |
| `Tankerkoenig.PricesOfMember` | src/tankerkoenig.rs:57 | a price is kept exactly when its fuel was reported with that price |
| `Tankerkoenig.PricesOfRanked` | src/tankerkoenig.rs:52-60 | filtering keeps the order of the fuel types |
| `Tankerkoenig.StationFrom` | src/tankerkoenig.rs:44-67 | a converted station has at most three prices |
| `Tankerkoenig.StationFromFields` | src/tankerkoenig.rs:44-64 | id, name, brand, opening state and distance are copied; the location is the API's longitude and latitude; a price for a fuel is present exactly when the API reports it, with that price |
| `Tankerkoenig.StationPricesOrdered` | src/tankerkoenig.rs:52-60 | the prices come in the order Diesel, E5, E10, and no fuel type twice |
| `Tankerkoenig.StationPriceCount` | src/tankerkoenig.rs:52-60 | the number of prices is the number of reported fuels |
| `Tankerkoenig.LoadPrices` | src/tankerkoenig.rs:192-201 | a transport failure is `ReqwestError`; success exactly when `ok` and stations are present, then the stations converted in order and in the same number; otherwise `APIError` with the response's message |
| `Tankerkoenig.LoadedStations` | src/tankerkoenig.rs:198-199 | each loaded station is the response's station at the same position, with ordered prices |

## Left out

- Network I/O. The Nominatim request (src/locator.rs:119-126) and the
  Tankerkönig request (src/tankerkoenig.rs:182-197) are parameters: a decoded
  answer or an opaque transport failure. JSON decoding, URLs, headers and
  query parameters are not modelled.
- IEEE-754 arithmetic: numbers are exact reals.
- Locator.Resolve: the hit's `lon` and `lat` are read as their exact values,
  with no rounding to the nearest `f64`.
- Locator.FromStr: the captured numerals are read as their exact values, with
  no rounding to the nearest `f64`.
- Locator.Sexagesimal: the divisions and the sum are exact, with no `f64`
  rounding, and so is the sign multiplication in `Locator.AxisValue`.
- Numbers.ParseFloat: only decimal and exponent text is accepted. Rust also
  reads `inf`, `infinity` and `nan`. The location patterns never capture those,
  but the radius validator and the geocoder's `lon` and `lat` strings can
  carry them.
- Locator.Resolve: a first hit whose `lon` or `lat` is `inf` or `nan` is
  `Err(ParseFloatError)` in the model; the program resolves it to an infinite
  or NaN coordinate.
- Cli.ValidateRadius: `inf`, `-inf` and `NaN` are refused as "not a valid
  floating point number". The program parses them: `-inf` is refused as less
  than 0, and `inf` and `NaN` (every comparison with NaN is false) as larger
  than 25 km.
- Numbers.RealText: `Display` for `f64` is the exact decimal expansion. It is
  cut after 1074 places for reals that no `f64` can hold. The round-trip lemmas
  assume a finite expansion.
- Unicode: upper-casing, trimming, `\s` and `\d` are modelled on ASCII.
  - Rust's `to_uppercase` also maps non-ASCII letters, and can change a
    text's length (`ß` becomes `SS`).
  - Rust's `trim` and `\s` also accept non-ASCII white space.
  - The regex crate's `\d` also accepts non-ASCII digits, which
    `f64::from_str` then refuses. So a pair such as `٥٢,١٣` (Arabic-Indic
    digits) makes the program's `from_str` return `Err(ParseFloatError)`
    (src/locator.rs:156-167), where the model reads the text as a name.
- Locator.CompassFrom: the `unreachable!()` panic (src/locator.rs:44) is the
  value `None`. `Locator.DmsBranch` and `Locator.DmsRead` show that the
  pattern only passes letters for which a direction exists.
- The payload of `LocationError::ParseFloatError`: the error is a constant.
  On ASCII text it never arises from `from_str`, whose patterns only capture
  numerals; it does arise from `Locator.Resolve`.
- `Display` for `LocationError` (src/locator.rs:64-68): it only writes the
  `Debug` form.
- `Display` for `TankerStation` (src/tankerkoenig.rs:29-42) and for
  `TankerPrice` (src/tankerkoenig.rs:109-113): presentation only, with
  two-place float formatting.
- The rest of src/main.rs (the `clap` parsing, the update loop, the
  Prometheus gauges and the HTTP endpoint): orchestration. The `recoord`
  crate, which main.rs uses in place of the location code, is not part of
  this model.
