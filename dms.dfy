/**
 * The degree/minute/second pattern of `Location::from_str`, as a scanner
 * over positions of the (upper-cased, trimmed) input.  Written out, the
 * pattern is: degrees and `°`; optional minutes with `'`; MANDATORY latitude
 * seconds, whose `"` is optional; `N` or `S`; white space; degrees and `°`;
 * optional minutes with `'`; optional seconds with a mandatory `"`; `E` or
 * `W`; end of text.  Every numeral is `\d+(\.\d+)?`.
 *
 * Each optional group is taken exactly when a numeral followed by its mark
 * stands at that place: when it is, leaving the group out never lets the rest
 * match, so this is the one match the regex engine can report.
 */
module DmsPattern {
  import opened Ascii
  import opened Numbers
  import opened Outcomes

  /** The named groups of one axis: degrees, minutes, seconds and the compass letter. */
  datatype AxisCaptures = AxisCaptures(deg: Option<string>, min: Option<string>, sec: Option<string>, dir: string)

  /** The named groups `lat_deg` … `n_s` and `long_deg` … `e_w` of the pattern. */
  datatype DmsCaptures = DmsCaptures(lat: AxisCaptures, long: AxisCaptures)

  /** End of a `\d+(\.\d+)?` and its `mark` that start at position `i` (after the mark), or `i` when none starts there. */
  function MarkedEnd(s: string, i: nat, mark: char): (j: nat)
    requires i <= |s|
    ensures i <= j <= |s| && j != i + 1
  {
    var u := UnsignedEnd(s, i);
    if u > i && u < |s| && s[u] == mark then u + 1 else i
  }

  /** The numeral of a marked group between `i` and `j`, or None when the group is empty. */
  function MarkedGroup(s: string, i: nat, j: nat): Option<string>
    requires i <= j <= |s|
  {
    if j > i then Some(s[i..j - 1]) else None
  }

  /**
   * The latitude half of the pattern from the start of `s`: its groups and the
   * position after its `N` or `S`.
   */
  function MatchLatitude(s: string): (r: Option<(AxisCaptures, nat)>)
    ensures r.Some? ==> 0 < r.value.1 <= |s|
    ensures r.Some? ==> r.value.0.deg.Some? && r.value.0.sec.Some? && (r.value.0.dir == "N" || r.value.0.dir == "S")
  {
    var a := MarkedEnd(s, 0, '°');
    var b := MarkedEnd(s, a, '\'');
    var c := UnsignedEnd(s, b);
    var d := if c < |s| && s[c] == '"' then c + 1 else c;
    if a == 0 || c == b || d >= |s| || (s[d] != 'N' && s[d] != 'S') then None
    else Some((AxisCaptures(MarkedGroup(s, 0, a), MarkedGroup(s, a, b), Some(s[b..c]), s[d..d + 1]), d + 1))
  }

  /** The longitude half of the pattern from position `e` to the end of `s`. */
  function MatchLongitude(s: string, e: nat): (r: Option<AxisCaptures>)
    requires e <= |s|
    ensures r.Some? ==> r.value.deg.Some? && (r.value.dir == "E" || r.value.dir == "W")
  {
    var f := MarkedEnd(s, e, '°');
    var g := MarkedEnd(s, f, '\'');
    var h := MarkedEnd(s, g, '"');
    if f == e || h + 1 != |s| || (s[h] != 'E' && s[h] != 'W') then None
    else Some(AxisCaptures(MarkedGroup(s, e, f), MarkedGroup(s, f, g), MarkedGroup(s, g, h), s[h..]))
  }

  /** The degree/minute/second pattern on the whole of `s`: its captures, or None when it does not match. */
  function MatchDms(s: string): (r: Option<DmsCaptures>)
    ensures r.Some? ==> r.value.lat.deg.Some? && r.value.lat.sec.Some? && r.value.long.deg.Some?
    ensures r.Some? ==> (r.value.lat.dir == "N" || r.value.lat.dir == "S") && (r.value.long.dir == "E" || r.value.long.dir == "W")
  {
    match MatchLatitude(s)
    case None => None
    case Some((lat, d)) =>
      match MatchLongitude(s, SpacesEnd(s, d))
      case None => None
      case Some(long) => Some(DmsCaptures(lat, long))
  }

  // ---------------------------------------------------------------------------
  // The texts the pattern describes

  /** A numeral with its mark, or nothing. */
  function Marked(o: Option<string>, mark: char): string
  {
    match o
    case None => ""
    case Some(u) => u + [mark]
  }

  predicate ValidOptional(o: Option<string>)
  {
    o.Some? ==> IsUnsignedText(o.value)
  }

  predicate ValidLatitude(lat: AxisCaptures)
  {
    lat.deg.Some? && IsUnsignedText(lat.deg.value) && ValidOptional(lat.min)
    && lat.sec.Some? && IsUnsignedText(lat.sec.value) && (lat.dir == "N" || lat.dir == "S")
  }

  predicate ValidLongitude(long: AxisCaptures)
  {
    long.deg.Some? && IsUnsignedText(long.deg.value) && ValidOptional(long.min)
    && ValidOptional(long.sec) && (long.dir == "E" || long.dir == "W")
  }

  /** The latitude as the pattern writes it, with or without the `"` after its seconds. */
  function LatitudeText(lat: AxisCaptures, quote: bool): string
    requires lat.deg.Some? && lat.sec.Some?
  {
    lat.deg.value + "°" + Marked(lat.min, '\'') + lat.sec.value + (if quote then "\"" else "") + lat.dir
  }

  /** The longitude as the pattern writes it. */
  function LongitudeText(long: AxisCaptures): string
    requires long.deg.Some?
  {
    long.deg.value + "°" + Marked(long.min, '\'') + Marked(long.sec, '"') + long.dir
  }

  /** A text of the pattern: latitude, white space, longitude. */
  function DmsText(c: DmsCaptures, quote: bool, gap: string): string
    requires ValidLatitude(c.lat) && ValidLongitude(c.long)
  {
    LatitudeText(c.lat, quote) + gap + LongitudeText(c.long)
  }

  // ---------------------------------------------------------------------------
  // Marked groups

  /** A numeral written at position `i` and followed by `mark` is scanned as a marked group. */
  lemma MarkedAt(s: string, i: nat, u: string, mark: char)
    requires IsUnsignedText(u) && PieceAt(s, i, u)
    requires i + |u| < |s| && s[i + |u|] == mark
    requires !IsDigit(mark) && mark != '.'
    ensures MarkedEnd(s, i, mark) == i + |u| + 1
    ensures MarkedGroup(s, i, i + |u| + 1) == Some(u)
  {
    UnsignedTextAt(s, i, u);
    PieceSlice(s, i, u);
  }

  /** A numeral followed by a character other than `mark` is no marked group. */
  lemma UnmarkedAt(s: string, i: nat, u: string, mark: char)
    requires IsUnsignedText(u) && PieceAt(s, i, u)
    requires i + |u| < |s| && !IsDigit(s[i + |u|]) && s[i + |u|] != '.' && s[i + |u|] != mark
    ensures MarkedEnd(s, i, mark) == i
  {
    UnsignedTextAt(s, i, u);
  }

  /** An optional marked group is scanned as written, when the text shows no such group where it is absent. */
  lemma OptionalMarkedAt(s: string, i: nat, o: Option<string>, mark: char)
    requires ValidOptional(o) && !IsDigit(mark) && mark != '.'
    requires o.Some? ==> PieceAt(s, i, o.value) && i + |o.value| < |s| && s[i + |o.value|] == mark
    requires o.None? ==> i <= |s| && MarkedEnd(s, i, mark) == i
    ensures i + |Marked(o, mark)| <= |s|
    ensures MarkedEnd(s, i, mark) == i + |Marked(o, mark)|
    ensures MarkedGroup(s, i, i + |Marked(o, mark)|) == o
  {
    if o.Some? {
      MarkedAt(s, i, o.value, mark);
    }
  }

  /** A text that does not start with a digit holds no marked group. */
  lemma NoNumeralAt(s: string, i: nat, mark: char)
    requires i < |s| && !IsDigit(s[i])
    ensures MarkedEnd(s, i, mark) == i && UnsignedEnd(s, i) == i
  {
  }

  /** The scanned marked group is a numeral and its mark, written where the scan started. */
  lemma MarkedSound(s: string, i: nat, mark: char) returns (j: nat, o: Option<string>)
    requires i <= |s|
    ensures j == MarkedEnd(s, i, mark) && o == MarkedGroup(s, i, j)
    ensures ValidOptional(o) && PieceAt(s, i, Marked(o, mark)) && j == i + |Marked(o, mark)|
  {
    j := MarkedEnd(s, i, mark);
    o := MarkedGroup(s, i, j);
    if j > i {
      UnsignedAt(s, i);
      SlicePiece(s, i, j - 1);
      CharPiece(s, j - 1);
      JoinPiece(s, i, s[i..j - 1], [mark]);
    }
  }

  // ---------------------------------------------------------------------------
  // Completeness: every text of the pattern is matched, with its own groups

  /**
   * The pieces of a latitude stand in `s` with its degrees at the start, its
   * minutes (if any) at `a`, its seconds at `b`, its optional `"` at `c` and
   * its compass letter at `d`.
   */
  predicate LatitudeLaidOut(s: string, lat: AxisCaptures, quote: bool, a: nat, b: nat, c: nat, d: nat)
  {
    ValidLatitude(lat)
    && a == |lat.deg.value| + 1 && b == a + |Marked(lat.min, '\'')| && c == b + |lat.sec.value|
    && d == (if quote then c + 1 else c) && PieceAt(s, d, lat.dir)
    && PieceAt(s, 0, lat.deg.value) && s[a - 1] == '°'
    && (lat.min.Some? ==> PieceAt(s, a, lat.min.value) && s[b - 1] == '\'')
    && PieceAt(s, b, lat.sec.value)
    && (quote ==> s[c] == '"')
  }

  /** After the seconds of a laid-out latitude comes a `"` or its compass letter: neither continues a numeral. */
  lemma LatitudeStop(s: string, lat: AxisCaptures, quote: bool, a: nat, b: nat, c: nat, d: nat)
    requires LatitudeLaidOut(s, lat, quote, a, b, c, d)
    ensures c < |s| && !IsDigit(s[c]) && s[c] != '.' && s[c] != '\''
  {
    PieceChar(s, d, lat.dir, 0);
    assert s[d] == 'N' || s[d] == 'S';
  }

  /** The degrees of a laid-out latitude are scanned as written. */
  lemma LatitudeDegreesEnd(s: string, lat: AxisCaptures, quote: bool, a: nat, b: nat, c: nat, d: nat)
    requires LatitudeLaidOut(s, lat, quote, a, b, c, d)
    ensures MarkedEnd(s, 0, '°') == a && MarkedGroup(s, 0, a) == lat.deg
  {
    MarkedAt(s, 0, lat.deg.value, '°');
  }

  /** The optional minutes of a laid-out latitude are scanned as written. */
  lemma LatitudeMinutesEnd(s: string, lat: AxisCaptures, quote: bool, a: nat, b: nat, c: nat, d: nat)
    requires LatitudeLaidOut(s, lat, quote, a, b, c, d)
    ensures MarkedEnd(s, a, '\'') == b && MarkedGroup(s, a, b) == lat.min
  {
    if lat.min.Some? {
      assert b == a + |lat.min.value| + 1;
      MarkedAt(s, a, lat.min.value, '\'');
    } else {
      assert b == a;
      LatitudeStop(s, lat, quote, a, b, c, d);
      UnmarkedAt(s, a, lat.sec.value, '\'');
    }
  }

  /** The seconds of a laid-out latitude are scanned as written. */
  lemma LatitudeSecondsEnd(s: string, lat: AxisCaptures, quote: bool, a: nat, b: nat, c: nat, d: nat)
    requires LatitudeLaidOut(s, lat, quote, a, b, c, d)
    ensures UnsignedEnd(s, b) == c
  {
    LatitudeStop(s, lat, quote, a, b, c, d);
    UnsignedTextAt(s, b, lat.sec.value);
  }

  /** Where the scan of a laid-out latitude stops. */
  lemma LatitudeEnds(s: string, lat: AxisCaptures, quote: bool, a: nat, b: nat, c: nat, d: nat)
    requires LatitudeLaidOut(s, lat, quote, a, b, c, d)
    ensures MarkedEnd(s, 0, '°') == a && MarkedEnd(s, a, '\'') == b && UnsignedEnd(s, b) == c
    ensures MarkedGroup(s, 0, a) == lat.deg && MarkedGroup(s, a, b) == lat.min
  {
    LatitudeDegreesEnd(s, lat, quote, a, b, c, d);
    LatitudeMinutesEnd(s, lat, quote, a, b, c, d);
    LatitudeSecondsEnd(s, lat, quote, a, b, c, d);
  }

  /** The seconds and the compass letter of a laid-out latitude are where it says. */
  lemma LatitudeLetter(s: string, lat: AxisCaptures, quote: bool, a: nat, b: nat, c: nat, d: nat)
    requires LatitudeLaidOut(s, lat, quote, a, b, c, d)
    ensures d < |s| && s[d..d + 1] == lat.dir && (s[d] == 'N' || s[d] == 'S')
    ensures c <= |s| && s[b..c] == lat.sec.value
  {
    PieceChar(s, d, lat.dir, 0);
    PieceSlice(s, b, lat.sec.value);
    PieceSlice(s, d, lat.dir);
  }

  /** The latitude half of the pattern, given where each of its scans stops. */
  lemma LatitudeMatchOf(s: string, lat: AxisCaptures, a: nat, b: nat, c: nat, d: nat)
    requires 0 < a <= b < c <= d < |s| && (d == c || (d == c + 1 && s[c] == '"')) && (s[d] == 'N' || s[d] == 'S')
    requires MarkedEnd(s, 0, '°') == a && MarkedEnd(s, a, '\'') == b && UnsignedEnd(s, b) == c
    requires MarkedGroup(s, 0, a) == lat.deg && MarkedGroup(s, a, b) == lat.min
    requires lat.sec == Some(s[b..c]) && lat.dir == s[d..d + 1]
    ensures MatchLatitude(s) == Some((lat, d + 1))
  {
    if d == c {
      assert s[c] != '"';
    }
  }

  /** A laid-out latitude is matched with its groups, up to its compass letter. */
  lemma LatitudeScan(s: string, lat: AxisCaptures, quote: bool, a: nat, b: nat, c: nat, d: nat)
    requires LatitudeLaidOut(s, lat, quote, a, b, c, d)
    ensures MatchLatitude(s) == Some((lat, d + 1))
  {
    LatitudeEnds(s, lat, quote, a, b, c, d);
    LatitudeLetter(s, lat, quote, a, b, c, d);
    LatitudeMatchOf(s, lat, a, b, c, d);
  }

  /** A latitude written at the start of `s` is laid out piece by piece. */
  lemma LatitudeLayout(s: string, lat: AxisCaptures, quote: bool)
    requires ValidLatitude(lat) && PieceAt(s, 0, LatitudeText(lat, quote))
    ensures var a := |lat.deg.value| + 1;
      var b := a + |Marked(lat.min, '\'')|;
      var c := b + |lat.sec.value|;
      var d := if quote then c + 1 else c;
      d + 1 == |LatitudeText(lat, quote)| && LatitudeLaidOut(s, lat, quote, a, b, c, d)
  {
    var deg, sec := lat.deg.value, lat.sec.value;
    var m := Marked(lat.min, '\'');
    var q: string := if quote then "\"" else "";
    SplitPiece(s, 0, deg + "°" + m + sec + q, lat.dir);
    SplitPiece(s, 0, deg + "°" + m + sec, q);
    SplitPiece(s, 0, deg + "°" + m, sec);
    SplitPiece(s, 0, deg + "°", m);
    SplitPiece(s, 0, deg, "°");
    var a := |deg| + 1;
    PieceChar(s, |deg|, "°", 0);
    if quote {
      PieceChar(s, a + |m| + |sec|, q, 0);
    }
    if lat.min.Some? {
      SplitPiece(s, a, lat.min.value, "'");
      PieceChar(s, a + |lat.min.value|, "'", 0);
    }
  }

  /** A latitude written at the start of `s` is matched with its groups, up to its compass letter. */
  lemma LatitudeAt(s: string, lat: AxisCaptures, quote: bool)
    requires ValidLatitude(lat) && PieceAt(s, 0, LatitudeText(lat, quote))
    ensures MatchLatitude(s) == Some((lat, |LatitudeText(lat, quote)|))
  {
    LatitudeLayout(s, lat, quote);
    var a := |lat.deg.value| + 1;
    var b := a + |Marked(lat.min, '\'')|;
    var c := b + |lat.sec.value|;
    LatitudeScan(s, lat, quote, a, b, c, if quote then c + 1 else c);
  }

  /**
   * The pieces of a longitude stand in `s` with its degrees at `e`, its
   * minutes (if any) at `f`, its seconds (if any) at `g` and its compass
   * letter at `h`, the last character.
   */
  predicate LongitudeLaidOut(s: string, long: AxisCaptures, e: nat, f: nat, g: nat, h: nat)
  {
    ValidLongitude(long)
    && f == e + |long.deg.value| + 1 && g == f + |Marked(long.min, '\'')| && h == g + |Marked(long.sec, '"')|
    && PieceAt(s, h, long.dir) && h + 1 == |s|
    && PieceAt(s, e, long.deg.value) && s[f - 1] == '°'
    && (long.min.Some? ==> PieceAt(s, f, long.min.value) && s[g - 1] == '\'')
    && (long.sec.Some? ==> PieceAt(s, g, long.sec.value) && s[h - 1] == '"')
  }

  /** The optional seconds of a longitude, before its compass letter at `h`, are scanned as written. */
  lemma SecondsEnd(s: string, sec: Option<string>, g: nat, h: nat)
    requires ValidOptional(sec) && h == g + |Marked(sec, '"')| && h < |s| && !IsDigit(s[h])
    requires sec.Some? ==> PieceAt(s, g, sec.value) && s[h - 1] == '"'
    ensures MarkedEnd(s, g, '"') == h && MarkedGroup(s, g, h) == sec
  {
    if sec.None? {
      NoNumeralAt(s, g, '"');
    }
    OptionalMarkedAt(s, g, sec, '"');
  }

  /** The optional minutes of a longitude, before its optional seconds and its compass letter at `h`, are scanned as written. */
  lemma MinutesEnd(s: string, min: Option<string>, sec: Option<string>, f: nat, g: nat, h: nat)
    requires ValidOptional(min) && ValidOptional(sec)
    requires g == f + |Marked(min, '\'')| && h == g + |Marked(sec, '"')| && h < |s| && !IsDigit(s[h]) && s[h] != '.'
    requires min.Some? ==> PieceAt(s, f, min.value) && s[g - 1] == '\''
    requires sec.Some? ==> PieceAt(s, g, sec.value) && s[h - 1] == '"'
    ensures MarkedEnd(s, f, '\'') == g && MarkedGroup(s, f, g) == min
  {
    if min.None? {
      if sec.Some? {
        UnmarkedAt(s, f, sec.value, '\'');
      } else {
        NoNumeralAt(s, f, '\'');
      }
    }
    OptionalMarkedAt(s, f, min, '\'');
  }

  /** The degrees of a laid-out longitude are scanned as written. */
  lemma LongitudeDegreesEnd(s: string, long: AxisCaptures, e: nat, f: nat, g: nat, h: nat)
    requires LongitudeLaidOut(s, long, e, f, g, h)
    ensures MarkedEnd(s, e, '°') == f && MarkedGroup(s, e, f) == long.deg
  {
    MarkedAt(s, e, long.deg.value, '°');
  }

  /** The compass letter of a laid-out longitude continues no numeral. */
  lemma LongitudeStop(s: string, long: AxisCaptures, e: nat, f: nat, g: nat, h: nat)
    requires LongitudeLaidOut(s, long, e, f, g, h)
    ensures h < |s| && !IsDigit(s[h]) && s[h] != '.'
  {
    PieceChar(s, h, long.dir, 0);
    assert s[h] == 'E' || s[h] == 'W';
  }

  /** Where the scan of a laid-out longitude stops. */
  lemma LongitudeEnds(s: string, long: AxisCaptures, e: nat, f: nat, g: nat, h: nat)
    requires LongitudeLaidOut(s, long, e, f, g, h)
    ensures MarkedEnd(s, e, '°') == f && MarkedEnd(s, f, '\'') == g && MarkedEnd(s, g, '"') == h
    ensures MarkedGroup(s, e, f) == long.deg && MarkedGroup(s, f, g) == long.min && MarkedGroup(s, g, h) == long.sec
  {
    LongitudeDegreesEnd(s, long, e, f, g, h);
    LongitudeStop(s, long, e, f, g, h);
    SecondsEnd(s, long.sec, g, h);
    MinutesEnd(s, long.min, long.sec, f, g, h);
  }

  /** The compass letter of a laid-out longitude is its last character. */
  lemma LongitudeLetter(s: string, long: AxisCaptures, e: nat, f: nat, g: nat, h: nat)
    requires LongitudeLaidOut(s, long, e, f, g, h)
    ensures h + 1 == |s| && s[h..] == long.dir && (s[h] == 'E' || s[h] == 'W')
  {
    PieceChar(s, h, long.dir, 0);
    PieceSlice(s, h, long.dir);
    assert s[h..] == s[h..h + 1];
  }

  /** The longitude half of the pattern, given where each of its scans stops. */
  lemma LongitudeMatchOf(s: string, long: AxisCaptures, e: nat, f: nat, g: nat, h: nat)
    requires e < f <= g <= h && h + 1 == |s| && (s[h] == 'E' || s[h] == 'W')
    requires MarkedEnd(s, e, '°') == f && MarkedEnd(s, f, '\'') == g && MarkedEnd(s, g, '"') == h
    requires MarkedGroup(s, e, f) == long.deg && MarkedGroup(s, f, g) == long.min && MarkedGroup(s, g, h) == long.sec
    requires s[h..] == long.dir
    ensures MatchLongitude(s, e) == Some(long)
  {
  }

  /** A laid-out longitude is matched with its groups. */
  lemma LongitudeScan(s: string, long: AxisCaptures, e: nat, f: nat, g: nat, h: nat)
    requires LongitudeLaidOut(s, long, e, f, g, h)
    ensures MatchLongitude(s, e) == Some(long)
  {
    LongitudeEnds(s, long, e, f, g, h);
    LongitudeLetter(s, long, e, f, g, h);
    LongitudeMatchOf(s, long, e, f, g, h);
  }

  /** A longitude written from position `e` to the end of `s` is laid out piece by piece. */
  lemma LongitudeLayout(s: string, e: nat, long: AxisCaptures)
    requires ValidLongitude(long) && PieceAt(s, e, LongitudeText(long)) && e + |LongitudeText(long)| == |s|
    ensures var f := e + |long.deg.value| + 1;
      var g := f + |Marked(long.min, '\'')|;
      LongitudeLaidOut(s, long, e, f, g, g + |Marked(long.sec, '"')|)
  {
    var deg := long.deg.value;
    var m := Marked(long.min, '\'');
    var n := Marked(long.sec, '"');
    SplitPiece(s, e, deg + "°" + m + n, long.dir);
    SplitPiece(s, e, deg + "°" + m, n);
    SplitPiece(s, e, deg + "°", m);
    SplitPiece(s, e, deg, "°");
    var f := e + |deg| + 1;
    PieceChar(s, e + |deg|, "°", 0);
    if long.min.Some? {
      SplitPiece(s, f, long.min.value, "'");
      PieceChar(s, f + |long.min.value|, "'", 0);
    }
    if long.sec.Some? {
      SplitPiece(s, f + |m|, long.sec.value, "\"");
      PieceChar(s, f + |m| + |long.sec.value|, "\"", 0);
    }
  }

  /** A longitude written from position `e` to the end of `s` is matched with its groups. */
  lemma LongitudeAt(s: string, e: nat, long: AxisCaptures)
    requires ValidLongitude(long) && PieceAt(s, e, LongitudeText(long)) && e + |LongitudeText(long)| == |s|
    ensures MatchLongitude(s, e) == Some(long)
  {
    LongitudeLayout(s, e, long);
    var f := e + |long.deg.value| + 1;
    var g := f + |Marked(long.min, '\'')|;
    LongitudeScan(s, long, e, f, g, g + |Marked(long.sec, '"')|);
  }

  /** Every text of the pattern is matched, and its groups are read back as written. */
  lemma DmsComplete(c: DmsCaptures, quote: bool, gap: string)
    requires ValidLatitude(c.lat) && ValidLongitude(c.long) && AllSpaces(gap)
    ensures MatchDms(DmsText(c, quote, gap)) == Some(c)
  {
    var s := DmsText(c, quote, gap);
    var lt := LatitudeText(c.lat, quote);
    var gt := LongitudeText(c.long);
    WholePiece(s);
    SplitPiece(s, 0, lt + gap, gt);
    SplitPiece(s, 0, lt, gap);
    LatitudeAt(s, c.lat, quote);
    var e := |lt| + |gap|;
    forall k | |lt| <= k < e
      ensures IsSpace(s[k])
    {
      PieceChar(s, |lt|, gap, k - |lt|);
    }
    PieceChar(s, e, gt, 0);
    UnsignedIsDecimal(c.long.deg.value);
    SpacesEndOf(s, |lt|, e);
    LongitudeAt(s, e, c.long);
  }

  // ---------------------------------------------------------------------------
  // Soundness: every match is a text of the pattern

  /** Degrees and minutes at the start, seconds at `b`, an optional `"` and a hemisphere letter at `d` make up a latitude. */
  lemma LatitudeCover(s: string, deg: Option<string>, min: Option<string>, b: nat, c: nat, d: nat)
    requires deg.Some? && ValidOptional(deg) && ValidOptional(min)
    requires PieceAt(s, 0, Marked(deg, '°')) && PieceAt(s, |Marked(deg, '°')|, Marked(min, '\''))
    requires b == |Marked(deg, '°')| + |Marked(min, '\'')| && b <= c <= d < |s| && IsUnsignedText(s[b..c])
    requires d == c || (d == c + 1 && s[c] == '"')
    requires s[d] == 'N' || s[d] == 'S'
    ensures ValidLatitude(AxisCaptures(deg, min, Some(s[b..c]), s[d..d + 1]))
    ensures PieceAt(s, 0, LatitudeText(AxisCaptures(deg, min, Some(s[b..c]), s[d..d + 1]), d > c))
    ensures |LatitudeText(AxisCaptures(deg, min, Some(s[b..c]), s[d..d + 1]), d > c)| == d + 1
  {
    var q: string := if d > c then "\"" else "";
    SlicePiece(s, b, c);
    if d > c {
      CharPiece(s, c);
    }
    CharPiece(s, d);
    assert s[d..d + 1] == [s[d]];
    JoinPieces(s, 0, Marked(deg, '°'), Marked(min, '\''), s[b..c], q, [s[d]]);
  }

  /** A matched latitude is valid and written at the start of `s`, with or without the `"` after its seconds. */
  lemma LatitudeSound(s: string) returns (quote: bool)
    requires MatchLatitude(s).Some?
    ensures ValidLatitude(MatchLatitude(s).value.0)
    ensures PieceAt(s, 0, LatitudeText(MatchLatitude(s).value.0, quote))
    ensures |LatitudeText(MatchLatitude(s).value.0, quote)| == MatchLatitude(s).value.1
  {
    var a, deg := MarkedSound(s, 0, '°');
    var b, min := MarkedSound(s, a, '\'');
    var c := UnsignedEnd(s, b);
    UnsignedAt(s, b);
    var d := MatchLatitude(s).value.1 - 1;
    quote := d > c;
    LatitudeCover(s, deg, min, b, c, d);
  }

  /** Degrees at `e`, optional minutes and seconds, and a compass letter at the end make up a longitude. */
  lemma LongitudeCover(s: string, e: nat, deg: Option<string>, min: Option<string>, sec: Option<string>)
    requires deg.Some? && ValidOptional(deg) && ValidOptional(min) && ValidOptional(sec)
    requires PieceAt(s, e, Marked(deg, '°')) && PieceAt(s, e + |Marked(deg, '°')|, Marked(min, '\''))
    requires PieceAt(s, e + |Marked(deg, '°')| + |Marked(min, '\'')|, Marked(sec, '"'))
    requires e + |Marked(deg, '°')| + |Marked(min, '\'')| + |Marked(sec, '"')| + 1 == |s|
    requires s[|s| - 1] == 'E' || s[|s| - 1] == 'W'
    ensures ValidLongitude(AxisCaptures(deg, min, sec, [s[|s| - 1]]))
    ensures PieceAt(s, e, LongitudeText(AxisCaptures(deg, min, sec, [s[|s| - 1]])))
    ensures e + |LongitudeText(AxisCaptures(deg, min, sec, [s[|s| - 1]]))| == |s|
  {
    CharPiece(s, |s| - 1);
    JoinPieces(s, e, Marked(deg, '°'), Marked(min, '\''), Marked(sec, '"'), [s[|s| - 1]], "");
    assert Marked(deg, '°') + Marked(min, '\'') + Marked(sec, '"') + [s[|s| - 1]] + ""
      == Marked(deg, '°') + Marked(min, '\'') + Marked(sec, '"') + [s[|s| - 1]];
  }

  /** A matched longitude is valid and written from position `e` to the end of `s`. */
  lemma LongitudeSound(s: string, e: nat)
    requires e <= |s| && MatchLongitude(s, e).Some?
    ensures ValidLongitude(MatchLongitude(s, e).value)
    ensures PieceAt(s, e, LongitudeText(MatchLongitude(s, e).value))
    ensures e + |LongitudeText(MatchLongitude(s, e).value)| == |s|
  {
    var f, deg := MarkedSound(s, e, '°');
    var g, min := MarkedSound(s, f, '\'');
    var h, sec := MarkedSound(s, g, '"');
    assert s[h..] == [s[h]];
    assert MatchLongitude(s, e).value == AxisCaptures(deg, min, sec, [s[|s| - 1]]);
    LongitudeCover(s, e, deg, min, sec);
  }

  /** A text the pattern matches holds a degree sign, after the latitude's degrees. */
  lemma DegreeSign(s: string)
    requires MatchDms(s).Some?
    ensures 0 < MarkedEnd(s, 0, '°') <= |s| && s[MarkedEnd(s, 0, '°') - 1] == '°'
  {
  }

  /** A match of the pattern has valid groups. */
  lemma DmsValid(s: string)
    requires MatchDms(s).Some?
    ensures ValidLatitude(MatchDms(s).value.lat) && ValidLongitude(MatchDms(s).value.long)
  {
    var quote, gap := DmsSound(s);
  }

  /** A match of the pattern is a matched latitude followed, after white space, by a matched longitude. */
  lemma DmsHalves(s: string)
    requires MatchDms(s).Some?
    ensures MatchLatitude(s).Some? && MatchDms(s).value.lat == MatchLatitude(s).value.0
    ensures MatchLongitude(s, SpacesEnd(s, MatchLatitude(s).value.1)) == Some(MatchDms(s).value.long)
  {
  }

  /** A latitude at the start, white space, and a longitude up to the end make up the whole text. */
  lemma DmsCover(s: string, c: DmsCaptures, quote: bool, d: nat, e: nat)
    requires ValidLatitude(c.lat) && ValidLongitude(c.long)
    requires PieceAt(s, 0, LatitudeText(c.lat, quote)) && |LatitudeText(c.lat, quote)| == d
    requires d <= e <= |s| && AllSpaces(s[d..e])
    requires PieceAt(s, e, LongitudeText(c.long)) && e + |LongitudeText(c.long)| == |s|
    ensures s == DmsText(c, quote, s[d..e])
  {
    SlicePiece(s, d, e);
    CoveredBy(s, LatitudeText(c.lat, quote), s[d..e], LongitudeText(c.long));
  }

  /** Every match of the pattern is a latitude, white space and a longitude, with the matched groups. */
  lemma DmsSound(s: string) returns (quote: bool, gap: string)
    requires MatchDms(s).Some?
    ensures ValidLatitude(MatchDms(s).value.lat) && ValidLongitude(MatchDms(s).value.long)
    ensures AllSpaces(gap) && s == DmsText(MatchDms(s).value, quote, gap)
  {
    DmsHalves(s);
    var d := MatchLatitude(s).value.1;
    var e := SpacesEnd(s, d);
    quote := LatitudeSound(s);
    LongitudeSound(s, e);
    SpaceRun(s, d);
    gap := s[d..e];
    DmsCover(s, MatchDms(s).value, quote, d, e);
  }
}
