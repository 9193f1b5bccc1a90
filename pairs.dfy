/**
 * The decimal-pair pattern of `Location::from_str`:
 * `^(?P<lat>[+-]?\d+(\.\d+)?)\s*[,\./]\s*(?P<long>[+-]?\d+(\.\d+)?)$`,
 * as a scanner over positions of the (upper-cased, trimmed) input.  Because
 * `.` is both the decimal point and a separator, the `lat` group first tries
 * to take a fraction and gives it up only when the rest then fails to match:
 * this is the match the regex engine reports (leftmost-first).
 */
module PairPattern {
  import opened Ascii
  import opened Numbers
  import opened Outcomes

  predicate IsSeparator(c: char) { c == ',' || c == '.' || c == '/' }

  /** End of the `\s*[,\./]\s*` that starts at position `i`, or `i` when none starts there. */
  function GapEnd(s: string, i: nat): (j: nat)
    requires i <= |s|
    ensures i <= j <= |s|
  {
    var w := SpacesEnd(s, i);
    if w < |s| && IsSeparator(s[w]) then SpacesEnd(s, w + 1) else i
  }

  /** `g` is entirely `\s*[,\./]\s*`: the separator of a pair with the white space around it. */
  predicate IsSeparatorGap(g: string)
  {
    |g| > 0 && GapEnd(g, 0) == |g|
  }

  /** `\s*[,\./]\s*[+-]?\d+(\.\d+)?$` matches from position `i` on. */
  predicate PairTailAt(s: string, i: nat)
    requires i <= |s|
  {
    var g := GapEnd(s, i);
    g > i && DecimalEnd(s, g) > g && DecimalEnd(s, g) == |s|
  }

  /**
   * End of the `lat` group, or 0 when `s` does not start with a numeral: with
   * its fraction when the rest then matches, otherwise without it.
   */
  function LatEnd(s: string): (m: nat)
    ensures m <= |s|
  {
    var n := SignedIntEnd(s, 0);
    if n == 0 then 0
    else
      var f := FracEnd(s, n);
      if f > n && PairTailAt(s, f) then f else n
  }

  /** The named groups `lat` and `long` of the decimal-pair pattern. */
  datatype PairCaptures = PairCaptures(lat: Option<string>, long: Option<string>)

  /** The decimal-pair pattern on the whole of `s`: its captures, or None when it does not match. */
  function MatchDecimalPair(s: string): (r: Option<PairCaptures>)
    ensures r.Some? ==> r.value.lat.Some? && r.value.long.Some?
    ensures r.Some? ==>
      var lat, long := r.value.lat.value, r.value.long.value;
      0 < |lat| && 0 < |long| && |lat| + |long| < |s| && s[..|lat|] == lat && s[|s| - |long|..] == long
  {
    var m := LatEnd(s);
    if m > 0 && PairTailAt(s, m) then Some(PairCaptures(Some(s[..m]), Some(s[GapEnd(s, m)..])))
    else None
  }

  /** `s` is the numeral `lat`, a separator gap and the numeral `long`. */
  predicate IsPair(s: string, lat: string, long: string)
  {
    |lat| + |long| <= |s| && s == lat + s[|lat|..|s| - |long|] + long
    && IsDecimalText(lat) && IsSeparatorGap(s[|lat|..|s| - |long|]) && IsDecimalText(long)
  }

  /**
   * The one way a pair is read differently from how it was written: with a bare
   * `.` as the separator, a latitude without a fraction takes the integer digits
   * of an unsigned longitude that has a fraction.
   */
  predicate IsAmbiguousPair(lat: string, gap: string, long: string)
  {
    gap == "." && !HasFraction(lat) && SignPart(long) == "" && HasFraction(long)
  }

  // ---------------------------------------------------------------------------
  // Soundness

  /** The separator gap that starts at position `i` is a separator gap on its own. */
  lemma GapAtIsGap(s: string, i: nat)
    requires i <= |s| && GapEnd(s, i) > i
    ensures IsSeparatorGap(s[i..GapEnd(s, i)])
  {
    var w := SpacesEnd(s, i);
    var j := GapEnd(s, i);
    var g := s[i..j];
    SlicePiece(s, i, j);
    SpacesEndWithin(s, i, g, 0);
    PieceChar(s, i, g, w - i);
    SpacesEndWithin(s, i, g, w - i + 1);
  }

  /** Every match of the decimal-pair pattern is a numeral, a separator gap and a numeral. */
  lemma PairSound(s: string)
    requires MatchDecimalPair(s).Some?
    ensures MatchDecimalPair(s).value.lat.Some? && MatchDecimalPair(s).value.long.Some?
    ensures IsPair(s, MatchDecimalPair(s).value.lat.value, MatchDecimalPair(s).value.long.value)
  {
    var n := SignedIntEnd(s, 0);
    var m := LatEnd(s);
    var g := GapEnd(s, m);
    if m == n {
      SignedIntAtIsText(s, 0);
    } else {
      DecimalAtIsText(s, 0);
    }
    assert s[..m] == s[0..m];
    GapAtIsGap(s, m);
    DecimalAtIsText(s, g);
    assert s[g..] == s[g..|s|];
    SliceConcat(s, 0, m, g);
    SliceConcat(s, 0, g, |s|);
    assert s == s[0..|s|];
  }

  /** A separator gap is written with white space and separators only. */
  lemma GapChars(g: string)
    requires IsSeparatorGap(g)
    ensures forall i | 0 <= i < |g| :: IsSpace(g[i]) || IsSeparator(g[i])
  {
    var w := SpacesEnd(g, 0);
    forall i | 0 <= i < |g|
      ensures IsSpace(g[i]) || IsSeparator(g[i])
    {
      if i != w {
        assert SpaceAt(g, i);
      }
    }
  }

  /** The characters a text of the decimal-pair pattern is written with. */
  predicate IsPairChar(c: char) { IsNumeralChar(c) || IsSpace(c) || IsSeparator(c) }

  /** Numeral characters, then white space and separators, then numeral characters, are all pair characters. */
  lemma JoinedPairChars(lat: string, mid: string, long: string)
    requires forall i | 0 <= i < |lat| :: IsNumeralChar(lat[i])
    requires forall i | 0 <= i < |mid| :: IsSpace(mid[i]) || IsSeparator(mid[i])
    requires forall i | 0 <= i < |long| :: IsNumeralChar(long[i])
    ensures forall i | 0 <= i < |lat + mid + long| :: IsPairChar((lat + mid + long)[i])
  {
    var s := lat + mid + long;
    forall i | 0 <= i < |s|
      ensures IsPairChar(s[i])
    {
      if i < |lat| {
        assert s[i] == lat[i];
      } else if i < |lat| + |mid| {
        assert s[i] == mid[i - |lat|];
      } else {
        assert s[i] == long[i - |lat| - |mid|];
      }
    }
  }

  /** A text the decimal-pair pattern matches holds nothing but numeral characters, white space and separators. */
  lemma PairChars(s: string)
    requires MatchDecimalPair(s).Some?
    ensures forall i | 0 <= i < |s| :: IsPairChar(s[i])
  {
    PairSound(s);
    var lat, long := MatchDecimalPair(s).value.lat.value, MatchDecimalPair(s).value.long.value;
    var mid := s[|lat|..|s| - |long|];
    NumeralChars(lat);
    GapChars(mid);
    NumeralChars(long);
    JoinedPairChars(lat, mid, long);
  }

  // ---------------------------------------------------------------------------
  // Completeness

  /** A separator gap starts with neither a digit nor a sign; a `.` that starts it stands alone or before white space. */
  lemma GapStart(gap: string)
    requires IsSeparatorGap(gap)
    ensures !IsDigit(gap[0]) && !IsSign(gap[0])
    ensures gap[0] == '.' ==> |gap| == 1 || IsSpace(gap[1])
  {
  }

  /** A separator gap written at position `i`, and not followed by white space, is scanned as written. */
  lemma GapTextAt(s: string, i: nat, gap: string)
    requires IsSeparatorGap(gap) && PieceAt(s, i, gap)
    requires i + |gap| < |s| ==> !IsSpace(s[i + |gap|])
    ensures GapEnd(s, i) == i + |gap|
  {
    var w := SpacesEnd(gap, 0);
    SpacesEndIn(s, i, gap, 0);
    PieceChar(s, i, gap, w);
    SpacesEndIn(s, i, gap, w + 1);
    assert SpacesEnd(s, i + |gap|) == i + |gap|;
  }

  /** A numeral that ends the text is scanned to the end. */
  lemma FinalNumeral(s: string, i: nat, long: string)
    requires IsDecimalText(long) && PieceAt(s, i, long) && i + |long| == |s|
    ensures DecimalEnd(s, i) == |s|
  {
    DecimalTextAt(s, i, long);
  }

  /** A numeral that starts with a digit and has no fraction is all digits. */
  lemma PlainNumeral(long: string)
    requires IsDecimalText(long) && SignPart(long) == "" && !HasFraction(long)
    ensures AllDigits(long)
  {
    DecimalTextParts(long);
  }

  /** `s` is the numeral `lat`, the separator gap `gap` and the numeral `long`, written one after the other. */
  predicate WrittenAsPair(s: string, lat: string, gap: string, long: string)
  {
    IsDecimalText(lat) && IsSeparatorGap(gap) && IsDecimalText(long)
    && |s| == |lat| + |gap| + |long|
    && PieceAt(s, 0, lat) && PieceAt(s, |lat|, gap) && PieceAt(s, |lat| + |gap|, long)
  }

  /** When a fraction could follow the latitude of a pair, the gap is a bare `.` and the longitude starts with a digit. */
  lemma DotGap(s: string, lat: string, gap: string, long: string)
    requires WrittenAsPair(s, lat, gap, long) && FracEnd(s, |lat|) > |lat|
    ensures gap == "." && IsDigit(long[0])
  {
    GapStart(gap);
    PieceChar(s, |lat|, gap, 0);
    assert gap[0] == '.' && IsDigit(s[|lat| + 1]);
    assert |gap| == 1 by {
      if |gap| > 1 {
        PieceChar(s, |lat|, gap, 1);
      }
    }
    PieceChar(s, |lat| + |gap|, long, 0);
  }

  /** Unless the pair is ambiguous, the fraction a latitude without one could take never lets the rest match. */
  lemma NoFractionTaken(s: string, lat: string, gap: string, long: string)
    requires WrittenAsPair(s, lat, gap, long) && !IsAmbiguousPair(lat, gap, long)
    requires !HasFraction(lat)
    ensures FracEnd(s, |lat|) > |lat| ==> !PairTailAt(s, FracEnd(s, |lat|))
  {
    var g := |lat| + |gap|;
    if FracEnd(s, |lat|) > |lat| {
      DotGap(s, lat, gap, long);
      DecimalTextParts(long);
      assert SignPart(long) == "";
      PlainNumeral(long);
      DigitsPiece(s, g, long);
      DigitsEndOf(s, g, |s|);
    }
  }

  /** After the latitude of a pair, the separator gap and the longitude are scanned as written. */
  lemma PairTailAfter(s: string, lat: string, gap: string, long: string)
    requires WrittenAsPair(s, lat, gap, long)
    ensures PairTailAt(s, |lat|) && GapEnd(s, |lat|) == |lat| + |gap|
  {
    var g := |lat| + |gap|;
    NumeralStart(long);
    PieceChar(s, g, long, 0);
    GapTextAt(s, |lat|, gap);
    FinalNumeral(s, g, long);
  }

  /** A pair written as numeral, separator gap and numeral is matched with those numerals, unless it is ambiguous. */
  lemma PairAt(s: string, lat: string, gap: string, long: string)
    requires WrittenAsPair(s, lat, gap, long) && !IsAmbiguousPair(lat, gap, long)
    ensures LatEnd(s) == |lat| && PairTailAt(s, |lat|) && GapEnd(s, |lat|) == |lat| + |gap|
  {
    GapStart(gap);
    PieceChar(s, |lat|, gap, 0);
    DecimalTextAt(s, 0, lat);
    PairTailAfter(s, lat, gap, long);
    if !HasFraction(lat) {
      NoFractionTaken(s, lat, gap, long);
    }
  }

  /** A pair written as numeral, separator gap and numeral is matched with those numerals as its groups, unless it is ambiguous. */
  lemma PairMatchAt(s: string, lat: string, gap: string, long: string)
    requires WrittenAsPair(s, lat, gap, long) && !IsAmbiguousPair(lat, gap, long)
    ensures MatchDecimalPair(s) == Some(PairCaptures(Some(lat), Some(long)))
  {
    PairAt(s, lat, gap, long);
    PieceSlice(s, 0, lat);
    PieceSlice(s, |lat| + |gap|, long);
    assert s[..|lat|] == s[0..|lat|];
    assert s[|lat| + |gap|..] == s[|lat| + |gap|..|s|];
  }

  /** Every numeral, separator gap and numeral is read back as written, unless the pair is ambiguous. */
  lemma PairComplete(lat: string, gap: string, long: string)
    requires IsDecimalText(lat) && IsSeparatorGap(gap) && IsDecimalText(long)
    requires !IsAmbiguousPair(lat, gap, long)
    ensures MatchDecimalPair(lat + gap + long) == Some(PairCaptures(Some(lat), Some(long)))
  {
    var s := lat + gap + long;
    ConcatPieces(lat + gap, long);
    SplitPiece(s, 0, lat, gap);
    PairMatchAt(s, lat, gap, long);
  }

  /** A latitude without a fraction that takes a fraction is still a numeral, now with a fraction. */
  lemma TakenFraction(lat: string, w: string)
    requires IsDecimalText(lat) && !HasFraction(lat) && |w| > 0 && AllDigits(w)
    ensures IsDecimalText(lat + "." + w) && HasFraction(lat + "." + w)
  {
    DecimalTextParts(lat);
    var sign, whole := SignPart(lat), WholePart(lat);
    DecimalTextShape(sign, whole, FracPart(lat));
    DecimalTextShape(sign, whole, w);
    assert DecimalText(sign, whole, w) == lat + "." + w;
  }

  /** An unsigned longitude with a fraction is its integer digits, `.` and its fraction digits, which are a numeral too. */
  lemma SplitLongitude(long: string)
    requires IsDecimalText(long) && SignPart(long) == "" && HasFraction(long)
    ensures long == WholePart(long) + "." + FracPart(long)
    ensures |WholePart(long)| > 0 && AllDigits(WholePart(long)) && IsDecimalText(FracPart(long))
  {
    DecimalTextParts(long);
    var lw, lf := WholePart(long), FracPart(long);
    DecimalTextShape("", lw, lf);
    assert lf == DecimalText("", lf, "");
    DecimalTextShape("", lf, "");
  }

  /** An ambiguous pair is read with the longitude's integer digits as the latitude's fraction. */
  lemma PairAmbiguousRead(lat: string, gap: string, long: string)
    requires IsDecimalText(lat) && IsSeparatorGap(gap) && IsDecimalText(long)
    requires IsAmbiguousPair(lat, gap, long)
    ensures IsDecimalText(lat + "." + WholePart(long))
    ensures MatchDecimalPair(lat + gap + long) == Some(PairCaptures(Some(lat + "." + WholePart(long)), Some(FracPart(long))))
  {
    var lw, lf := WholePart(long), FracPart(long);
    SplitLongitude(long);
    TakenFraction(lat, lw);
    assert IsSeparatorGap(".");
    assert lat + gap + long == (lat + "." + lw) + "." + lf;
    PairComplete(lat + "." + lw, ".", lf);
  }
}
