/**
 * ASCII character classes and the normalisation (`to_uppercase`, `trim`)
 * that the location parser applies before matching.  Only the ASCII subset of
 * Unicode's digit, white-space and case tables is modelled.
 */
module Ascii {

  /** Regex `\d`, restricted to ASCII. */
  predicate IsDigit(c: char) { '0' <= c <= '9' }

  /** `char::is_whitespace` and regex `\s`, restricted to ASCII: space, TAB, LF, VT, FF, CR. */
  predicate IsSpace(c: char) { c == ' ' || '\t' <= c <= '\r' }

  predicate IsLower(c: char) { 'a' <= c <= 'z' }

  predicate AllDigits(s: string) { forall i | 0 <= i < |s| :: IsDigit(s[i]) }

  predicate AllSpaces(s: string) { forall i | 0 <= i < |s| :: IsSpace(s[i]) }

  /** `char::to_uppercase` on ASCII; every other character is left as it is. */
  function Upper(c: char): (u: char)
    ensures IsLower(c) ==> 'A' <= u <= 'Z' && u as int - c as int == 'A' as int - 'a' as int
    ensures !IsLower(c) ==> u == c
    ensures !IsLower(u)
  {
    if IsLower(c) then (c as int - 'a' as int + 'A' as int) as char else c
  }

  /** `str::to_uppercase`, character by character. */
  function ToUpper(s: string): (r: string)
    ensures |r| == |s|
    ensures forall i | 0 <= i < |s| :: r[i] == Upper(s[i])
  {
    seq(|s|, i requires 0 <= i < |s| => Upper(s[i]))
  }

  /** Text without lower-case letters is its own upper-case form. */
  lemma ToUpperIdentity(s: string)
    requires forall i | 0 <= i < |s| :: !IsLower(s[i])
    ensures ToUpper(s) == s
  {
  }

  /** `str::trim_start`: drops the leading white space and nothing else. */
  function TrimStart(s: string): (r: string)
    ensures |r| <= |s| && r == s[|s| - |r|..]
    ensures AllSpaces(s[..|s| - |r|])
    ensures |r| > 0 ==> !IsSpace(r[0])
  {
    if |s| > 0 && IsSpace(s[0]) then TrimStart(s[1..]) else s
  }

  /** `str::trim_end`: drops the trailing white space and nothing else. */
  function TrimEnd(s: string): (r: string)
    ensures |r| <= |s| && r == s[..|r|]
    ensures AllSpaces(s[|r|..])
    ensures |r| > 0 ==> !IsSpace(r[|r| - 1])
  {
    if |s| > 0 && IsSpace(s[|s| - 1]) then TrimEnd(s[..|s| - 1]) else s
  }

  /** `str::trim` */
  function Trim(s: string): string
  {
    TrimEnd(TrimStart(s))
  }

  /** Text that neither starts nor ends with white space is left alone by `Trim`. */
  lemma TrimIdentity(s: string)
    requires |s| > 0 ==> !IsSpace(s[0]) && !IsSpace(s[|s| - 1])
    ensures Trim(s) == s
  {
  }

  /** `TrimStart` drops exactly the white space written before text that starts with something else. */
  lemma TrimStartPadded(w: string, x: string)
    requires AllSpaces(w) && |x| > 0 && !IsSpace(x[0])
    ensures TrimStart(w + x) == x
  {
    assert (w + x)[|w|..] == x;
  }

  /** `TrimEnd` drops exactly the white space written after text that ends with something else. */
  lemma TrimEndPadded(x: string, w: string)
    requires AllSpaces(w) && |x| > 0 && !IsSpace(x[|x| - 1])
    ensures TrimEnd(x + w) == x
  {
    assert (x + w)[..|x|] == x;
  }

  /**
   * Upper-casing and trimming text that has no lower-case letters, wrapped in
   * white space, gives back the text: the white space around it is dropped.
   */
  lemma NormalizePadded(w1: string, t: string, w2: string)
    requires AllSpaces(w1) && AllSpaces(w2)
    requires forall i | 0 <= i < |t| :: !IsLower(t[i])
    requires |t| > 0 && !IsSpace(t[0]) && !IsSpace(t[|t| - 1])
    ensures Trim(ToUpper(w1 + t + w2)) == t
  {
    var s := w1 + t + w2;
    forall i | 0 <= i < |s|
      ensures !IsLower(s[i])
    {
      if i < |w1| {
        assert IsSpace(w1[i]);
      } else if i < |w1| + |t| {
        assert s[i] == t[i - |w1|];
      } else {
        assert IsSpace(w2[i - |w1| - |t|]);
      }
    }
    ToUpperIdentity(s);
    assert s == w1 + (t + w2);
    TrimStartPadded(w1, t + w2);
    TrimEndPadded(t, w2);
  }

  /** Empty text on both sides of `t` leaves `t`. */
  lemma EmptyPadding(t: string)
    ensures "" + t + "" == t
  {
  }

  /** A text with no lower-case letter and no white space at its ends is its own upper-cased, trimmed form. */
  lemma NormalizeBare(t: string)
    requires forall i | 0 <= i < |t| :: !IsLower(t[i])
    requires |t| > 0 && !IsSpace(t[0]) && !IsSpace(t[|t| - 1])
    ensures Trim(ToUpper(t)) == t
  {
    NormalizePadded("", t, "");
    EmptyPadding(t);
  }

  /** Position `k` of `s` holds a digit. */
  predicate DigitAt(s: string, k: int) { 0 <= k < |s| && IsDigit(s[k]) }

  /** Position `k` of `s` holds white space. */
  predicate SpaceAt(s: string, k: int) { 0 <= k < |s| && IsSpace(s[k]) }

  /** End of the run of digits that starts at position `i` (greedy `\d*`). */
  function DigitsEnd(s: string, i: nat): (j: nat)
    requires i <= |s|
    ensures i <= j <= |s|
    ensures forall k | i <= k < j :: DigitAt(s, k)
    ensures j < |s| ==> !IsDigit(s[j])
    decreases |s| - i
  {
    if i < |s| && IsDigit(s[i]) then DigitsEnd(s, i + 1) else i
  }

  /** End of the run of white space that starts at position `i` (greedy `\s*`). */
  function SpacesEnd(s: string, i: nat): (j: nat)
    requires i <= |s|
    ensures i <= j <= |s|
    ensures forall k | i <= k < j :: SpaceAt(s, k)
    ensures j < |s| ==> !IsSpace(s[j])
    decreases |s| - i
  {
    if i < |s| && IsSpace(s[i]) then SpacesEnd(s, i + 1) else i
  }

  /** A run of digits ends exactly where the digits stop. */
  lemma {:induction false} DigitsEndOf(s: string, i: nat, j: nat)
    requires i <= j <= |s|
    requires forall k | i <= k < j :: DigitAt(s, k)
    requires j < |s| ==> !IsDigit(s[j])
    ensures DigitsEnd(s, i) == j
    decreases j - i
  {
    if i < j {
      assert DigitAt(s, i);
      DigitsEndOf(s, i + 1, j);
    }
  }

  /** Every slice of a text of digits is digits. */
  lemma DigitsSlice(s: string, i: nat, j: nat)
    requires AllDigits(s) && i <= j <= |s|
    ensures AllDigits(s[i..j])
  {
    forall q | 0 <= q < j - i
      ensures IsDigit(s[i..j][q])
    {
      assert s[i..j][q] == s[i + q];
    }
  }

  /** A run of digits is all digits. */
  lemma DigitRun(s: string, i: nat)
    requires i <= |s|
    ensures AllDigits(s[i..DigitsEnd(s, i)])
  {
    var j := DigitsEnd(s, i);
    forall q | 0 <= q < j - i
      ensures IsDigit(s[i..j][q])
    {
      assert DigitAt(s, i + q);
    }
  }

  /** A run of white space is all white space. */
  lemma SpaceRun(s: string, i: nat)
    requires i <= |s|
    ensures AllSpaces(s[i..SpacesEnd(s, i)])
  {
    var j := SpacesEnd(s, i);
    forall q | 0 <= q < j - i
      ensures IsSpace(s[i..j][q])
    {
      assert SpaceAt(s, i + q);
    }
  }

  /** A run of white space ends exactly where the white space stops. */
  lemma {:induction false} SpacesEndOf(s: string, i: nat, j: nat)
    requires i <= j <= |s|
    requires forall k | i <= k < j :: SpaceAt(s, k)
    requires j < |s| ==> !IsSpace(s[j])
    ensures SpacesEnd(s, i) == j
    decreases j - i
  {
    if i < j {
      assert SpaceAt(s, i);
      SpacesEndOf(s, i + 1, j);
    }
  }

  // ---------------------------------------------------------------------------
  // Pieces of a text

  /** Position `k` of `x` is written at position `i + k` of `s`. */
  predicate SameChar(s: string, i: nat, x: string, k: nat)
  {
    i + k < |s| && k < |x| && s[i + k] == x[k]
  }

  /** `x` is written in `s` at position `i`. */
  predicate PieceAt(s: string, i: nat, x: string)
  {
    i + |x| <= |s| && forall k | 0 <= k < |x| :: SameChar(s, i, x, k)
  }

  /** The characters of a piece are the characters of the text at its position. */
  lemma PieceChar(s: string, i: nat, x: string, k: nat)
    requires PieceAt(s, i, x) && k < |x|
    ensures s[i + k] == x[k]
  {
    assert SameChar(s, i, x, k);
  }

  /** A text is written in itself at position 0. */
  lemma WholePiece(s: string)
    ensures PieceAt(s, 0, s)
  {
    forall k | 0 <= k < |s|
      ensures SameChar(s, 0, s, k)
    {
    }
  }

  /** The two parts of a concatenation are written in it, one after the other. */
  lemma ConcatPieces(x: string, y: string)
    ensures PieceAt(x + y, 0, x) && PieceAt(x + y, |x|, y)
  {
    forall k | 0 <= k < |x|
      ensures SameChar(x + y, 0, x, k)
    {
    }
    forall k | 0 <= k < |y|
      ensures SameChar(x + y, |x|, y, k)
    {
    }
  }

  /** A slice of a text is written in it at the slice's start. */
  lemma SlicePiece(s: string, i: nat, j: nat)
    requires i <= j <= |s|
    ensures PieceAt(s, i, s[i..j])
  {
    forall k | 0 <= k < j - i
      ensures SameChar(s, i, s[i..j], k)
    {
    }
  }

  /** A character of a text is a piece of it. */
  lemma CharPiece(s: string, i: nat)
    requires i < |s|
    ensures PieceAt(s, i, [s[i]])
  {
    assert SameChar(s, i, [s[i]], 0);
  }

  /** Three pieces that cover the text one after the other are the whole text. */
  lemma CoveredBy(s: string, x: string, y: string, z: string)
    requires PieceAt(s, 0, x) && PieceAt(s, |x|, y) && PieceAt(s, |x| + |y|, z)
    requires |x| + |y| + |z| == |s|
    ensures s == x + y + z
  {
    JoinPiece(s, 0, x, y);
    JoinPiece(s, 0, x + y, z);
    PieceSlice(s, 0, x + y + z);
    assert s == s[0..|s|];
  }

  /** Two pieces written one after the other make one piece. */
  lemma JoinPiece(s: string, i: nat, x: string, y: string)
    requires PieceAt(s, i, x) && PieceAt(s, i + |x|, y)
    ensures PieceAt(s, i, x + y)
  {
    forall k | 0 <= k < |x + y|
      ensures SameChar(s, i, x + y, k)
    {
      if k < |x| {
        assert SameChar(s, i, x, k);
      } else {
        assert SameChar(s, i + |x|, y, k - |x|);
      }
    }
  }

  /** Pieces written one after the other, up to five of them, make one piece. */
  lemma JoinPieces(s: string, i: nat, x1: string, x2: string, x3: string, x4: string, x5: string)
    requires PieceAt(s, i, x1) && PieceAt(s, i + |x1|, x2) && PieceAt(s, i + |x1| + |x2|, x3)
    requires PieceAt(s, i + |x1| + |x2| + |x3|, x4) && PieceAt(s, i + |x1| + |x2| + |x3| + |x4|, x5)
    ensures PieceAt(s, i, x1 + x2 + x3 + x4 + x5)
  {
    JoinPiece(s, i, x1, x2);
    JoinPiece(s, i, x1 + x2, x3);
    JoinPiece(s, i, x1 + x2 + x3, x4);
    JoinPiece(s, i, x1 + x2 + x3 + x4, x5);
  }

  /** A piece is the slice of the text that it covers. */
  lemma PieceSlice(s: string, i: nat, x: string)
    requires PieceAt(s, i, x)
    ensures s[i..i + |x|] == x
  {
    forall k | 0 <= k < |x|
      ensures s[i..i + |x|][k] == x[k]
    {
      PieceChar(s, i, x, k);
    }
  }

  /** A piece made of two parts holds each part, one after the other. */
  lemma SplitPiece(s: string, i: nat, x: string, y: string)
    requires PieceAt(s, i, x + y)
    ensures PieceAt(s, i, x) && PieceAt(s, i + |x|, y)
  {
    forall k | 0 <= k < |x|
      ensures SameChar(s, i, x, k)
    {
      assert SameChar(s, i, x + y, k);
    }
    var j := i + |x|;
    forall k | 0 <= k < |y|
      ensures SameChar(s, j, y, k)
    {
      assert SameChar(s, i, x + y, |x| + k);
    }
  }

  /** The positions of a piece of digits hold digits. */
  lemma DigitsPiece(s: string, i: nat, x: string)
    requires PieceAt(s, i, x) && AllDigits(x)
    ensures forall k | i <= k < i + |x| :: DigitAt(s, k)
  {
    forall k | i <= k < i + |x|
      ensures DigitAt(s, k)
    {
      PieceChar(s, i, x, k - i);
    }
  }

  /** A text is the concatenation of its slices between increasing positions. */
  lemma SliceConcat(s: string, i: nat, j: nat, k: nat)
    requires i <= j <= k <= |s|
    ensures s[i..k] == s[i..j] + s[j..k]
  {
  }

  /**
   * The digits that start at position `p` of a piece run as they do in the
   * text, until the piece ends; from there the text decides.
   */
  lemma {:induction false} DigitsEndIn(s: string, i: nat, x: string, p: nat)
    requires PieceAt(s, i, x) && p <= |x|
    ensures DigitsEnd(x, p) < |x| ==> DigitsEnd(s, i + p) == i + DigitsEnd(x, p)
    ensures DigitsEnd(x, p) == |x| ==> DigitsEnd(s, i + p) == DigitsEnd(s, i + |x|)
    decreases |x| - p
  {
    if p < |x| {
      PieceChar(s, i, x, p);
      if IsDigit(x[p]) {
        DigitsEndIn(s, i, x, p + 1);
      }
    }
  }

  /** A run of digits in the text that stops within a piece stops at the same place in the piece. */
  lemma DigitsEndWithin(s: string, i: nat, x: string, p: nat)
    requires PieceAt(s, i, x) && p <= |x| && DigitsEnd(s, i + p) <= i + |x|
    ensures DigitsEnd(x, p) == DigitsEnd(s, i + p) - i
  {
    DigitsEndIn(s, i, x, p);
  }

  /**
   * The white space that starts at position `p` of a piece runs as it does in
   * the text, until the piece ends; from there the text decides.
   */
  lemma {:induction false} SpacesEndIn(s: string, i: nat, x: string, p: nat)
    requires PieceAt(s, i, x) && p <= |x|
    ensures SpacesEnd(x, p) < |x| ==> SpacesEnd(s, i + p) == i + SpacesEnd(x, p)
    ensures SpacesEnd(x, p) == |x| ==> SpacesEnd(s, i + p) == SpacesEnd(s, i + |x|)
    decreases |x| - p
  {
    if p < |x| {
      PieceChar(s, i, x, p);
      if IsSpace(x[p]) {
        SpacesEndIn(s, i, x, p + 1);
      }
    }
  }

  /** A run of white space in the text that stops within a piece stops at the same place in the piece. */
  lemma SpacesEndWithin(s: string, i: nat, x: string, p: nat)
    requires PieceAt(s, i, x) && p <= |x| && SpacesEnd(s, i + p) <= i + |x|
    ensures SpacesEnd(x, p) == SpacesEnd(s, i + p) - i
  {
    SpacesEndIn(s, i, x, p);
  }
}
