/**
 * formatDisplay: how the display string is rendered. Error literals become the
 * localised error text, over-long values switch to exponential notation, and
 * otherwise the part before the first '.' gets thousands separators.
 */
module DisplayFormat {
  import opened Numbers

  /** MAX_CHARS, the display's character cap. */
  const MaxChars := 12

  predicate IsDigit(c: char) { '0' <= c <= '9' }

  /** A character that `\w` matches. */
  predicate IsWordChar(c: char)
  {
    IsDigit(c) || 'a' <= c <= 'z' || 'A' <= c <= 'Z' || c == '_'
  }

  predicate AllDigits(s: string)
  {
    forall i :: 0 <= i < |s| ==> IsDigit(s[i])
  }

  predicate EndsWith(s: string, suffix: string)
  {
    |suffix| <= |s| && s[|s| - |suffix|..] == suffix
  }

  // ---------------------------------------------------------------------------
  // Thousands separators: parts[0].replace(/\B(?=(\d{3})+(?!\d))/g, ",")
  // ---------------------------------------------------------------------------

  /** The length of the maximal run of digits that starts at position i. */
  function DigitRun(s: string, i: nat): (n: nat)
    requires i <= |s|
    ensures i + n <= |s|
    ensures n > 0 ==> IsDigit(s[i])
    ensures i + n < |s| ==> !IsDigit(s[i + n])
    decreases |s| - i
  {
    if i < |s| && IsDigit(s[i]) then 1 + DigitRun(s, i + 1) else 0
  }

  /**
   * Whether the separator pattern matches at position i: i is not a word
   * boundary (the character before it is a word character, and so is the digit
   * at it) and the digits starting at i form whole groups of three, that is the
   * maximal digit run from i is a positive multiple of three long.
   */
  predicate CommaBefore(s: string, i: nat)
    requires i <= |s|
  {
    0 < i && IsWordChar(s[i - 1]) && DigitRun(s, i) > 0 && DigitRun(s, i) % 3 == 0
  }

  /** Character i of s, with the separator the replacement puts before it. */
  function Piece(s: string, i: nat): string
    requires i < |s|
  {
    (if CommaBefore(s, i) then "," else "") + [s[i]]
  }

  /** The output of the global replacement for the first j characters of s. */
  function InsertCommas(s: string, j: nat): string
    requires j <= |s|
  {
    if j == 0 then "" else InsertCommas(s, j - 1) + Piece(s, j - 1)
  }

  function AddCommas(s: string): string
  {
    InsertCommas(s, |s|)
  }

  /** Deleting every ',' of a string. */
  function StripCommas(s: string): string
  {
    if s == [] then []
    else StripCommas(s[..|s| - 1]) + (if s[|s| - 1] == ',' then [] else [s[|s| - 1]])
  }

  lemma {:induction false} StripCommasNoComma(s: string)
    requires ',' !in s
    ensures StripCommas(s) == s
  {
    if s != [] {
      assert ',' !in s[..|s| - 1];
      StripCommasNoComma(s[..|s| - 1]);
      PrefixStep(s, |s|);
    }
  }

  /** The position of the first '.', or the length when there is none. */
  function FirstDot(s: string): (i: nat)
    ensures i <= |s|
    ensures '.' !in s[..i]
    ensures i < |s| ==> s[i] == '.'
  {
    if s == [] || s[0] == '.' then 0
    else
      var j := FirstDot(s[1..]);
      assert s[..j + 1] == [s[0]] + s[1..][..j];
      j + 1
  }

  /** The first '.' is the one position with no '.' before it and a '.' at it. */
  lemma {:induction false} FirstDotUnique(s: string, i: nat)
    requires i <= |s| && '.' !in s[..i] && (i < |s| ==> s[i] == '.')
    ensures FirstDot(s) == i
  {
    if s != [] && s[0] != '.' {
      assert i > 0;
      assert s[1..][..i - 1] == s[..i][1..];
      FirstDotUnique(s[1..], i - 1);
    }
  }

  // ---------------------------------------------------------------------------
  // Exponential form: num.toExponential(6).replace(/\.?0+e/, 'e')
  // ---------------------------------------------------------------------------

  /** The length of the maximal run of '0' that starts at position i. */
  function ZeroRun(s: string, i: nat): (n: nat)
    requires i <= |s|
    ensures i + n <= |s|
    ensures i + n < |s| ==> s[i + n] != '0'
    decreases |s| - i
  {
    if i < |s| && s[i] == '0' then 1 + ZeroRun(s, i + 1) else 0
  }

  /** Whether `0+e` matches at position i (the zero run cannot give back a zero and still meet 'e'). */
  predicate ZerosThenE(s: string, i: nat)
    requires i <= |s|
  {
    var n := ZeroRun(s, i);
    n > 0 && i + n < |s| && s[i + n] == 'e'
  }

  /** The length of the match of `\.?0+e` at position i, or 0 when it does not match there. */
  function MatchLength(s: string, i: nat): (n: nat)
    requires i <= |s|
    ensures i + n <= |s|
  {
    if i < |s| && s[i] == '.' && ZerosThenE(s, i + 1) then ZeroRun(s, i + 1) + 2
    else if ZerosThenE(s, i) then ZeroRun(s, i) + 1
    else 0
  }

  /** Replaces the leftmost match at or after position i by "e". */
  function ReplaceFirstFrom(s: string, i: nat): string
    requires i <= |s|
    decreases |s| - i
  {
    if i == |s| then s
    else if MatchLength(s, i) > 0 then s[..i] + "e" + s[i + MatchLength(s, i)..]
    else ReplaceFirstFrom(s, i + 1)
  }

  function TrimExponent(s: string): string
  {
    ReplaceFirstFrom(s, 0)
  }

  // ---------------------------------------------------------------------------
  // formatDisplay
  // ---------------------------------------------------------------------------

  predicate IsErrorLiteral(val: string)
  {
    val == "Infinity" || val == "-Infinity" || val == "NaN"
  }

  /** formatDisplay(val), with the translation's error text as a parameter. */
  function FormatDisplay(p: Platform, error: string, val: string): (r: string)
    ensures IsErrorLiteral(val) ==> r == error
    ensures !IsErrorLiteral(val) && |val| > MaxChars && p.parseFloat(val) == NaN ==>
              r == val[..MaxChars]
  {
    if IsErrorLiteral(val) then error
    else if |val| > MaxChars then
      var num := p.parseFloat(val);
      if num != NaN then TrimExponent(p.toExponential(num, 6)) else val[..MaxChars]
    else SeparateThousands(val)
  }

  lemma FormatDisplayFits(p: Platform, error: string, val: string)
    requires !IsErrorLiteral(val) && |val| <= MaxChars
    ensures FormatDisplay(p, error, val) == SeparateThousands(val)
  {
  }

  /** `val.split('.')`, separators in the first part, `join('.')`. */
  function SeparateThousands(val: string): string
  {
    var i := FirstDot(val);
    AddCommas(val[..i]) + val[i..]
  }

  // ---------------------------------------------------------------------------
  // Properties of the separators
  // ---------------------------------------------------------------------------

  lemma {:induction false} StripCommasAppend(a: string, b: string)
    ensures StripCommas(a + b) == StripCommas(a) + StripCommas(b)
    decreases |b|
  {
    if b == [] {
      assert a + b == a;
    } else {
      var b' := b[..|b| - 1];
      assert (a + b)[..|a + b| - 1] == a + b';
      StripCommasAppend(a, b');
    }
  }

  lemma PrefixStep(s: string, j: nat)
    requires 0 < j <= |s|
    ensures s[..j] == s[..j - 1] + [s[j - 1]]
  {
  }

  /** The separators are the only thing the replacement adds. */
  lemma {:induction false} StripInsertCommas(s: string, j: nat)
    requires j <= |s|
    ensures StripCommas(InsertCommas(s, j)) == StripCommas(s[..j])
  {
    if j > 0 {
      var prev := InsertCommas(s, j - 1);
      var last: string := [s[j - 1]];
      calc {
        StripCommas(InsertCommas(s, j));
        StripCommas(prev + Piece(s, j - 1));
        { StripCommasAppend(prev, Piece(s, j - 1)); StripPiece(s, j - 1); }
        StripCommas(prev) + StripCommas(last);
        { StripInsertCommas(s, j - 1); }
        StripCommas(s[..j - 1]) + StripCommas(last);
        { StripCommasAppend(s[..j - 1], last); PrefixStep(s, j); }
        StripCommas(s[..j]);
      }
    }
  }

  lemma StripPiece(s: string, i: nat)
    requires i < |s|
    ensures StripCommas(Piece(s, i)) == StripCommas([s[i]])
  {
    var c: string := if CommaBefore(s, i) then "," else "";
    assert Piece(s, i) == c + [s[i]];
    StripCommasAppend(c, [s[i]]);
    StripNoComma(c);
  }

  lemma StripNoComma(c: string)
    requires c == "" || c == ","
    ensures StripCommas(c) == ""
  {
    if c != [] { assert c[..0] == []; }
  }

  /** Deleting the separators gives the text back; everything from the first '.' on is kept verbatim. */
  lemma SeparateThousandsKeepsText(val: string)
    ensures StripCommas(SeparateThousands(val)) == StripCommas(val)
    ensures EndsWith(SeparateThousands(val), val[FirstDot(val)..])
  {
    var i := FirstDot(val);
    var head, tail := val[..i], val[i..];
    calc {
      StripCommas(SeparateThousands(val));
      StripCommas(AddCommas(head) + tail);
      { StripCommasAppend(AddCommas(head), tail); }
      StripCommas(AddCommas(head)) + StripCommas(tail);
      { StripInsertCommas(head, |head|); assert head[..|head|] == head; }
      StripCommas(head) + StripCommas(tail);
      { StripCommasAppend(head, tail); assert head + tail == val; }
      StripCommas(val);
    }
  }

  /**
   * A value that fits the display comes back when its separators are deleted,
   * and everything from its first '.' on is kept verbatim.
   */
  lemma FormatDisplayKeepsText(p: Platform, error: string, val: string)
    requires !IsErrorLiteral(val) && |val| <= MaxChars
    ensures StripCommas(FormatDisplay(p, error, val)) == StripCommas(val)
    ensures ',' !in val ==> StripCommas(FormatDisplay(p, error, val)) == val
    ensures EndsWith(FormatDisplay(p, error, val), val[FirstDot(val)..])
  {
    FormatDisplayFits(p, error, val);
    SeparateThousandsKeepsText(val);
    if ',' !in val {
      StripCommasNoComma(val);
    }
  }

  /** Ordinary thousands grouping of a digit string, from the right. */
  function Grouping(d: string): string
    decreases |d|
  {
    if |d| <= 3 then d else Grouping(d[..|d| - 3]) + "," + d[|d| - 3..]
  }

  /** In a digit string a separator goes before i exactly when i > 0 and a multiple of three digits follow. */
  lemma CommaBeforeDigits(d: string, i: nat)
    requires AllDigits(d) && i < |d|
    ensures CommaBefore(d, i) <==> 0 < i && (|d| - i) % 3 == 0
  {
    DigitRunToEnd(d, i);
  }

  /** When only digits follow position i, the digit run from i reaches the end. */
  lemma {:induction false} DigitRunToEnd(s: string, i: nat)
    requires i <= |s|
    requires forall k :: i <= k < |s| ==> IsDigit(s[k])
    ensures DigitRun(s, i) == |s| - i
    decreases |s| - i
  {
    if i < |s| {
      DigitRunToEnd(s, i + 1);
    }
  }

  lemma {:induction false} InsertCommasShortDigits(d: string, j: nat)
    requires AllDigits(d) && |d| <= 3 && j <= |d|
    ensures InsertCommas(d, j) == d[..j]
  {
    if j > 0 {
      InsertCommasShortDigits(d, j - 1);
      assert Piece(d, j - 1) == [d[j - 1]] by { CommaBeforeDigits(d, j - 1); }
      PrefixStep(d, j);
    }
  }

  /** Dropping whole groups of three digits from the right does not move the earlier separators. */
  lemma {:induction false} InsertCommasPrefix(d: string, x: string, j: nat)
    requires AllDigits(d) && |x| <= |d| && x == d[..|x|] && (|d| - |x|) % 3 == 0
    requires j <= |x|
    ensures InsertCommas(d, j) == InsertCommas(x, j)
  {
    if j > 0 {
      InsertCommasPrefix(d, x, j - 1);
      assert Piece(d, j - 1) == Piece(x, j - 1) by {
        CommaBeforeDigits(d, j - 1);
        CommaBeforeDigits(x, j - 1);
      }
    }
  }

  /** The last three digits of a digit string longer than three: one separator, before them. */
  lemma LastGroup(d: string)
    requires AllDigits(d) && |d| > 3
    ensures InsertCommas(d, |d|) == InsertCommas(d, |d| - 3) + "," + d[|d| - 3..]
  {
    var n := |d|;
    UnfoldThree(d, n);
    LastPieces(d);
    Regroup(InsertCommas(d, n - 3), ",", d[n - 3..]);
  }

  lemma UnfoldThree(s: string, j: nat)
    requires 3 <= j <= |s|
    ensures InsertCommas(s, j) == InsertCommas(s, j - 3) + (Piece(s, j - 3) + Piece(s, j - 2) + Piece(s, j - 1))
  {
    assert InsertCommas(s, j) == InsertCommas(s, j - 1) + Piece(s, j - 1);
    assert InsertCommas(s, j - 1) == InsertCommas(s, j - 2) + Piece(s, j - 2);
    assert InsertCommas(s, j - 2) == InsertCommas(s, j - 3) + Piece(s, j - 3);
  }

  lemma LastPieces(d: string)
    requires AllDigits(d) && |d| > 3
    ensures Piece(d, |d| - 3) + Piece(d, |d| - 2) + Piece(d, |d| - 1) == "," + d[|d| - 3..]
  {
    var n := |d|;
    CommaBeforeDigits(d, n - 3);
    CommaBeforeDigits(d, n - 2);
    CommaBeforeDigits(d, n - 1);
    assert d[n - 3..] == [d[n - 3], d[n - 2], d[n - 1]];
  }

  lemma Regroup(a: string, b: string, c: string)
    ensures a + (b + c) == a + b + c
  {
  }

  /** For a digit string the separator pattern is ordinary thousands grouping. */
  lemma {:induction false} AddCommasDigits(d: string)
    requires AllDigits(d)
    ensures AddCommas(d) == Grouping(d)
    decreases |d|
  {
    if |d| <= 3 {
      InsertCommasShortDigits(d, |d|);
    } else {
      var n := |d|;
      var x := d[..n - 3];
      LastGroup(d);
      InsertCommasPrefix(d, x, n - 3);
      AddCommasDigits(x);
    }
  }

  /** A leading '-' is not a word character, so it never gets a separator after it. */
  lemma {:induction false} InsertCommasAfterSign(d: string, j: nat)
    requires AllDigits(d) && j <= |d|
    ensures InsertCommas("-" + d, j + 1) == "-" + InsertCommas(d, j)
  {
    var s := "-" + d;
    if j == 0 {
      assert InsertCommas(s, 1) == InsertCommas(s, 0) + Piece(s, 0);
    } else {
      calc {
        InsertCommas(s, j + 1);
        InsertCommas(s, j) + Piece(s, j);
        { InsertCommasAfterSign(d, j - 1); }
        ("-" + InsertCommas(d, j - 1)) + Piece(s, j);
        { PieceAfterSign(d, j); }
        ("-" + InsertCommas(d, j - 1)) + Piece(d, j - 1);
        "-" + (InsertCommas(d, j - 1) + Piece(d, j - 1));
        "-" + InsertCommas(d, j);
      }
    }
  }

  lemma PieceAfterSign(d: string, j: nat)
    requires AllDigits(d) && 0 < j <= |d|
    ensures Piece("-" + d, j) == Piece(d, j - 1)
  {
    var s := "-" + d;
    assert s[j] == d[j - 1];
    assert DigitRun(s, j) == |s| - j by {
      forall k | j <= k < |s| ensures IsDigit(s[k]) { assert s[k] == d[k - 1]; }
      DigitRunToEnd(s, j);
    }
    CommaBeforeDigits(d, j - 1);
  }

  /** A leading '-', if any, then digits: the separators are ordinary thousands grouping. */
  lemma SignedDigitsGrouping(sign: string, d: string)
    requires sign == "" || sign == "-"
    requires AllDigits(d)
    ensures AddCommas(sign + d) == sign + Grouping(d)
  {
    AddCommasDigits(d);
    if sign == "-" {
      InsertCommasAfterSign(d, |d|);
      assert AddCommas("-" + d) == InsertCommas("-" + d, |d| + 1);
    } else {
      assert sign + d == d;
    }
  }

  /** In a sign, digits and a tail that starts with '.', the first '.' is the tail's. */
  lemma NumeralFirstDot(sign: string, d: string, tail: string)
    requires sign == "" || sign == "-"
    requires AllDigits(d)
    requires tail == "" || tail[0] == '.'
    ensures FirstDot(sign + d + tail) == |sign| + |d|
  {
    var head := sign + d;
    NoDotInSignedDigits(sign, d);
    HeadOfConcat(head, tail);
    FirstDotUnique(head + tail, |head|);
  }

  lemma NoDotInSignedDigits(sign: string, d: string)
    requires sign == "" || sign == "-"
    requires AllDigits(d)
    ensures '.' !in sign + d
  {
    assert forall k :: 0 <= k < |d| ==> d[k] != '.';
  }

  lemma HeadOfConcat(head: string, tail: string)
    ensures (head + tail)[..|head|] == head
    ensures tail != "" ==> (head + tail)[|head|] == tail[0]
  {
  }

  lemma NumeralNotErrorLiteral(sign: string, d: string, tail: string)
    requires sign == "" || sign == "-"
    requires AllDigits(d)
    requires tail == "" || tail[0] == '.'
    ensures !IsErrorLiteral(sign + d + tail)
  {
    var val := sign + d + tail;
    if sign == "-" {
      assert val[0] == '-';
      if |val| > 1 { assert val[1] == if d != [] then d[0] else tail[0]; }
    } else if d != [] {
      assert val[0] == d[0];
    } else {
      assert val == tail;
    }
  }

  /**
   * For an optional '-' followed by digits, and then anything from the first '.'
   * on, formatDisplay groups the digits in threes and keeps the rest.
   */
  lemma FormatNumeral(p: Platform, error: string, sign: string, d: string, tail: string)
    requires sign == "" || sign == "-"
    requires AllDigits(d)
    requires tail == "" || tail[0] == '.'
    requires |sign + d + tail| <= MaxChars
    ensures FormatDisplay(p, error, sign + d + tail) == sign + Grouping(d) + tail
  {
    var val := sign + d + tail;
    NumeralNotErrorLiteral(sign, d, tail);
    NumeralFirstDot(sign, d, tail);
    FormatDisplayFits(p, error, val);
    var i := |sign| + |d|;
    assert val[..i] == sign + d;
    assert val[i..] == tail;
    SignedDigitsGrouping(sign, d);
  }

  /** "1234567.5" is shown as "1,234,567.5". */
  lemma GroupingExample(p: Platform, error: string)
    ensures FormatDisplay(p, error, "1234567.5") == "1,234,567.5"
  {
    var d := "1234567";
    assert d[..4] == "1234" && d[4..] == "567";
    assert "1234"[..1] == "1" && "1234"[1..] == "234";
    assert Grouping("1234") == "1,234";
    assert Grouping(d) == "1,234,567";
    FormatNumeral(p, error, "", d, ".5");
    assert "" + d + ".5" == "1234567.5";
    assert "" + "1,234,567" + ".5" == "1,234,567.5";
  }

  // ---------------------------------------------------------------------------
  // Properties of the exponent trimming
  // ---------------------------------------------------------------------------

  /** How much of the fraction f is left once its trailing zeros are dropped. */
  function KeptLength(f: string): (n: nat)
    ensures n <= |f|
    ensures n == 0 || f[n - 1] != '0'
  {
    if f != [] && f[|f| - 1] == '0' then KeptLength(f[..|f| - 1]) else |f|
  }

  /** Only zeros were dropped. */
  lemma {:induction false} KeptLengthZeros(f: string)
    ensures forall k :: KeptLength(f) <= k < |f| ==> f[k] == '0'
  {
    if f != [] && f[|f| - 1] == '0' {
      var g := f[..|f| - 1];
      KeptLengthZeros(g);
      assert forall k :: KeptLength(g) <= k < |g| ==> f[k] == g[k];
    }
  }

  /** The fraction as the trimmed exponential form shows it: no trailing zeros, and no '.' once nothing is left. */
  function TrimmedFraction(f: string): string
  {
    var n := KeptLength(f);
    if n == 0 then "" else "." + f[..n]
  }

  lemma {:induction false} ZeroRunStops(s: string, q: nat, b: nat)
    requires q <= b < |s| && s[b] != '0'
    ensures q + ZeroRun(s, q) <= b
    decreases b - q
  {
    if s[q] == '0' {
      ZeroRunStops(s, q + 1, b);
    }
  }

  lemma {:induction false} ZeroRunReaches(s: string, q: nat, b: nat)
    requires q <= b < |s| && s[b] != '0'
    requires forall t :: q <= t < b ==> s[t] == '0'
    ensures ZeroRun(s, q) == b - q
    decreases b - q
  {
    if q < b {
      ZeroRunReaches(s, q + 1, b);
    }
  }

  /** The pattern cannot match at q when the zeros from q stop, at or before b, at a character that is not 'e'. */
  lemma NoMatchBefore(s: string, lo: nat, q: nat, b: nat)
    requires lo <= q < b < |s| && s[b] != '0'
    requires forall t :: lo <= t <= b ==> s[t] != 'e'
    ensures MatchLength(s, q) == 0
  {
    ZeroRunStops(s, q, b);
    ZeroRunStops(s, q + 1, b);
  }

  /** Nor can it match where no 'e' follows. */
  lemma NoMatchWithoutE(s: string, q: nat)
    requires q < |s|
    requires forall t :: q <= t < |s| ==> s[t] != 'e'
    ensures MatchLength(s, q) == 0
  {
  }

  lemma {:induction false} SkipNoMatch(s: string, i: nat, j: nat)
    requires i <= j <= |s|
    requires forall q :: i <= q < j ==> MatchLength(s, q) == 0
    ensures ReplaceFirstFrom(s, i) == ReplaceFirstFrom(s, j)
    decreases j - i
  {
    if i < j {
      SkipNoMatch(s, i + 1, j);
    }
  }

  /** Nothing before the mantissa's '.' can start a match. */
  lemma ScanToDot(s: string, dot: nat)
    requires dot < |s| && s[dot] == '.'
    requires forall t :: 0 <= t < dot ==> s[t] != 'e' && s[t] != '.'
    ensures ReplaceFirstFrom(s, 0) == ReplaceFirstFrom(s, dot)
  {
    forall q | 0 <= q < dot ensures MatchLength(s, q) == 0 {
      NoMatchBefore(s, 0, q, dot);
    }
    SkipNoMatch(s, 0, dot);
  }

  /** Zeros from q up to an 'e': the match at q is those zeros and the 'e'. */
  lemma ReplaceAtZeros(s: string, q: nat, e: nat)
    requires q < e < |s| && s[e] == 'e'
    requires forall t :: q <= t < e ==> s[t] == '0'
    ensures ReplaceFirstFrom(s, q) == s[..q] + "e" + s[e + 1..]
  {
    ZeroRunReaches(s, q, e);
  }

  /** A fraction of zeros only: the match is the '.', the zeros and the 'e'. */
  lemma ScanZeroFraction(s: string, dot: nat, e: nat)
    requires dot + 1 < e < |s| && s[dot] == '.' && s[e] == 'e'
    requires forall t :: dot < t < e ==> s[t] == '0'
    ensures ReplaceFirstFrom(s, dot) == s[..dot] + "e" + s[e + 1..]
  {
    ZeroRunReaches(s, dot + 1, e);
  }

  /** The last nonzero fraction digit is at b and zeros follow it up to the 'e': the match is those zeros and the 'e'. */
  lemma ScanTrailingZeros(s: string, dot: nat, b: nat, e: nat)
    requires dot < b && b + 1 < e < |s| && s[dot] == '.' && s[e] == 'e' && s[b] != '0'
    requires forall t :: dot < t <= b ==> s[t] != 'e' && s[t] != '.'
    requires forall t :: b < t < e ==> s[t] == '0'
    ensures ReplaceFirstFrom(s, dot) == s[..b + 1] + "e" + s[e + 1..]
  {
    SkipToLastDigit(s, dot, b);
    ReplaceAtZeros(s, b + 1, e);
  }

  lemma SkipToLastDigit(s: string, dot: nat, b: nat)
    requires dot < b < |s| && s[b] != '0'
    requires forall t :: dot <= t <= b ==> s[t] != 'e'
    requires s[b] != '.'
    ensures ReplaceFirstFrom(s, dot) == ReplaceFirstFrom(s, b + 1)
  {
    forall q | dot <= q < b ensures MatchLength(s, q) == 0 {
      NoMatchBefore(s, dot, q, b);
    }
    NoMatchAtDigit(s, b);
    SkipNoMatch(s, dot, b + 1);
  }

  lemma NoMatchAtDigit(s: string, b: nat)
    requires b < |s| && s[b] != '0' && s[b] != '.'
    ensures MatchLength(s, b) == 0
  {
  }

  /** The fraction ends in a nonzero digit and no 'e' follows the exponent marker: nothing matches. */
  lemma ScanNoTrailingZeros(s: string, dot: nat, e: nat)
    requires dot + 1 < e < |s| && s[dot] == '.' && s[e] == 'e' && s[e - 1] != '0'
    requires forall t :: dot < t < e ==> s[t] != 'e' && s[t] != '.'
    requires forall t :: e < t < |s| ==> s[t] != 'e'
    ensures ReplaceFirstFrom(s, dot) == s
  {
    forall q | dot <= q < e - 1 ensures MatchLength(s, q) == 0 {
      NoMatchBefore(s, dot, q, e - 1);
    }
    assert MatchLength(s, e - 1) == 0;
    assert MatchLength(s, e) == 0;
    forall q | e < q < |s| ensures MatchLength(s, q) == 0 {
      NoMatchWithoutE(s, q);
    }
    SkipNoMatch(s, dot, |s|);
  }

  /** The layout toExponential produces, read on positions: mantissa, '.' at dot, fraction digits, 'e' at e, exponent. */
  ghost predicate ExponentialLayout(s: string, dot: nat, e: nat)
  {
    && dot + 1 < e < |s|
    && (forall t :: 0 <= t < dot ==> s[t] != 'e' && s[t] != '.')
    && s[dot] == '.' && s[e] == 'e'
    && (forall t :: dot < t < e ==> IsDigit(s[t]))
    && (forall t :: e < t < |s| ==> s[t] != 'e')
  }

  lemma LayoutZeroFraction(s: string, dot: nat, e: nat)
    requires ExponentialLayout(s, dot, e)
    requires forall t :: dot < t < e ==> s[t] == '0'
    ensures TrimExponent(s) == s[..dot] + "e" + s[e + 1..]
  {
    ScanToDot(s, dot);
    ScanZeroFraction(s, dot, e);
  }

  lemma LayoutTrailingZeros(s: string, dot: nat, b: nat, e: nat)
    requires ExponentialLayout(s, dot, e)
    requires dot < b && b + 1 < e && s[b] != '0'
    requires forall t :: b < t < e ==> s[t] == '0'
    ensures TrimExponent(s) == s[..b + 1] + "e" + s[e + 1..]
  {
    ScanToDot(s, dot);
    ScanTrailingZeros(s, dot, b, e);
  }

  lemma LayoutNoTrailingZeros(s: string, dot: nat, e: nat)
    requires ExponentialLayout(s, dot, e)
    requires s[e - 1] != '0'
    ensures TrimExponent(s) == s
  {
    ScanToDot(s, dot);
    ScanNoTrailingZeros(s, dot, e);
  }

  lemma FractionAllZeros(s: string, dot: nat, e: nat)
    requires ExponentialLayout(s, dot, e)
    requires KeptLength(s[dot + 1..e]) == 0
    ensures TrimExponent(s) == s[..dot] + TrimmedFraction(s[dot + 1..e]) + s[e..]
  {
    var frac := s[dot + 1..e];
    KeptLengthZeros(frac);
    forall t | dot < t < e ensures s[t] == '0' {
      assert s[t] == frac[t - dot - 1];
    }
    LayoutZeroFraction(s, dot, e);
    assert s[e..] == "e" + s[e + 1..];
  }

  /** Where the kept part of the fraction s[dot + 1..e] stops, read on s. */
  lemma TrailingZerosInPlace(s: string, dot: nat, e: nat)
    requires dot < e <= |s|
    requires 0 < KeptLength(s[dot + 1..e])
    ensures var n := KeptLength(s[dot + 1..e]);
      s[dot + n] != '0' && forall t :: dot + n < t < e ==> s[t] == '0'
  {
    var frac := s[dot + 1..e];
    var n := KeptLength(frac);
    KeptLengthZeros(frac);
    forall t | dot + n < t < e ensures s[t] == '0' {
      assert s[t] == frac[t - dot - 1];
    }
    assert s[dot + n] == frac[n - 1];
  }

  lemma TrimmedFractionInPlace(s: string, dot: nat, e: nat)
    requires dot < e <= |s| && s[dot] == '.'
    requires 0 < KeptLength(s[dot + 1..e])
    ensures var n := KeptLength(s[dot + 1..e]);
      s[..dot + n + 1] == s[..dot] + TrimmedFraction(s[dot + 1..e])
  {
    var f := s[dot + 1..e];
    var n := KeptLength(f);
    assert TrimmedFraction(f) == "." + f[..n];
    SliceOfSlice(s, dot + 1, e, n);
    SplitAtDot(s, dot, dot + n + 1);
  }

  lemma SliceOfSlice(s: string, i: nat, j: nat, n: nat)
    requires i <= j <= |s| && n <= j - i
    ensures s[i..j][..n] == s[i..i + n]
  {
  }

  lemma SplitAtDot(s: string, dot: nat, j: nat)
    requires dot < j <= |s| && s[dot] == '.'
    ensures s[..j] == s[..dot] + ("." + s[dot + 1..j])
  {
    assert s[..j] == s[..dot] + [s[dot]] + s[dot + 1..j];
  }

  lemma FractionSomeZeros(s: string, dot: nat, e: nat)
    requires ExponentialLayout(s, dot, e)
    requires 0 < KeptLength(s[dot + 1..e]) < e - dot - 1
    ensures TrimExponent(s) == s[..dot] + TrimmedFraction(s[dot + 1..e]) + s[e..]
  {
    var n := KeptLength(s[dot + 1..e]);
    TrailingZerosInPlace(s, dot, e);
    LayoutTrailingZeros(s, dot, dot + n, e);
    TrimmedFractionInPlace(s, dot, e);
    ExponentTail(s, e);
    Append3(s[..dot], TrimmedFraction(s[dot + 1..e]), s[e + 1..]);
  }

  lemma FractionNoZeros(s: string, dot: nat, e: nat)
    requires ExponentialLayout(s, dot, e)
    requires KeptLength(s[dot + 1..e]) == e - dot - 1
    ensures TrimExponent(s) == s[..dot] + TrimmedFraction(s[dot + 1..e]) + s[e..]
  {
    var frac := s[dot + 1..e];
    assert frac[..|frac|] == frac;
    assert s[e - 1] == frac[|frac| - 1];
    LayoutNoTrailingZeros(s, dot, e);
    SplitAround(s, dot, e);
  }

  lemma ExponentTail(s: string, e: nat)
    requires e < |s| && s[e] == 'e'
    ensures s[e..] == "e" + s[e + 1..]
  {
  }

  lemma Append3(a: string, b: string, c: string)
    ensures a + b + "e" + c == a + b + ("e" + c)
  {
  }

  lemma SplitAround(s: string, dot: nat, e: nat)
    requires dot < e <= |s| && s[dot] == '.'
    ensures s == s[..dot] + ("." + s[dot + 1..e]) + s[e..]
  {
    assert s == s[..dot] + [s[dot]] + s[dot + 1..e] + s[e..];
  }

  /** The trimming on that layout, with the fraction read as a slice. */
  lemma TrimExponentLayout(s: string, dot: nat, e: nat)
    requires ExponentialLayout(s, dot, e)
    ensures TrimExponent(s) == s[..dot] + TrimmedFraction(s[dot + 1..e]) + s[e..]
  {
    var k := KeptLength(s[dot + 1..e]);
    if k == 0 {
      FractionAllZeros(s, dot, e);
    } else if k < e - dot - 1 {
      FractionSomeZeros(s, dot, e);
    } else {
      FractionNoZeros(s, dot, e);
    }
  }

  /**
   * On the shape toExponential produces (an optional '-', one digit, '.', the
   * fraction digits, 'e', an exponent without 'e'), the trimming removes the
   * fraction's trailing zeros, and the '.' too when only zeros were left.
   */
  lemma TrimExponentOfExponential(sign: string, m: char, frac: string, exp: string)
    requires sign == "" || sign == "-"
    requires IsDigit(m) && AllDigits(frac) && frac != ""
    requires 'e' !in exp
    ensures TrimExponent(sign + [m] + "." + frac + "e" + exp)
              == sign + [m] + TrimmedFraction(frac) + "e" + exp
  {
    var mantissa := sign + [m];
    var s := mantissa + "." + frac + "e" + exp;
    var dot := |mantissa|;
    var e := dot + 1 + |frac|;
    assert s[..dot] == mantissa;
    assert s[dot + 1..e] == frac;
    assert s[e..] == "e" + exp;
    forall t | 0 <= t < dot ensures s[t] != 'e' && s[t] != '.' {
      assert s[t] == mantissa[t];
    }
    forall t | dot < t < e ensures IsDigit(s[t]) {
      assert s[t] == frac[t - dot - 1];
    }
    forall t | e < t < |s| ensures s[t] != 'e' {
      assert s[t] == exp[t - e - 1];
    }
    TrimExponentLayout(s, dot, e);
  }

  /**
   * A display longer than the cap that parses as a number is shown in the
   * exponential form with six fraction digits, trailing zeros of the
   * fraction (and a '.' left bare) removed.
   */
  lemma FormatLongNumber(p: Platform, error: string, val: string, sign: string, m: char, frac: string, exp: string)
    requires |val| > MaxChars && p.parseFloat(val) != NaN
    requires p.toExponential(p.parseFloat(val), 6) == sign + [m] + "." + frac + "e" + exp
    requires sign == "" || sign == "-"
    requires IsDigit(m) && AllDigits(frac) && frac != "" && 'e' !in exp
    ensures FormatDisplay(p, error, val) == sign + [m] + TrimmedFraction(frac) + "e" + exp
  {
    TrimExponentOfExponential(sign, m, frac, exp);
  }
}
