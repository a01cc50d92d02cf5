/** Option and parameter parsing (Programs/parse.c): splitting and joining
    strings, integer rescaling, the integer, choice, flag and log-level
    validators, and the `name=value,...` parameter lists that drivers and
    the keyboard code receive. */
module Parse {
  import opened Common

  // ---------------------------------------------------------------------------
  // splitString and joinStrings
  // ---------------------------------------------------------------------------

  /** The substrings of `s` between occurrences of `d`, empty ones included. */
  function Pieces(s: string, d: char): (r: seq<string>)
    ensures |r| >= 1
    decreases |s|
  {
    match IndexOf(s, d)
    case None => [s]
    case Some(i) => [s[..i]] + Pieces(s[i + 1..], d)
  }

  /** The pieces of `s` join back to `s`, none holds the delimiter, and there
      is one more piece than there are delimiters. */
  lemma PiecesJoin(s: string, d: char)
    ensures JoinWith(Pieces(s, d), d) == s
    ensures forall i :: 0 <= i < |Pieces(s, d)| ==> d !in Pieces(s, d)[i]
    ensures |Pieces(s, d)| == multiset(s)[d] + 1
  {
    PiecesJoinBack(s, d);
    PiecesFree(s, d);
    PiecesCount(s, d);
  }

  lemma {:induction false} PiecesJoinBack(s: string, d: char)
    ensures JoinWith(Pieces(s, d), d) == s
    decreases |s|
  {
    match IndexOf(s, d)
    case None =>
    case Some(i) =>
      var rest := Pieces(s[i + 1..], d);
      PiecesJoinBack(s[i + 1..], d);
      var ps := [s[..i]] + rest;
      assert ps[0] == s[..i] && ps[1..] == rest;
      assert JoinWith(ps, d) == s[..i] + [d] + s[i + 1..];
      assert s == s[..i] + [d] + s[i + 1..];
  }

  lemma {:induction false} PiecesFree(s: string, d: char)
    ensures forall i :: 0 <= i < |Pieces(s, d)| ==> d !in Pieces(s, d)[i]
    decreases |s|
  {
    match IndexOf(s, d)
    case None =>
    case Some(i) =>
      PiecesFree(s[i + 1..], d);
      var ps := [s[..i]] + Pieces(s[i + 1..], d);
      forall k | 0 <= k < |ps| ensures d !in ps[k] {
        if k > 0 {
          assert ps[k] == Pieces(s[i + 1..], d)[k - 1];
        }
      }
  }

  lemma {:induction false} PiecesCount(s: string, d: char)
    ensures |Pieces(s, d)| == multiset(s)[d] + 1
    decreases |s|
  {
    match IndexOf(s, d)
    case None =>
    case Some(i) =>
      var rest := s[i + 1..];
      PiecesCount(rest, d);
      assert s == s[..i] + [d] + rest;
      assert multiset(s) == multiset(s[..i]) + multiset{d} + multiset(rest);
      assert multiset(s[..i])[d] == 0;
  }

  /** A first piece free of the delimiter is cut off whole. */
  lemma JoinedCut(a: string, d: char, b: string)
    requires d !in a
    ensures Pieces(a + [d] + b, d) == [a] + Pieces(b, d)
  {
    IndexOfJoint(a, d, b);
    PiecesCut(a + [d] + b, d, |a|);
  }

  /** Splitting a joined list of delimiter-free parts gives the parts back. */
  lemma {:induction false} JoinPieces(parts: seq<string>, d: char)
    requires |parts| >= 1 && forall i :: 0 <= i < |parts| ==> d !in parts[i]
    ensures Pieces(JoinWith(parts, d), d) == parts
    decreases |parts|
  {
    if |parts| > 1 {
      var rest := JoinWith(parts[1..], d);
      assert JoinWith(parts, d) == parts[0] + [d] + rest;
      JoinedCut(parts[0], d, rest);
      forall i | 0 <= i < |parts[1..]| ensures d !in parts[1..][i] {
        assert parts[1..][i] == parts[i + 1];
      }
      JoinPieces(parts[1..], d);
      assert parts == [parts[0]] + parts[1..];
    } else {
      assert d !in parts[0];
    }
  }

  /** Appending a delimiter and a delimiter-free item appends one piece. */
  lemma {:induction false} PiecesAppend(s: string, d: char, item: string)
    requires d !in item
    ensures Pieces(s + [d] + item, d) == Pieces(s, d) + [item]
    decreases |s|, 1
  {
    var r := IndexOf(s, d);
    if r.None? {
      var t := s + [d] + item;
      IndexOfJoint(s, d, item);
      PiecesCut(t, d, |s|);
      assert Pieces(item, d) == [item];
    } else {
      PiecesAppendAfter(s, d, item, r.value);
    }
  }

  /** The step of PiecesAppend when `s` holds a delimiter at `i`. */
  lemma {:induction false} PiecesAppendAfter(s: string, d: char, item: string, i: nat)
    requires d !in item && i < |s| && s[i] == d && d !in s[..i]
    ensures Pieces(s + [d] + item, d) == Pieces(s, d) + [item]
    decreases |s|, 0
  {
    var rest := s[i + 1..];
    CutAppended(s, d, item, i);
    PiecesCut(s, d, i);
    PiecesAppend(rest, d, item);
    var p := Pieces(rest, d);
    assert [s[..i]] + (p + [item]) == ([s[..i]] + p) + [item];
  }

  /** Appending after `s` does not move its first delimiter. */
  lemma CutAppended(s: string, d: char, item: string, i: nat)
    requires i < |s| && s[i] == d && d !in s[..i]
    ensures Pieces(s + [d] + item, d) == [s[..i]] + Pieces(s[i + 1..] + [d] + item, d)
  {
    var u := [d] + item;
    var t := s + u;
    assert s + [d] + item == t;
    AppendSlices(s, u, i);
    assert s[i + 1..] + [d] + item == s[i + 1..] + u;
    PiecesCut(t, d, i);
  }

  /** Slices of `s + u` that start inside `s`. */
  lemma AppendSlices<T>(s: seq<T>, u: seq<T>, i: nat)
    requires i < |s|
    ensures (s + u)[..i] == s[..i] && (s + u)[i] == s[i] && (s + u)[i + 1..] == s[i + 1..] + u
  {
  }

  /** Cutting at the first delimiter. */
  lemma PiecesCut(t: string, d: char, i: nat)
    requires i < |t| && t[i] == d && d !in t[..i]
    ensures Pieces(t, d) == [t[..i]] + Pieces(t[i + 1..], d)
  {
    IndexOfAt(t, d, i);
  }

  /** splitString: a NULL string gives NULL (with count 0), the empty string
      an empty array, and any other string its pieces between delimiters.
      The delimiter may not be NUL, which `strchr` would find at the end of
      every string. */
  function SplitString(s: Option<string>, d: char): (r: Option<seq<string>>)
    requires d != '\0'
    ensures r.None? <==> s.None?
    ensures s == Some("") ==> r == Some([])
    ensures s.Some? && s.value != "" ==>
      && JoinWith(r.value, d) == s.value
      && |r.value| == multiset(s.value)[d] + 1
      && forall i :: 0 <= i < |r.value| ==> d !in r.value[i]
  {
    match s
    case None => None
    case Some(t) =>
      if |t| == 0 then Some([])
      else PiecesJoin(t, d); Some(Pieces(t, d))
  }

  /** The element count splitString stores through `count`. */
  function SplitCount(s: Option<string>, d: char): (n: nat)
    requires d != '\0'
  {
    match SplitString(s, d)
    case None => 0
    case Some(parts) => |parts|
  }

  /** The count is zero for NULL and for "", and one more than the number of
      delimiters otherwise. */
  lemma SplitCountMeaning(s: Option<string>, d: char)
    requires d != '\0'
    ensures s.None? || s == Some("") ==> SplitCount(s, d) == 0
    ensures s.Some? && s.value != "" ==> SplitCount(s, d) == multiset(s.value)[d] + 1
  {
  }

  /** joinStrings: the strings one after the other, copied in a loop that
      advances by each string's length. */
  method JoinStrings(strings: seq<string>) returns (r: string)
    ensures r == Concat(strings)
    ensures |r| == TotalLength(strings)
  {
    r := [];
    var index := 0;
    while index < |strings|
      invariant index <= |strings|
      invariant r == Concat(strings[..index]) && |r| == TotalLength(strings[..index])
    {
      assert strings[..index + 1][..index] == strings[..index];
      r := r + strings[index];
      index := index + 1;
    }
    assert strings[..index] == strings;
  }

  /** Each string occupies its own stretch of the joined result, starting at
      the total length of the strings before it. */
  lemma {:induction false} ConcatPlaces(strings: seq<string>, i: nat)
    requires i < |strings|
    ensures |Concat(strings)| == TotalLength(strings)
    ensures TotalLength(strings[..i]) + |strings[i]| <= TotalLength(strings)
    ensures Concat(strings)[TotalLength(strings[..i])..TotalLength(strings[..i]) + |strings[i]|] == strings[i]
    decreases |strings|
  {
    var n := |strings|;
    var init := strings[..n - 1];
    ConcatLength(init);
    if i == n - 1 {
      assert strings[..i] == init;
    } else {
      ConcatPlaces(init, i);
      assert init[..i] == strings[..i];
      assert init[i] == strings[i];
    }
  }

  lemma {:induction false} ConcatLength(strings: seq<string>)
    ensures |Concat(strings)| == TotalLength(strings)
    decreases |strings|
  {
    if |strings| > 0 {
      ConcatLength(strings[..|strings| - 1]);
    }
  }

  // ---------------------------------------------------------------------------
  // rescaleInteger
  // ---------------------------------------------------------------------------

  /** Every step of rescaleInteger stays within C's `int`, where an overflow
      is undefined: the arguments, `to * 2`, the rounded value, the product
      and its quotient (INT_MIN / -1 being the one division that overflows). */
  predicate RescaleFits(value: int, from: int, to: int) {
    && IsInt32(value) && IsInt32(from) && IsInt32(to) && from != 0 && to != 0
    && IsInt32(to * 2)
    && IsInt32(value + TruncDiv(from, to * 2))
    && IsInt32(Scaled(value, from, to))
    && !(Scaled(value, from, to) == -0x8000_0000 && from == -1)
  }

  /** The product rescaleInteger divides by `from`: the value plus the
      rounding term, times `to`. */
  function Scaled(value: int, from: int, to: int): int
    requires to != 0
  {
    to * (value + TruncDiv(from, to * 2))
  }

  /** rescaleInteger: `value` out of `from` expressed out of `to`, rounded by
      adding half of `from/to` before C's truncating divisions, all in 32-bit
      `int` arithmetic. */
  function RescaleInteger(value: int, from: int, to: int): (r: int)
    requires RescaleFits(value, from, to)
    ensures IsInt32(r)
  {
    TruncDiv(Scaled(value, from, to), from)
  }

  /** Rescaling to the same scale changes nothing, as long as the product
      `scale * value` fits in an `int`. */
  lemma RescaleIdentity(value: int, scale: int)
    requires scale > 0 && RescaleFits(value, scale, scale)
    ensures RescaleInteger(value, scale, scale) == value
  {
    DivSmall(scale, scale * 2);
    var n := scale * (value + 0);
    if value >= 0 {
      DivExact(value, scale);
    } else {
      assert -n == scale * (-value);
      DivExact(-value, scale);
    }
  }

  /** For non-negative values and positive scales, with every step within
      `int`, the result lies between the exact quotient rounded down and the
      exact quotient rounded half up. */
  lemma RescaleRounds(value: int, from: int, to: int)
    requires value >= 0 && from > 0 && to > 0 && RescaleFits(value, from, to)
    ensures var r := RescaleInteger(value, from, to);
      r * from <= to * value + from / 2 && to * value < (r + 1) * from
  {
    var half := from / (to * 2);
    ScaledNonNegative(value, from, to, half);
    assert RescaleInteger(value, from, to) == (to * (value + half)) / from;
    RoundedQuotient(value, from, to, half);
  }

  /** For a non-negative value and positive scales the product is the
      non-negative one computed with Dafny's division. */
  lemma ScaledNonNegative(value: int, from: int, to: int, half: int)
    requires value >= 0 && from > 0 && to > 0 && half == from / (to * 2)
    ensures Scaled(value, from, to) == to * (value + half)
    ensures to * (value + half) >= 0
  {
    assert to * 2 > 0;
    assert TruncDiv(from, to * 2) == half;
    assert half >= 0;
    NonNegativeProduct(to, value + half);
  }

  lemma NonNegativeProduct(a: int, b: int)
    requires a >= 0 && b >= 0
    ensures a * b >= 0
  {
  }

  /** The arithmetic behind RescaleRounds, on unbounded integers. */
  lemma RoundedQuotient(value: int, from: int, to: int, half: int)
    requires value >= 0 && from > 0 && to > 0 && half == from / (to * 2)
    ensures var r := (to * (value + half)) / from;
      r * from <= to * value + from / 2 && to * value < (r + 1) * from
  {
    HalfShare(from, to, half);
    Distribute(to, value, half);
    var n := to * (value + half);
    var r := n / from;
    DivBounds(n, from);
    NextMultiple(r, from);
    assert half >= 0;
    assert to * half >= 0;
  }

  lemma Distribute(a: int, b: int, c: int)
    ensures a * (b + c) == a * b + a * c
  {
  }

  lemma NextMultiple(r: int, d: int)
    ensures (r + 1) * d == r * d + d
  {
  }

  /** The rounding term: `to` shares of `from / (2 * to)` make at most half
      of `from`. */
  lemma HalfShare(from: int, to: int, half: int)
    requires from > 0 && to > 0 && half == from / (to * 2)
    ensures to * half <= from / 2
  {
    DivBounds(from, to * 2);
    assert half * (to * 2) == 2 * (to * half);
  }

  lemma DivBounds(n: int, d: int)
    requires d > 0
    ensures (n / d) * d <= n < (n / d) * d + d
  {
  }

  lemma DivSmall(n: nat, d: int)
    requires n < d
    ensures n / d == 0
  {
  }

  lemma MulSign(d: int, k: int)
    requires d > 0
    ensures k >= 1 ==> d * k >= d
    ensures k <= -1 ==> d * k <= -d
  {
  }

  lemma DivExact(q: nat, d: int)
    requires d > 0
    ensures (d * q) / d == q
  {
    DivBounds(d * q, d);
    var r := (d * q) / d;
    assert d * (q - r) >= 0 && d * (q - r) < d;
    MulSign(d, q - r);
  }

  // ---------------------------------------------------------------------------
  // strtol (base 0), isInteger, validateInteger
  // ---------------------------------------------------------------------------

  /** The range of a 64-bit C `long`. */
  const LongMin: int := -0x8000_0000_0000_0000
  const LongMax: int := 0x7FFF_FFFF_FFFF_FFFF

  /** The value of a character as a digit in the bases strtol reads: 0-9,
      then the letters of either case from 10; 99 for anything else. */
  function DigitValue(c: char): (v: nat)
  {
    if '0' <= c <= '9' then c as nat - '0' as nat
    else if 'a' <= c <= 'z' then c as nat - 'a' as nat + 10
    else if 'A' <= c <= 'Z' then c as nat - 'A' as nat + 10
    else 99
  }

  predicate IsDigitIn(c: char, base: nat) {
    DigitValue(c) < base
  }

  /** The number of consecutive digits of `base` at `i`. */
  function DigitRun(s: string, i: nat, base: nat): (n: nat)
    requires i <= |s|
    ensures i + n <= |s|
    decreases |s| - i
  {
    if i < |s| && IsDigitIn(s[i], base) then 1 + DigitRun(s, i + 1, base) else 0
  }

  /** The value of a digit string in `base`, most significant digit first. */
  function ValueOf(ds: string, base: nat): nat
  {
    if |ds| == 0 then 0 else ValueOf(ds[..|ds| - 1], base) * base + DigitValue(ds[|ds| - 1])
  }

  /** Where the first non-space character is, at or after `i`. */
  function SkipSpaces(s: string, i: nat): (j: nat)
    requires i <= |s|
    ensures i <= j <= |s|
    decreases |s| - i
  {
    if i < |s| && IsSpace(s[i]) then SkipSpaces(s, i + 1) else i
  }

  /** What strtol returns and where it leaves `end`; `end` 0 means that no
      conversion was done. */
  datatype Conversion = Conversion(value: int, end: nat)

  function Clamp(x: int): (r: int)
    ensures LongMin <= r <= LongMax
  {
    if x < LongMin then LongMin else if x > LongMax then LongMax else x
  }

  /** strtol with base 0: spaces, an optional sign, then a hexadecimal number
      after "0x" or "0X" when a hexadecimal digit follows, an octal number
      after a leading 0, or a decimal number; out-of-range values saturate. */
  function Strtol(s: string): (r: Conversion)
    ensures r.end <= |s| && LongMin <= r.value <= LongMax
  {
    var i := SkipSpaces(s, 0);
    var neg := i < |s| && s[i] == '-';
    var j := if i < |s| && (s[i] == '-' || s[i] == '+') then i + 1 else i;
    var hex := j + 2 < |s| && s[j] == '0' && (s[j + 1] == 'x' || s[j + 1] == 'X') && IsDigitIn(s[j + 2], 16);
    var base := if hex then 16 else if j < |s| && s[j] == '0' then 8 else 10;
    var start := if hex then j + 2 else j;
    ConvertRun(s, start, base, neg)
  }

  /** The digit run at `start` in `base`, negated for a '-' sign and
      saturated; no digit at all means no conversion. */
  function ConvertRun(s: string, start: nat, base: nat, neg: bool): (r: Conversion)
    requires start <= |s|
    ensures r.end <= |s| && LongMin <= r.value <= LongMax
    ensures r.end == 0 <==> DigitRun(s, start, base) == 0
  {
    var n := DigitRun(s, start, base);
    if n == 0 then Conversion(0, 0)
    else
      var m: int := ValueOf(s[start..start + n], base);
      Conversion(Clamp(if neg then -m else m), start + n)
  }

  /** isInteger: the string is not empty and strtol reads all of it; the
      `long` is then stored into an `int`, keeping its low 32 bits. */
  function IsInteger(s: string): (r: Option<int>)
    ensures r.Some? ==> -0x8000_0000 <= r.value < 0x8000_0000
  {
    if |s| == 0 then None
    else
      var c := Strtol(s);
      if c.end == |s| then Some(WrapInt32(c.value)) else None
  }

  /** The decimal digits of `n`, without leading zeros. */
  function DecimalDigits(n: nat): (ds: string)
    ensures |ds| >= 1 && forall i :: 0 <= i < |ds| ==> '0' <= ds[i] <= '9'
    ensures n > 0 ==> ds[0] != '0'
  {
    if n < 10 then [('0' as nat + n) as char]
    else DecimalDigits(n / 10) + [('0' as nat + n % 10) as char]
  }

  /** How `printf("%d")` writes an integer. */
  function DecimalText(n: int): string
  {
    if n < 0 then "-" + DecimalDigits(-n) else DecimalDigits(n)
  }

  lemma {:induction false} DecimalValue(n: nat)
    ensures ValueOf(DecimalDigits(n), 10) == n
  {
    var ds := DecimalDigits(n);
    if n >= 10 {
      DecimalValue(n / 10);
      assert ds[..|ds| - 1] == DecimalDigits(n / 10);
    }
  }

  /** A run of digits that reaches the end of the string is read to the end. */
  lemma {:induction false} DigitRunToEnd(s: string, i: nat, base: nat)
    requires i <= |s| && forall k :: i <= k < |s| ==> IsDigitIn(s[k], base)
    ensures DigitRun(s, i, base) == |s| - i
    decreases |s| - i
  {
    if i < |s| {
      DigitRunToEnd(s, i + 1, base);
    }
  }

  /** Every `int` written in decimal is read back as itself. */
  lemma IntegerRoundTrip(n: int)
    requires -0x8000_0000 <= n < 0x8000_0000
    ensures IsInteger(DecimalText(n)) == Some(n)
  {
    if n == 0 {
      ZeroIsInteger();
    } else {
      var m := if n < 0 then -n else n;
      DecimalValue(m);
      var c := StrtolDecimal(DecimalText(n), if n < 0 then 1 else 0, m);
    }
  }

  /** "0" is read as an octal zero. */
  lemma ZeroIsInteger()
    ensures IsInteger(DecimalText(0)) == Some(0)
  {
    var s := DecimalText(0);
    assert s == "0";
    assert SkipSpaces(s, 0) == 0;
    DigitRunToEnd(s, 0, 8);
    assert s[0..1] == "0";
    assert ValueOf(s[0..1], 8) == 0;
  }

  /** strtol reads a signed decimal number without leading zeros to its end. */
  lemma StrtolDecimal(s: string, j: nat, m: nat) returns (c: Conversion)
    requires m > 0 && ValueOf(DecimalDigits(m), 10) == m
    requires (j == 0 && s == DecimalDigits(m)) || (j == 1 && s == "-" + DecimalDigits(m))
    ensures c == Strtol(s) && c.end == |s| && c.value == Clamp(if j == 1 then -(m as int) else m)
  {
    var ds := DecimalDigits(m);
    assert s[j..] == ds && |s| == j + |ds|;
    assert !IsSpace(s[0]);
    assert SkipSpaces(s, 0) == 0;
    assert s[j] == ds[0];
    forall k | j <= k < |s| ensures IsDigitIn(s[k], 10) {
      assert s[k] == ds[k - j];
    }
    DigitRunToEnd(s, j, 10);
    assert DigitRun(s, j, 10) == |ds|;
    assert s[j..j + |ds|] == ds;
    assert ValueOf(s[j..j + |ds|], 10) == m;
    StrtolDecimalShape(s, j);
    ConvertRunValue(s, j, 10, j == 1, |ds|, m);
    c := Strtol(s);
  }

  /** A digit run of `n` digits worth `v` converts to the signed, saturated
      `v` and ends after the run. */
  lemma ConvertRunValue(s: string, start: nat, base: nat, neg: bool, n: nat, v: nat)
    requires start <= |s| && n == DigitRun(s, start, base) && n > 0 && v == ValueOf(s[start..start + n], base)
    ensures ConvertRun(s, start, base, neg) == Conversion(Clamp(if neg then -(v as int) else v), start + n)
  {
  }

  /** strtol on an optional '-' and a decimal digit other than 0 reads the
      digit run that follows in base 10. */
  lemma StrtolDecimalShape(s: string, j: nat)
    requires j < |s| && SkipSpaces(s, 0) == 0 && '1' <= s[j] <= '9'
    requires (j == 1 && s[0] == '-') || (j == 0 && s[0] != '-' && s[0] != '+')
    ensures Strtol(s) == ConvertRun(s, j, 10, j == 1)
  {
  }

  /** The outcome of a validator: whether it accepted the string, and the
      value of the output variable afterwards. */
  datatype Validated<T> = Validated(ok: bool, value: T)

  /** validateInteger: "" is accepted and leaves `value` as it was; otherwise
      the string must be an integer within the optional bounds, and only
      then is it stored. */
  function ValidateInteger(value: int, s: string, minimum: Option<int>, maximum: Option<int>): (r: Validated<int>)
    ensures s == "" ==> r == Validated(true, value)
    ensures s != "" && r.ok ==>
      && IsInteger(s) == Some(r.value)
      && (minimum.Some? ==> minimum.value <= r.value)
      && (maximum.Some? ==> r.value <= maximum.value)
    ensures !r.ok ==> r.value == value
    ensures s != "" && IsInteger(s).Some?
      && (minimum.None? || minimum.value <= IsInteger(s).value)
      && (maximum.None? || IsInteger(s).value <= maximum.value)
      ==> r.ok
  {
    if s == "" then Validated(true, value)
    else match IsInteger(s)
      case None => Validated(false, value)
      case Some(i) =>
        if minimum.Some? && i < minimum.value then Validated(false, value)
        else if maximum.Some? && i > maximum.value then Validated(false, value)
        else Validated(true, i)
  }

  // ---------------------------------------------------------------------------
  // validateChoice, validateFlag, validateOnOff, validateYesNo, isLogLevel
  // ---------------------------------------------------------------------------

  /** The first name of which `s` is a prefix, ignoring case. */
  function FirstPrefix(s: string, names: seq<string>): (r: Option<nat>)
    ensures r.None? <==> forall k :: 0 <= k < |names| ==> !IsPrefixIgnoringCase(s, names[k])
    ensures r.Some? ==> r.value < |names| && IsPrefixIgnoringCase(s, names[r.value])
    ensures r.Some? ==> forall k :: 0 <= k < r.value ==> !IsPrefixIgnoringCase(s, names[k])
  {
    if |names| == 0 then None
    else if IsPrefixIgnoringCase(s, names[0]) then Some(0)
    else match FirstPrefix(s, names[1..])
      case None => None
      case Some(k) => Some(k + 1)
  }

  /** validateChoice: the output starts at 0; "" is accepted as choice 0;
      otherwise the first choice the string abbreviates is chosen, and the
      string is refused when it abbreviates none. */
  function ValidateChoice(s: string, choices: seq<string>): (r: Validated<nat>)
    ensures s == "" ==> r == Validated(true, 0)
    ensures s != "" && r.ok ==>
      && r.value < |choices| && IsPrefixIgnoringCase(s, choices[r.value])
      && forall k :: 0 <= k < r.value ==> !IsPrefixIgnoringCase(s, choices[k])
    ensures s != "" && !r.ok <==> s != "" && forall k :: 0 <= k < |choices| ==> !IsPrefixIgnoringCase(s, choices[k])
    ensures !r.ok ==> r.value == 0
  {
    if s == "" then Validated(true, 0)
    else match FirstPrefix(s, choices)
      case None => Validated(false, 0)
      case Some(k) => Validated(true, k)
  }

  /** validateFlag: a choice between `off` (0) and `on` (1). */
  function ValidateFlag(s: string, on: string, off: string): Validated<nat>
  {
    ValidateChoice(s, [off, on])
  }

  function ValidateOnOff(s: string): Validated<nat> { ValidateFlag(s, "on", "off") }

  function ValidateYesNo(s: string): Validated<nat> { ValidateFlag(s, "yes", "no") }

  /** "no" means 0 and "yes" 1, in any case and abbreviated; "" is 0; a word
      that abbreviates neither is refused. */
  lemma YesNoMeaning(s: string)
    ensures IsPrefixIgnoringCase(s, "no") && s != "" ==> ValidateYesNo(s) == Validated(true, 0)
    ensures IsPrefixIgnoringCase(s, "yes") && s != "" ==> ValidateYesNo(s) == Validated(true, 1)
    ensures s == "" ==> ValidateYesNo(s) == Validated(true, 0)
    ensures !IsPrefixIgnoringCase(s, "no") && !IsPrefixIgnoringCase(s, "yes") && s != "" ==> !ValidateYesNo(s).ok
  {
    var choices := ["no", "yes"];
    assert choices[1..] == ["yes"];
    if s != "" && IsPrefixIgnoringCase(s, "yes") {
      assert "yes"[..|s|][0] == 'y';
      assert ToLower(s[0]) == 'y';
      assert !IsPrefixIgnoringCase(s, "no") by {
        assert ToLower("no"[0]) == 'n';
      }
      assert FirstPrefix(s, ["yes"]) == Some(0);
      assert FirstPrefix(s, choices) == Some(1);
    }
  }

  /** Since "off" comes first, "o" alone turns a flag off. */
  lemma OnOffAmbiguity()
    ensures ValidateOnOff("o") == Validated(true, 0)
    ensures ValidateOnOff("on") == Validated(true, 1)
  {
    assert IsPrefixIgnoringCase("o", "off");
    assert !IsPrefixIgnoringCase("on", "off") by {
      assert ToLower("on"[1]) != ToLower("off"[1]);
    }
    assert IsPrefixIgnoringCase("on", "on");
  }

  /** isLogLevel: "" is accepted without change; then a level whose name the
      string abbreviates; then a number below the count of levels. The level
      names live outside this file and are a parameter. */
  function IsLogLevel(level: int, s: string, names: seq<string>): (r: Validated<int>)
    ensures s == "" ==> r == Validated(true, level)
    ensures s != "" && FirstPrefix(s, names).Some? ==> r == Validated(true, FirstPrefix(s, names).value)
    ensures r.ok && s != "" ==> 0 <= r.value < |names|
    ensures !r.ok ==> r.value == level
    ensures s != "" && !r.ok <==>
      s != "" && FirstPrefix(s, names).None? && !(IsInteger(s).Some? && 0 <= IsInteger(s).value < |names|)
  {
    if s == "" then Validated(true, level)
    else match FirstPrefix(s, names)
      case Some(k) => Validated(true, k)
      case None =>
        match IsInteger(s)
        case Some(v) => if 0 <= v < |names| then Validated(true, v) else Validated(false, level)
        case None => Validated(false, level)
  }

  // ---------------------------------------------------------------------------
  // parseParameters and getParameters
  // ---------------------------------------------------------------------------

  /** The parameter name an item's name part addresses. Without a qualifier,
      or when the name part has no ':', it is the whole name part. With a
      qualifier, "q:name" addresses `name` when q equals the qualifier and
      nothing otherwise; an empty q or name addresses nothing. */
  function ItemName(name: string, qualifier: Option<string>): (r: Option<string>)
    ensures r.Some? ==> |r.value| <= |name|
  {
    if qualifier.None? then Some(name)
    else match IndexOf(name, ':')
      case None => Some(name)
      case Some(c) =>
        if c == 0 || c + 1 == |name| then None
        else if name[..c] == qualifier.value then Some(name[c + 1..])
        else None
  }

  /** One item of a parameter list. An item without '=' or with an empty
      name is skipped, and so is one whose name abbreviates no parameter;
      otherwise the first parameter the name abbreviates gets the text after
      the first '='. */
  function ApplyItem(values: seq<string>, names: seq<string>, qualifier: Option<string>, item: string): (r: seq<string>)
    requires |values| == |names|
    ensures |r| == |values|
  {
    match IndexOf(item, '=')
    case None => values
    case Some(e) =>
      if e == 0 then values
      else match ItemName(item[..e], qualifier)
        case None => values
        case Some(name) =>
          match FirstPrefix(name, names)
          case None => values
          case Some(k) => values[k := item[e + 1..]]
  }

  /** The items applied in order. */
  function ApplyItems(values: seq<string>, names: seq<string>, qualifier: Option<string>, items: seq<string>): (r: seq<string>)
    requires |values| == |names|
    ensures |r| == |values|
  {
    if |items| == 0 then values
    else ApplyItem(ApplyItems(values, names, qualifier, items[..|items| - 1]), names, qualifier, items[|items| - 1])
  }

  /** parseParameters: a NULL or empty list changes nothing; otherwise the
      comma-separated items are applied from left to right. Unknown names
      are reported and skipped, never refused, so the only failure of the C
      function is an allocation failure. */
  function ParseParameters(values: seq<string>, names: seq<string>, qualifier: Option<string>, parameters: Option<string>): (r: seq<string>)
    requires |values| == |names|
    ensures |r| == |names|
  {
    match parameters
    case None => values
    case Some(p) => if p == "" then values else ApplyItems(values, names, qualifier, Pieces(p, ','))
  }

  /** getParameters: one value per name, each "" until an item sets it; a
      NULL names table counts as empty. */
  function GetParameters(names: Option<seq<string>>, qualifier: Option<string>, parameters: Option<string>): (r: seq<string>)
    ensures |r| == (if names.None? then 0 else |names.value|)
  {
    var ns := if names.None? then [] else names.value;
    ParseParameters(seq(|ns|, _ => ""), ns, qualifier, parameters)
  }

  /** An item "name=value" whose name abbreviates parameter `k` (and no
      earlier one) sets that parameter to `value`, whatever else `value`
      holds, '=' included. */
  lemma ItemSets(values: seq<string>, names: seq<string>, q: Option<string>, name: string, value: string, k: nat)
    requires |values| == |names| && name != "" && '=' !in name && ':' !in name
    requires FirstPrefix(name, names) == Some(k)
    ensures ApplyItem(values, names, q, name + "=" + value) == values[k := value]
  {
    IndexOfJoint(name, '=', value);
    assert IndexOf(name, ':').None?;
  }

  /** An item whose name abbreviates no parameter changes nothing. */
  lemma UnknownItemIgnored(values: seq<string>, names: seq<string>, q: Option<string>, name: string, value: string)
    requires |values| == |names| && '=' !in name && ':' !in name
    requires FirstPrefix(name, names).None?
    ensures ApplyItem(values, names, q, name + "=" + value) == values
  {
    IndexOfJoint(name, '=', value);
    assert IndexOf(name, ':').None?;
  }

  /** "q:name=value" acts as "name=value" for the caller whose qualifier is
      q. */
  lemma QualifiedItem(values: seq<string>, names: seq<string>, q: string, name: string, value: string)
    requires |values| == |names| && q != "" && ':' !in q && '=' !in q
    requires name != "" && '=' !in name && ':' !in name
    ensures ApplyItem(values, names, Some(q), q + ":" + name + "=" + value)
         == ApplyItem(values, names, None, name + "=" + value)
  {
    var full := q + ":" + name;
    IndexOfJoint(full, '=', value);
    IndexOfJoint(q, ':', name);
    IndexOfJoint(name, '=', value);
    assert ItemName(full, Some(q)) == Some(name);
  }

  /** ... and is skipped by a caller with another qualifier. */
  lemma OtherQualifierSkipped(values: seq<string>, names: seq<string>, q: string, other: string, name: string, value: string)
    requires |values| == |names| && q != "" && ':' !in q && '=' !in q && other != q
    requires '=' !in name
    ensures ApplyItem(values, names, Some(other), q + ":" + name + "=" + value) == values
  {
    var full := q + ":" + name;
    var item := q + ":" + name + "=" + value;
    assert item == full + "=" + value;
    IndexOfJoint(full, '=', value);
    assert item[..|full|] == full;
    IndexOfJoint(q, ':', name);
    assert full[..|q|] == q;
    assert ItemName(full, Some(other)).None?;
  }

  /** A later item is applied after the earlier ones, so the last
      assignment to a parameter wins. */
  lemma LastItemWins(values: seq<string>, names: seq<string>, q: Option<string>, p: string, item: string)
    requires |values| == |names| && p != "" && ',' !in item
    ensures ParseParameters(values, names, q, Some(p + "," + item))
         == ApplyItem(ParseParameters(values, names, q, Some(p)), names, q, item)
  {
    PiecesAppend(p, ',', item);
    var items := Pieces(p + "," + item, ',');
    assert items[..|items| - 1] == Pieces(p, ',');
  }

  /** Without a parameter list every value is "". */
  lemma NoParametersAllEmpty(names: seq<string>, q: Option<string>)
    ensures GetParameters(Some(names), q, None) == seq(|names|, _ => "")
    ensures GetParameters(Some(names), q, Some("")) == seq(|names|, _ => "")
  {
  }
}
