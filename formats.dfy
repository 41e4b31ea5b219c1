/** The two configuration parsers of the capacity policies and the byte
    formatter.

    A policy's limit is configured as text such as "100kb" or "5k".  The
    metric parser (`CompProperties_DataFormat.Value`) knows the suffixes
    k, m and b (10^3, 10^6, 10^9); the byte parser
    (`CompProperties_DataFormatBytes.Value`) knows tb, gb, mb, kb and b
    (2^40, 2^30, 2^20, 2^10, 1).  Both trim and lower-case the text, strip
    the suffix, parse the rest as a decimal number, log an error and give 0
    when that fails, and memoise the result.  The engine's `decimal` is
    taken as an exact rational (`real`). */
module Formats {
  import opened Things
  import SortedLists

  // ---------------------------------------------------------------
  // Trimming and lower-casing
  // ---------------------------------------------------------------

  /** `char.IsWhiteSpace` on the Latin-1 range: space, tab to carriage
      return, next-line and no-break space. */
  predicate IsWhiteSpace(c: char)
  {
    c == ' ' || 9 <= c as int <= 13 || c as int == 0x85 || c as int == 0xA0
  }

  predicate AllWhiteSpace(s: string)
  {
    forall i :: 0 <= i < |s| ==> IsWhiteSpace(s[i])
  }

  /** `TrimStart()`: drops the leading white space. */
  function TrimStart(s: string): (r: string)
    ensures |r| <= |s|
  {
    if s != [] && IsWhiteSpace(s[0]) then TrimStart(s[1..]) else s
  }

  /** `TrimEnd()`: drops the trailing white space. */
  function TrimEnd(s: string): (r: string)
    ensures |r| <= |s|
  {
    if s != [] && IsWhiteSpace(s[|s| - 1]) then TrimEnd(s[..|s| - 1]) else s
  }

  /** `string.Trim()`. */
  function Trim(s: string): string
  {
    TrimEnd(TrimStart(s))
  }

  /** `TrimStart` keeps a suffix of the text and `TrimEnd` a prefix. */
  lemma {:induction false} TrimStartSuffix(s: string)
    ensures TrimStart(s) == s[|s| - |TrimStart(s)|..]
  {
    if s != [] && IsWhiteSpace(s[0]) {
      TrimStartSuffix(s[1..]);
      DropOfDrop(s, 1, |s| - 1 - |TrimStart(s)|);
    }
  }

  lemma {:induction false} TrimEndPrefix(s: string)
    ensures TrimEnd(s) == s[..|TrimEnd(s)|]
  {
    if s != [] && IsWhiteSpace(s[|s| - 1]) {
      TrimEndPrefix(s[..|s| - 1]);
    }
  }

  /** `TrimStart` drops white space only, up to the first other
      character. */
  lemma {:induction false} TrimStartDrops(s: string)
    ensures AllWhiteSpace(s[..|s| - |TrimStart(s)|])
    ensures TrimStart(s) == [] || !IsWhiteSpace(TrimStart(s)[0])
  {
    if s != [] && IsWhiteSpace(s[0]) {
      TrimStartDrops(s[1..]);
      assert s[..|s| - |TrimStart(s)|] == [s[0]] + s[1..][..|s| - 1 - |TrimStart(s)|];
    }
  }

  /** `TrimEnd` drops white space only, back to the last other
      character. */
  lemma {:induction false} TrimEndDrops(s: string)
    ensures AllWhiteSpace(s[|TrimEnd(s)|..])
    ensures TrimEnd(s) == [] || !IsWhiteSpace(TrimEnd(s)[|TrimEnd(s)| - 1])
  {
    if s != [] && IsWhiteSpace(s[|s| - 1]) {
      TrimEndDrops(s[..|s| - 1]);
      assert s[|TrimEnd(s)|..] == s[..|s| - 1][|TrimEnd(s)|..] + [s[|s| - 1]];
    }
  }

  /** `Trim` keeps a middle slice of the text ... */
  lemma TrimSlice(s: string)
    ensures var r, i := Trim(s), |s| - |TrimStart(s)|;
            i + |r| <= |s| && r == s[i..i + |r|]
  {
    TrimStartSuffix(s);
    TrimEndPrefix(TrimStart(s));
    SliceOfSlice(s, |s| - |TrimStart(s)|, |Trim(s)|);
  }

  /** ... drops only white space before and after it ... */
  lemma TrimDropsWhite(s: string)
    ensures var r, i := Trim(s), |s| - |TrimStart(s)|;
            i + |r| <= |s| && AllWhiteSpace(s[..i]) && AllWhiteSpace(s[i + |r|..])
  {
    var u := TrimStart(s);
    TrimStartDrops(s);
    TrimEndDrops(u);
    TrimStartSuffix(s);
    DropOfDrop(s, |s| - |u|, |Trim(s)|);
    assert s[|s| - |u| + |Trim(s)|..] == u[|Trim(s)|..];
  }

  /** ... and leaves no white space at either end. */
  lemma TrimEnds(s: string)
    ensures var r := Trim(s); r == [] || (!IsWhiteSpace(r[0]) && !IsWhiteSpace(r[|r| - 1]))
  {
    var u := TrimStart(s);
    TrimStartDrops(s);
    TrimEndDrops(u);
    if Trim(s) != [] {
      TrimEndPrefix(u);
      assert Trim(s)[0] == u[0];
    }
  }

  lemma SliceOfSlice<T>(s: seq<T>, i: nat, k: nat)
    requires i + k <= |s|
    ensures s[i..][..k] == s[i..i + k]
  {
  }

  lemma DropOfDrop<T>(s: seq<T>, i: nat, k: nat)
    requires i + k <= |s|
    ensures s[i..][k..] == s[i + k..]
  {
  }

  /** `Trim` removes exactly the white-space padding around a text that
      neither starts nor ends with white space. */
  lemma TrimPadded(pre: string, t: string, post: string)
    requires AllWhiteSpace(pre) && AllWhiteSpace(post)
    requires t == [] || (!IsWhiteSpace(t[0]) && !IsWhiteSpace(t[|t| - 1]))
    ensures t != [] ==> Trim(pre + t + post) == t
    ensures t == [] ==> Trim(pre + post) == []
  {
    if t != [] {
      TrimStartPadded(pre, t + post);
      assert pre + t + post == pre + (t + post);
      TrimEndPadded(t, post);
    } else {
      assert AllWhiteSpace(pre + post);
      TrimStartAllWhite(pre + post);
    }
  }

  lemma {:induction false} TrimStartPadded(pre: string, t: string)
    requires AllWhiteSpace(pre) && t != [] && !IsWhiteSpace(t[0])
    ensures TrimStart(pre + t) == t
  {
    if pre != [] {
      assert (pre + t)[1..] == pre[1..] + t;
      TrimStartPadded(pre[1..], t);
    }
  }

  lemma {:induction false} TrimEndPadded(t: string, post: string)
    requires AllWhiteSpace(post) && t != [] && !IsWhiteSpace(t[|t| - 1])
    ensures TrimEnd(t + post) == t
  {
    if post != [] {
      assert (t + post)[..|t + post| - 1] == t + post[..|post| - 1];
      TrimEndPadded(t, post[..|post| - 1]);
    } else {
      assert t + post == t;
    }
  }

  lemma {:induction false} TrimStartAllWhite(s: string)
    requires AllWhiteSpace(s)
    ensures TrimStart(s) == []
  {
    if s != [] {
      TrimStartAllWhite(s[1..]);
    }
  }

  /** `Trim` leaves nothing to trim. */
  lemma TrimIdempotent(s: string)
    ensures Trim(Trim(s)) == Trim(s)
  {
    var t := Trim(s);
    TrimEnds(s);
    if t != [] {
      TrimPadded([], t, []);
      assert [] + t + [] == t;
    } else {
      TrimPadded([], [], []);
    }
  }

  /** `char.ToLowerInvariant` on ASCII letters. */
  function LowerChar(c: char): char
  {
    if 'A' <= c <= 'Z' then (c as int - 'A' as int + 'a' as int) as char else c
  }

  /** `ToLowerInvariant()`. */
  function Lower(s: string): string
  {
    seq(|s|, i requires 0 <= i < |s| => LowerChar(s[i]))
  }

  /** Lower-casing is the identity on lower-cased text, keeps white space
      where it is, and so commutes with trimming. */
  lemma LowerIdempotent(s: string)
    ensures Lower(Lower(s)) == Lower(s)
  {
  }

  lemma LowerKeepsWhiteSpace(c: char)
    ensures IsWhiteSpace(LowerChar(c)) <==> IsWhiteSpace(c)
  {
  }

  lemma {:induction false} TrimStartLower(s: string)
    ensures TrimStart(Lower(s)) == Lower(TrimStart(s))
  {
    if s != [] {
      LowerKeepsWhiteSpace(s[0]);
      if IsWhiteSpace(s[0]) {
        assert Lower(s)[1..] == Lower(s[1..]);
        TrimStartLower(s[1..]);
      }
    }
  }

  lemma {:induction false} TrimEndLower(s: string)
    ensures TrimEnd(Lower(s)) == Lower(TrimEnd(s))
  {
    if s != [] {
      LowerKeepsWhiteSpace(s[|s| - 1]);
      if IsWhiteSpace(s[|s| - 1]) {
        assert Lower(s)[..|s| - 1] == Lower(s[..|s| - 1]);
        TrimEndLower(s[..|s| - 1]);
      }
    }
  }

  lemma TrimLower(s: string)
    ensures Trim(Lower(s)) == Lower(Trim(s))
  {
    TrimStartLower(s);
    TrimEndLower(TrimStart(s));
  }

  predicate EndsWith(s: string, suffix: string)
  {
    |suffix| <= |s| && s[|s| - |suffix|..] == suffix
  }

  // ---------------------------------------------------------------
  // Decimal numbers
  // ---------------------------------------------------------------

  predicate IsDigit(c: char) { '0' <= c <= '9' }

  predicate AllDigits(s: string)
  {
    forall i :: 0 <= i < |s| ==> IsDigit(s[i])
  }

  function DigitValue(c: char): nat
    requires IsDigit(c)
  {
    c as int - '0' as int
  }

  /** The value of a run of decimal digits, most significant first. */
  function DigitsValue(s: string): nat
    requires AllDigits(s)
  {
    if s == [] then 0 else DigitsValue(s[..|s| - 1]) * 10 + DigitValue(s[|s| - 1])
  }

  /** The value of the digits after a decimal point. */
  function FracValue(s: string): (r: real)
    requires AllDigits(s)
    ensures 0.0 <= r < 1.0
  {
    if s == [] then 0.0 else (DigitValue(s[0]) as real + FracValue(s[1..])) / 10.0
  }

  /** An unsigned decimal: digits, optionally a point and more digits, with
      at least one digit in all. */
  function ParseUnsigned(s: string): (r: Option<real>)
    ensures r.Some? ==> r.value >= 0.0
  {
    if '.' in s then
      var k := SortedLists.IndexOf(s, '.');
      var whole, frac := s[..k], s[k + 1..];
      if AllDigits(whole) && AllDigits(frac) && |whole| + |frac| > 0
      then Some(DigitsValue(whole) as real + FracValue(frac))
      else None
    else if AllDigits(s) && s != [] then Some(DigitsValue(s) as real)
    else None
  }

  /** `decimal.TryParse` on the number grammar this model keeps: white
      space around an optionally signed unsigned decimal. */
  function ParseNumber(s: string): Option<real>
  {
    var t := Trim(s);
    if t != [] && t[0] == '-' then
      match ParseUnsigned(t[1..])
      case Some(v) => Some(-v)
      case None => None
    else if t != [] && t[0] == '+' then ParseUnsigned(t[1..])
    else ParseUnsigned(t)
  }

  /** A text without a single digit is no number. */
  lemma NoDigitNoNumber(s: string)
    requires NoDigit(s)
    ensures ParseNumber(s) == None
  {
    var t := Trim(s);
    TrimNoDigit(s);
    if t != [] && (t[0] == '-' || t[0] == '+') {
      SliceNoDigit(t, 1, |t|);
      assert t[1..|t|] == t[1..];
      NoDigitNoUnsigned(t[1..]);
    } else {
      NoDigitNoUnsigned(t);
    }
  }

  lemma SliceNoDigit(s: string, i: int, j: int)
    requires NoDigit(s) && 0 <= i <= j <= |s|
    ensures NoDigit(s[i..j])
  {
    forall k | 0 <= k < j - i ensures !IsDigit(s[i..j][k]) {
      assert s[i..j][k] == s[i + k];
    }
  }

  lemma TrimNoDigit(s: string)
    requires NoDigit(s)
    ensures NoDigit(Trim(s))
  {
    var u := TrimStart(s);
    TrimStartSuffix(s);
    TrimEndPrefix(u);
    SliceNoDigit(s, |s| - |u|, |s|);
    assert s[|s| - |u|..|s|] == u;
    var t := TrimEnd(u);
    SliceNoDigit(u, 0, |t|);
    assert u[0..|t|] == t;
  }

  lemma NoDigitNoUnsigned(u: string)
    requires NoDigit(u)
    ensures ParseUnsigned(u) == None
  {
    if '.' in u {
      var k := SortedLists.IndexOf(u, '.');
      if |u[..k]| > 0 {
        assert !IsDigit(u[..k][0]);
      } else if |u[k + 1..]| > 0 {
        assert !IsDigit(u[k + 1..][0]);
      }
    } else if u != [] {
      assert !IsDigit(u[0]);
    }
  }

  /** The decimal text of a natural number. */
  function NatText(n: nat): (r: string)
    ensures r != [] && AllDigits(r)
  {
    if n < 10 then [(n + '0' as int) as char]
    else NatText(n / 10) + [(n % 10 + '0' as int) as char]
  }

  /** Reading back the text of `n` gives `n`. */
  lemma {:induction false} NatTextValue(n: nat)
    ensures DigitsValue(NatText(n)) == n
  {
    if n >= 10 {
      var t := NatText(n);
      assert t[..|t| - 1] == NatText(n / 10);
      NatTextValue(n / 10);
    }
  }

  /** A text that neither starts nor ends with white space is its own
      trim. */
  lemma TrimSolid(t: string)
    requires t != [] && !IsWhiteSpace(t[0]) && !IsWhiteSpace(t[|t| - 1])
    ensures Trim(t) == t
  {
    TrimPadded([], t, []);
    assert [] + t + [] == t;
  }

  /** A run of digits parses to its value, also after a minus sign. */
  lemma ParseDigits(t: string)
    requires t != [] && AllDigits(t)
    ensures ParseNumber(t) == Some(DigitsValue(t) as real)
    ensures ParseNumber(['-'] + t) == Some(-(DigitsValue(t) as real))
  {
    DigitsNoPoint(t);
    assert ParseUnsigned(t) == Some(DigitsValue(t) as real);
    assert IsDigit(t[0]) && IsDigit(t[|t| - 1]);
    TrimSolid(t);
    var m := ['-'] + t;
    assert m[1..] == t && m[|m| - 1] == t[|t| - 1];
    TrimSolid(m);
  }

  lemma DigitsNoPoint(t: string)
    requires AllDigits(t)
    ensures '.' !in t
  {
    forall i | 0 <= i < |t| ensures t[i] != '.' {
      assert IsDigit(t[i]);
    }
  }

  /** `ParseNumber` inverts `NatText`. */
  lemma ParseNatText(n: nat)
    ensures ParseNumber(NatText(n)) == Some(n as real)
    ensures ParseNumber(['-'] + NatText(n)) == Some(-(n as real))
  {
    ParseDigits(NatText(n));
    NatTextValue(n);
  }

  /** Digits, a point and fraction digits parse to the whole part plus the
      fraction. */
  lemma ParseDecimalDigits(t: string, frac: string)
    requires t != [] && AllDigits(t) && AllDigits(frac)
    ensures ParseNumber(t + "." + frac) == Some(DigitsValue(t) as real + FracValue(frac))
  {
    var s := t + "." + frac;
    assert s == t + ("." + frac);
    UnsignedSplit(t, frac, s);
    assert s[0] == t[0] && IsDigit(t[0]);
    if frac == [] {
      assert s[|s| - 1] == '.';
    } else {
      assert s[|s| - 1] == frac[|frac| - 1] && IsDigit(frac[|frac| - 1]);
    }
    TrimSolid(s);
  }

  /** A point followed by fraction digits adds their value. */
  lemma ParseDecimalText(n: nat, frac: string)
    requires AllDigits(frac)
    ensures ParseNumber(NatText(n) + "." + frac) == Some(n as real + FracValue(frac))
  {
    ParseDecimalDigits(NatText(n), frac);
    NatTextValue(n);
  }

  /** Digits without a point, a point, digits: the point splits the text. */
  lemma UnsignedSplit(t: string, frac: string, s: string)
    requires AllDigits(t) && AllDigits(frac) && |t| + |frac| > 0
    requires s == t + ("." + frac)
    ensures ParseUnsigned(s) == Some(DigitsValue(t) as real + FracValue(frac))
  {
    PointAfterDigits(t, "." + frac);
    assert s[..|t|] == t;
    assert s[|t| + 1..] == frac;
    UnsignedAt(s, |t|);
  }

  /** Where the first point is, the parse splits. */
  lemma UnsignedAt(s: string, k: nat)
    requires '.' in s && SortedLists.IndexOf(s, '.') == k
    requires AllDigits(s[..k]) && AllDigits(s[k + 1..]) && |s| > 1
    ensures ParseUnsigned(s) == Some(DigitsValue(s[..k]) as real + FracValue(s[k + 1..]))
  {
  }

  lemma {:induction false} PointAfterDigits(t: string, rest: string)
    requires AllDigits(t) && rest != [] && rest[0] == '.'
    ensures '.' in t + rest && SortedLists.IndexOf(t + rest, '.') == |t|
  {
    assert (t + rest)[|t|] == '.';
    if t != [] {
      assert (t + rest)[1..] == t[1..] + rest;
      PointAfterDigits(t[1..], rest);
    }
  }

  // ---------------------------------------------------------------
  // The two suffix parsers
  // ---------------------------------------------------------------

  /** A parsed configuration value and whether an error was logged. */
  datatype Parsed = Parsed(value: real, logged: bool)

  /** The metric suffix of a trimmed, lower-cased text: the multiplier and
      what is left of the number. */
  function MetricSplit(str: string): (real, string)
  {
    if EndsWith(str, "k") then (1000.0, str[..|str| - 1])
    else if EndsWith(str, "m") then (1000000.0, str[..|str| - 1])
    else if EndsWith(str, "b") then (1000000000.0, str[..|str| - 1])
    else (1.0, str)
  }

  /** The byte suffix of a trimmed, lower-cased text, the two-letter
      suffixes tested before the bare "b". */
  function BytesSplit(str: string): (real, string)
  {
    if EndsWith(str, "tb") then (1099511627776.0, str[..|str| - 2])
    else if EndsWith(str, "gb") then (1073741824.0, str[..|str| - 2])
    else if EndsWith(str, "mb") then (1048576.0, str[..|str| - 2])
    else if EndsWith(str, "kb") then (1024.0, str[..|str| - 2])
    else if EndsWith(str, "b") then (1.0, str[..|str| - 1])
    else (1.0, str)
  }

  /** Multiplier times number, or 0 with an error logged when the number
      does not parse. */
  function Scale(split: (real, string)): Parsed
  {
    match ParseNumber(split.1)
    case Some(x) => Parsed(x * split.0, false)
    case None => Parsed(0.0, true)
  }

  /** `CompProperties_DataFormat.Value` before memoisation. */
  function ParseMetric(value: Option<string>): Parsed
  {
    if value.None? || value.value == [] then Parsed(0.0, false)
    else Scale(MetricSplit(Lower(Trim(value.value))))
  }

  /** `CompProperties_DataFormatBytes.Value` before memoisation. */
  function ParseBytes(value: Option<string>): Parsed
  {
    if value.None? || value.value == [] then Parsed(0.0, false)
    else Scale(BytesSplit(Lower(Trim(value.value))))
  }

  /** A failed parse is always 0. */
  lemma LoggedIsZero(value: Option<string>)
    ensures ParseMetric(value).logged ==> ParseMetric(value).value == 0.0
    ensures ParseBytes(value).logged ==> ParseBytes(value).value == 0.0
  {
  }

  lemma LowerDigits(t: string)
    requires AllDigits(t)
    ensures Lower(t) == t
  {
  }

  lemma LowerAppend(a: string, b: string)
    ensures Lower(a + b) == Lower(a) + Lower(b)
  {
  }

  /** On a text with no white space at either end, the parsers skip the
      trim. */
  lemma ParseSolid(s: string)
    requires s != [] && !IsWhiteSpace(s[0]) && !IsWhiteSpace(s[|s| - 1])
    ensures ParseMetric(Some(s)) == Scale(MetricSplit(Lower(s)))
    ensures ParseBytes(Some(s)) == Scale(BytesSplit(Lower(s)))
  {
    TrimSolid(s);
  }

  /** The lower-cased text of `n` followed by `suffix`. */
  lemma LowerNumberWith(n: nat, suffix: string)
    ensures Lower(NatText(n) + suffix) == NatText(n) + Lower(suffix)
    ensures var s := NatText(n) + suffix; s != [] && IsDigit(s[0])
  {
    LowerAppend(NatText(n), suffix);
    LowerDigits(NatText(n));
  }

  /** A number with a metric suffix, in upper or lower case, is scaled by
      the suffix. */
  lemma MetricScales(n: nat, c: char)
    requires LowerChar(c) in "kmb"
    ensures LowerChar(c) == 'k' ==> ParseMetric(Some(NatText(n) + [c])) == Parsed(n as real * 1000.0, false)
    ensures LowerChar(c) == 'm' ==> ParseMetric(Some(NatText(n) + [c])) == Parsed(n as real * 1000000.0, false)
    ensures LowerChar(c) == 'b' ==> ParseMetric(Some(NatText(n) + [c])) == Parsed(n as real * 1000000000.0, false)
  {
    var t := NatText(n);
    LowerDigits(t);
    MetricLetter(t, c);
    ParseNatText(n);
    ScaleParsed(t, n as real);
  }

  /** Digits and a metric letter: the letter picks the multiplier, the
      digits are the number. */
  lemma MetricLetter(t: string, c: char)
    requires t != [] && AllDigits(t) && Lower(t) == t && LowerChar(c) in "kmb"
    ensures var p := ParseMetric(Some(t + [c]));
            (LowerChar(c) == 'k' ==> p == Scale((1000.0, t))) &&
            (LowerChar(c) == 'm' ==> p == Scale((1000000.0, t))) &&
            (LowerChar(c) == 'b' ==> p == Scale((1000000000.0, t)))
  {
    var x := LowerChar(c);
    LowerAppend(t, [c]);
    assert Lower([c]) == [x];
    LowerKeepsWhiteSpace(c);
    assert IsDigit(t[0]);
    ParseSolid(t + [c]);
    MetricSplitLetter(t, x);
  }

  /** Every multiplier either parser uses, applied to a number that
      parses. */
  lemma ScaleParsed(t: string, v: real)
    requires ParseNumber(t) == Some(v)
    ensures Scale((1.0, t)) == Parsed(v, false)
    ensures Scale((1000.0, t)) == Parsed(v * 1000.0, false)
    ensures Scale((1000000.0, t)) == Parsed(v * 1000000.0, false)
    ensures Scale((1000000000.0, t)) == Parsed(v * 1000000000.0, false)
    ensures Scale((1024.0, t)) == Parsed(v * 1024.0, false)
    ensures Scale((1048576.0, t)) == Parsed(v * 1048576.0, false)
    ensures Scale((1073741824.0, t)) == Parsed(v * 1073741824.0, false)
    ensures Scale((1099511627776.0, t)) == Parsed(v * 1099511627776.0, false)
  {
  }

  lemma MetricSplitLetter(t: string, x: char)
    requires x in "kmb"
    ensures x == 'k' ==> MetricSplit(t + [x]) == (1000.0, t)
    ensures x == 'm' ==> MetricSplit(t + [x]) == (1000000.0, t)
    ensures x == 'b' ==> MetricSplit(t + [x]) == (1000000000.0, t)
  {
    var l := t + [x];
    assert l[..|l| - 1] == t;
    assert l[|l| - 1..] == [x];
  }

  /** A plain number has multiplier 1 under both parsers. */
  lemma PlainNumber(n: nat)
    ensures ParseMetric(Some(NatText(n))) == Parsed(n as real, false)
    ensures ParseBytes(Some(NatText(n))) == Parsed(n as real, false)
  {
    var t := NatText(n);
    LowerDigits(t);
    assert IsDigit(t[|t| - 1]);
    ParseSolid(t);
    NoSuffix(t);
    ParseNatText(n);
    ScaleParsed(t, n as real);
  }

  /** A text ending in a digit has no suffix. */
  lemma NoSuffix(t: string)
    requires t != [] && IsDigit(t[|t| - 1])
    ensures MetricSplit(t) == (1.0, t) && BytesSplit(t) == (1.0, t)
  {
    NotEndingWith(t, "k");
    NotEndingWith(t, "m");
    NotEndingWith(t, "b");
    NotEndingWith(t, "tb");
    NotEndingWith(t, "gb");
    NotEndingWith(t, "mb");
    NotEndingWith(t, "kb");
  }

  lemma NotEndingWith(t: string, suffix: string)
    requires suffix != [] && t != [] && t[|t| - 1] != suffix[|suffix| - 1]
    ensures !EndsWith(t, suffix)
  {
    if |suffix| <= |t| {
      assert t[|t| - |suffix|..][|suffix| - 1] == t[|t| - 1];
    }
  }

  /** A number followed by tb, gb, mb or kb, in any case, is scaled by that
      power of 1024: the two-letter suffix is never read as a bare "b". */
  lemma BytesScales(n: nat, c: char, b: char)
    requires LowerChar(c) in "tgmk" && LowerChar(b) == 'b'
    ensures LowerChar(c) == 't' ==> ParseBytes(Some(NatText(n) + [c, b])) == Parsed(n as real * 1099511627776.0, false)
    ensures LowerChar(c) == 'g' ==> ParseBytes(Some(NatText(n) + [c, b])) == Parsed(n as real * 1073741824.0, false)
    ensures LowerChar(c) == 'm' ==> ParseBytes(Some(NatText(n) + [c, b])) == Parsed(n as real * 1048576.0, false)
    ensures LowerChar(c) == 'k' ==> ParseBytes(Some(NatText(n) + [c, b])) == Parsed(n as real * 1024.0, false)
  {
    var t := NatText(n);
    LowerDigits(t);
    BytesLetters(t, c, b);
    ParseNatText(n);
    ScaleParsed(t, n as real);
  }

  /** Digits and a two-letter byte suffix: the first letter picks the
      multiplier, the digits are the number. */
  lemma BytesLetters(t: string, c: char, b: char)
    requires t != [] && AllDigits(t) && Lower(t) == t && LowerChar(c) in "tgmk" && LowerChar(b) == 'b'
    ensures var p := ParseBytes(Some(t + [c, b]));
            (LowerChar(c) == 't' ==> p == Scale((1099511627776.0, t))) &&
            (LowerChar(c) == 'g' ==> p == Scale((1073741824.0, t))) &&
            (LowerChar(c) == 'm' ==> p == Scale((1048576.0, t))) &&
            (LowerChar(c) == 'k' ==> p == Scale((1024.0, t)))
  {
    var x := LowerChar(c);
    LowerAppend(t, [c, b]);
    assert Lower([c, b]) == [x, 'b'];
    LowerKeepsWhiteSpace(b);
    assert IsDigit(t[0]);
    ParseSolid(t + [c, b]);
    BytesSplitPair(t, x);
  }

  lemma BytesSplitPair(t: string, x: char)
    requires x in "tgmk"
    ensures x == 't' ==> BytesSplit(t + [x, 'b']) == (1099511627776.0, t)
    ensures x == 'g' ==> BytesSplit(t + [x, 'b']) == (1073741824.0, t)
    ensures x == 'm' ==> BytesSplit(t + [x, 'b']) == (1048576.0, t)
    ensures x == 'k' ==> BytesSplit(t + [x, 'b']) == (1024.0, t)
  {
    var l := t + [x, 'b'];
    assert l[..|l| - 2] == t;
    assert l[|l| - 2..] == [x, 'b'];
    assert l[|l| - 1..] == ['b'];
  }

  /** A bare "b", in either case, is one byte. */
  lemma BytesBare(n: nat, b: char)
    requires LowerChar(b) == 'b'
    ensures ParseBytes(Some(NatText(n) + [b])) == Parsed(n as real, false)
  {
    var t := NatText(n);
    LowerNumberWith(n, [b]);
    assert Lower([b]) == ['b'];
    LowerKeepsWhiteSpace(b);
    ParseSolid(t + [b]);
    BytesSplitBare(t);
    ParseNatText(n);
    ScaleParsed(t, n as real);
  }

  lemma BytesSplitBare(t: string)
    requires t != [] && IsDigit(t[|t| - 1])
    ensures BytesSplit(t + ['b']) == (1.0, t)
  {
    var l := t + ['b'];
    assert l[..|l| - 1] == t;
    assert l[|l| - 1..] == ['b'];
    NotBeforeB(t, 't');
    NotBeforeB(t, 'g');
    NotBeforeB(t, 'm');
    NotBeforeB(t, 'k');
  }

  lemma NotBeforeB(t: string, y: char)
    requires t != [] && IsDigit(t[|t| - 1]) && !IsDigit(y)
    ensures !EndsWith(t + ['b'], [y, 'b'])
  {
    var l := t + ['b'];
    assert l[|l| - 2..][0] == l[|l| - 2] == t[|t| - 1];
  }

  /** The two parsers read the suffix "b" differently: a billion to the
      metric one, one byte to the byte one. */
  lemma SuffixBDisagrees(n: nat)
    ensures ParseMetric(Some(NatText(n) + "b")).value == 1000000000.0 * ParseBytes(Some(NatText(n) + "b")).value
  {
    MetricScales(n, 'b');
    BytesBare(n, 'b');
  }

  /** Both parsers ignore letter case. */
  lemma CaseInsensitive(s: string)
    ensures ParseMetric(Some(Lower(s))) == ParseMetric(Some(s))
    ensures ParseBytes(Some(Lower(s))) == ParseBytes(Some(s))
  {
    TrimLower(s);
    LowerIdempotent(Trim(s));
  }

  /** Text with no digit at all is an error under both parsers. */
  lemma NoDigitIsError(s: string)
    requires s != [] && NoDigit(s)
    ensures ParseMetric(Some(s)) == Parsed(0.0, true)
    ensures ParseBytes(Some(s)) == Parsed(0.0, true)
  {
    var l := Lower(Trim(s));
    TrimNoDigit(s);
    LowerNoDigit(Trim(s));
    SplitNoDigit(l);
    NoDigitNoNumber(MetricSplit(l).1);
    NoDigitNoNumber(BytesSplit(l).1);
  }

  predicate NoDigit(s: string)
  {
    forall i :: 0 <= i < |s| ==> !IsDigit(s[i])
  }

  /** Stripping a suffix brings in no digit. */
  lemma SplitNoDigit(l: string)
    requires NoDigit(l)
    ensures NoDigit(MetricSplit(l).1) && NoDigit(BytesSplit(l).1)
  {
    SplitIsPrefix(l);
    PrefixNoDigit(l, MetricSplit(l).1);
    PrefixNoDigit(l, BytesSplit(l).1);
  }

  /** What is left after the suffix is a prefix of the text. */
  lemma SplitIsPrefix(l: string)
    ensures var p := MetricSplit(l).1; |p| <= |l| && p == l[..|p|]
    ensures var p := BytesSplit(l).1; |p| <= |l| && p == l[..|p|]
  {
  }

  lemma LowerNoDigit(s: string)
    requires NoDigit(s)
    ensures NoDigit(Lower(s))
  {
  }

  lemma PrefixNoDigit(l: string, p: string)
    requires NoDigit(l) && |p| <= |l| && p == l[..|p|]
    ensures NoDigit(p)
  {
    forall i | 0 <= i < |p| ensures !IsDigit(p[i]) {
      assert p[i] == l[i];
    }
  }

  // ---------------------------------------------------------------
  // Memoised configuration
  // ---------------------------------------------------------------

  /** The configuration of a capacity policy: the configured text (never
      changed after load), which parser reads it, the memo `ValueInt` and
      the count of errors logged.  The parse depends on nothing but the
      two constants, so it is taken once, as `parsed`; `Value` is where
      it is first read and where a failed parse is logged. */
  class FormatProps {
    const value: Option<string>
    const bytes: bool
    const parsed: Parsed
    var ValueInt: Option<real>
    var Errors: nat

    /** What the configured text parses to. */
    function Configured(): Parsed
    {
      if bytes then ParseBytes(value) else ParseMetric(value)
    }

    /** `parsed` is the parse of the configured text, and the memo, once
        filled, holds it. */
    ghost predicate Valid()
      reads this
    {
      parsed == Configured() && (ValueInt.None? || ValueInt == Some(parsed.value))
    }

    constructor(value: Option<string>, bytes: bool)
      ensures Valid() && ValueInt.None? && Errors == 0
      ensures this.value == value && this.bytes == bytes && parsed == Configured()
    {
      this.value := value;
      this.bytes := bytes;
      parsed := if bytes then ParseBytes(value) else ParseMetric(value);
      ValueInt := None;
      Errors := 0;
    }

    /** `Value`: the first read memoises the parse (logging an error if
        the number does not parse); every read returns the parse. */
    method Value() returns (v: real)
      requires Valid()
      modifies this
      ensures Valid() && ValueInt == Some(v) && v == Configured().value
      ensures Errors == old(Errors) + (if old(ValueInt).None? && parsed.logged then 1 else 0)
    {
      if ValueInt.None? {
        ValueInt := Some(parsed.value);
        if parsed.logged {
          Errors := Errors + 1;
        }
      }
      v := ValueInt.value;
    }
  }

  // ---------------------------------------------------------------
  // Byte formatting
  // ---------------------------------------------------------------

  /** The unit names of `ToString(decimal)`. */
  const Units: seq<string> := ["B", "KB", "MB", "GB", "TB", "PB", "EB"]

  function Pow1024(k: nat): (r: nat)
    ensures r >= 1
  {
    if k == 0 then 1 else 1024 * Pow1024(k - 1)
  }

  /** The mantissa as the format `0.##` shows it: rounded to two decimal
      places, a midpoint away from zero. */
  function RoundTwo(v: real): (r: real)
    ensures (r * 100.0).Floor as real == r * 100.0
    ensures -0.005 <= r - v <= 0.005
    ensures v >= 0.0 ==> r >= 0.0
  {
    var a := if v >= 0.0 then v else -v;
    var k := (a * 100.0 + 0.5).Floor;
    assert k as real <= a * 100.0 + 0.5 < k as real + 1.0;
    if v >= 0.0 then
      assert (k as real / 100.0) * 100.0 == k as real;
      assert (k as real).Floor == k;
      k as real / 100.0
    else
      assert -(k as real / 100.0) * 100.0 == (-k) as real;
      assert ((-k) as real).Floor == -k;
      -(k as real / 100.0)
  }

  /** Rounding to two places never crosses a whole number. */
  lemma RoundTwoBetween(v: real, n: int)
    ensures v <= n as real ==> RoundTwo(v) <= n as real
    ensures v >= n as real ==> RoundTwo(v) >= n as real
  {
    var k := (RoundTwo(v) * 100.0).Floor;
    assert k as real == RoundTwo(v) * 100.0;
    if v <= n as real {
      assert k as real <= 100.0 * n as real + 0.5;
      assert k <= 100 * n;
    }
    if v >= n as real {
      assert k as real >= 100.0 * n as real - 0.5;
      assert k >= 100 * n;
    }
  }

  /** The loop of `ToString(decimal bytes)`: divide by 1024 while the value
      is at least 1024 and a larger unit is left. */
  method ScaleBytes(bytes: real) returns (val: real, unitIndex: nat)
    ensures unitIndex < |Units|
    ensures val * Pow1024(unitIndex) as real == bytes
    ensures val < 1024.0 || unitIndex == |Units| - 1
    ensures unitIndex > 0 ==> val >= 1.0
  {
    val, unitIndex := bytes, 0;
    while val >= 1024.0 && unitIndex < |Units| - 1
      invariant unitIndex < |Units|
      invariant val * Pow1024(unitIndex) as real == bytes
      invariant unitIndex > 0 ==> val >= 1.0
    {
      DivideStep(val, unitIndex);
      val := val / 1024.0;
      unitIndex := unitIndex + 1;
    }
  }

  /** `ToString(decimal bytes)`: the mantissa before rounding, as shown
      (rounded to two places), and its unit. The digits of the text itself
      are not modelled. */
  method FormatBytes(bytes: real) returns (val: real, shown: real, unitIndex: nat, unit: string)
    ensures unitIndex < |Units| && unit == Units[unitIndex]
    ensures val * Pow1024(unitIndex) as real == bytes
    ensures val < 1024.0 || unitIndex == |Units| - 1
    ensures (shown * 100.0).Floor as real == shown * 100.0
    ensures -0.005 <= shown - val <= 0.005
    ensures shown <= 1024.0 || unitIndex == |Units| - 1
    ensures unitIndex > 0 ==> shown >= 1.0
  {
    val, unitIndex := ScaleBytes(bytes);
    unit := Units[unitIndex];
    shown := RoundTwo(val);
    RoundTwoBetween(val, 1024);
    RoundTwoBetween(val, 1);
  }

  /** Just below 1 MB the mantissa stays under 1024 in KB, and the rounding
      shows it as 1024: 1048575 bytes prints as "1024KB". */
  lemma FullKilobyteShown()
    ensures 1048575.0 / 1024.0 < 1024.0
    ensures RoundTwo(1048575.0 / 1024.0) == 1024.0
  {
    var v := 1048575.0 / 1024.0;
    assert v * 100.0 + 0.5 == 102400.40234375;
    assert (v * 100.0 + 0.5).Floor == 102400;
  }

  lemma DivideStep(val: real, k: nat)
    ensures (val / 1024.0) * Pow1024(k + 1) as real == val * Pow1024(k) as real
  {
    var p := Pow1024(k) as real;
    assert Pow1024(k + 1) as real == 1024.0 * p;
    assert (val / 1024.0) * (1024.0 * p) == val * p;
  }
}
