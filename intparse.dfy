/** Python's `int()` as the scraper applies it: to decoded JSON values, to
    the text of HTML table cells and to CSV fields, and the `safe_int`
    wrapper that turns every failure into a caller-chosen default
    (scraper/scrape_and_push.py:106-113). */
module IntParsing {
  import opened JsonValues
  import opened Collections

  predicate IsDigit(c: char)
  {
    '0' <= c <= '9'
  }

  predicate AllDigits(s: string)
  {
    forall i :: 0 <= i < |s| ==> IsDigit(s[i])
  }

  function DigitValue(c: char): (d: nat)
    requires IsDigit(c)
    ensures d < 10
  {
    c as int - '0' as int
  }

  function DigitChar(d: nat): (c: char)
    requires d < 10
    ensures IsDigit(c) && DigitValue(c) == d
  {
    ('0' as int + d) as char
  }

  /** The whitespace `int()` ignores around the number: the ASCII space and
      '\t' to '\r', and the non-ASCII characters Python counts as
      whitespace. The separators U+001C to U+001F, which `str.isspace()`
      accepts, are not among them: `int()` rejects text holding them. */
  predicate IsSpace(c: char)
  {
    (c <= ' ' && (c == ' ' || '\t' <= c <= '\r')) || ('\U{85}' <= c && IsWideSpace(c))
  }

  predicate IsWideSpace(c: char)
  {
    || c == '\U{85}' || c == '\U{A0}' || c == '\U{1680}'
    || '\U{2000}' <= c <= '\U{200A}'
    || c == '\U{2028}' || c == '\U{2029}' || c == '\U{202F}' || c == '\U{205F}' || c == '\U{3000}'
  }

  function TrimStart(s: string): (r: string)
    ensures |r| <= |s| && r == s[|s| - |r|..]
    ensures r != [] ==> !IsSpace(r[0])
    ensures forall k :: 0 <= k < |s| - |r| ==> IsSpace(s[k])
    decreases |s|
  {
    if s != [] && IsSpace(s[0]) then TrimStart(s[1..]) else s
  }

  function TrimEnd(s: string): (r: string)
    ensures |r| <= |s| && r == s[..|r|]
    ensures r != [] ==> !IsSpace(r[|r| - 1])
    ensures forall k :: |r| <= k < |s| ==> IsSpace(s[k])
    decreases |s|
  {
    if s != [] && IsSpace(s[|s| - 1]) then TrimEnd(s[..|s| - 1]) else s
  }

  /** The text `int()` reads: s without its leading and trailing
      whitespace. r is the slice of s starting at i; everything before i
      and everything after r is whitespace, and r neither starts nor ends
      with whitespace. */
  function Strip(s: string): (r: string)
    ensures r == [] || (!IsSpace(r[0]) && !IsSpace(r[|r| - 1]))
    ensures var i := |s| - |TrimStart(s)|;
      && i + |r| <= |s| && r == s[i..i + |r|]
      && (forall k :: 0 <= k < i ==> IsSpace(s[k]))
      && (forall k :: i + |r| <= k < |s| ==> IsSpace(s[k]))
  {
    TrimEnd(TrimStart(s))
  }

  /** Python's grammar for the body of a decimal literal: digits, where a
      single underscore may stand between two of them. */
  predicate Grouped(u: string)
  {
    && |u| > 0
    && IsDigit(u[0])
    && forall i :: 0 <= i < |u| ==> IsDigit(u[i]) || (u[i] == '_' && i + 1 < |u| && IsDigit(u[i + 1]))
  }

  /** `re.sub(r"[^0-9]", "", s)`: the ASCII digits of s, in order. */
  function DigitsOnly(s: string): (r: string)
    ensures AllDigits(r) && |r| <= |s|
  {
    Filter(s, IsDigit)
  }

  /** The value of a string of decimal digits; leading zeros are allowed. */
  function DecimalValue(d: string): nat
    requires AllDigits(d)
    decreases |d|
  {
    if d == [] then 0 else DecimalValue(d[..|d| - 1]) * 10 + DigitValue(d[|d| - 1])
  }

  /** The value of an unsigned decimal literal, None when u is not one. */
  function UnsignedOf(u: string): Option<nat>
  {
    if Grouped(u) then Some(DecimalValue(DigitsOnly(u))) else None
  }

  /** A stripped literal: an optional sign, then an unsigned literal. */
  function SignedOf(t: string): Option<int>
  {
    if t != [] && (t[0] == '+' || t[0] == '-') then
      match UnsignedOf(t[1..])
      case Some(v) => Some(if t[0] == '-' then -(v as int) else v)
      case None => None
    else
      match UnsignedOf(t)
      case Some(v) => Some(v)
      case None => None
  }

  /** `int(s)` for a str: Some(n) when Python accepts s, None where it
      raises ValueError. */
  function IntOfString(s: string): Option<int>
  {
    SignedOf(Strip(s))
  }

  /** `int(x)` for a float: the integer part, truncating toward zero. */
  function Truncate(x: real): (n: int)
    ensures x >= 0.0 ==> n as real <= x < n as real + 1.0
    ensures x < 0.0 ==> n as real - 1.0 < x <= n as real
  {
    if x >= 0.0 then x.Floor else -((-x).Floor)
  }

  /** `int(v)` for a decoded value: None where Python raises ValueError or
      TypeError (None, lists, dicts, strings that are not integers). */
  function IntOf(v: Json): Option<int>
  {
    match v
    case JNull => None
    case JBool(b) => Some(if b then 1 else 0)
    case JInt(i) => Some(i)
    case JReal(x) => Some(Truncate(x))
    case JStr(s) => IntOfString(s)
    case JArr(_) => None
    case JObj(_) => None
  }

  /** `safe_int(value, default)` */
  function SafeInt(v: Json, default: Option<int>): (r: Option<int>)
    ensures IntOf(v).Some? ==> r == IntOf(v)
    ensures IntOf(v).None? ==> r == default
    ensures default.Some? ==> r.Some?
  {
    if v.JNull? then default
    else if IntOf(v).Some? then IntOf(v)
    else default
  }

  /** A non-empty string of ASCII digits is an unsigned literal. */
  lemma UnsignedOfDigits(d: string)
    requires d != [] && AllDigits(d)
    ensures UnsignedOf(d) == Some(DecimalValue(d))
  {
    assert Grouped(d);
    FilterAll(d, IsDigit);
    assert DigitsOnly(d) == d;
  }

  lemma DigitNotSpace(c: char)
    requires IsDigit(c)
    ensures !IsSpace(c)
  {
  }

  /** Text that neither starts nor ends with whitespace is its own strip. */
  lemma StripKeeps(s: string)
    requires s == [] || (!IsSpace(s[0]) && !IsSpace(s[|s| - 1]))
    ensures Strip(s) == s
  {
    assert TrimStart(s) == s;
    assert TrimEnd(s) == s;
  }

  lemma SignedOfDigits(d: string)
    requires d != [] && AllDigits(d)
    ensures SignedOf(d) == Some(DecimalValue(d))
  {
    assert d[0] != '+' && d[0] != '-';
    UnsignedOfDigits(d);
  }

  lemma SignedOfNegated(d: string)
    requires d != [] && AllDigits(d)
    ensures SignedOf(['-'] + d) == Some(-(DecimalValue(d) as int))
  {
    assert (['-'] + d)[1..] == d;
    UnsignedOfDigits(d);
  }

  /** A non-empty string of ASCII digits parses to its decimal value, leading
      zeros included. This is how the listener cells of the HTML status
      page are read once their non-digits are gone. */
  lemma IntOfDigits(d: string)
    requires d != [] && AllDigits(d)
    ensures IntOfString(d) == Some(DecimalValue(d))
  {
    StripKeeps(d);
    SignedOfDigits(d);
  }

  /** A minus sign before a non-empty string of digits of value n parses
      to -n. */
  lemma IntOfNegated(d: string, n: nat)
    requires d != [] && AllDigits(d) && DecimalValue(d) == n
    ensures IntOfString(['-'] + d) == Some(-(n as int))
  {
    var t := ['-'] + d;
    assert t[0] == '-' && t[|t| - 1] == d[|d| - 1];
    DigitNotSpace(d[|d| - 1]);
    IntOfUnpadded(t);
    SignedOfNegated(d);
  }

  /** Text that opens with a minus sign and does not end in whitespace is
      read as it stands. */
  lemma IntOfUnpadded(t: string)
    requires t != [] && t[0] == '-' && !IsSpace(t[|t| - 1])
    ensures IntOfString(t) == SignedOf(t)
  {
    assert !IsSpace('-');
    StripKeeps(t);
  }

  /** `int()` does not skip the ASCII separators U+001C to U+001F:
      "\x1c5" raises ValueError, so safe_int falls back. */
  lemma SeparatorIsNotSpace(default: Option<int>)
    ensures IntOfString("\U{1C}5") == None
    ensures SafeInt(JStr("\U{1C}5"), default) == default
  {
    var s := "\U{1C}5";
    assert !IsSpace(s[0]) && !IsSpace(s[1]);
    StripKeeps(s);
    assert !Grouped(s);
  }

  /** A string without a single ASCII digit is never an integer. */
  lemma IntOfStringNeedsDigit(s: string)
    requires forall i :: 0 <= i < |s| ==> !IsDigit(s[i])
    ensures IntOfString(s) == None
  {
    var u := TrimStart(s);
    NoDigitSuffix(s, |s| - |u|);
    var t := TrimEnd(u);
    NoDigitPrefix(u, |t|);
    NoDigitNoLiteral(t);
    if t != [] {
      NoDigitNoLiteral(t[1..]);
    }
  }

  lemma NoDigitSuffix(s: string, k: nat)
    requires k <= |s| && forall i :: 0 <= i < |s| ==> !IsDigit(s[i])
    ensures forall i :: 0 <= i < |s[k..]| ==> !IsDigit(s[k..][i])
  {
    assert forall i :: 0 <= i < |s[k..]| ==> s[k..][i] == s[k + i];
  }

  lemma NoDigitPrefix(s: string, k: nat)
    requires k <= |s| && forall i :: 0 <= i < |s| ==> !IsDigit(s[i])
    ensures forall i :: 0 <= i < |s[..k]| ==> !IsDigit(s[..k][i])
  {
  }

  /** Without a digit in front there is no unsigned literal. */
  lemma NoDigitNoLiteral(u: string)
    requires forall i :: 0 <= i < |u| ==> !IsDigit(u[i])
    ensures UnsignedOf(u) == None
  {
    if u != [] {
      assert !IsDigit(u[0]);
    }
  }

  /** safe_int falls back to the default on None and on any text without a
      digit (empty cells, "N/A", ...). */
  lemma SafeIntFallsBack(v: Json, default: Option<int>)
    requires v.JNull? || v.JArr? || v.JObj? || (v.JStr? && forall i :: 0 <= i < |v.s| ==> !IsDigit(v.s[i]))
    ensures SafeInt(v, default) == default
  {
    if v.JStr? {
      IntOfStringNeedsDigit(v.s);
    }
  }

  /** `str(n)` for a non-negative integer. */
  function ShowNat(n: nat): (r: string)
    ensures r != [] && AllDigits(r)
  {
    if n < 10 then [DigitChar(n)] else ShowNat(n / 10) + [DigitChar(n % 10)]
  }

  /** `str(i)` for an integer. */
  function ShowInt(i: int): string
  {
    if i < 0 then ['-'] + ShowNat(-i) else ShowNat(i)
  }

  lemma {:induction false} DecimalValueShowNat(n: nat)
    ensures DecimalValue(ShowNat(n)) == n
    decreases n
  {
    if n >= 10 {
      var d := ShowNat(n);
      assert d[..|d| - 1] == ShowNat(n / 10);
      DecimalValueShowNat(n / 10);
    }
  }


  /** `int(str(n)) == n` for a non-negative integer. */
  lemma IntOfStringShowNat(n: nat)
    ensures IntOfString(ShowNat(n)) == Some(n)
  {
    DecimalValueShowNat(n);
    IntOfDigits(ShowNat(n));
  }

  /** Round trip: `int(str(i)) == i` for every integer. */
  lemma IntOfStringShowInt(i: int)
    ensures IntOfString(ShowInt(i)) == Some(i)
  {
    if i < 0 {
      DecimalValueShowNat(-i);
      IntOfNegated(ShowNat(-i), -i);
    } else {
      IntOfStringShowNat(i);
    }
  }

  /** safe_int never falls back on a well-formed integer: the rendering of
      any integer, as a JSON string, parses back to that integer. */
  lemma SafeIntShownInt(i: int, default: Option<int>)
    ensures SafeInt(JStr(ShowInt(i)), default) == Some(i)
  {
    IntOfStringShowInt(i);
  }
}
