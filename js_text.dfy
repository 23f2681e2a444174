/** The parts of JavaScript's built-in text handling that the favorites store and the
    catalog client depend on: `String.prototype.trim`, the global `parseInt` (called
    without a radix) and the decimal text of an integral Number (`String(n)`). */
module JsText {
  import opened Wrappers

  /** ECMAScript WhiteSpace and LineTerminator code points: what `trim` and `parseInt` skip. */
  const Whitespace: set<char> := {
    '\U{9}', '\U{A}', '\U{B}', '\U{C}', '\U{D}', ' ', '\U{A0}', '\U{1680}',
    '\U{2000}', '\U{2001}', '\U{2002}', '\U{2003}', '\U{2004}', '\U{2005}',
    '\U{2006}', '\U{2007}', '\U{2008}', '\U{2009}', '\U{200A}',
    '\U{2028}', '\U{2029}', '\U{202F}', '\U{205F}', '\U{3000}', '\U{FEFF}'
  }

  predicate IsWhitespace(c: char) {
    c in Whitespace
  }

  /** `s.trimStart()`: `s` without its leading whitespace. */
  function TrimStart(s: string): (r: string)
    ensures |r| <= |s|
  {
    if s == [] || !IsWhitespace(s[0]) then s else TrimStart(s[1..])
  }

  /** `s.trimEnd()`: `s` without its trailing whitespace. */
  function TrimEnd(s: string): (r: string)
    ensures |r| <= |s|
  {
    if s == [] || !IsWhitespace(s[|s| - 1]) then s else TrimEnd(s[..|s| - 1])
  }

  /** `s.trim()`. */
  function Trim(s: string): (r: string)
    ensures |r| <= |s|
    ensures r == [] || (!IsWhitespace(r[0]) && !IsWhitespace(r[|r| - 1]))
  {
    TrimStartSpec(s);
    TrimEndSpec(TrimStart(s));
    var r := TrimEnd(TrimStart(s));
    assert r == [] || r[0] == TrimStart(s)[0];
    r
  }

  /** `trimStart` leaves the suffix that follows the leading whitespace, and that suffix
      does not start with whitespace. */
  lemma {:induction false} TrimStartSpec(s: string)
    ensures |TrimStart(s)| <= |s| && TrimStart(s) == s[|s| - |TrimStart(s)|..]
    ensures forall i :: 0 <= i < |s| - |TrimStart(s)| ==> IsWhitespace(s[i])
    ensures TrimStart(s) == [] || !IsWhitespace(TrimStart(s)[0])
  {
    if s != [] && IsWhitespace(s[0]) {
      var r := TrimStart(s[1..]);
      TrimStartSpec(s[1..]);
      assert s[1..][|s| - 1 - |r|..] == s[|s| - |r|..];
      forall i | 0 <= i < |s| - |r| ensures IsWhitespace(s[i]) {
        if i > 0 {
          assert s[i] == s[1..][i - 1];
        }
      }
    }
  }

  /** `trimEnd` leaves the prefix that precedes the trailing whitespace, and that prefix
      does not end with whitespace. */
  lemma {:induction false} TrimEndSpec(s: string)
    ensures |TrimEnd(s)| <= |s| && TrimEnd(s) == s[..|TrimEnd(s)|]
    ensures forall i :: |TrimEnd(s)| <= i < |s| ==> IsWhitespace(s[i])
    ensures TrimEnd(s) == [] || !IsWhitespace(TrimEnd(s)[|TrimEnd(s)| - 1])
  {
    if s != [] && IsWhitespace(s[|s| - 1]) {
      var r := TrimEnd(s[..|s| - 1]);
      TrimEndSpec(s[..|s| - 1]);
      assert s[..|s| - 1][..|r|] == s[..|r|];
      forall i | |r| <= i < |s| ensures IsWhitespace(s[i]) {
        if i < |s| - 1 {
          assert s[i] == s[..|s| - 1][i];
        }
      }
    }
  }

  /** `s.trim()` is empty exactly when every character of `s` is whitespace. */
  lemma TrimEmptyIffBlank(s: string)
    ensures Trim(s) == [] <==> forall i :: 0 <= i < |s| ==> IsWhitespace(s[i])
  {
    var t := TrimStart(s);
    TrimStartSpec(s);
    TrimEndSpec(t);
    if TrimEnd(t) == [] {
      SuffixTail(s, t, 0, IsWhitespace);
    }
    if t != [] {
      assert t[0] == s[|s| - |t|];
    }
  }

  /** A prefix `r` of a suffix `t` of `s` is a slice of `s`. */
  lemma SliceOf(s: string, t: string, r: string)
    requires |t| <= |s| && t == s[|s| - |t|..]
    requires |r| <= |t| && r == t[..|r|]
    ensures r == s[|s| - |t|..|s| - |t| + |r|]
  {
  }

  /** A property of the end of a suffix `t` of `s` holds of the same characters in `s`. */
  lemma SuffixTail(s: string, t: string, n: nat, p: char -> bool)
    requires |t| <= |s| && t == s[|s| - |t|..] && n <= |t|
    requires forall j :: n <= j < |t| ==> p(t[j])
    ensures forall i :: |s| - |t| + n <= i < |s| ==> p(s[i])
  {
    forall i | |s| - |t| + n <= i < |s| ensures p(s[i]) {
      assert s[i] == t[i - (|s| - |t|)];
    }
  }

  /** `s.trim()` is the part of `s` that follows the leading whitespace. */
  lemma TrimIsSlice(s: string)
    ensures |TrimStart(s)| >= |Trim(s)|
    ensures Trim(s) == s[|s| - |TrimStart(s)|..|s| - |TrimStart(s)| + |Trim(s)|]
  {
    var t := TrimStart(s);
    TrimStartSpec(s);
    TrimEndSpec(t);
    SliceOf(s, t, TrimEnd(t));
  }

  /** What `s.trim()` leaves out at the end is whitespace, and the result neither starts
      nor ends with whitespace. */
  lemma TrimShape(s: string)
    ensures forall i :: |s| - |TrimStart(s)| + |Trim(s)| <= i < |s| ==> IsWhitespace(s[i])
    ensures Trim(s) == [] || (!IsWhitespace(Trim(s)[0]) && !IsWhitespace(Trim(s)[|Trim(s)| - 1]))
  {
    var t := TrimStart(s);
    var r := TrimEnd(t);
    TrimStartSpec(s);
    TrimEndSpec(t);
    SuffixTail(s, t, |r|, IsWhitespace);
    if r != [] {
      assert r[0] == t[0];
    }
  }

  /** The value of `c` as a digit of radix up to 36 (`0`-`9`, then `a`-`z` or `A`-`Z`). */
  function DigitValue(c: char): (v: Option<nat>)
    ensures v.Some? ==> v.value < 36
    ensures '0' <= c <= '9' ==> v == Some(c as nat - '0' as nat)
  {
    if '0' <= c <= '9' then Some(c as nat - '0' as nat)
    else if 'a' <= c <= 'z' then Some(c as nat - 'a' as nat + 10)
    else if 'A' <= c <= 'Z' then Some(c as nat - 'A' as nat + 10)
    else None
  }

  predicate IsDigit(c: char, radix: nat) {
    DigitValue(c).Some? && DigitValue(c).value < radix
  }

  /** Length of the longest prefix of `s` made of digits of `radix`. */
  function DigitPrefix(s: string, radix: nat): (n: nat)
    ensures n <= |s|
    ensures forall i :: 0 <= i < n ==> IsDigit(s[i], radix)
    ensures n < |s| ==> !IsDigit(s[n], radix)
  {
    if s == [] || !IsDigit(s[0], radix) then 0 else 1 + DigitPrefix(s[1..], radix)
  }

  /** The number that the digits `d` denote in `radix`, most significant digit first
      (only ever applied to text made of digits). */
  function DigitsValue(d: string, radix: nat): nat {
    if d == [] then 0
    else
      var last := match DigitValue(d[|d| - 1]) case Some(v) => v case None => 0;
      DigitsValue(d[..|d| - 1], radix) * radix + last
  }

  /** Whether the text after the sign starts with `0x` or `0X`, which switches to radix 16. */
  predicate HasHexPrefix(u: string) {
    |u| >= 2 && u[0] == '0' && (u[1] == 'x' || u[1] == 'X')
  }

  /** The longest run of digits of `radix` at the start of `body`, read as a number;
      `None` when there is none. The rest of the text is ignored. */
  function LeadingNumber(body: string, radix: nat): Option<nat> {
    var z := DigitPrefix(body, radix);
    if z == 0 then None else Some(DigitsValue(body[..z], radix))
  }

  /** What `parseInt` makes of the text after the sign. */
  function UnsignedDigits(u: string, negative: bool): Option<int> {
    var m := if HasHexPrefix(u) then LeadingNumber(u[2..], 16) else LeadingNumber(u, 10);
    match m
    case None => None
    case Some(v) => Some(if negative then -(v as int) else v)
  }

  /** `t` without its leading `+` or `-` sign, if it has one. */
  function AfterSign(t: string): (u: string)
    ensures |u| <= |t| && u == t[|t| - |u|..]
  {
    if |t| > 0 && (t[0] == '-' || t[0] == '+') then t[1..] else t
  }

  /** The global `parseInt(s)` with no radix argument; `None` stands for `NaN`.
      Leading whitespace is skipped and one `+` or `-` sign is accepted. */
  function ParseInt(s: string): (r: Option<int>)
    ensures TrimStart(s) == [] ==> r == None
  {
    var t := TrimStart(s);
    if t == [] then EmptyIsNaN(); None
    else UnsignedDigits(AfterSign(t), t[0] == '-')
  }

  /** Empty text after the whitespace has no digits to read. */
  lemma EmptyIsNaN()
    ensures UnsignedDigits([], false) == None
  {
    assert DigitPrefix([], 10) == 0;
  }

  lemma NoDecimalDigitIsNaN(u: string, negative: bool)
    requires forall i :: 0 <= i < |u| ==> !('0' <= u[i] <= '9')
    ensures UnsignedDigits(u, negative) == None
  {
    assert !HasHexPrefix(u);
    assert DigitPrefix(u, 10) == 0;
  }

  /** A property of every character of `s` holds of every character of a suffix `t`. */
  lemma SuffixKeeps(s: string, t: string, p: char -> bool)
    requires |t| <= |s| && t == s[|s| - |t|..]
    requires forall i :: 0 <= i < |s| ==> p(s[i])
    ensures forall j :: 0 <= j < |t| ==> p(t[j])
  {
    forall j | 0 <= j < |t| ensures p(t[j]) {
      assert t[j] == s[|s| - |t| + j];
    }
  }

  /** Text without a single decimal digit, such as `"undefined"` or `""`, parses to `NaN`. */
  lemma NoDigitIsNaN(s: string)
    requires forall i :: 0 <= i < |s| ==> !('0' <= s[i] <= '9')
    ensures ParseInt(s) == None
  {
    var t := TrimStart(s);
    TrimStartSpec(s);
    if t != [] {
      var u := AfterSign(t);
      SuffixKeeps(s, t, c => !('0' <= c <= '9'));
      SuffixKeeps(t, u, c => !('0' <= c <= '9'));
      NoDecimalDigitIsNaN(u, t[0] == '-');
    }
  }

  function DigitChar(d: nat): (c: char)
    requires d < 10
    ensures DigitValue(c) == Some(d)
  {
    ['0', '1', '2', '3', '4', '5', '6', '7', '8', '9'][d]
  }

  /** Decimal digits of a natural number, without leading zeros. */
  function NatDigits(n: nat): (s: string)
    ensures |s| > 0
    ensures forall i :: 0 <= i < |s| ==> '0' <= s[i] <= '9'
  {
    if n < 10 then [DigitChar(n)] else NatDigits(n / 10) + [DigitChar(n % 10)]
  }

  /** `String(n)` for an integral Number `n`: an optional minus sign and decimal digits. */
  function NumberText(n: int): string {
    if n < 0 then "-" + NatDigits(-n) else NatDigits(n)
  }

  lemma {:induction false} NatDigitsValue(n: nat)
    ensures forall i :: 0 <= i < |NatDigits(n)| ==> IsDigit(NatDigits(n)[i], 10)
    ensures DigitsValue(NatDigits(n), 10) == n
  {
    var s := NatDigits(n);
    assert forall i :: 0 <= i < |s| ==> IsDigit(s[i], 10);
    if n >= 10 {
      NatDigitsValue(n / 10);
      assert s[..|s| - 1] == NatDigits(n / 10);
    }
  }

  /** A text made only of digits is read in full. */
  lemma LeadingNumberOfDigits(d: string, radix: nat)
    requires |d| > 0 && forall i :: 0 <= i < |d| ==> IsDigit(d[i], radix)
    ensures LeadingNumber(d, radix) == Some(DigitsValue(d, radix))
  {
    assert DigitPrefix(d, radix) == |d|;
    assert d[..|d|] == d;
  }

  /** A decimal digit is a digit of radix 10. */
  lemma DecimalIsDigit(c: char)
    requires '0' <= c <= '9'
    ensures IsDigit(c, 10)
  {
    assert DigitValue(c) == Some(c as nat - '0' as nat);
  }

  /** Text without a `0x` prefix is read in decimal. */
  lemma UnsignedDecimal(u: string, negative: bool)
    requires !HasHexPrefix(u)
    ensures UnsignedDigits(u, negative) == match LeadingNumber(u, 10)
      case None => None
      case Some(v) => Some(if negative then -(v as int) else v)
  {
  }

  /** Decimal text without sign or prefix is read back as the number it denotes. */
  lemma DecimalDigitsParse(d: string, negative: bool)
    requires |d| > 0 && forall i :: 0 <= i < |d| ==> '0' <= d[i] <= '9'
    ensures forall i :: 0 <= i < |d| ==> IsDigit(d[i], 10)
    ensures UnsignedDigits(d, negative)
      == Some(if negative then -(DigitsValue(d, 10) as int) else DigitsValue(d, 10))
  {
    forall i | 0 <= i < |d| ensures IsDigit(d[i], 10) {
      DecimalIsDigit(d[i]);
    }
    assert !HasHexPrefix(d) by {
      if |d| >= 2 {
        assert '0' <= d[1] <= '9';
      }
    }
    LeadingNumberOfDigits(d, 10);
    UnsignedDecimal(d, negative);
  }

  /** Neither a sign nor a decimal digit is whitespace. */
  lemma SignOrDigitNotWhitespace(c: char)
    requires c == '-' || '0' <= c <= '9'
    ensures !IsWhitespace(c)
  {
  }

  /** Text that does not start with whitespace is left alone by `trimStart`. */
  lemma TrimStartKeeps(s: string)
    requires s != [] && !IsWhitespace(s[0])
    ensures TrimStart(s) == s
  {
  }

  /** Decimal digits after an optional minus sign are read back as the signed number. */
  lemma ParseSignedDigits(s: string, d: string, negative: bool)
    requires |d| > 0 && forall i :: 0 <= i < |d| ==> '0' <= d[i] <= '9'
    requires s == (if negative then "-" else "") + d
    ensures ParseInt(s) == Some(if negative then -(DigitsValue(d, 10) as int) else DigitsValue(d, 10))
  {
    var c := if negative then '-' else d[0];
    assert s[0] == c;
    SignOrDigitNotWhitespace(c);
    TrimStartKeeps(s);
    assert AfterSign(s) == d by {
      if negative {
        assert s[1..] == d;
      } else {
        assert s == d;
      }
    }
    DecimalDigitsParse(d, negative);
  }

  /** `parseInt(String(n)) === n`: coercing an integral id to text and back is the identity. */
  lemma ParseNumberText(n: int)
    ensures ParseInt(NumberText(n)) == Some(n)
  {
    var m: nat := if n < 0 then -n else n;
    NatDigitsValue(m);
    ParseSignedDigits(NumberText(n), NatDigits(m), n < 0);
  }
}
