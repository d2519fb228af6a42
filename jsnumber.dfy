/** JavaScript number conversions and array slicing used by the modelled code, on unbounded
    integers (floating-point precision and NaN propagation beyond `parseInt` are not modelled). */
module JsNumber {
  import opened Wrappers

  /** The characters `parseInt` skips before the number: ECMAScript `StrWhiteSpaceChar`
      (white space and line terminators). */
  predicate IsJsWhitespace(c: char) {
    var n := c as int;
    (0x09 <= n <= 0x0D) || n == 0x20 || n == 0xA0 || n == 0x1680 || (0x2000 <= n <= 0x200A)
    || n == 0x2028 || n == 0x2029 || n == 0x202F || n == 0x205F || n == 0x3000 || n == 0xFEFF
  }

  function TrimStartWhitespace(s: string): (r: string)
    ensures r == "" || !IsJsWhitespace(r[0])
    ensures |r| <= |s| && r == s[|s| - |r|..]
  {
    if s != "" && IsJsWhitespace(s[0]) then TrimStartWhitespace(s[1..]) else s
  }

  /** The value of `c` as a digit in base `radix` (10 or 16), or -1 when it is not one. */
  function DigitValue(c: char, radix: int): (d: int)
    ensures -1 <= d < 16
    ensures radix != 16 ==> d < 10
  {
    if '0' <= c <= '9' then c as int - '0' as int
    else if radix == 16 && 'a' <= c <= 'f' then c as int - 'a' as int + 10
    else if radix == 16 && 'A' <= c <= 'F' then c as int - 'A' as int + 10
    else -1
  }

  /** The longest prefix of `s` made of digits of base `radix`. */
  function LeadingDigits(s: string, radix: int): (r: string)
    ensures |r| <= |s| && r == s[..|r|]
    ensures forall i :: 0 <= i < |r| ==> DigitValue(r[i], radix) >= 0
    ensures |r| < |s| ==> DigitValue(s[|r|], radix) < 0
  {
    if s != "" && DigitValue(s[0], radix) >= 0 then [s[0]] + LeadingDigits(s[1..], radix) else ""
  }

  /** The value of a string of digits of base `radix`. */
  function DigitsValue(ds: string, radix: int): (v: nat)
    requires forall i :: 0 <= i < |ds| ==> DigitValue(ds[i], radix) >= 0
    requires radix > 0
  {
    if ds == "" then 0
    else DigitsValue(ds[..|ds| - 1], radix) * radix + DigitValue(ds[|ds| - 1], radix)
  }

  /** How `parseInt` chooses its base: the source passes 10 explicitly, or gives no radix,
      in which case a `0x`/`0X` prefix selects base 16. */
  datatype RadixMode = Radix10 | AutoRadix

  /** The number `parseInt` reads once white space and sign are consumed: a `0x`/`0X` prefix
      selects base 16 when no radix is given, and the longest run of digits of the base is
      read; `None` when there is no digit. */
  function ParseUnsigned(u: string, mode: RadixMode): (r: Option<nat>)
    ensures r.None? <==>
      var hex := mode == AutoRadix && |u| >= 2 && u[0] == '0' && (u[1] == 'x' || u[1] == 'X');
      LeadingDigits(if hex then u[2..] else u, if hex then 16 else 10) == ""
  {
    var hex := mode == AutoRadix && |u| >= 2 && u[0] == '0' && (u[1] == 'x' || u[1] == 'X');
    var radix := if hex then 16 else 10;
    var ds := LeadingDigits(if hex then u[2..] else u, radix);
    if ds == "" then None else Some(DigitsValue(ds, radix))
  }

  /** `parseInt(s, 10)` or `parseInt(s)`; `None` stands for NaN. Leading white space is
      skipped, then one optional sign, then the digits are read as `ParseUnsigned` says. */
  function ParseInt(s: string, mode: RadixMode): (r: Option<int>)
    ensures var t := TrimStartWhitespace(s);
      var u := if t != "" && (t[0] == '-' || t[0] == '+') then t[1..] else t;
      && (r.None? <==> ParseUnsigned(u, mode).None?)
      && (r.Some? && t[0] == '-' ==> r.value == 0 - ParseUnsigned(u, mode).value)
      && (r.Some? && t[0] != '-' ==> r.value == ParseUnsigned(u, mode).value)
  {
    var t := TrimStartWhitespace(s);
    var u := if t != "" && (t[0] == '-' || t[0] == '+') then t[1..] else t;
    var p := ParseUnsigned(u, mode);
    if p.None? then None
    else if t != "" && t[0] == '-' then Some(0 - p.value)
    else Some(p.value)
  }

  /** `parseInt(x) || dflt` for a query parameter `x` that may be absent (`undefined`):
      NaN and 0 are falsy and give the default. */
  function ParseIntOr(x: Option<string>, dflt: int): (r: int)
    ensures r != 0 || dflt == 0
    ensures x.None? || ParseInt(x.value, AutoRadix).None? || ParseInt(x.value, AutoRadix).value == 0 ==> r == dflt
    ensures x.Some? && ParseInt(x.value, AutoRadix).Some? && ParseInt(x.value, AutoRadix).value != 0
            ==> r == ParseInt(x.value, AutoRadix).value
  {
    match x
    case None => dflt
    case Some(s) =>
      match ParseInt(s, AutoRadix)
      case None => dflt
      case Some(n) => if n == 0 then dflt else n
  }

  /** How `Array.prototype.slice` turns an argument into an index: negative values count from
      the end, and every value is clamped to `[0, len]`. */
  function RelativeIndex(i: int, len: nat): (r: nat)
    ensures r <= len
    ensures 0 <= i <= len ==> r == i
    ensures i < 0 && len + i >= 0 ==> r == len + i
    ensures len + i < 0 ==> r == 0
    ensures i > len ==> r == len
  {
    if i < 0 then (if len + i < 0 then 0 else len + i) else if i > len then len else i
  }

  /** `s.slice(start, end)`: the elements from the start index up to (not including) the end
      index, both taken relative to the end when negative. */
  function Slice<T>(s: seq<T>, start: int, end: int): (r: seq<T>)
    ensures var a, b := RelativeIndex(start, |s|), RelativeIndex(end, |s|);
      && |r| == (if a < b then b - a else 0)
      && forall k :: 0 <= k < |r| ==> r[k] == s[a + k]
    ensures 0 <= start <= end <= |s| ==> r == s[start..end]
    ensures 0 <= end <= start ==> r == []
    ensures 0 <= start <= |s| && end < 0 && |s| + end >= 0 ==> r == (if start < |s| + end then s[start..|s| + end] else [])
    ensures start <= end < 0 && |s| + start >= 0 ==> r == s[|s| + start..|s| + end]
  {
    var a, b := RelativeIndex(start, |s|), RelativeIndex(end, |s|);
    if a < b then s[a..b] else []
  }

  /** `Math.ceil(a / b)` for integers, `b` non-zero. */
  function CeilDiv(a: int, b: int): (r: int)
    requires b != 0
    ensures b > 0 ==> (r - 1) * b < a <= r * b
    ensures b < 0 ==> r * b <= a < (r - 1) * b
  {
    if b > 0 then (if a % b == 0 then a / b else a / b + 1)
    else (if (-a) % (-b) == 0 then (-a) / (-b) else (-a) / (-b) + 1)
  }

  /** `String(n)` for a non-negative integer: its decimal digits, most significant first. */
  function DecimalString(n: nat): (s: string)
    ensures s != "" && forall i :: 0 <= i < |s| ==> '0' <= s[i] <= '9'
  {
    if n < 10 then [('0' as int + n) as char] else DecimalString(n / 10) + [('0' as int + n % 10) as char]
  }

  /** A string made of digits is its own longest prefix of digits. */
  lemma {:induction false} AllDigitsLeading(s: string)
    requires forall i :: 0 <= i < |s| ==> '0' <= s[i] <= '9'
    ensures LeadingDigits(s, 10) == s
  {
    if s != "" {
      AllDigitsLeading(s[1..]);
    }
  }

  /** The digits of `n` have the value `n`. */
  lemma {:induction false} DecimalValue(n: nat)
    ensures forall i :: 0 <= i < |DecimalString(n)| ==> DigitValue(DecimalString(n)[i], 10) >= 0
    ensures DigitsValue(DecimalString(n), 10) == n
  {
    var s := DecimalString(n);
    if n >= 10 {
      DecimalValue(n / 10);
      assert s[..|s| - 1] == DecimalString(n / 10);
    }
  }

  /** Without white space or sign in front, `parseInt` reads the unsigned number. */
  lemma ParseIntUnsigned(s: string, mode: RadixMode, k: nat)
    requires s != "" && !IsJsWhitespace(s[0]) && s[0] != '-' && s[0] != '+'
    requires ParseUnsigned(s, mode) == Some(k)
    ensures ParseInt(s, mode) == Some(k)
  {
  }

  /** A minus sign in front negates the unsigned number that follows it. */
  lemma ParseIntMinus(s: string, mode: RadixMode, k: nat)
    requires ParseUnsigned(s, mode) == Some(k)
    ensures ParseInt("-" + s, mode) == Some(0 - k)
  {
    var m := "-" + s;
    assert m[1..] == s;
    assert !IsJsWhitespace(m[0]);
  }

  /** A non-empty string of decimal digits is read as the value of the digits, with either
      radix mode. */
  lemma UnsignedDigits(s: string, mode: RadixMode)
    requires s != "" && forall i :: 0 <= i < |s| ==> '0' <= s[i] <= '9'
    ensures forall i :: 0 <= i < |s| ==> DigitValue(s[i], 10) >= 0
    ensures ParseUnsigned(s, mode) == Some(DigitsValue(s, 10))
  {
    AllDigitsLeading(s);
    assert !(|s| >= 2 && (s[1] == 'x' || s[1] == 'X')) by {
      if |s| >= 2 { assert '0' <= s[1] <= '9'; }
    }
  }

  /** `parseInt` of a non-empty string of decimal digits is the value of the digits. */
  lemma ParseIntDigits(s: string, mode: RadixMode)
    requires s != "" && forall i :: 0 <= i < |s| ==> '0' <= s[i] <= '9'
    ensures forall i :: 0 <= i < |s| ==> DigitValue(s[i], 10) >= 0
    ensures ParseInt(s, mode) == Some(DigitsValue(s, 10))
  {
    UnsignedDigits(s, mode);
    assert !IsJsWhitespace(s[0]) && s[0] != '-' && s[0] != '+';
    ParseIntUnsigned(s, mode, DigitsValue(s, 10));
  }

  /** `parseInt` reads back what `String` renders: `parseInt(String(n))` is `n`, with either
      radix mode. */
  lemma ParseIntDecimal(n: nat, mode: RadixMode)
    ensures ParseInt(DecimalString(n), mode) == Some(n)
  {
    ParseIntDigits(DecimalString(n), mode);
    DecimalValue(n);
  }

  /** `parseInt('-' + String(n))` is `-n`. */
  lemma ParseIntNegativeDecimal(n: nat, mode: RadixMode)
    ensures ParseInt("-" + DecimalString(n), mode) == Some(-(n as int))
  {
    UnsignedDigits(DecimalString(n), mode);
    DecimalValue(n);
    ParseIntMinus(DecimalString(n), mode, n);
  }
}
