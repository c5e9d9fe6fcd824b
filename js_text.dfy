/**
 * The few JavaScript string built-ins the library leans on, on strings of
 * code points: `trim`, `split` on one character, `parseInt` (decimal) and the
 * decimal rendering of an integer `Number`.
 */
module JsText {
  import opened Wrappers

  /** The white space and line terminators that `String.prototype.trim` and `parseInt` skip. */
  predicate IsJsWhitespace(c: char) {
    c == 0x09 as char || c == 0x0A as char || c == 0x0B as char || c == 0x0C as char
    || c == 0x0D as char || c == 0x20 as char || c == 0xA0 as char || c == 0x1680 as char
    || (0x2000 as char <= c <= 0x200A as char) || c == 0x2028 as char || c == 0x2029 as char
    || c == 0x202F as char || c == 0x205F as char || c == 0x3000 as char || c == 0xFEFF as char
  }

  predicate IsDigit(c: char) {
    '0' <= c <= '9'
  }

  function DigitValue(c: char): (n: int)
    requires IsDigit(c)
    ensures 0 <= n < 10
  {
    c as int - '0' as int
  }

  function DigitChar(n: int): (c: char)
    requires 0 <= n < 10
    ensures IsDigit(c) && DigitValue(c) == n
  {
    ('0' as int + n) as char
  }

  function TrimStart(s: string): (r: string)
    ensures |r| <= |s| && r == s[|s| - |r|..]
    ensures |r| > 0 ==> !IsJsWhitespace(r[0])
    ensures forall i :: 0 <= i < |s| - |r| ==> IsJsWhitespace(s[i])
  {
    if |s| > 0 && IsJsWhitespace(s[0]) then
      var r := TrimStart(s[1..]);
      assert s[1..][|s| - 1 - |r|..] == s[|s| - |r|..];
      assert forall i :: 1 <= i < |s| - |r| ==> s[i] == s[1..][i - 1];
      r
    else s
  }

  function TrimEnd(s: string): (r: string)
    ensures |r| <= |s| && r == s[..|r|]
    ensures |r| > 0 ==> !IsJsWhitespace(r[|r| - 1])
    ensures forall i :: |r| <= i < |s| ==> IsJsWhitespace(s[i])
  {
    if |s| > 0 && IsJsWhitespace(s[|s| - 1]) then
      var r := TrimEnd(s[..|s| - 1]);
      assert s[..|s| - 1][..|r|] == s[..|r|];
      r
    else s
  }

  /** `s.trim()`. */
  function Trim(s: string): string {
    TrimEnd(TrimStart(s))
  }

  lemma TrimNoop(s: string)
    requires |s| > 0 ==> !IsJsWhitespace(s[0]) && !IsJsWhitespace(s[|s| - 1])
    ensures Trim(s) == s
  {
  }

  /** `s.split(c)` for a one-character separator: the pieces between the separators. */
  function Split(s: string, c: char): (parts: seq<string>)
    ensures |parts| >= 1
    ensures forall i :: 0 <= i < |parts| ==> c !in parts[i]
    ensures |parts| == 1 <==> c !in s
  {
    if |s| == 0 then [""]
    else
      var rest := Split(s[1..], c);
      if s[0] == c then [""] + rest
      else [[s[0]] + rest[0]] + rest[1..]
  }

  lemma {:induction false} SplitAt(a: string, c: char, b: string)
    requires c !in a
    ensures Split(a + [c] + b, c) == [a] + Split(b, c)
    decreases |a|
  {
    if |a| == 0 {
      assert a + [c] + b == [c] + b;
      assert ([c] + b)[1..] == b;
    } else {
      assert (a + [c] + b)[1..] == a[1..] + [c] + b;
      SplitAt(a[1..], c, b);
      assert [a[0]] + a[1..] == a;
    }
  }

  lemma {:induction false} SplitWhole(a: string, c: char)
    requires c !in a
    ensures Split(a, c) == [a]
    decreases |a|
  {
    if |a| > 0 {
      SplitWhole(a[1..], c);
      assert [a[0]] + a[1..] == a;
    }
  }

  /** Value of a run of decimal digits, most significant first. */
  function DigitsValue(s: string): (n: int)
    requires forall i :: 0 <= i < |s| ==> IsDigit(s[i])
    ensures n >= 0
  {
    if |s| == 0 then 0 else 10 * DigitsValue(s[..|s| - 1]) + DigitValue(s[|s| - 1])
  }

  /** Length of the longest run of digits at the start of s. */
  function DigitPrefixLength(s: string): (k: nat)
    ensures k <= |s|
    ensures forall i :: 0 <= i < k ==> IsDigit(s[i])
    ensures k < |s| ==> !IsDigit(s[k])
  {
    if |s| > 0 && IsDigit(s[0]) then 1 + DigitPrefixLength(s[1..]) else 0
  }

  /**
   * `parseInt(s)` without a radix, for decimal text: leading white space and one
   * sign are skipped, then the longest run of digits is read; no digits gives
   * `None`, standing for NaN.
   */
  function ParseInt(s: string): (r: Option<int>)
    ensures r.None? <==> DigitPrefixLength(SignStripped(TrimStart(s))) == 0
  {
    var t := TrimStart(s);
    var u := SignStripped(t);
    var k := DigitPrefixLength(u);
    if k == 0 then None
    else if |t| > 0 && t[0] == '-' then Some(-DigitsValue(u[..k]))
    else Some(DigitsValue(u[..k]))
  }

  function SignStripped(t: string): (u: string)
    ensures |u| <= |t|
  {
    if |t| > 0 && (t[0] == '-' || t[0] == '+') then t[1..] else t
  }

  /** Decimal digits of a natural number, without leading zeros. */
  function NatToString(n: nat): (s: string)
    ensures |s| >= 1
    ensures forall i :: 0 <= i < |s| ==> IsDigit(s[i])
    ensures DigitsValue(s) == n
  {
    if n < 10 then [DigitChar(n)]
    else
      var s := NatToString(n / 10) + [DigitChar(n % 10)];
      assert s[..|s| - 1] == NatToString(n / 10);
      s
  }

  /** `n.toString()` for an integer-valued number. */
  function IntToString(n: int): (s: string)
    ensures |s| >= 1
    ensures n >= 0 ==> forall i :: 0 <= i < |s| ==> IsDigit(s[i])
  {
    if n < 0 then "-" + NatToString(-n) else NatToString(n)
  }

  /** One digit below ten, two below a hundred, more from there on. */
  lemma NatToStringLength(n: nat)
    ensures |NatToString(n)| == 1 <==> n < 10
    ensures |NatToString(n)| <= 2 <==> n < 100
  {
    if n >= 10 {
      assert |NatToString(n)| == |NatToString(n / 10)| + 1;
      if n / 10 >= 10 {
        assert |NatToString(n / 10)| == |NatToString(n / 100)| + 1;
      }
    }
  }

  /** `parseInt` reads back what `toString` writes. */
  lemma ParseIntToString(n: int)
    ensures ParseInt(IntToString(n)) == Some(n)
  {
    var s := IntToString(n);
    var d := NatToString(if n < 0 then -n else n);
    assert s == if n < 0 then "-" + d else d;
    assert !IsJsWhitespace(s[0]);
    assert TrimStart(s) == s;
    if n < 0 {
      assert s[1..] == d;
      assert SignStripped(s) == d;
    } else {
      assert SignStripped(s) == d;
    }
    DigitPrefixWhole(d);
    assert d[..|d|] == d;
  }

  /** `parseInt` reads back the digits of the magnitude of a negative number. */
  lemma ParseIntMagnitude(x: int)
    requires x < 0
    ensures ParseInt(NatToString(-x)) == Some(-x)
  {
    var n: nat := -x;
    ParseIntToString(n);
    assert IntToString(n) == NatToString(n);
  }

  lemma {:induction false} DigitPrefixWhole(s: string)
    requires forall i :: 0 <= i < |s| ==> IsDigit(s[i])
    ensures DigitPrefixLength(s) == |s|
    decreases |s|
  {
    if |s| > 0 {
      DigitPrefixWhole(s[1..]);
    }
  }

  /** A leading zero does not change the value of a run of digits. */
  lemma {:induction false} LeadingZeroValue(s: string)
    requires forall i :: 0 <= i < |s| ==> IsDigit(s[i])
    ensures DigitsValue("0" + s) == DigitsValue(s)
    decreases |s|
  {
    var t := "0" + s;
    if |s| > 0 {
      assert t[..|t| - 1] == "0" + s[..|s| - 1];
      LeadingZeroValue(s[..|s| - 1]);
    } else {
      assert t[..|t| - 1] == "";
    }
  }

  /** `parseInt` reads a zero-padded digit run, with or without a minus sign. */
  lemma ParseIntZeroPadded(n: nat, negative: bool)
    ensures ParseInt((if negative then "-0" else "0") + NatToString(n)) == Some(if negative then -(n as int) else n as int)
  {
    var d := NatToString(n);
    var z := "0" + d;
    var s := (if negative then "-0" else "0") + d;
    assert s == if negative then "-" + z else z;
    assert forall i :: 0 <= i < |z| ==> IsDigit(z[i]);
    assert !IsJsWhitespace(s[0]);
    assert TrimStart(s) == s;
    if negative {
      assert s[1..] == z;
    }
    assert SignStripped(s) == z;
    DigitPrefixWhole(z);
    assert z[..|z|] == z;
    LeadingZeroValue(d);
    assert DigitsValue(z) == n;
    assert (|s| > 0 && s[0] == '-') == negative;
  }

  /** `s.padStart(width, c)`. */
  function PadStart(s: string, width: int, c: char): (r: string)
    ensures |r| == if |s| >= width then |s| else width
    decreases width - |s|
  {
    if |s| >= width then s else PadStart([c] + s, width, c)
  }

  /** `c.repeat(n)`. */
  function Repeat(c: char, n: nat): (r: string)
    ensures |r| == n
  {
    if n == 0 then "" else Repeat(c, n - 1) + [c]
  }

  /** Padding puts copies of the pad character in front of the text and changes nothing else. */
  lemma {:induction false} PadStartPrepends(s: string, width: int, c: char)
    ensures PadStart(s, width, c) == Repeat(c, if |s| >= width then 0 else width - |s|) + s
    decreases width - |s|
  {
    if |s| < width {
      PadStartPrepends([c] + s, width, c);
      var k := if |s| + 1 >= width then 0 else width - |s| - 1;
      assert Repeat(c, k) + ([c] + s) == (Repeat(c, k) + [c]) + s;
      assert Repeat(c, width - |s|) == Repeat(c, k) + [c];
    }
  }
}
