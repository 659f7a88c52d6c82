/**
 * The handful of JavaScript string operations the portal relies on:
 * `startsWith`, `includes`, ASCII `toLowerCase`, `padStart`, `Number#toString`,
 * `parseInt`, `split("-")[k]`, and the code-point order the database uses for
 * `ORDER BY` on text columns.
 */
module Text {
  import opened Wrappers

  // ---------------------------------------------------------------------------
  // Prefixes and substrings

  predicate StartsWith(s: string, prefix: string) {
    |prefix| <= |s| && s[..|prefix|] == prefix
  }

  lemma StartsWithConcat(p: string, rest: string)
    ensures StartsWith(p + rest, p)
  {
    assert (p + rest)[..|p|] == p;
  }

  /** `s.includes(sub)`: some position of `s` starts an occurrence of `sub`. */
  predicate Contains(s: string, sub: string)
    decreases |s|
  {
    StartsWith(s, sub) || (|s| > 0 && Contains(s[1..], sub))
  }

  lemma {:induction false} EverythingContainsEmpty(s: string)
    ensures Contains(s, [])
  {
  }

  // ---------------------------------------------------------------------------
  // ASCII lower-casing

  function LowerChar(c: char): (r: char)
    ensures 'A' <= c <= 'Z' ==> r as int == c as int + 32
    ensures !('A' <= c <= 'Z') ==> r == c
  {
    if 'A' <= c <= 'Z' then (c as int + 32) as char else c
  }

  function Lower(s: string): (r: string)
    ensures |r| == |s|
    ensures forall i :: 0 <= i < |s| ==> r[i] == LowerChar(s[i])
  {
    seq(|s|, i requires 0 <= i < |s| => LowerChar(s[i]))
  }

  /** `s.toLowerCase().includes(q.toLowerCase())` */
  predicate ContainsIgnoringCase(s: string, q: string) {
    Contains(Lower(s), Lower(q))
  }

  // ---------------------------------------------------------------------------
  // Code-point lexicographic order (the order of `orderBy: { field: "asc" }`)

  predicate LexLe(a: string, b: string)
    decreases |a|
  {
    |a| == 0 || (|b| > 0 && (a[0] < b[0] || (a[0] == b[0] && LexLe(a[1..], b[1..]))))
  }

  lemma {:induction false} LexLeReflexive(a: string)
    ensures LexLe(a, a)
    decreases |a|
  {
    if |a| > 0 {
      LexLeReflexive(a[1..]);
    }
  }

  lemma {:induction false} LexLeTotal(a: string, b: string)
    ensures LexLe(a, b) || LexLe(b, a)
    decreases |a|
  {
    if |a| > 0 && |b| > 0 && a[0] == b[0] {
      LexLeTotal(a[1..], b[1..]);
    }
  }

  lemma {:induction false} LexLeTransitive(a: string, b: string, c: string)
    requires LexLe(a, b) && LexLe(b, c)
    ensures LexLe(a, c)
    decreases |a|
  {
    if |a| > 0 && a[0] == b[0] && b[0] == c[0] {
      LexLeTransitive(a[1..], b[1..], c[1..]);
    }
  }

  lemma {:induction false} LexLeAntisymmetric(a: string, b: string)
    requires LexLe(a, b) && LexLe(b, a)
    ensures a == b
    decreases |a|
  {
    if |a| > 0 {
      LexLeAntisymmetric(a[1..], b[1..]);
      assert a == [a[0]] + a[1..];
      assert b == [b[0]] + b[1..];
    }
  }

  /** A common prefix does not change the order of two strings. */
  lemma {:induction false} LexLeCommonPrefix(p: string, a: string, b: string)
    ensures LexLe(p + a, p + b) <==> LexLe(a, b)
    decreases |p|
  {
    if |p| > 0 {
      assert (p + a)[1..] == p[1..] + a;
      assert (p + b)[1..] == p[1..] + b;
      LexLeCommonPrefix(p[1..], a, b);
    } else {
      assert p + a == a && p + b == b;
    }
  }

  // ---------------------------------------------------------------------------
  // Decimal digits

  predicate IsDigit(c: char) {
    '0' <= c <= '9'
  }

  predicate AllDigits(s: string) {
    forall i :: 0 <= i < |s| ==> IsDigit(s[i])
  }

  function DigitValue(c: char): (d: nat)
    requires IsDigit(c)
    ensures d < 10
  {
    c as int - '0' as int
  }

  function DigitChar(d: nat): (c: char)
    requires d < 10
    ensures IsDigit(c) && DigitValue(c) == d
  {
    ('0' as int + d) as char
  }

  /** The value of a string of decimal digits, read most significant first. */
  function DigitsValue(s: string): nat
    requires AllDigits(s)
  {
    if |s| == 0 then 0 else DigitsValue(s[..|s| - 1]) * 10 + DigitValue(s[|s| - 1])
  }

  function Pow10(n: nat): (r: nat)
    ensures r >= 1
  {
    if n == 0 then 1 else 10 * Pow10(n - 1)
  }

  lemma {:induction false} DigitsValueBound(s: string)
    requires AllDigits(s)
    ensures DigitsValue(s) < Pow10(|s|)
    decreases |s|
  {
    if |s| > 0 {
      DigitsValueBound(s[..|s| - 1]);
    }
  }

  /** Peeling the leading digit: value = d * 10^(n-1) + value of the rest. */
  lemma {:induction false} DigitsValueFront(s: string)
    requires AllDigits(s) && |s| > 0
    ensures DigitsValue(s) == DigitValue(s[0]) * Pow10(|s| - 1) + DigitsValue(s[1..])
    decreases |s|
  {
    if |s| > 1 {
      var init := s[..|s| - 1];
      var rest := s[1..];
      DigitsValueFront(init);
      assert init[1..] == rest[..|rest| - 1];
      assert init[0] == s[0] && rest[|rest| - 1] == s[|s| - 1];
      var d, p, m, last := DigitValue(s[0]), Pow10(|s| - 2), DigitsValue(init[1..]), DigitValue(s[|s| - 1]);
      var v := DigitsValue(init);
      assert DigitsValue(s) == v * 10 + last;
      assert DigitsValue(rest) == m * 10 + last;
      assert Pow10(|s| - 1) == 10 * p;
      ShiftDigit(v, d, p, m, last);
    }
  }

  lemma ShiftDigit(v: int, d: int, p: int, m: int, last: int)
    requires v == d * p + m
    ensures v * 10 + last == d * (10 * p) + (m * 10 + last)
  {
  }

  /** Leading zeros do not change the value. */
  lemma {:induction false} LeadingZeroValue(s: string)
    requires AllDigits(s)
    ensures AllDigits("0" + s) && DigitsValue("0" + s) == DigitsValue(s)
  {
    DigitsValueFront("0" + s);
    assert ("0" + s)[1..] == s;
  }

  /** Among digit strings of one width, code-point order is numeric order. */
  lemma {:induction false} LexLeDigitsValue(a: string, b: string)
    requires AllDigits(a) && AllDigits(b) && |a| == |b|
    requires LexLe(a, b)
    ensures DigitsValue(a) <= DigitsValue(b)
    decreases |a|
  {
    if |a| > 0 {
      var p := Pow10(|a| - 1);
      DigitsValueFront(a);
      DigitsValueFront(b);
      DigitsValueBound(a[1..]);
      if a[0] == b[0] {
        LexLeDigitsValue(a[1..], b[1..]);
      } else {
        assert DigitValue(a[0]) + 1 <= DigitValue(b[0]);
        calc {
          DigitsValue(a);
          < DigitValue(a[0]) * p + p;
          == (DigitValue(a[0]) + 1) * p;
          <= { MulMonotone(DigitValue(a[0]) + 1, DigitValue(b[0]), p); }
          DigitValue(b[0]) * p;
          <= DigitsValue(b);
        }
      }
    }
  }

  lemma MulMonotone(x: nat, y: nat, p: nat)
    requires x <= y
    ensures x * p <= y * p
  {
  }

  // ---------------------------------------------------------------------------
  // Number#toString and String#padStart

  /** The shortest decimal spelling of `n` (`n.toString()`). */
  function NatToString(n: nat): (r: string)
    ensures |r| >= 1 && AllDigits(r)
    ensures DigitsValue(r) == n
    ensures n < 10 ==> |r| == 1
  {
    if n < 10 then [DigitChar(n)]
    else
      var r := NatToString(n / 10) + [DigitChar(n % 10)];
      assert r[..|r| - 1] == NatToString(n / 10);
      r
  }

  /** The spelling is canonical: no leading zero, and two digits or more from ten on. */
  lemma {:induction false} NatToStringCanonical(n: nat)
    ensures n > 0 ==> NatToString(n)[0] != '0'
    ensures n >= 10 ==> |NatToString(n)| >= 2
  {
    if n >= 10 {
      NatToStringCanonical(n / 10);
      assert NatToString(n)[0] == NatToString(n / 10)[0];
    } else if n > 0 {
      assert NatToString(n) == [DigitChar(n)];
    }
  }

  /** `Number(i).toString()` for an integer. */
  function IntToString(i: int): (r: string)
    ensures i >= 0 ==> r == NatToString(i)
    ensures i < 0 ==> r == "-" + NatToString(-i)
  {
    if i < 0 then "-" + NatToString(-i) else NatToString(i)
  }

  function Zeros(k: nat): (r: string)
    ensures |r| == k && forall i :: 0 <= i < k ==> r[i] == '0'
  {
    seq(k, _ => '0')
  }

  /** `s.padStart(width, "0")` */
  function PadZeros(s: string, width: nat): (r: string)
    ensures |s| >= width ==> r == s
    ensures |s| < width ==> |r| == width && r == Zeros(width - |s|) + s
    ensures |r| >= width && |r| >= |s|
  {
    if |s| >= width then s else Zeros(width - |s|) + s
  }

  lemma {:induction false} ZerosPrefixValue(k: nat, s: string)
    requires AllDigits(s)
    ensures AllDigits(Zeros(k) + s) && DigitsValue(Zeros(k) + s) == DigitsValue(s)
    decreases k
  {
    if k > 0 {
      ZerosPrefixValue(k - 1, s);
      assert Zeros(k) + s == "0" + (Zeros(k - 1) + s);
      LeadingZeroValue(Zeros(k - 1) + s);
    } else {
      assert Zeros(k) + s == s;
    }
  }

  /** A zero-padded decimal spelling keeps its value. */
  lemma PaddedValue(n: nat, width: nat)
    ensures AllDigits(PadZeros(NatToString(n), width))
    ensures DigitsValue(PadZeros(NatToString(n), width)) == n
  {
    var s := NatToString(n);
    if |s| < width {
      ZerosPrefixValue(width - |s|, s);
    }
  }

  // ---------------------------------------------------------------------------
  // parseInt (no radix argument)

  /** The WhiteSpace and LineTerminator code points of ECMAScript, which `parseInt` skips. */
  predicate IsSpace(c: char) {
    || c == '\t' || c == '\U{B}' || c == '\U{C}' || c == ' ' || c == '\U{A0}' || c == '\U{FEFF}'
    || c == '\n' || c == '\r' || c == '\U{2028}' || c == '\U{2029}'
    || c == '\U{1680}' || ('\U{2000}' <= c <= '\U{200A}') || c == '\U{202F}' || c == '\U{205F}' || c == '\U{3000}'
  }

  function TrimStart(s: string): (r: string)
    ensures |r| <= |s| && r == s[|s| - |r|..]
    ensures |r| > 0 ==> !IsSpace(r[0])
    ensures |s| > 0 && !IsSpace(s[0]) ==> r == s
    decreases |s|
  {
    if |s| > 0 && IsSpace(s[0]) then TrimStart(s[1..]) else s
  }

  /** The longest prefix of `s` made of decimal digits. */
  function LeadingDigits(s: string): (r: string)
    ensures AllDigits(r) && |r| <= |s| && r == s[..|r|]
    ensures |r| < |s| ==> !IsDigit(s[|r|])
    decreases |s|
  {
    if |s| > 0 && IsDigit(s[0]) then [s[0]] + LeadingDigits(s[1..]) else []
  }

  lemma {:induction false} LeadingDigitsOfDigits(s: string)
    requires AllDigits(s)
    ensures LeadingDigits(s) == s
    decreases |s|
  {
    if |s| > 0 {
      LeadingDigitsOfDigits(s[1..]);
      assert s == [s[0]] + s[1..];
    }
  }

  predicate IsHexDigit(c: char) {
    IsDigit(c) || 'a' <= c <= 'f' || 'A' <= c <= 'F'
  }

  predicate AllHexDigits(s: string) {
    forall i :: 0 <= i < |s| ==> IsHexDigit(s[i])
  }

  function HexDigitValue(c: char): (d: nat)
    requires IsHexDigit(c)
    ensures d < 16
    ensures IsDigit(c) ==> d == DigitValue(c)
  {
    if IsDigit(c) then DigitValue(c)
    else if 'a' <= c <= 'f' then c as int - 'a' as int + 10
    else c as int - 'A' as int + 10
  }

  /** The value of a string of hexadecimal digits, read most significant first. */
  function HexValue(s: string): nat
    requires AllHexDigits(s)
  {
    if |s| == 0 then 0 else HexValue(s[..|s| - 1]) * 16 + HexDigitValue(s[|s| - 1])
  }

  /** The longest prefix of `s` made of hexadecimal digits. */
  function LeadingHexDigits(s: string): (r: string)
    ensures AllHexDigits(r) && |r| <= |s| && r == s[..|r|]
    ensures |r| < |s| ==> !IsHexDigit(s[|r|])
    decreases |s|
  {
    if |s| > 0 && IsHexDigit(s[0]) then [s[0]] + LeadingHexDigits(s[1..]) else []
  }

  /** "0x" or "0X", which switches `parseInt` without a radix to base 16. */
  predicate HasHexPrefix(t: string) {
    |t| >= 2 && t[0] == '0' && (t[1] == 'x' || t[1] == 'X')
  }

  /**
   * The number after the sign: after a "0x" or "0X" prefix the longest run of
   * hexadecimal digits, else the longest run of decimal digits. `None` when
   * that run is empty.
   */
  function Magnitude(u: string): (m: Option<nat>)
    ensures HasHexPrefix(u) ==> (m.None? <==> |LeadingHexDigits(u[2..])| == 0)
    ensures !HasHexPrefix(u) ==> (m.None? <==> |LeadingDigits(u)| == 0)
  {
    if HasHexPrefix(u) then
      var h := LeadingHexDigits(u[2..]);
      if |h| == 0 then None else Some(HexValue(h))
    else
      var d := LeadingDigits(u);
      if |d| == 0 then None else Some(DigitsValue(d))
  }

  /**
   * `parseInt(s)`: skip leading white space, read an optional sign, then the
   * magnitude. `None` stands for `NaN` (no digits).
   */
  function JsParseInt(s: string): (r: Option<int>)
    ensures r.None? <==> Magnitude(SignFree(TrimStart(s))).None?
  {
    var t := TrimStart(s);
    match Magnitude(SignFree(t))
    case None => None
    case Some(v) => if |t| > 0 && t[0] == '-' then Some(0 - v) else Some(v as int)
  }

  /**
   * `parseInt(s) || 1`: a quantity as typed; `NaN` and 0 are falsy and read as
   * 1, every other value (negative ones included) is kept.
   */
  function ParseIntOrOne(s: string): (q: int)
    ensures q != 0
    ensures JsParseInt(s).Some? && JsParseInt(s).value != 0 ==> q == JsParseInt(s).value
    ensures JsParseInt(s).None? || JsParseInt(s).value == 0 ==> q == 1
  {
    match JsParseInt(s)
    case None => 1
    case Some(v) => if v == 0 then 1 else v
  }

  lemma {:induction false} LeadingHexDigitsOfHex(s: string)
    requires AllHexDigits(s)
    ensures LeadingHexDigits(s) == s
    decreases |s|
  {
    if |s| > 0 {
      LeadingHexDigitsOfHex(s[1..]);
      assert s == [s[0]] + s[1..];
    }
  }

  /** Without leading white space or a sign, `parseInt` reads the magnitude alone. */
  lemma ParseUnsigned(u: string)
    requires |u| > 0 && !IsSpace(u[0]) && u[0] != '-' && u[0] != '+'
    ensures Magnitude(u).None? ==> JsParseInt(u).None?
    ensures Magnitude(u).Some? ==> JsParseInt(u) == Some(Magnitude(u).value as int)
  {
    assert TrimStart(u) == u;
    assert SignFree(u) == u;
  }

  /** "0x" followed by hexadecimal digits reads as their base-16 value. */
  lemma ParseHex(h: string)
    requires AllHexDigits(h) && |h| > 0
    ensures JsParseInt("0x" + h) == Some(HexValue(h))
  {
    var s := "0x" + h;
    assert s[0] == '0' && s[1] == 'x' && s[2..] == h;
    assert !IsSpace(s[0]);
    assert HasHexPrefix(s);
    LeadingHexDigitsOfHex(h);
    assert Magnitude(s) == Some(HexValue(h));
    ParseUnsigned(s);
  }

  /** Leading white space, ASCII or not, does not change what `parseInt` reads. */
  lemma SpaceSkipped(c: char, s: string)
    requires IsSpace(c)
    ensures JsParseInt([c] + s) == JsParseInt(s)
  {
    assert ([c] + s)[1..] == s;
  }

  /** A quantity typed in hexadecimal, such as "0x10", is read in base 16. */
  lemma HexQuantity(h: string)
    requires AllHexDigits(h) && HexValue(h) != 0
    ensures ParseIntOrOne("0x" + h) == HexValue(h)
  {
    ParseHex(h);
  }

  /** A no-break space before the digits is skipped: the quantity is their value. */
  lemma NoBreakSpaceQuantity(s: string)
    requires AllDigits(s) && DigitsValue(s) != 0
    ensures ParseIntOrOne(['\U{A0}'] + s) == DigitsValue(s)
  {
    ParseDigits(s);
    SpaceSkipped('\U{A0}', s);
  }

  function SignFree(t: string): string {
    if |t| > 0 && (t[0] == '-' || t[0] == '+') then t[1..] else t
  }

  /** Parsing reads back exactly what was spelled and padded. */
  lemma ParsePadded(n: nat, width: nat)
    ensures JsParseInt(PadZeros(NatToString(n), width)) == Some(n)
  {
    PaddedValue(n, width);
    ParseDigits(PadZeros(NatToString(n), width));
  }

  /** A run of decimal digits reads as its decimal value. */
  lemma ParseDigits(s: string)
    requires AllDigits(s) && |s| > 0
    ensures JsParseInt(s) == Some(DigitsValue(s))
  {
    assert !IsSpace(s[0]) && s[0] != '-' && s[0] != '+' by {
      assert IsDigit(s[0]);
    }
    assert !HasHexPrefix(s) by {
      if |s| >= 2 {
        assert IsDigit(s[1]);
      }
    }
    assert Magnitude(s) == Some(DigitsValue(s)) by {
      LeadingDigitsOfDigits(s);
    }
    ParseUnsigned(s);
  }

  /** "0", the text that stands in for an absent field, reads as 0. */
  lemma ParseZero()
    ensures JsParseInt("0") == Some(0)
  {
    ParseDigits("0");
  }

  // ---------------------------------------------------------------------------
  // s.split("-")[k]

  /** The text before the first dash (all of `s` when it has none). */
  function UpToDash(s: string): (r: string)
    ensures |r| <= |s| && r == s[..|r|] && '-' !in r
    ensures |r| < |s| ==> s[|r|] == '-'
    decreases |s|
  {
    if |s| == 0 || s[0] == '-' then [] else [s[0]] + UpToDash(s[1..])
  }

  /** `s.split("-")[k]`, with `None` for `undefined` when there are fewer fields. */
  function DashField(s: string, k: nat): Option<string>
    decreases |s|
  {
    var head := UpToDash(s);
    if k == 0 then Some(head)
    else if |head| == |s| then None
    else DashField(s[|head| + 1..], k - 1)
  }

  lemma {:induction false} UpToDashSkips(a: string, rest: string)
    requires '-' !in a
    ensures UpToDash(a + "-" + rest) == a
    decreases |a|
  {
    if |a| > 0 {
      assert (a + "-" + rest)[1..] == a[1..] + "-" + rest;
      UpToDashSkips(a[1..], rest);
    }
  }

  /** A dash-free field followed by a dash moves every later field one place left. */
  lemma DashFieldAfter(a: string, rest: string, k: nat)
    requires '-' !in a
    ensures DashField(a + "-" + rest, k + 1) == DashField(rest, k)
  {
    UpToDashSkips(a, rest);
    assert (a + "-" + rest)[|a| + 1..] == rest;
  }

  lemma NoDashInDigits(s: string)
    requires AllDigits(s)
    ensures '-' !in s
  {
    forall i | 0 <= i < |s|
      ensures s[i] != '-'
    {
      assert IsDigit(s[i]);
    }
  }
}
