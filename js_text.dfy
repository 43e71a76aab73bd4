/**
 * The pieces of JavaScript's string and number built-ins that the blog's
 * handlers rely on: the white space of `\s`, `trim` and `parseInt`, the word
 * characters of `\w`, ASCII case folding, global regular-expression
 * replacements of character classes, `String(n)` of a natural number and
 * `parseInt` without a radix.
 */
module JsText {
  import opened Wrappers

  /** ECMAScript WhiteSpace and LineTerminator code points: what `\s`, `trim`
      and `parseInt` skip. */
  predicate IsSpace(c: char) {
    || c == '\t' || c == '\n' || c == '\U{000B}' || c == '\U{000C}' || c == '\r' || c == ' '
    || c == '\U{00A0}' || c == '\U{1680}' || ('\U{2000}' <= c <= '\U{200A}')
    || c == '\U{2028}' || c == '\U{2029}' || c == '\U{202F}' || c == '\U{205F}'
    || c == '\U{3000}' || c == '\U{FEFF}'
  }

  predicate IsAsciiUpper(c: char) { 'A' <= c <= 'Z' }
  predicate IsAsciiLower(c: char) { 'a' <= c <= 'z' }
  predicate IsAsciiDigit(c: char) { '0' <= c <= '9' }

  /** `\w` in a regular expression without the `u` flag. */
  predicate IsWordChar(c: char) { IsAsciiUpper(c) || IsAsciiLower(c) || IsAsciiDigit(c) || c == '_' }

  predicate NoSpace(s: string) { forall i :: 0 <= i < |s| ==> !IsSpace(s[i]) }

  /** Case folding of one character (ASCII letters only). */
  function LowerChar(c: char): (d: char)
    ensures !IsAsciiUpper(d)
    ensures IsSpace(d) == IsSpace(c) && IsAsciiDigit(d) == IsAsciiDigit(c)
    ensures IsAsciiLower(d) == (IsAsciiLower(c) || IsAsciiUpper(c))
  {
    if IsAsciiUpper(c) then (c as int + 32) as char else c
  }

  /** `s.toLowerCase()`, folding ASCII letters. */
  function Lower(s: string): (r: string)
    ensures |r| == |s|
    ensures forall i :: 0 <= i < |s| ==> r[i] == LowerChar(s[i])
  {
    seq(|s|, i requires 0 <= i < |s| => LowerChar(s[i]))
  }

  /** Lower-casing a string that has no upper-case letter changes nothing. */
  lemma LowerIdentity(s: string)
    requires forall i :: 0 <= i < |s| ==> !IsAsciiUpper(s[i])
    ensures Lower(s) == s
  {
  }

  /** Lower-casing is idempotent. */
  lemma LowerIdempotent(s: string)
    ensures Lower(Lower(s)) == Lower(s)
  {
  }

  /** `s.trimStart()`: drop the leading white space. */
  function TrimStart(s: string): string {
    if s != [] && IsSpace(s[0]) then TrimStart(s[1..]) else s
  }

  /** What `trimStart` keeps is a suffix that does not start with white space,
      and what it drops is white space. */
  lemma {:induction false} TrimStartSpec(s: string)
    ensures |TrimStart(s)| <= |s| && TrimStart(s) == s[|s| - |TrimStart(s)|..]
    ensures forall k :: 0 <= k < |s| - |TrimStart(s)| ==> IsSpace(s[k])
    ensures TrimStart(s) == [] || !IsSpace(TrimStart(s)[0])
  {
    if s != [] && IsSpace(s[0]) {
      var rest := s[1..];
      TrimStartSpec(rest);
      var t := TrimStart(rest);
      assert TrimStart(s) == t;
      assert rest[|rest| - |t|..] == s[|s| - |t|..];
      forall k | 0 <= k < |s| - |t| ensures IsSpace(s[k]) {
        if k > 0 {
          assert s[k] == rest[k - 1];
        }
      }
    }
  }

  /** `s.trimEnd()`: drop the trailing white space. */
  function TrimEnd(s: string): string {
    if s != [] && IsSpace(s[|s| - 1]) then TrimEnd(s[..|s| - 1]) else s
  }

  /** What `trimEnd` keeps is a prefix that does not end with white space,
      and what it drops is white space. */
  lemma {:induction false} TrimEndSpec(s: string)
    ensures |TrimEnd(s)| <= |s| && TrimEnd(s) == s[..|TrimEnd(s)|]
    ensures forall k :: |TrimEnd(s)| <= k < |s| ==> IsSpace(s[k])
    ensures TrimEnd(s) == [] || !IsSpace(TrimEnd(s)[|TrimEnd(s)| - 1])
  {
    if s != [] && IsSpace(s[|s| - 1]) {
      var init := s[..|s| - 1];
      TrimEndSpec(init);
      var t := TrimEnd(init);
      assert TrimEnd(s) == t;
      assert init[..|t|] == s[..|t|];
      forall k | |t| <= k < |s| ensures IsSpace(s[k]) {
        if k < |init| {
          assert s[k] == init[k];
        }
      }
    }
  }

  /** The number of white-space characters `s` starts with. */
  function Leading(s: string): (n: nat)
    ensures n <= |s|
  {
    if s != [] && IsSpace(s[0]) then 1 + Leading(s[1..]) else 0
  }

  lemma {:induction false} LeadingSpec(s: string)
    ensures forall k :: 0 <= k < Leading(s) ==> IsSpace(s[k])
    ensures Leading(s) < |s| ==> !IsSpace(s[Leading(s)])
  {
    if s != [] && IsSpace(s[0]) {
      LeadingSpec(s[1..]);
    }
  }

  /** `s.trim()`. */
  function Trim(s: string): string {
    TrimEnd(TrimStart(s))
  }

  /** `trim` keeps the slice of `s` after its leading white space that neither
      starts nor ends with white space; what it cuts off at the end is white space. */
  lemma TrimSpec(s: string)
    ensures Leading(s) + |Trim(s)| <= |s| && Trim(s) == s[Leading(s)..Leading(s) + |Trim(s)|]
    ensures forall k :: Leading(s) + |Trim(s)| <= k < |s| ==> IsSpace(s[k])
    ensures Trim(s) == [] || (!IsSpace(Trim(s)[0]) && !IsSpace(Trim(s)[|Trim(s)| - 1]))
  {
    var t, n := TrimStart(s), Leading(s);
    LeadingTrimStart(s);
    TrimEndSpec(t);
    var r := TrimEnd(t);
    assert r == s[n..n + |r|];
    forall k | n + |r| <= k < |s| ensures IsSpace(s[k]) {
      assert s[k] == t[k - n];
    }
    if r != [] {
      TrimStartSpec(s);
      assert r[0] == t[0];
    }
  }

  lemma {:induction false} LeadingTrimStart(s: string)
    ensures TrimStart(s) == s[Leading(s)..]
  {
    if s != [] && IsSpace(s[0]) {
      LeadingTrimStart(s[1..]);
    }
  }

  /** A string that neither starts nor ends with white space is its own trim. */
  lemma TrimKeepsTrimmed(s: string)
    requires s == [] || (!IsSpace(s[0]) && !IsSpace(s[|s| - 1]))
    ensures Trim(s) == s
  {
  }

  /** Trimming twice is trimming once. */
  lemma TrimIdempotent(s: string)
    ensures Trim(Trim(s)) == Trim(s)
  {
    TrimSpec(s);
    TrimKeepsTrimmed(Trim(s));
  }

  /** White space before a string that does not start with any is all
      `trimStart` drops. */
  lemma {:induction false} TrimStartAppend(s: string, t: string)
    requires t != [] && !IsSpace(t[0])
    ensures TrimStart(s + t) == TrimStart(s) + t
  {
    if s == [] {
      assert s + t == t;
    } else if IsSpace(s[0]) {
      assert (s + t)[1..] == s[1..] + t;
      TrimStartAppend(s[1..], t);
    }
  }

  /** Trimming `s + t`, where `t` neither starts nor ends with white space,
      only trims the start of `s`. */
  lemma TrimBeforeWord(s: string, t: string)
    requires t != [] && !IsSpace(t[0]) && !IsSpace(t[|t| - 1])
    ensures Trim(s + t) == TrimStart(s) + t
  {
    TrimStartAppend(s, t);
    TrimStartSpec(s);
    var u := TrimStart(s) + t;
    assert u[|u| - 1] == t[|t| - 1];
    if TrimStart(s) == [] {
      assert u == t;
    } else {
      assert u[0] == TrimStart(s)[0];
    }
    TrimKeepsTrimmed(u);
  }

  /** A string with no white space is its own trim. */
  lemma TrimIdentity(s: string)
    requires NoSpace(s)
    ensures Trim(s) == s
  {
  }

  /** What remains of `s` after its leading run of characters of a class. */
  function SkipRun(s: string, inClass: char -> bool): (r: string)
    ensures |r| <= |s| && r == s[|s| - |r|..]
    ensures forall k :: 0 <= k < |s| - |r| ==> inClass(s[k])
    ensures r == [] || !inClass(r[0])
  {
    if s != [] && inClass(s[0]) then
      var r := SkipRun(s[1..], inClass);
      assert s[1..][|s| - 1 - |r|..] == s[|s| - |r|..];
      assert forall k :: 1 <= k < |s| - |r| ==> s[k] == s[1..][k - 1];
      r
    else s
  }

  /** `s.replace(/[class]+/g, rep)`: each maximal run of characters of the
      class becomes one copy of `rep`; every other character is kept. */
  function ReplaceRuns(s: string, inClass: char -> bool, rep: string): string
    decreases |s|
  {
    if s == [] then []
    else if inClass(s[0]) then rep + ReplaceRuns(SkipRun(s, inClass), inClass, rep)
    else [s[0]] + ReplaceRuns(s[1..], inClass, rep)
  }

  /** A character of the replacement result comes either from `rep` or from a
      character of `s` outside the class. */
  lemma {:induction false} ReplaceRunsChars(s: string, inClass: char -> bool, rep: string, k: nat)
    requires k < |ReplaceRuns(s, inClass, rep)|
    ensures ReplaceRuns(s, inClass, rep)[k] in rep
         || (ReplaceRuns(s, inClass, rep)[k] in s && !inClass(ReplaceRuns(s, inClass, rep)[k]))
    decreases |s|
  {
    var r := ReplaceRuns(s, inClass, rep);
    if s == [] {
    } else if inClass(s[0]) {
      var t := SkipRun(s, inClass);
      if k < |rep| {
        assert r[k] == rep[k];
      } else {
        ReplaceRunsChars(t, inClass, rep, k - |rep|);
        assert r[k] == ReplaceRuns(t, inClass, rep)[k - |rep|];
        assert forall c :: c in t ==> c in s;
      }
    } else {
      if k > 0 {
        ReplaceRunsChars(s[1..], inClass, rep, k - 1);
        assert r[k] == ReplaceRuns(s[1..], inClass, rep)[k - 1];
        assert forall c :: c in s[1..] ==> c in s;
      } else {
        assert r[0] == s[0];
      }
    }
  }

  /** When `rep` holds no character of the class, neither does the result. */
  lemma ReplaceRunsLeavesNoClassChar(s: string, inClass: char -> bool, rep: string)
    requires forall c :: c in rep ==> !inClass(c)
    ensures forall k :: 0 <= k < |ReplaceRuns(s, inClass, rep)| ==> !inClass(ReplaceRuns(s, inClass, rep)[k])
  {
    forall k | 0 <= k < |ReplaceRuns(s, inClass, rep)|
      ensures !inClass(ReplaceRuns(s, inClass, rep)[k])
    {
      ReplaceRunsChars(s, inClass, rep, k);
    }
  }

  /** A property every character of `rep` has, and every character of `s`
      outside the class has, holds for every character of the result. */
  lemma ReplaceRunsPreserves(s: string, inClass: char -> bool, rep: string, p: char -> bool)
    requires forall k :: 0 <= k < |s| ==> inClass(s[k]) || p(s[k])
    requires forall k :: 0 <= k < |rep| ==> p(rep[k])
    ensures forall k :: 0 <= k < |ReplaceRuns(s, inClass, rep)| ==> p(ReplaceRuns(s, inClass, rep)[k])
  {
    var r := ReplaceRuns(s, inClass, rep);
    forall k | 0 <= k < |r| ensures p(r[k]) {
      ReplaceRunsChars(s, inClass, rep, k);
      if r[k] in rep {
        var i :| 0 <= i < |rep| && rep[i] == r[k];
      } else {
        var i :| 0 <= i < |s| && s[i] == r[k];
      }
    }
  }

  /** A string with no character of the class is unchanged by the replacement. */
  lemma {:induction false} ReplaceRunsIdentity(s: string, inClass: char -> bool, rep: string)
    requires forall k :: 0 <= k < |s| ==> !inClass(s[k])
    ensures ReplaceRuns(s, inClass, rep) == s
    decreases |s|
  {
    if s != [] {
      ReplaceRunsIdentity(s[1..], inClass, rep);
    }
  }

  /** A result that starts outside the class starts with the same character as `s`. */
  lemma ReplaceRunsHead(s: string, inClass: char -> bool, rep: string)
    requires s != [] && !inClass(s[0])
    ensures ReplaceRuns(s, inClass, rep) != [] && ReplaceRuns(s, inClass, rep)[0] == s[0]
  {
  }

  /** No two neighbours both in the class. */
  predicate NoAdjacent(s: string, inClass: char -> bool) {
    forall k :: 0 <= k < |s| - 1 ==> !(inClass(s[k]) && inClass(s[k + 1]))
  }

  /** Replacing runs of a class by one character of that class (`/-+/g` by
      `'-'`) leaves no two class characters side by side. */
  lemma {:induction false} ReplaceRunsCollapses(s: string, inClass: char -> bool, d: char)
    requires inClass(d)
    ensures NoAdjacent(ReplaceRuns(s, inClass, [d]), inClass)
    decreases |s|
  {
    var r := ReplaceRuns(s, inClass, [d]);
    if s == [] {
    } else if inClass(s[0]) {
      var t := SkipRun(s, inClass);
      ReplaceRunsCollapses(t, inClass, d);
      if t != [] {
        ReplaceRunsHead(t, inClass, [d]);
      }
      assert r == [d] + ReplaceRuns(t, inClass, [d]);
    } else {
      ReplaceRunsCollapses(s[1..], inClass, d);
      assert r == [s[0]] + ReplaceRuns(s[1..], inClass, [d]);
    }
  }

  /** `s.replace(/[^class]/g, '')`: keep only the characters of the class, in order. */
  function Keep(s: string, keep: char -> bool): (r: string)
    ensures |r| <= |s|
    ensures forall k :: 0 <= k < |r| ==> keep(r[k]) && r[k] in s
    ensures (forall k :: 0 <= k < |s| ==> keep(s[k])) ==> r == s
  {
    if s == [] then []
    else if keep(s[0]) then [s[0]] + Keep(s[1..], keep)
    else Keep(s[1..], keep)
  }

  // ----- numbers -----

  function DigitChar(d: int): (c: char)
    requires 0 <= d < 10
    ensures IsAsciiDigit(c) && DigitValue(c) == d
  {
    (48 + d) as char
  }

  /** `String(n)` for a natural number: its decimal digits, no leading zero. */
  function NatToDecimal(n: nat): (r: string)
    ensures |r| >= 1 && (forall k :: 0 <= k < |r| ==> IsAsciiDigit(r[k]))
    ensures r[0] == '0' ==> r == "0"
  {
    if n < 10 then [DigitChar(n)] else NatToDecimal(n / 10) + [DigitChar(n % 10)]
  }

  /** The value of a digit in radix 36; 36 for a character that is no digit. */
  function DigitValue(c: char): (v: nat)
    ensures v <= 36
    ensures v < 10 <==> IsAsciiDigit(c)
  {
    if IsAsciiDigit(c) then c as int - 48
    else if IsAsciiLower(c) then c as int - 87
    else if IsAsciiUpper(c) then c as int - 55
    else 36
  }

  predicate IsDigitIn(c: char, radix: nat) { DigitValue(c) < radix }

  /** The longest prefix of `s` made of digits of the radix. */
  function DigitPrefix(s: string, radix: nat): string {
    if s != [] && IsDigitIn(s[0], radix) then [s[0]] + DigitPrefix(s[1..], radix) else []
  }

  /** `DigitPrefix` is a prefix of digits that stops before the first non-digit. */
  lemma {:induction false} DigitPrefixSpec(s: string, radix: nat)
    ensures |DigitPrefix(s, radix)| <= |s| && DigitPrefix(s, radix) == s[..|DigitPrefix(s, radix)|]
    ensures forall k :: 0 <= k < |DigitPrefix(s, radix)| ==> IsDigitIn(DigitPrefix(s, radix)[k], radix)
    ensures |DigitPrefix(s, radix)| < |s| ==> !IsDigitIn(s[|DigitPrefix(s, radix)|], radix)
  {
    if s != [] && IsDigitIn(s[0], radix) {
      DigitPrefixSpec(s[1..], radix);
    }
  }

  /** The number the digits denote, most significant first. */
  function DigitsValue(ds: string, radix: nat): nat
  {
    if ds == [] then 0
    else DigitsValue(ds[..|ds| - 1], radix) * radix + DigitValue(ds[|ds| - 1])
  }

  /** `parseInt(s)` without a radix: skip leading white space, take an optional
      sign, read hexadecimal after `0x`/`0X` and decimal otherwise, and stop at
      the first character that is not a digit; `None` stands for `NaN`. */
  function ParseInt(s: string): Option<int>
  {
    var ds := DigitPrefix(Digits(s), Radix(s));
    if ds == [] then None else Some(Sign(s) * DigitsValue(ds, Radix(s)))
  }

  /** The part of `s` after white space, sign and radix prefix. */
  function Unsigned(s: string): string {
    var t := TrimStart(s);
    if t != [] && (t[0] == '-' || t[0] == '+') then t[1..] else t
  }

  function Sign(s: string): int {
    var t := TrimStart(s);
    if t != [] && t[0] == '-' then -1 else 1
  }

  predicate HasHexPrefix(s: string) {
    var u := Unsigned(s);
    |u| >= 2 && u[0] == '0' && (u[1] == 'x' || u[1] == 'X')
  }

  function Radix(s: string): nat { if HasHexPrefix(s) then 16 else 10 }

  function Digits(s: string): string {
    if HasHexPrefix(s) then Unsigned(s)[2..] else Unsigned(s)
  }

  /** `parseInt(q)` of an optional query value: `parseInt(undefined)` is `NaN`. */
  function ParseQuery(q: Option<string>): Option<int> {
    if q.None? then None else ParseInt(q.value)
  }

  /** `n || d` for the number `n` that `parseInt` produced: `NaN` and `0` are falsy. */
  function OrDefault(n: Option<int>, d: int): (r: int)
    ensures r == d || (n.Some? && r == n.value && r != 0)
    ensures n.Some? && n.value != 0 ==> r == n.value
  {
    if n.None? || n.value == 0 then d else n.value
  }

  lemma {:induction false} DecimalValue(n: nat)
    ensures DigitsValue(NatToDecimal(n), 10) == n
  {
    if n >= 10 {
      DecimalValue(n / 10);
      var r := NatToDecimal(n);
      assert r[..|r| - 1] == NatToDecimal(n / 10);
    }
  }

  lemma {:induction false} DigitPrefixOfDigits(s: string)
    requires forall k :: 0 <= k < |s| ==> IsAsciiDigit(s[k])
    ensures DigitPrefix(s, 10) == s
  {
    if s != [] {
      DigitPrefixOfDigits(s[1..]);
    }
  }

  /** A string that starts with a decimal digit has no white space, sign or
      hexadecimal prefix in front of its digits. */
  lemma PlainDigits(s: string)
    requires s != [] && IsAsciiDigit(s[0]) && (s[0] == '0' ==> |s| == 1)
    ensures Digits(s) == s && Radix(s) == 10 && Sign(s) == 1
  {
    assert !IsSpace(s[0]);
    assert TrimStart(s) == s;
    assert Unsigned(s) == s;
  }

  /** `parseInt(String(n)) === n`: the decimal printer and the parser are inverse. */
  lemma ParseIntOfDecimal(n: nat)
    ensures ParseInt(NatToDecimal(n)) == Some(n)
  {
    var s := NatToDecimal(n);
    PlainDigits(s);
    DigitPrefixOfDigits(s);
    DecimalValue(n);
  }

  /** `String(n)` is injective. */
  lemma DecimalInjective(m: nat, n: nat)
    requires NatToDecimal(m) == NatToDecimal(n)
    ensures m == n
  {
    ParseIntOfDecimal(m);
    ParseIntOfDecimal(n);
  }

  /** `Math.ceil(a / b)` for an integer `a` and a non-zero integer `b`. */
  function CeilDiv(a: int, b: int): (r: int)
    requires b != 0
    ensures b > 0 ==> (r - 1) * b < a <= r * b
    ensures b < 0 ==> r * b <= a < (r - 1) * b
    ensures a == 0 ==> r == 0
  {
    if b > 0 then
      var q := (-a) / b;
      assert -a == b * q + (-a) % b;
      assert (-q - 1) * b == -q * b - b;
      -q
    else
      var q := a / (-b);
      assert a == (-b) * q + a % (-b);
      assert (-q - 1) * b == -q * b - b;
      -q
  }

  /** `Math.round(a / b)` for a positive `b`: the nearest integer, a half
      rounded up. */
  function RoundDiv(a: int, b: int): (r: int)
    requires b > 0
    ensures b * (2 * r - 1) <= 2 * a < b * (2 * r + 1)
  {
    var q := (2 * a + b) / (2 * b);
    assert 2 * a + b == 2 * b * q + (2 * a + b) % (2 * b);
    assert b * (2 * q - 1) == 2 * b * q - b;
    assert b * (2 * q + 1) == 2 * b * q + b;
    q
  }
}
