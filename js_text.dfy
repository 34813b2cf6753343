/**
 * The ECMAScript string built-ins the application calls: the `\s` and `\w`
 * character classes, `trim`, `split(',')`, `toLowerCase`, number-to-string
 * conversion of an index, and `parseInt`.
 */
module JsText {
  import opened Wrappers

  /** LineTerminator (LF, CR, U+2028, U+2029): the characters the regular-expression `.` refuses to match. */
  predicate IsLineTerminator(c: char) {
    c == '\n' || c == '\r' || c == '\U{2028}' || c == '\U{2029}'
  }

  /**
   * WhiteSpace or LineTerminator: the class `\s`, and what `trim` and
   * `parseInt` skip. U+0009..U+000D are TAB, LF, VT, FF and CR; the rest are
   * SPACE, NBSP, U+1680, U+2000..U+200A, the two line separators, U+202F,
   * U+205F, U+3000 and the byte order mark.
   */
  predicate IsSpace(c: char) {
    || '\t' <= c <= '\r' || c == ' ' || c == '\U{00A0}' || c == '\U{1680}'
    || '\U{2000}' <= c <= '\U{200A}' || c == '\U{2028}' || c == '\U{2029}'
    || c == '\U{202F}' || c == '\U{205F}' || c == '\U{3000}' || c == '\U{FEFF}'
  }

  predicate IsDigit(c: char) { '0' <= c <= '9' }

  predicate IsAsciiLetter(c: char) { 'a' <= c <= 'z' || 'A' <= c <= 'Z' }

  /** The class `\w` (no `u` flag): ASCII letters, digits and `_`. */
  predicate IsWordChar(c: char) { IsAsciiLetter(c) || IsDigit(c) || c == '_' }

  predicate AllSpace(s: string) { forall i :: 0 <= i < |s| ==> IsSpace(s[i]) }

  predicate NoLineTerminator(s: string) { forall i :: 0 <= i < |s| ==> !IsLineTerminator(s[i]) }

  predicate StartsWith(s: string, p: string) { |p| <= |s| && s[..|p|] == p }

  /** `p` occurs in `s` at position `k`. */
  predicate OccursAt(s: string, p: string, k: nat) {
    k + |p| <= |s| && s[k..k + |p|] == p
  }

  /** `s.indexOf(p, i)`: the first position at or after `i` where `p` occurs. */
  function IndexOf(s: string, p: string, i: nat): (r: Option<nat>)
    requires i <= |s|
    ensures r.Some? ==> i <= r.value && OccursAt(s, p, r.value)
    decreases |s| - i
  {
    if i + |p| > |s| then None
    else if OccursAt(s, p, i) then Some(i)
    else IndexOf(s, p, i + 1)
  }

  /** The position found is the first one: `p` occurs at no earlier position, and nowhere when none is found. */
  lemma {:induction false} IndexOfFirst(s: string, p: string, i: nat)
    requires i <= |s|
    ensures forall k :: i <= k && (IndexOf(s, p, i).None? || k < IndexOf(s, p, i).value) ==> !OccursAt(s, p, k)
    decreases |s| - i
  {
    if i + |p| <= |s| && !OccursAt(s, p, i) {
      IndexOfFirst(s, p, i + 1);
    }
  }

  /** Conversely, an occurrence at `j` with none before it is the one found. */
  lemma {:induction false} IndexOfAt(s: string, p: string, i: nat, j: nat)
    requires i <= j && OccursAt(s, p, j)
    requires forall k :: i <= k < j ==> !OccursAt(s, p, k)
    ensures IndexOf(s, p, i) == Some(j)
    decreases j - i
  {
    if i < j {
      IndexOfAt(s, p, i + 1, j);
    }
  }

  /** `s.replace(p, "")` for a string pattern: the first occurrence of `p` is removed. */
  function RemoveFirst(s: string, p: string): (r: string)
    ensures IndexOf(s, p, 0).None? ==> r == s
    ensures IndexOf(s, p, 0).Some? ==>
              var j := IndexOf(s, p, 0).value;
              j <= |r| && s == r[..j] + p + r[j..]
  {
    match IndexOf(s, p, 0)
    case None => s
    case Some(j) =>
      var r := s[..j] + s[j + |p|..];
      assert r[..j] == s[..j] && r[j..] == s[j + |p|..];
      assert s == s[..j] + s[j..j + |p|] + s[j + |p|..];
      r
  }

  /** Length of the longest prefix of `s` whose characters all pass `f`. */
  function SpanLength(s: string, f: char -> bool): (n: nat)
    ensures n <= |s|
    ensures forall i :: 0 <= i < n ==> f(s[i])
    ensures n < |s| ==> !f(s[n])
  {
    if s == [] || !f(s[0]) then 0 else 1 + SpanLength(s[1..], f)
  }

  /**
   * The end of the run of characters passing `f` that starts at `i`, looking
   * no further than `e`: the first position of `[i, e)` whose character fails
   * `f`, or `e` when there is none.
   */
  function RunEnd(s: string, i: nat, e: nat, f: char -> bool): (r: nat)
    requires i <= e <= |s|
    ensures i <= r <= e
    decreases e - i
  {
    if i == e || !f(s[i]) then i else RunEnd(s, i + 1, e, f)
  }

  /** Every character of the run passes `f`, and the one that stops it does not. */
  lemma {:induction false} RunEndSound(s: string, i: nat, e: nat, f: char -> bool)
    requires i <= e <= |s|
    ensures forall k :: i <= k < RunEnd(s, i, e, f) ==> f(s[k])
    ensures RunEnd(s, i, e, f) < e ==> !f(s[RunEnd(s, i, e, f)])
    decreases e - i
  {
    if i < e && f(s[i]) {
      RunEndSound(s, i + 1, e, f);
    }
  }

  /** Conversely, a run of characters passing `f` that stops at `j` ends at `j`. */
  lemma {:induction false} RunEndAt(s: string, i: nat, j: nat, e: nat, f: char -> bool)
    requires i <= j <= e <= |s|
    requires forall k :: i <= k < j ==> f(s[k])
    requires j == e || !f(s[j])
    ensures RunEnd(s, i, e, f) == j
    decreases j - i
  {
    if i < j {
      RunEndAt(s, i + 1, j, e, f);
    }
  }

  /** White space is never a word character. */
  lemma SpaceIsNotWord(c: char)
    requires IsSpace(c)
    ensures !IsWordChar(c)
  {
  }

  /** Length of the longest suffix of `s` whose characters all pass `f`. */
  function BackSpanLength(s: string, f: char -> bool): (n: nat)
    ensures n <= |s|
    ensures forall i :: |s| - n <= i < |s| ==> f(s[i])
    ensures n < |s| ==> !f(s[|s| - n - 1])
    decreases |s|
  {
    if s == [] || !f(s[|s| - 1]) then 0 else 1 + BackSpanLength(s[..|s| - 1], f)
  }

  /** `s.trimStart()`. */
  function TrimStart(s: string): (r: string)
    ensures |r| <= |s| && r == s[|s| - |r|..] && AllSpace(s[..|s| - |r|])
    ensures r == [] || !IsSpace(r[0])
  {
    s[SpanLength(s, IsSpace)..]
  }

  /** `s.trimEnd()`. */
  function TrimEnd(s: string): (r: string)
    ensures |r| <= |s| && r == s[..|r|] && AllSpace(s[|r|..])
    ensures r == [] || !IsSpace(r[|r| - 1])
  {
    s[..|s| - BackSpanLength(s, IsSpace)]
  }

  /** `s.trim()`: the string without its leading and trailing white space. */
  function Trim(s: string): (r: string)
    ensures r == [] || (!IsSpace(r[0]) && !IsSpace(r[|r| - 1]))
    ensures r == [] <==> AllSpace(s)
  {
    var t := TrimStart(s);
    var r := TrimEnd(t);
    assert s == s[..|s| - |t|] + t;
    assert t == r + t[|r|..];
    r
  }

  /** Trimming removes white space only: the input is the result with white space on both sides. */
  lemma TrimIsSlice(s: string)
    ensures var r := Trim(s);
            exists i :: 0 <= i <= |s| - |r| && r == s[i..i + |r|] && AllSpace(s[..i]) && AllSpace(s[i + |r|..])
  {
    var t := TrimStart(s);
    var r := Trim(s);
    var i := |s| - |t|;
    assert s[i..] == t && t[..|r|] == r;
    assert s[i + |r|..] == t[|r|..];
  }

  /** `s.split(sep)` for a one-character separator. */
  function Split(s: string, sep: char): (parts: seq<string>)
    ensures |parts| >= 1
    decreases |s|
  {
    if s == [] then [[]]
    else
      var rest := Split(s[1..], sep);
      if s[0] == sep then [[]] + rest
      else [[s[0]] + rest[0]] + rest[1..]
  }

  /** There is one piece more than there are separators, and no piece holds a separator. */
  lemma {:induction false} SplitPieces(s: string, sep: char)
    ensures |Split(s, sep)| == multiset(s)[sep] + 1
    ensures forall i :: 0 <= i < |Split(s, sep)| ==> sep !in Split(s, sep)[i]
    decreases |s|
  {
    if s != [] {
      SplitPieces(s[1..], sep);
      assert s == [s[0]] + s[1..];
      var rest := Split(s[1..], sep);
      var parts := Split(s, sep);
      if s[0] != sep {
        assert forall i :: 1 <= i < |parts| ==> parts[i] == rest[i];
      } else {
        assert forall i :: 1 <= i < |parts| ==> parts[i] == rest[i - 1];
      }
    }
  }

  /** Joining the pieces with the separator gives the string back. */
  lemma {:induction false} SplitJoin(s: string, sep: char)
    ensures Join(Split(s, sep), sep) == s
    decreases |s|
  {
    if s != [] {
      SplitJoin(s[1..], sep);
      var rest := Split(s[1..], sep);
      var parts := Split(s, sep);
      assert parts[1..] == (if s[0] == sep then rest else rest[1..]);
      if s[0] == sep || |rest| == 1 {
        assert s == [s[0]] + s[1..];
      } else {
        assert parts[0] + [sep] + Join(parts[1..], sep) == [s[0]] + (rest[0] + [sep] + Join(rest[1..], sep));
      }
    }
  }

  /** `parts.join(sep)`. */
  function Join(parts: seq<string>, sep: char): string
    requires |parts| >= 1
  {
    if |parts| == 1 then parts[0] else parts[0] + [sep] + Join(parts[1..], sep)
  }

  /** `toLowerCase` on one character; only the ASCII letters are mapped. */
  function ToLowerChar(c: char): (d: char)
    ensures 'A' <= c <= 'Z' ==> 'a' <= d <= 'z'
    ensures !('A' <= c <= 'Z') ==> d == c
  {
    if 'A' <= c <= 'Z' then (c as int + 32) as char else c
  }

  function ToLower(s: string): (r: string)
    ensures |r| == |s| && forall i :: 0 <= i < |s| ==> r[i] == ToLowerChar(s[i])
  {
    seq(|s|, i requires 0 <= i < |s| => ToLowerChar(s[i]))
  }

  /** The value of a run of decimal digits. */
  function DigitsValue(s: string): nat
    requires forall i :: 0 <= i < |s| ==> IsDigit(s[i])
    decreases |s|
  {
    if s == [] then 0
    else
      assert IsDigit(s[|s| - 1]);
      DigitsValue(s[..|s| - 1]) * 10 + (s[|s| - 1] as int - '0' as int)
  }

  /** A non-negative integer written in base 10, as a template literal prints it. */
  function Decimal(n: nat): (r: string)
    ensures |r| >= 1 && forall i :: 0 <= i < |r| ==> IsDigit(r[i])
    ensures |r| > 1 ==> r[0] != '0'
    ensures DigitsValue(r) == n
  {
    var last := [('0' as int + n % 10) as char];
    if n < 10 then last
    else
      var r := Decimal(n / 10) + last;
      assert r[..|r| - 1] == Decimal(n / 10);
      r
  }

  /** The value of `c` as a digit in base `radix` (10 or 16), if it is one. */
  function DigitValue(c: char, radix: nat): Option<nat>
  {
    if '0' <= c <= '9' then Some(c as int - '0' as int)
    else if radix == 16 && 'a' <= c <= 'f' then Some(c as int - 'a' as int + 10)
    else if radix == 16 && 'A' <= c <= 'F' then Some(c as int - 'A' as int + 10)
    else None
  }

  function RadixValue(s: string, radix: nat): nat
    requires forall i :: 0 <= i < |s| ==> DigitValue(s[i], radix).Some?
    decreases |s|
  {
    if s == [] then 0 else RadixValue(s[..|s| - 1], radix) * radix + DigitValue(s[|s| - 1], radix).value
  }

  lemma {:induction false} RadixTenIsDecimal(s: string)
    requires forall i :: 0 <= i < |s| ==> IsDigit(s[i])
    ensures (forall i :: 0 <= i < |s| ==> DigitValue(s[i], 10).Some?) && RadixValue(s, 10) == DigitsValue(s)
    decreases |s|
  {
    if s != [] {
      RadixTenIsDecimal(s[..|s| - 1]);
    }
  }

  /** The string after one leading `-` or `+`, if there is one. */
  function SignStripped(t: string): string {
    if t != [] && (t[0] == '-' || t[0] == '+') then t[1..] else t
  }

  predicate HasHexPrefix(u: string) {
    |u| >= 2 && u[0] == '0' && (u[1] == 'x' || u[1] == 'X')
  }

  /** Length of the longest prefix of `s` made of digits in base `radix`. */
  function RadixDigitRun(s: string, radix: nat): (n: nat)
    ensures n <= |s|
    ensures forall i :: 0 <= i < n ==> DigitValue(s[i], radix).Some?
    ensures n < |s| ==> DigitValue(s[n], radix).None?
  {
    if s == [] || DigitValue(s[0], radix).None? then 0 else 1 + RadixDigitRun(s[1..], radix)
  }

  /**
   * `parseInt(s, 10)` when `radixTen`, `parseInt(s)` otherwise: skip leading
   * white space, read an optional sign, then (without a radix) an optional
   * `0x` / `0X` that switches to base 16, then the longest run of digits.
   * `None` stands for `NaN`.
   */
  function ParseInt(s: string, radixTen: bool): (r: Option<int>)
    ensures radixTen ==> (r.Some? <==> (var u := SignStripped(TrimStart(s)); u != [] && IsDigit(u[0])))
    ensures r.Some? && r.value < 0 ==> TrimStart(s) != [] && TrimStart(s)[0] == '-'
  {
    var t := TrimStart(s);
    var u := SignStripped(t);
    var hex := !radixTen && HasHexPrefix(u);
    var radix := if hex then 16 else 10;
    var v := if hex then u[2..] else u;
    var n := RadixDigitRun(v, radix);
    if n == 0 then None
    else
      var magnitude: int := RadixValue(v[..n], radix);
      Some(if t != [] && t[0] == '-' then -magnitude else magnitude)
  }

  /**
   * A decimal numeral followed by anything that is not a digit reads back as
   * its value: `parseInt("3x", 10) == 3`. Without the radix argument the
   * same holds unless the numeral is `0` and the tail starts with `x` or `X`
   * (`parseInt("0x5") == 5` reads hexadecimal).
   */
  lemma ParseIntReadsDecimal(n: nat, tail: string, radixTen: bool)
    requires tail == [] || !IsDigit(tail[0])
    requires radixTen || n > 0 || tail == [] || (tail[0] != 'x' && tail[0] != 'X')
    ensures ParseInt(Decimal(n) + tail, radixTen) == Some(n)
  {
    var d := Decimal(n);
    var s := d + tail;
    assert s[0] == d[0] && IsDigit(s[0]);
    assert SpanLength(s, IsSpace) == 0;
    assert TrimStart(s) == s;
    assert SignStripped(s) == s;
    if !radixTen {
      DecimalNotHex(n, tail);
    }
    DecimalDigitRun(n, tail);
    assert s[..|d|] == d;
    RadixTenIsDecimal(d);
  }

  /** The digits of a numeral followed by a non-digit are the numeral's. */
  lemma DecimalDigitRun(n: nat, tail: string)
    requires tail == [] || !IsDigit(tail[0])
    ensures RadixDigitRun(Decimal(n) + tail, 10) == |Decimal(n)|
  {
    var d := Decimal(n);
    var s := d + tail;
    forall i | 0 <= i < |d|
      ensures DigitValue(s[i], 10).Some?
    {
      assert s[i] == d[i];
    }
    if |d| < |s| {
      assert s[|d|] == tail[0];
    }
  }

  /** A numeral followed by a tail is read as hexadecimal only when it is `0` and the tail starts with `x` or `X`. */
  lemma DecimalNotHex(n: nat, tail: string)
    requires n > 0 || tail == [] || (tail[0] != 'x' && tail[0] != 'X')
    ensures !HasHexPrefix(Decimal(n) + tail)
  {
    var d := Decimal(n);
    var s := d + tail;
    if |d| >= 2 {
      assert s[1] == d[1] && IsDigit(s[1]);
    } else if |s| >= 2 {
      assert s[1] == tail[0];
      assert d[..0] == [];
      assert n == DigitsValue(d) == d[0] as int - '0' as int;
    }
  }
}
