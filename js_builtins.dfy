/** The few JavaScript built-ins that `parseVersion` in src/utils.ts relies on:
    `String.prototype.startsWith`, `String.prototype.split` with a one-character
    separator (and its inverse `Array.prototype.join`), and the `Number`
    conversion, restricted to plain decimal digit strings. */
module JsBuiltins {

  /** `s.startsWith(prefix)`: `s` is at least as long as `prefix` and agrees
      with it at every position of `prefix`. */
  function StartsWith(s: string, prefix: string): (b: bool)
    ensures b <==> |prefix| <= |s| && forall i :: 0 <= i < |prefix| ==> s[i] == prefix[i]
  {
    prefix <= s
  }

  /** `parts.join(sep)`: the parts with one `sep` between each neighbouring pair. */
  function Join(parts: seq<string>, sep: char): string {
    if |parts| == 0 then ""
    else if |parts| == 1 then parts[0]
    else parts[0] + [sep] + Join(parts[1..], sep)
  }

  /** How `Split` extends the parts of `s[1..]` by the character `s[0]`: a
      separator starts a new empty part, any other character is prepended to the
      first part. */
  function Extend(c: char, sep: char, parts: seq<string>): seq<string>
    requires |parts| >= 1
  {
    if c == sep then [""] + parts else [[c] + parts[0]] + parts[1..]
  }

  /** `s.split(sep)` for a one-character separator. As in JavaScript, the result
      is never empty (`"".split(".")` is `[""]`), a separator at either end or two
      adjacent separators give empty parts, and joining the parts back with the
      separator gives `s` again. */
  function Split(s: string, sep: char): (parts: seq<string>)
    ensures |parts| >= 1
    ensures forall i :: 0 <= i < |parts| ==> sep !in parts[i]
    ensures Join(parts, sep) == s
  {
    if |s| == 0 then [""]
    else
      var rest := Split(s[1..], sep);
      assert s == [s[0]] + s[1..];
      if s[0] == sep then
        assert ([""] + rest)[1..] == rest;
        Extend(s[0], sep, rest)
      else
        assert ([[s[0]] + rest[0]] + rest[1..])[1..] == rest[1..];
        Extend(s[0], sep, rest)
  }

  /** A string without the separator is not split at all. */
  lemma {:induction false} SplitWithoutSeparator(s: string, sep: char)
    requires sep !in s
    ensures Split(s, sep) == [s]
  {
    if |s| > 0 {
      assert sep !in s[1..] by {
        forall i | 0 <= i < |s[1..]| ensures s[1..][i] != sep {
          assert s[1..][i] == s[i + 1];
        }
      }
      SplitWithoutSeparator(s[1..], sep);
      assert s == [s[0]] + s[1..];
    }
  }

  /** One step of `Split`. */
  lemma SplitFirst(c: char, rest: string, sep: char)
    ensures Split([c] + rest, sep) == Extend(c, sep, Split(rest, sep))
  {
    assert ([c] + rest)[1..] == rest;
  }

  lemma ExtendAppend(c: char, sep: char, left: seq<string>, right: seq<string>)
    requires |left| >= 1
    ensures Extend(c, sep, left + right) == Extend(c, sep, left) + right
  {
    if c != sep {
      assert (left + right)[0] == left[0];
      assert (left + right)[1..] == left[1..] + right;
    }
  }

  /** Splitting at one occurrence of the separator splits each side on its own. */
  lemma {:induction false} SplitAtSeparator(a: string, b: string, sep: char)
    ensures Split(a + [sep] + b, sep) == Split(a, sep) + Split(b, sep)
  {
    if |a| == 0 {
      assert a + [sep] + b == [sep] + b;
      SplitFirst(sep, b, sep);
    } else {
      var tail := a[1..] + [sep] + b;
      assert a + [sep] + b == [a[0]] + tail;
      assert a == [a[0]] + a[1..];
      SplitAtSeparator(a[1..], b, sep);
      SplitFirst(a[0], tail, sep);
      SplitFirst(a[0], a[1..], sep);
      ExtendAppend(a[0], sep, Split(a[1..], sep), Split(b, sep));
    }
  }

  /** `split` undoes `join` when no part contains the separator. */
  lemma {:induction false} SplitJoin(parts: seq<string>, sep: char)
    requires |parts| >= 1
    requires forall i :: 0 <= i < |parts| ==> sep !in parts[i]
    ensures Split(Join(parts, sep), sep) == parts
  {
    SplitWithoutSeparator(parts[0], sep);
    if |parts| > 1 {
      SplitJoin(parts[1..], sep);
      SplitAtSeparator(parts[0], Join(parts[1..], sep), sep);
      assert parts == [parts[0]] + parts[1..];
    }
  }

  /** The result of `Number(s)`: a natural number or `NaN`. */
  datatype Number = NaN | Num(value: nat)

  predicate IsDigit(c: char) {
    '0' <= c <= '9'
  }

  predicate AllDigits(s: string) {
    forall i :: 0 <= i < |s| ==> IsDigit(s[i])
  }

  function DigitValue(c: char): nat
    requires IsDigit(c)
  {
    (c as int) - ('0' as int)
  }

  function DigitChar(d: nat): (c: char)
    requires d < 10
    ensures IsDigit(c) && DigitValue(c) == d
  {
    ('0' as int + d) as char
  }

  /** The value of a decimal digit string, read from the left; `""` is 0. */
  function DigitsValue(s: string): nat
    requires AllDigits(s)
  {
    if |s| == 0 then 0
    else DigitsValue(s[..|s| - 1]) * 10 + DigitValue(s[|s| - 1])
  }

  /** `Number(s)` on the strings this model admits: a (possibly empty) string of
      decimal digits denotes its value, leading zeros included, and `""` is 0, as
      in JavaScript; every other string is `NaN`. */
  function ToNumber(s: string): (r: Number)
    ensures r.NaN? <==> exists i :: 0 <= i < |s| && !IsDigit(s[i])
    ensures |s| == 0 ==> r == Num(0)
  {
    if AllDigits(s) then Num(DigitsValue(s)) else NaN
  }

  /** `parts.map(Number)` */
  function MapToNumber(parts: seq<string>): (r: seq<Number>)
    ensures |r| == |parts|
    ensures forall i :: 0 <= i < |parts| ==> r[i] == ToNumber(parts[i])
  {
    if |parts| == 0 then [] else [ToNumber(parts[0])] + MapToNumber(parts[1..])
  }

  /** The decimal spelling of `n` without leading zeros (what `String(n)` gives
      below 10^21, where JavaScript switches to exponent notation). */
  function DecimalString(n: nat): (s: string)
    ensures |s| >= 1 && AllDigits(s)
    ensures s[0] == '0' ==> n == 0
    decreases n
  {
    if n < 10 then [DigitChar(n)] else DecimalString(n / 10) + [DigitChar(n % 10)]
  }

  /** `Number(String(n)) == n`: the decimal spelling reads back as the number. */
  lemma {:induction false} ToNumberDecimalString(n: nat)
    ensures ToNumber(DecimalString(n)) == Num(n)
    decreases n
  {
    var s := DecimalString(n);
    if n >= 10 {
      ToNumberDecimalString(n / 10);
      assert s[..|s| - 1] == DecimalString(n / 10);
      assert DigitsValue(s) == DigitsValue(DecimalString(n / 10)) * 10 + n % 10;
    } else {
      assert s[..0] == [];
    }
  }

  /** Leading zeros do not change the value of a digit string (`Number("007")` is 7). */
  lemma {:induction false} LeadingZeroIgnored(s: string)
    requires AllDigits(s)
    ensures ToNumber("0" + s) == ToNumber(s)
  {
    var t := "0" + s;
    assert AllDigits(t);
    if |s| > 0 {
      assert t[..|t| - 1] == "0" + s[..|s| - 1];
      assert t[|t| - 1] == s[|s| - 1];
      LeadingZeroIgnored(s[..|s| - 1]);
    } else {
      assert t[..|t| - 1] == "";
    }
  }
}
