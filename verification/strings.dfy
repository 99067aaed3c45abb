/** Character classes and small string utilities shared by the cleaning, label and
    tier-parsing code. Strings are sequences of Unicode scalar values. */
module Strings {

  /** Python's `str.isspace`, which is also what `\s` matches in a `str` regex. */
  predicate IsSpace(c: char) {
    c == ' ' || c == '\t' || c == '\n' || c == '\r' || c == '\U{000B}' || c == '\U{000C}'
    || ('\U{001C}' <= c <= '\U{001F}') || c == '\U{0085}' || c == '\U{00A0}'
    || c == '\U{1680}' || ('\U{2000}' <= c <= '\U{200A}') || c == '\U{2028}'
    || c == '\U{2029}' || c == '\U{202F}' || c == '\U{205F}' || c == '\U{3000}'
  }

  /** ASCII digits only: the class `[0-9]` of a Python regex. */
  predicate IsDigit(c: char) {
    '0' <= c <= '9'
  }

  predicate IsLowerAlnum(c: char) {
    IsDigit(c) || 'a' <= c <= 'z'
  }

  predicate AllDigits(s: seq<char>) {
    forall i :: 0 <= i < |s| ==> IsDigit(s[i])
  }

  /** `sep.join(parts)`. */
  function Join(sep: seq<char>, parts: seq<seq<char>>): seq<char>
  {
    if |parts| == 0 then []
    else if |parts| == 1 then parts[0]
    else parts[0] + sep + Join(sep, parts[1..])
  }

  /** True when `sub` occurs in `s` as a contiguous block (XPath `contains`). */
  predicate Contains(s: seq<char>, sub: seq<char>)
    decreases |s|
  {
    |sub| <= |s| && (s[..|sub|] == sub || Contains(s[1..], sub))
  }

  /** `str.lower`, restricted to the ASCII letters. */
  function LowerAscii(s: seq<char>): (r: seq<char>)
    ensures |r| == |s|
    ensures forall i :: 0 <= i < |s| ==> r[i] == (if 'A' <= s[i] <= 'Z' then s[i] - 'A' + 'a' else s[i])
  {
    if |s| == 0 then [] else
      [if 'A' <= s[0] <= 'Z' then s[0] - 'A' + 'a' else s[0]] + LowerAscii(s[1..])
  }

  /** `re.sub(r"[^0-9]", "", s)`: the ASCII digits of `s`, in order. */
  function KeepDigits(s: seq<char>): (r: seq<char>)
    ensures AllDigits(r)
    ensures |r| <= |s|
    ensures forall i :: 0 <= i < |s| && IsDigit(s[i]) ==> s[i] in r
    ensures forall c :: c in r ==> c in s
  {
    if |s| == 0 then []
    else if IsDigit(s[0]) then [s[0]] + KeepDigits(s[1..])
    else KeepDigits(s[1..])
  }

  predicate HasDigit(s: seq<char>) {
    exists i :: 0 <= i < |s| && IsDigit(s[i])
  }

  /** The digits of a concatenation are the digits of each part, in order. */
  lemma {:induction false} KeepDigitsAppend(a: seq<char>, b: seq<char>)
    ensures KeepDigits(a + b) == KeepDigits(a) + KeepDigits(b)
    decreases |a|
  {
    if |a| > 0 {
      var s := a + b;
      assert s[0] == a[0] && s[1..] == a[1..] + b;
      KeepDigitsAppend(a[1..], b);
      if IsDigit(a[0]) {
        calc {
          KeepDigits(s);
          [a[0]] + KeepDigits(a[1..] + b);
          [a[0]] + (KeepDigits(a[1..]) + KeepDigits(b));
          ([a[0]] + KeepDigits(a[1..])) + KeepDigits(b);
        }
      } else {
        assert KeepDigits(s) == KeepDigits(a[1..] + b);
      }
    } else {
      assert a + b == b;
    }
  }

  /** A string of digits is its own digit filter. */
  lemma {:induction false} KeepDigitsOfDigits(s: seq<char>)
    requires AllDigits(s)
    ensures KeepDigits(s) == s
    decreases |s|
  {
    if |s| > 0 {
      KeepDigitsOfDigits(s[1..]);
    }
  }

  /** A space between two runs of digits is dropped and the runs are joined. */
  lemma {:induction false} KeepDigitsSkipsSpace(a: seq<char>, b: seq<char>)
    requires AllDigits(a) && AllDigits(b)
    ensures AllDigits(a + b)
    ensures KeepDigits(a + " " + b) == a + b
  {
    KeepDigitsAppend(a + " ", b);
    KeepDigitsAppend(a, " ");
    KeepDigitsOfDigits(a);
    KeepDigitsOfDigits(b);
    assert KeepDigits(" ") == [];
    assert a + [] == a;
  }

  /** The filter leaves something exactly when there is a digit to keep. */
  lemma {:induction false} KeepDigitsNonEmpty(s: seq<char>)
    ensures |KeepDigits(s)| > 0 <==> HasDigit(s)
  {
    var r := KeepDigits(s);
    if |r| > 0 {
      assert r[0] in s;
      var i :| 0 <= i < |s| && s[i] == r[0];
    }
  }

  /** `int(digits)` on a string of ASCII digits. */
  function DecimalValue(ds: seq<char>): nat
    requires AllDigits(ds)
  {
    if |ds| == 0 then 0
    else 10 * DecimalValue(ds[..|ds| - 1]) + (ds[|ds| - 1] - '0') as nat
  }

  /** `str(n)` for a non-negative integer. */
  function Decimal(n: nat): (r: seq<char>)
    ensures AllDigits(r)
    ensures |r| > 0
    ensures r[0] == '0' ==> n == 0 && r == "0"
    decreases n
  {
    if n < 10 then ['0' + n as char]
    else Decimal(n / 10) + ['0' + (n % 10) as char]
  }

  /** Reading back the decimal rendering of a count gives the count. */
  lemma {:induction false} DecimalRoundTrip(n: nat)
    ensures DecimalValue(Decimal(n)) == n
    decreases n
  {
    if n >= 10 {
      var d := Decimal(n);
      assert d[..|d| - 1] == Decimal(n / 10);
      DecimalRoundTrip(n / 10);
    }
  }

  /** Python's `<` on `str`: lexicographic by code point. */
  predicate Less(a: seq<char>, b: seq<char>)
  {
    if |a| == 0 then |b| > 0
    else if |b| == 0 then false
    else a[0] < b[0] || (a[0] == b[0] && Less(a[1..], b[1..]))
  }

  lemma {:induction false} LessIrreflexive(a: seq<char>)
    ensures !Less(a, a)
  {
    if |a| > 0 { LessIrreflexive(a[1..]); }
  }

  lemma {:induction false} LessTrichotomy(a: seq<char>, b: seq<char>)
    ensures a == b || Less(a, b) || Less(b, a)
  {
    if |a| > 0 && |b| > 0 && a[0] == b[0] {
      LessTrichotomy(a[1..], b[1..]);
      if a[1..] == b[1..] {
        assert a == [a[0]] + a[1..] && b == [b[0]] + b[1..];
      }
    }
  }

  lemma {:induction false} LessTransitive(a: seq<char>, b: seq<char>, c: seq<char>)
    requires Less(a, b) && Less(b, c)
    ensures Less(a, c)
  {
    if |a| > 0 && a[0] == b[0] && b[0] == c[0] {
      LessTransitive(a[1..], b[1..], c[1..]);
    }
  }

  lemma {:induction false} LessAsymmetric(a: seq<char>, b: seq<char>)
    requires Less(a, b)
    ensures !Less(b, a)
  {
    if |a| > 0 && |b| > 0 && a[0] == b[0] {
      LessAsymmetric(a[1..], b[1..]);
    }
  }
}
