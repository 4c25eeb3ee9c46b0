/**
 The string operations the inventory script relies on, with Python's semantics:
 `str.strip()`, `str.split(",")`, `",".join(...)`, `str(int)` and `int(str)`.
 */
module Text {
  import opened Wrappers

  /** Python's `str.isspace` for a single code point. */
  predicate IsSpace(c: char) {
    var n := c as int;
    || (9 <= n <= 13) || (28 <= n <= 32)
    || n == 0x85 || n == 0xA0 || n == 0x1680
    || (0x2000 <= n <= 0x200A)
    || n == 0x2028 || n == 0x2029 || n == 0x202F || n == 0x205F || n == 0x3000
  }

  predicate IsDigit(c: char) {
    '0' <= c <= '9'
  }

  /** A non-empty run of ASCII decimal digits. */
  predicate IsDigits(s: string) {
    |s| > 0 && forall k :: 0 <= k < |s| ==> IsDigit(s[k])
  }

  /** Drops leading whitespace: the result is the suffix that starts at the first non-space. */
  function TrimStart(s: string): (r: string)
    ensures |r| <= |s| && r == s[|s| - |r|..]
    ensures forall k :: 0 <= k < |s| - |r| ==> IsSpace(s[k])
    ensures |r| > 0 ==> !IsSpace(r[0])
  {
    if |s| > 0 && IsSpace(s[0]) then TrimStart(s[1..]) else s
  }

  /** Drops trailing whitespace: the result is the prefix that ends at the last non-space. */
  function TrimEnd(s: string): (r: string)
    ensures |r| <= |s| && r == s[..|r|]
    ensures forall k :: |r| <= k < |s| ==> IsSpace(s[k])
    ensures |r| > 0 ==> !IsSpace(r[|r| - 1])
  {
    if |s| > 0 && IsSpace(s[|s| - 1]) then TrimEnd(s[..|s| - 1]) else s
  }

  /** `s.strip()`: whitespace removed from both ends, nothing else. */
  function Strip(s: string): (r: string)
    ensures |r| > 0 ==> !IsSpace(r[0]) && !IsSpace(r[|r| - 1])
    ensures |r| <= |s|
  {
    TrimEnd(TrimStart(s))
  }

  /** Stripping only removes characters: what is left is a slice of the original. */
  lemma StripIsSlice(s: string)
    ensures exists i, j :: 0 <= i <= j <= |s| && Strip(s) == s[i..j]
  {
    var t := TrimStart(s);
    var i := |s| - |t|;
    assert TrimEnd(t) == s[i..i + |TrimEnd(t)|];
  }

  /** Stripping adds no character. */
  lemma StripChars(s: string)
    ensures forall c :: c in Strip(s) ==> c in s
  {
    var t := TrimStart(s);
    var r := TrimEnd(t);
    forall c | c in r ensures c in s {
      var k :| 0 <= k < |r| && r[k] == c;
      assert t[k] == c;
      assert s[|s| - |t| + k] == c;
    }
  }

  /** Stripping leaves a string alone when neither end is whitespace. */
  lemma StripUnpadded(s: string)
    requires |s| > 0 && !IsSpace(s[0]) && !IsSpace(s[|s| - 1])
    ensures Strip(s) == s
  {
  }

  /** Stripping a row removes its line terminator and nothing more. */
  lemma StripTerminated(s: string)
    requires |s| > 0 && !IsSpace(s[0]) && !IsSpace(s[|s| - 1])
    ensures Strip(s + "\n") == s
  {
    var t := s + "\n";
    assert TrimStart(t) == t;
    assert t[..|t| - 1] == s;
    assert TrimEnd(t) == TrimEnd(s);
  }

  /** `sep.join(fields)`. */
  function Join(fields: seq<string>, sep: char): string {
    if |fields| == 0 then ""
    else if |fields| == 1 then fields[0]
    else fields[0] + [sep] + Join(fields[1..], sep)
  }

  /**
   `s.split(sep)`: the pieces between separators, in order; there is always at least one piece,
   no piece holds the separator, and joining the pieces back gives `s`.
   */
  function Split(s: string, sep: char): (r: seq<string>)
    ensures |r| > 0
    ensures Join(r, sep) == s
  {
    if |s| == 0 then [""]
    else
      var rest := Split(s[1..], sep);
      if s[0] == sep then [""] + rest
      else
        assert s == [s[0]] + s[1..];
        [[s[0]] + rest[0]] + rest[1..]
  }

  /** No piece of a split holds the separator, and every character of a piece comes from `s`. */
  lemma {:induction false} SplitPieces(s: string, sep: char)
    ensures forall k :: 0 <= k < |Split(s, sep)| ==> sep !in Split(s, sep)[k]
    ensures forall k, c :: 0 <= k < |Split(s, sep)| && c in Split(s, sep)[k] ==> c in s
    decreases |s|
  {
    if |s| > 0 {
      SplitPieces(s[1..], sep);
      var rest := Split(s[1..], sep);
      var r := Split(s, sep);
      assert forall c :: c in s[1..] ==> c in s;
      if s[0] == sep {
        assert forall k :: 1 <= k < |r| ==> r[k] == rest[k - 1];
      } else {
        assert r[0] == [s[0]] + rest[0];
        assert sep !in r[0];
        assert forall c :: c in r[0] ==> c == s[0] || c in rest[0];
        assert forall k :: 1 <= k < |r| ==> r[k] == rest[k];
      }
    }
  }

  /** How many times `c` occurs in `s`. */
  function Occurrences(s: string, c: char): nat {
    if |s| == 0 then 0 else (if s[0] == c then 1 else 0) + Occurrences(s[1..], c)
  }

  /** A split has one piece more than the text has separators. */
  lemma {:induction false} SplitCount(s: string, sep: char)
    ensures |Split(s, sep)| == Occurrences(s, sep) + 1
    decreases |s|
  {
    if |s| > 0 {
      SplitCount(s[1..], sep);
    }
  }

  /** The first field opens the joined text. */
  lemma JoinStartsWithFirst(fields: seq<string>, sep: char)
    requires |fields| > 0
    ensures fields[0] <= Join(fields, sep)
  {
  }

  /** Joining five fields, spelled out. */
  lemma JoinFive(a: string, b: string, c: string, d: string, e: string, sep: char)
    ensures Join([a, b, c, d, e], sep) == a + [sep] + b + [sep] + c + [sep] + d + [sep] + e
  {
    var fs := [a, b, c, d, e];
    assert fs[1..] == [b, c, d, e];
    assert [b, c, d, e][1..] == [c, d, e];
    assert [c, d, e][1..] == [d, e];
    assert [d, e][1..] == [e];
    assert Join([d, e], sep) == d + [sep] + e;
    assert Join([c, d, e], sep) == c + [sep] + (d + [sep] + e);
    assert Join([b, c, d, e], sep) == b + [sep] + (c + [sep] + (d + [sep] + e));
  }

  /** A sequence of five, written out. */
  lemma FiveElements<T>(xs: seq<T>)
    requires |xs| == 5
    ensures xs == [xs[0], xs[1], xs[2], xs[3], xs[4]]
  {
  }

  /** Five fields without the separator, joined, split back into themselves. */
  lemma SplitFive(a: string, b: string, c: string, d: string, e: string, sep: char)
    requires sep !in a && sep !in b && sep !in c && sep !in d && sep !in e
    ensures Split(Join([a, b, c, d, e], sep), sep) == [a, b, c, d, e]
  {
    var fs := [a, b, c, d, e];
    assert forall k :: 0 <= k < |fs| ==> sep !in fs[k];
    SplitJoin(fs, sep);
  }

  /** A string without the separator splits into itself. */
  lemma {:induction false} SplitNoSeparator(s: string, sep: char)
    requires sep !in s
    ensures Split(s, sep) == [s]
  {
    if |s| > 0 {
      SplitNoSeparator(s[1..], sep);
    }
  }

  /** Splitting stops at the first separator. */
  lemma {:induction false} SplitAtSeparator(a: string, sep: char, b: string)
    requires sep !in a
    ensures Split(a + [sep] + b, sep) == [a] + Split(b, sep)
  {
    if |a| == 0 {
      assert a + [sep] + b == [sep] + b;
    } else {
      var s := a + [sep] + b;
      assert s[1..] == a[1..] + [sep] + b;
      SplitAtSeparator(a[1..], sep, b);
      assert [s[0]] + a[1..] == a;
    }
  }

  /** Split undoes Join when no field holds the separator. */
  lemma {:induction false} SplitJoin(fields: seq<string>, sep: char)
    requires |fields| > 0
    requires forall k :: 0 <= k < |fields| ==> sep !in fields[k]
    ensures Split(Join(fields, sep), sep) == fields
  {
    if |fields| == 1 {
      SplitNoSeparator(fields[0], sep);
    } else {
      SplitJoin(fields[1..], sep);
      SplitAtSeparator(fields[0], sep, Join(fields[1..], sep));
      assert fields == [fields[0]] + fields[1..];
    }
  }

  function DigitChar(d: nat): (c: char)
    requires d < 10
    ensures IsDigit(c) && c as int - '0' as int == d
  {
    ('0' as int + d) as char
  }

  /** The value of a run of decimal digits, most significant first. */
  function DigitsValue(s: string): nat
    requires forall k :: 0 <= k < |s| ==> IsDigit(s[k])
  {
    if |s| == 0 then 0
    else
      assert IsDigit(s[|s| - 1]);
      DigitsValue(s[..|s| - 1]) * 10 + (s[|s| - 1] as int - '0' as int)
  }

  /** `str(n)` for a non-negative integer: decimal digits without leading zeros. */
  function NatToString(n: nat): (r: string)
    ensures IsDigits(r)
    ensures DigitsValue(r) == n
    ensures |r| > 1 ==> r[0] != '0'
  {
    if n < 10 then [DigitChar(n)]
    else
      var p := NatToString(n / 10);
      var r := p + [DigitChar(n % 10)];
      assert r[..|r| - 1] == p;
      assert r[0] == p[0];
      assert |p| == 1 ==> DigitsValue(p) == p[0] as int - '0' as int by {
        if |p| == 1 {
          assert p[..0] == [];
        }
      }
      r
  }

  /** The value of a run of digits is at least its leading digit. */
  lemma {:induction false} DigitsValueAtLeastFirst(s: string)
    requires IsDigits(s)
    ensures DigitsValue(s) >= s[0] as int - '0' as int
  {
    var p := s[..|s| - 1];
    if |s| == 1 {
      assert p == [];
    } else {
      assert IsDigits(p) && p[0] == s[0];
      DigitsValueAtLeastFirst(p);
    }
  }

  /**
   `str` writes each non-negative integer one way only: a run of digits without a leading zero is
   exactly `str` of its value.
   */
  lemma {:induction false} NatToStringCanonical(r: string)
    requires IsDigits(r) && (|r| > 1 ==> r[0] != '0')
    ensures NatToString(DigitsValue(r)) == r
  {
    var p := r[..|r| - 1];
    var d := r[|r| - 1] as int - '0' as int;
    if |r| == 1 {
      assert p == [];
      assert [DigitChar(d)] == r;
    } else {
      assert IsDigits(p) && p[0] == r[0];
      DigitsValueAtLeastFirst(p);
      NatToStringCanonical(p);
      var n := DigitsValue(r);
      assert n == DigitsValue(p) * 10 + d;
      assert n / 10 == DigitsValue(p) && n % 10 == d;
      assert r == p + [DigitChar(d)];
    }
  }

  /** `str(i)`: a minus sign for negative values, then the digits of the magnitude. */
  function IntToString(i: int): (r: string)
    ensures |r| > 0 && !IsSpace(r[0]) && !IsSpace(r[|r| - 1])
    ensures ',' !in r && '\n' !in r
  {
    if i < 0 then "-" + NatToString(-i) else NatToString(i)
  }

  /**
   The ASCII information separators U+001C to U+001F. `str.isspace` counts them as whitespace,
   but `int()` does not skip them: it only skips ASCII whitespace and non-ASCII `isspace` code
   points, so text holding one of these is never integer text.
   */
  predicate IsInfoSeparator(c: char) {
    0x1C <= c as int <= 0x1F
  }

  /** No information separator anywhere in `s`. */
  predicate NoInfoSeparator(s: string) {
    |s| == 0 || (!IsInfoSeparator(s[0]) && NoInfoSeparator(s[1..]))
  }

  /** Digits, with or without a leading sign, hold no information separator. */
  lemma {:induction false} SignedDigitsHaveNoInfoSeparator(s: string)
    requires forall k :: 0 <= k < |s| ==> IsDigit(s[k]) || s[k] == '-' || s[k] == '+'
    ensures NoInfoSeparator(s)
  {
    if |s| > 0 {
      assert forall k :: 0 <= k < |s| - 1 ==> s[1..][k] == s[k + 1];
      SignedDigitsHaveNoInfoSeparator(s[1..]);
    }
  }

  /**
   `int(s)` for base 10, restricted to ASCII digits: surrounding whitespace is ignored, then an
   optional `+` or `-` sign and at least one digit. Anything else is rejected (Python raises
   ValueError), and so is text holding an information separator.
   */
  function ParseInt(s: string): Option<int>
  {
    if !NoInfoSeparator(s) then None
    else
      var t := Strip(s);
      if |t| > 0 && (t[0] == '-' || t[0] == '+') then
        if IsDigits(t[1..]) then
          var magnitude: int := DigitsValue(t[1..]);
          Some(if t[0] == '-' then -magnitude else magnitude)
        else None
      else if IsDigits(t) then Some(DigitsValue(t))
      else None
  }

  /** Text holding an information separator anywhere is rejected, padding included. */
  lemma {:induction false} ParseIntRejectsInfoSeparator(s: string, k: nat)
    requires k < |s| && IsInfoSeparator(s[k])
    ensures ParseInt(s) == None
  {
    SeparatorBreaksNoInfoSeparator(s, k);
  }

  lemma {:induction false} SeparatorBreaksNoInfoSeparator(s: string, k: nat)
    requires k < |s| && IsInfoSeparator(s[k])
    ensures !NoInfoSeparator(s)
  {
    if k > 0 {
      assert s[1..][k - 1] == s[k];
      SeparatorBreaksNoInfoSeparator(s[1..], k - 1);
    }
  }

  /** A plain run of digits parses to its decimal value. */
  lemma ParseIntOfDigits(s: string)
    requires IsDigits(s)
    ensures ParseInt(s) == Some(DigitsValue(s))
  {
    SignedDigitsHaveNoInfoSeparator(s);
    StripUnpadded(s);
  }

  /** Text without any digit is rejected. */
  lemma ParseIntWithoutDigits(s: string)
    requires forall k :: 0 <= k < |s| ==> !IsDigit(s[k])
    ensures ParseInt(s) == None
  {
    var t := Strip(s);
    StripChars(s);
    if |t| > 0 {
      assert t[0] in s;
    }
  }

  /** `int(str(i)) == i`. */
  lemma IntRoundTrip(i: int)
    ensures ParseInt(IntToString(i)) == Some(i)
  {
    var r := IntToString(i);
    StripUnpadded(r);
    if i < 0 {
      assert r[1..] == NatToString(-i);
      assert forall k :: 1 <= k < |r| ==> r[k] == r[1..][k - 1];
    }
    SignedDigitsHaveNoInfoSeparator(r);
  }
}
