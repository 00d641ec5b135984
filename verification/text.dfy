/** The string operations of Python that the roster pipeline relies on:
    `str.strip()`, `str.split(sep)`, `sep.join(parts)`, `t in s`,
    `str.replace`, `s * k`, `str(int)`, `int(str)` and the ordering `<` on strings. */
module Text {
  import opened Wrappers

  // ---------------------------------------------------------------------------
  // Whitespace and strip()
  // ---------------------------------------------------------------------------

  /** Python's `str.isspace()` on one character: the ASCII controls TAB..CR and
      FS..US, the space, NEL, NBSP and the Unicode space separators. */
  predicate IsSpace(c: char) {
    || ('\t' <= c <= '\r')
    || ('\U{1c}' <= c <= '\U{1f}')
    || c == ' '
    || c == '\U{85}'
    || c == '\U{a0}'
    || c == '\U{1680}'
    || ('\U{2000}' <= c <= '\U{200a}')
    || c == '\U{2028}'
    || c == '\U{2029}'
    || c == '\U{202f}'
    || c == '\U{205f}'
    || c == '\U{3000}'
  }

  predicate AllSpace(s: string) {
    forall i :: 0 <= i < |s| ==> IsSpace(s[i])
  }

  /** The number of whitespace characters `s` starts with. */
  function LeadingSpaces(s: string): (k: nat)
    ensures k <= |s|
    ensures AllSpace(s[..k])
    ensures k < |s| ==> !IsSpace(s[k])
  {
    if |s| == 0 || !IsSpace(s[0]) then 0 else 1 + LeadingSpaces(s[1..])
  }

  /** The number of whitespace characters `s` ends with. */
  function TrailingSpaces(s: string): (k: nat)
    ensures k <= |s|
    ensures AllSpace(s[|s| - k..])
    ensures k < |s| ==> !IsSpace(s[|s| - k - 1])
  {
    if |s| == 0 || !IsSpace(s[|s| - 1]) then 0
    else
      var k := TrailingSpaces(s[..|s| - 1]);
      SuffixGrows(s, k);
      k + 1
  }

  /** A suffix of `s` minus its last character, extended by that character. */
  lemma SuffixGrows<T>(s: seq<T>, k: nat)
    requires k < |s|
    ensures s[..|s| - 1][|s| - 1 - k..] + [s[|s| - 1]] == s[|s| - (k + 1)..]
  {
  }

  /** Python's `s.strip()`: `s` without its leading and trailing whitespace.
      The result is the slice of `s` that starts after the leading whitespace,
      is followed only by whitespace, and neither starts nor ends with whitespace. */
  function Strip(s: string): (r: string)
    ensures |r| == 0 || (!IsSpace(r[0]) && !IsSpace(r[|r| - 1]))
    ensures LeadingSpaces(s) + |r| <= |s|
    ensures r == s[LeadingSpaces(s)..LeadingSpaces(s) + |r|]
    ensures AllSpace(s[LeadingSpaces(s) + |r|..])
  {
    var i := LeadingSpaces(s);
    if i == |s| then ""
    else
      var k := TrailingSpaces(s);
      s[i..|s| - k]
  }

  lemma StripKeepsTrimmed(s: string)
    requires |s| == 0 || (!IsSpace(s[0]) && !IsSpace(s[|s| - 1]))
    ensures Strip(s) == s
  {
  }

  /** strip() is idempotent. */
  lemma StripIdempotent(s: string)
    ensures Strip(Strip(s)) == Strip(s)
  {
    StripKeepsTrimmed(Strip(s));
  }

  /** Every character of `Strip(s)` occurs in `s`. */
  lemma StripSubset(s: string, c: char)
    ensures c in Strip(s) ==> c in s
  {
    var i := LeadingSpaces(s);
    var r := Strip(s);
    if c in r {
      var j :| 0 <= j < |r| && r[j] == c;
      assert s[i + j] == c;
    }
  }

  // ---------------------------------------------------------------------------
  // split(sep) and join
  // ---------------------------------------------------------------------------

  /** The number of occurrences of `c` in `s`. */
  function Count(s: string, c: char): (k: nat)
    ensures k <= |s|
    ensures k == 0 <==> c !in s
  {
    if |s| == 0 then 0 else (if s[0] == c then 1 else 0) + Count(s[1..], c)
  }

  /** Occurrences add up over a concatenation. */
  lemma {:induction false} CountAppend(a: string, b: string, c: char)
    ensures Count(a + b, c) == Count(a, c) + Count(b, c)
  {
    if |a| > 0 {
      assert (a + b)[1..] == a[1..] + b;
      CountAppend(a[1..], b, c);
    } else {
      assert a + b == b;
    }
  }

  /** Python's `s.split(sep)` for a one-character separator: the maximal
      separator-free pieces between the occurrences of `sep`, empty pieces
      included. */
  function Split(s: string, sep: char): (r: seq<string>)
    ensures |r| == Count(s, sep) + 1
    ensures forall i :: 0 <= i < |r| ==> sep !in r[i]
  {
    if |s| == 0 then [""]
    else
      var rest := Split(s[1..], sep);
      if s[0] == sep then [""] + rest
      else [[s[0]] + rest[0]] + rest[1..]
  }

  /** Python's `sep.join(parts)`. */
  function Join(parts: seq<string>, sep: string): (r: string)
  {
    if |parts| == 0 then ""
    else if |parts| == 1 then parts[0]
    else parts[0] + sep + Join(parts[1..], sep)
  }

  lemma JoinLength(parts: seq<string>, sep: string)
    requires |parts| > 0
    ensures |Join(parts, sep)| >= (|parts| - 1) * |sep|
  {
  }

  /** Joining the pieces of a split with the separator gives back the string. */
  lemma {:induction false} SplitJoin(s: string, sep: char)
    ensures Join(Split(s, sep), [sep]) == s
  {
    if |s| > 0 {
      var rest := Split(s[1..], sep);
      assert s == [s[0]] + s[1..];
      SplitJoin(s[1..], sep);
      if s[0] == sep {
        assert Split(s, sep) == [""] + rest;
        JoinCons("", rest, [sep]);
      } else {
        var r := Split(s, sep);
        assert r == [[s[0]] + rest[0]] + rest[1..];
        if |rest| == 1 {
          assert Join(r, [sep]) == [s[0]] + rest[0];
        } else {
          JoinCons([s[0]] + rest[0], rest[1..], [sep]);
          assert rest == [rest[0]] + rest[1..];
          JoinCons(rest[0], rest[1..], [sep]);
          Assoc4([s[0]], rest[0], [sep], Join(rest[1..], [sep]));
        }
      }
    }
  }

  /** Joining a list that has a first part and at least one more. */
  lemma JoinCons(x: string, rest: seq<string>, sep: string)
    requires |rest| >= 1
    ensures Join([x] + rest, sep) == x + sep + Join(rest, sep)
  {
    assert ([x] + rest)[1..] == rest;
  }

  lemma Assoc4<T>(a: seq<T>, b: seq<T>, c: seq<T>, d: seq<T>)
    ensures a + b + c + d == a + (b + c + d)
  {
  }

  /** A string without the separator splits into itself alone. */
  lemma SplitNoSep(s: string, sep: char)
    requires sep !in s
    ensures Split(s, sep) == [s]
  {
    SplitJoin(s, sep);
  }

  /** Splitting distributes over a separator between two strings. */
  lemma {:induction false} SplitConcat(a: string, b: string, sep: char)
    ensures Split(a + [sep] + b, sep) == Split(a, sep) + Split(b, sep)
  {
    var s := a + [sep] + b;
    if |a| == 0 {
      assert s == [sep] + b;
      assert s[1..] == b;
      assert Split(s, sep) == [""] + Split(b, sep);
    } else {
      var sb := Split(b, sep);
      assert s[0] == a[0];
      assert s[1..] == a[1..] + [sep] + b;
      SplitConcat(a[1..], b, sep);
      var ra := Split(a[1..], sep);
      var rest := Split(s[1..], sep);
      assert rest == ra + sb;
      if a[0] == sep {
        assert Split(s, sep) == [""] + rest;
        assert Split(a, sep) == [""] + ra;
        ConsAppend("", ra, sb);
      } else {
        assert Split(s, sep) == [[a[0]] + rest[0]] + rest[1..];
        assert Split(a, sep) == [[a[0]] + ra[0]] + ra[1..];
        HeadTailAppend(ra, sb);
        ConsAppend([a[0]] + ra[0], ra[1..], sb);
      }
    }
  }

  lemma ConsAppend<T>(x: T, p: seq<T>, q: seq<T>)
    ensures [x] + (p + q) == ([x] + p) + q
  {
  }

  lemma HeadTailAppend<T>(p: seq<T>, q: seq<T>)
    requires |p| >= 1
    ensures (p + q)[0] == p[0] && (p + q)[1..] == p[1..] + q
  {
  }

  /** Splitting a join of separator-free, non-empty-list parts gives the parts back. */
  lemma {:induction false} JoinSplit(parts: seq<string>, sep: char)
    requires |parts| >= 1
    requires forall i :: 0 <= i < |parts| ==> sep !in parts[i]
    ensures Split(Join(parts, [sep]), sep) == parts
  {
    if |parts| == 1 {
      SplitNoSep(parts[0], sep);
    } else {
      JoinSplit(parts[1..], sep);
      SplitNoSep(parts[0], sep);
      SplitConcat(parts[0], Join(parts[1..], [sep]), sep);
      assert Join(parts, [sep]) == parts[0] + [sep] + Join(parts[1..], [sep]);
      assert [parts[0]] + parts[1..] == parts;
    }
  }

  // ---------------------------------------------------------------------------
  // Substrings, replace, repetition
  // ---------------------------------------------------------------------------

  /** Python's `t in s` on strings. */
  predicate Contains(s: string, t: string)
    decreases |s|
  {
    (|t| <= |s| && s[..|t|] == t) || (|s| > 0 && Contains(s[1..], t))
  }

  /** `t` occurs in `s` starting at index `i`. */
  predicate OccursAt(s: string, t: string, i: int) {
    0 <= i <= |s| - |t| && s[i..i + |t|] == t
  }

  /** `t in s` holds exactly when `t` occurs at some position of `s`. */
  lemma {:induction false} ContainsAt(s: string, t: string)
    ensures Contains(s, t) <==> exists i :: OccursAt(s, t, i)
  {
    if |t| <= |s| && s[..|t|] == t {
      assert OccursAt(s, t, 0);
    } else if |s| > 0 {
      ContainsAt(s[1..], t);
      if Contains(s[1..], t) {
        var i :| OccursAt(s[1..], t, i);
        assert s[1..][i..i + |t|] == s[i + 1..i + 1 + |t|];
        assert OccursAt(s, t, i + 1);
      }
      if i :| OccursAt(s, t, i) && i > 0 {
        assert s[1..][i - 1..i - 1 + |t|] == s[i..i + |t|];
        assert OccursAt(s[1..], t, i - 1);
      }
    }
  }

  /** Python's `s.replace(c, rep)` for a one-character pattern. */
  function ReplaceChar(s: string, c: char, rep: string): (r: string)
    ensures c !in s ==> r == s
    ensures c !in rep ==> c !in r
  {
    if |s| == 0 then ""
    else (if s[0] == c then rep else [s[0]]) + ReplaceChar(s[1..], c, rep)
  }

  /** Python's `s * k` for an int `k`: empty when `k` is not positive. */
  function Repeat(s: string, k: int): (r: string)
    ensures |r| == (if k <= 0 then 0 else k * |s|)
    decreases k
  {
    if k <= 0 then "" else s + Repeat(s, k - 1)
  }

  // ---------------------------------------------------------------------------
  // str(int) and int(str)
  // ---------------------------------------------------------------------------

  predicate IsDigit(c: char) {
    '0' <= c <= '9'
  }

  predicate AllDigits(s: string) {
    forall i :: 0 <= i < |s| ==> IsDigit(s[i])
  }

  function DigitChar(d: nat): (c: char)
    requires d < 10
    ensures IsDigit(c)
  {
    ('0' as int + d) as char
  }

  /** The decimal numeral `str(n)` of a natural number: digits only, and no
      leading zero unless the number is 0. */
  function NatToString(n: nat): (r: string)
    ensures |r| >= 1 && AllDigits(r)
    ensures r[0] == '0' ==> n == 0
  {
    if n < 10 then [DigitChar(n)] else NatToString(n / 10) + [DigitChar(n % 10)]
  }

  /** The value of a string of decimal digits. */
  function DigitsValue(s: string): nat
    requires AllDigits(s)
  {
    if |s| == 0 then 0 else 10 * DigitsValue(s[..|s| - 1]) + (s[|s| - 1] as int - '0' as int)
  }

  /** Reading back a numeral gives the number. */
  lemma {:induction false} NatToStringValue(n: nat)
    ensures DigitsValue(NatToString(n)) == n
  {
    if n >= 10 {
      NatToStringValue(n / 10);
      var r := NatToString(n);
      assert r[..|r| - 1] == NatToString(n / 10);
    }
  }

  lemma NatToStringInjective(m: nat, n: nat)
    requires NatToString(m) == NatToString(n)
    ensures m == n
  {
    NatToStringValue(m);
    NatToStringValue(n);
  }

  /** Python's `str(i)` on an int. */
  function IntToString(i: int): (r: string)
    ensures |r| >= 1
    ensures !IsSpace(r[0]) && !IsSpace(r[|r| - 1])
    ensures ' ' !in r && ',' !in r
  {
    if i < 0 then "-" + NatToString(-i) else NatToString(i)
  }

  /** Python's `int(s)` in base 10: surrounding whitespace is ignored, then an
      optional sign and one or more ASCII digits; anything else is a ValueError. */
  function ParseInt(s: string): (r: Result<int>)
    ensures r.Success? ==> |Strip(s)| >= 1
  {
    var t := Strip(s);
    if |t| >= 1 && (t[0] == '-' || t[0] == '+') then
      var d := t[1..];
      if |d| >= 1 && AllDigits(d) then
        var v: int := DigitsValue(d);
        Success(if t[0] == '-' then -v else v)
      else Failure(ValueError)
    else if |t| >= 1 && AllDigits(t) then Success(DigitsValue(t))
    else Failure(ValueError)
  }

  /** `int(str(i)) == i`. */
  lemma ParseIntRoundTrip(i: int)
    ensures ParseInt(IntToString(i)) == Success(i)
  {
    var s := IntToString(i);
    StripKeepsTrimmed(s);
    if i < 0 {
      ParseNegative(-i);
    } else {
      ParseNatural(i);
    }
  }

  lemma ParseNatural(n: nat)
    ensures ParseInt(NatToString(n)) == Success(n)
  {
    var s := NatToString(n);
    StripKeepsTrimmed(s);
    NatToStringValue(n);
  }

  lemma ParseNegative(n: int)
    requires n > 0
    ensures ParseInt("-" + NatToString(n)) == Success(-n)
  {
    var s := "-" + NatToString(n);
    StripKeepsTrimmed(s);
    assert s[1..] == NatToString(n);
    NatToStringValue(n);
  }

  lemma IntToStringInjective(i: int, j: int)
    requires IntToString(i) == IntToString(j)
    ensures i == j
  {
    ParseIntRoundTrip(i);
    ParseIntRoundTrip(j);
  }

  // ---------------------------------------------------------------------------
  // The ordering `<` on strings
  // ---------------------------------------------------------------------------

  /** Python's `a < b` on strings: lexicographic by code point, a proper prefix
      being smaller. */
  predicate LexLess(a: string, b: string)
    decreases |a|
  {
    if |a| == 0 then |b| > 0
    else if |b| == 0 then false
    else if a[0] != b[0] then a[0] < b[0]
    else LexLess(a[1..], b[1..])
  }

  lemma {:induction false} LexLessIrreflexive(a: string)
    ensures !LexLess(a, a)
  {
    if |a| > 0 {
      LexLessIrreflexive(a[1..]);
    }
  }

  lemma {:induction false} LexLessTransitive(a: string, b: string, c: string)
    requires LexLess(a, b) && LexLess(b, c)
    ensures LexLess(a, c)
  {
    if |a| > 0 && |b| > 0 && |c| > 0 && a[0] == b[0] && b[0] == c[0] {
      LexLessTransitive(a[1..], b[1..], c[1..]);
    }
  }

  /** Exactly one of `a < b`, `a == b`, `b < a` holds. */
  lemma {:induction false} LexLessTrichotomy(a: string, b: string)
    ensures LexLess(a, b) || a == b || LexLess(b, a)
    ensures !(LexLess(a, b) && LexLess(b, a))
    ensures a == b ==> !LexLess(a, b)
  {
    LexLessIrreflexive(a);
    if |a| > 0 && |b| > 0 && a[0] == b[0] {
      LexLessTrichotomy(a[1..], b[1..]);
      if a[1..] == b[1..] {
        assert a == [a[0]] + a[1..] && b == [b[0]] + b[1..];
      }
    }
  }
}
