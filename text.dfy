/**
 * The parts of Rust's `str` API that the resolution engine relies on, as
 * functions over `seq<char>`: `split`, `join`, `split_once`, `trim`,
 * `trim_end_matches`, byte length (`len()` counts UTF-8 bytes), and decimal
 * formatting and parsing of integers.
 */
module Text {
  import opened Common

  /** Number of bytes the UTF-8 encoding of `c` takes. */
  function CharUtf8Len(c: char): nat {
    if c as int < 0x80 then 1
    else if c as int < 0x800 then 2
    else if c as int < 0x1_0000 then 3
    else 4
  }

  /** `str::len()`: the length of the UTF-8 encoding. */
  function Utf8Len(s: string): nat {
    if |s| == 0 then 0 else Utf8Len(s[..|s| - 1]) + CharUtf8Len(s[|s| - 1])
  }

  lemma {:induction false} Utf8LenConcat(a: string, b: string)
    ensures Utf8Len(a + b) == Utf8Len(a) + Utf8Len(b)
  {
    if |b| > 0 {
      assert (a + b)[..|a + b| - 1] == a + b[..|b| - 1];
      Utf8LenConcat(a, b[..|b| - 1]);
    } else {
      assert a + b == a;
    }
  }

  /** Every character takes at least one byte. */
  lemma {:induction false} Utf8LenAtLeastLength(s: string)
    ensures Utf8Len(s) >= |s|
  {
    if |s| > 0 { Utf8LenAtLeastLength(s[..|s| - 1]); }
  }

  /** No character takes more than four bytes. */
  lemma {:induction false} Utf8LenAtMostFour(s: string)
    ensures Utf8Len(s) <= 4 * |s|
  {
    if |s| > 0 { Utf8LenAtMostFour(s[..|s| - 1]); }
  }

  /** Text made of ASCII characters takes one byte per character. */
  lemma {:induction false} AsciiUtf8Len(s: string)
    requires forall i :: 0 <= i < |s| ==> s[i] as int < 0x80
    ensures Utf8Len(s) == |s|
  {
    if |s| > 0 { AsciiUtf8Len(s[..|s| - 1]); }
  }

  predicate IsAsciiDigit(c: char) { '0' <= c <= '9' }
  predicate IsAsciiAlpha(c: char) { 'a' <= c <= 'z' || 'A' <= c <= 'Z' }
  predicate IsAsciiAlnum(c: char) { IsAsciiAlpha(c) || IsAsciiDigit(c) }

  /** `char::is_whitespace`: the Unicode White_Space property. */
  predicate IsWhitespace(c: char) {
    var n := c as int;
    (0x09 <= n <= 0x0D) || n == 0x20 || n == 0x85 || n == 0xA0 || n == 0x1680
    || (0x2000 <= n <= 0x200A) || n == 0x2028 || n == 0x2029 || n == 0x202F
    || n == 0x205F || n == 0x3000
  }

  predicate StartsWith(s: string, c: char) { |s| > 0 && s[0] == c }
  predicate EndsWith(s: string, c: char) { |s| > 0 && s[|s| - 1] == c }

  /** `trim_start()`. */
  function TrimStart(s: string): (r: string)
    ensures |r| <= |s| && r == s[|s| - |r|..]
    ensures |r| > 0 ==> !IsWhitespace(r[0])
    ensures forall i :: 0 <= i < |s| - |r| ==> IsWhitespace(s[i])
  {
    if |s| > 0 && IsWhitespace(s[0]) then TrimStart(s[1..]) else s
  }

  /** `trim_end()`. */
  function TrimEnd(s: string): (r: string)
    ensures |r| <= |s| && r == s[..|r|]
    ensures |r| > 0 ==> !IsWhitespace(r[|r| - 1])
    ensures forall i :: |r| <= i < |s| ==> IsWhitespace(s[i])
  {
    if |s| > 0 && IsWhitespace(s[|s| - 1]) then TrimEnd(s[..|s| - 1]) else s
  }

  /** `trim()`: leading and trailing whitespace removed. */
  function Trim(s: string): (r: string)
    ensures |r| > 0 ==> !IsWhitespace(r[0]) && !IsWhitespace(r[|r| - 1])
    ensures |r| <= |s|
  {
    TrimEnd(TrimStart(s))
  }

  /** A string without surrounding whitespace is its own trim. */
  lemma {:induction false} TrimOfTrimmed(s: string)
    requires |s| > 0 ==> !IsWhitespace(s[0]) && !IsWhitespace(s[|s| - 1])
    ensures Trim(s) == s
  {
  }

  lemma {:induction false} TrimIdempotent(s: string)
    ensures Trim(Trim(s)) == Trim(s)
  {
    TrimOfTrimmed(Trim(s));
  }

  /** Whitespace around a string without surrounding whitespace is exactly what trimming removes. */
  lemma {:induction false} TrimPadded(pre: string, s: string, post: string)
    requires forall i :: 0 <= i < |pre| ==> IsWhitespace(pre[i])
    requires forall i :: 0 <= i < |post| ==> IsWhitespace(post[i])
    requires |s| > 0 && !IsWhitespace(s[0]) && !IsWhitespace(s[|s| - 1])
    ensures Trim(pre + s + post) == s
  {
    TrimStartPadded(pre, s + post);
    assert pre + s + post == pre + (s + post);
    TrimEndPadded(s, post);
  }

  lemma {:induction false} TrimStartPadded(pre: string, s: string)
    requires forall i :: 0 <= i < |pre| ==> IsWhitespace(pre[i])
    requires |s| > 0 && !IsWhitespace(s[0])
    ensures TrimStart(pre + s) == s
  {
    if |pre| > 0 {
      assert (pre + s)[1..] == pre[1..] + s;
      TrimStartPadded(pre[1..], s);
    } else {
      assert pre + s == s;
    }
  }

  lemma {:induction false} TrimEndPadded(s: string, post: string)
    requires forall i :: 0 <= i < |post| ==> IsWhitespace(post[i])
    requires |s| > 0 && !IsWhitespace(s[|s| - 1])
    ensures TrimEnd(s + post) == s
  {
    if |post| > 0 {
      assert (s + post)[..|s + post| - 1] == s + post[..|post| - 1];
      TrimEndPadded(s, post[..|post| - 1]);
    } else {
      assert s + post == s;
    }
  }

  /** `trim_end_matches(c)`: every trailing `c` removed. */
  function TrimEndChar(s: string, c: char): (r: string)
    ensures |r| <= |s| && r == s[..|r|] && !EndsWith(r, c)
    ensures forall i :: |r| <= i < |s| ==> s[i] == c
  {
    if EndsWith(s, c) then TrimEndChar(s[..|s| - 1], c) else s
  }

  /** `s.split(sep)`: always at least one part; adjacent separators give empty parts. */
  function Split(s: string, sep: char): (parts: seq<string>)
    ensures |parts| >= 1
    ensures forall p :: p in parts ==> sep !in p
  {
    if |s| == 0 then [[]]
    else
      var rest := Split(s[1..], sep);
      if s[0] == sep then [[]] + rest
      else [[s[0]] + rest[0]] + rest[1..]
  }

  /** `parts.join(sep)`. */
  function Join(parts: seq<string>, sep: char): string {
    if |parts| == 0 then []
    else if |parts| == 1 then parts[0]
    else parts[0] + [sep] + Join(parts[1..], sep)
  }

  /** Joining two parts puts the separator between them. */
  lemma {:induction false} JoinTwo(a: string, b: string, sep: char)
    ensures Join([a, b], sep) == a + [sep] + b
  {
    assert [a, b][1..] == [b];
  }

  /** Joining three parts puts the separator between each. */
  lemma {:induction false} JoinThree(a: string, b: string, c: string, sep: char)
    ensures Join([a, b, c], sep) == a + [sep] + b + [sep] + c
  {
    assert [a, b, c][1..] == [b, c];
    JoinTwo(b, c, sep);
  }

  /** Joining four parts puts the separator between each. */
  lemma {:induction false} JoinFour(a: string, b: string, c: string, d: string, sep: char)
    ensures Join([a, b, c, d], sep) == a + [sep] + b + [sep] + c + [sep] + d
  {
    assert [a, b, c, d][1..] == [b, c, d];
    JoinThree(b, c, d, sep);
  }

  /** Joining two non-empty lists of parts puts one separator between their joins. */
  lemma {:induction false} JoinConcat(a: seq<string>, b: seq<string>, sep: char)
    requires |a| >= 1 && |b| >= 1
    ensures Join(a + b, sep) == Join(a, sep) + [sep] + Join(b, sep)
  {
    if |a| > 1 {
      JoinConcat(a[1..], b, sep);
      assert (a + b)[1..] == a[1..] + b;
    } else {
      assert (a + b)[1..] == b;
    }
  }

  /** Joining four non-empty groups of parts puts one separator between the joins of the groups. */
  lemma {:induction false} JoinFourGroups(a: seq<string>, b: seq<string>, c: seq<string>, d: seq<string>, sep: char)
    requires |a| >= 1 && |b| >= 1 && |c| >= 1 && |d| >= 1
    ensures Join(a + b + c + d, sep) == Join(a, sep) + [sep] + Join(b, sep) + [sep] + Join(c, sep) + [sep] + Join(d, sep)
  {
    JoinConcat(a + b + c, d, sep);
    JoinConcat(a + b, c, sep);
    JoinConcat(a, b, sep);
  }

  /** Joining the parts of a split gives back the string. */
  lemma {:induction false} JoinSplit(s: string, sep: char)
    ensures Join(Split(s, sep), sep) == s
  {
    if |s| > 0 {
      var rest := Split(s[1..], sep);
      JoinSplit(s[1..], sep);
      if s[0] != sep {
        if |rest| == 1 {
          assert s == [s[0]] + rest[0];
        } else {
          assert Join(rest, sep) == rest[0] + [sep] + Join(rest[1..], sep);
          assert s == [s[0]] + Join(rest, sep);
        }
      } else {
        assert s == [sep] + s[1..];
      }
    }
  }

  /** Splitting a join of separator-free parts gives back the parts. */
  lemma {:induction false} SplitJoin(parts: seq<string>, sep: char)
    requires |parts| >= 1
    requires forall i :: 0 <= i < |parts| ==> sep !in parts[i]
    ensures Split(Join(parts, sep), sep) == parts
  {
    if |parts| == 1 {
      SplitWithoutSep(parts[0], sep);
    } else {
      SplitJoin(parts[1..], sep);
      SplitPrefix(parts[0], Join(parts[1..], sep), sep);
      assert Join(parts, sep) == parts[0] + [sep] + Join(parts[1..], sep);
      assert parts == [parts[0]] + parts[1..];
    }
  }

  lemma {:induction false} SplitWithoutSep(s: string, sep: char)
    requires sep !in s
    ensures Split(s, sep) == [s]
  {
    if |s| > 0 {
      SplitWithoutSep(s[1..], sep);
      assert s == [s[0]] + s[1..];
    }
  }

  /** A separator-free head becomes the first part. */
  lemma {:induction false} SplitPrefix(a: string, b: string, sep: char)
    requires sep !in a
    ensures Split(a + [sep] + b, sep) == [a] + Split(b, sep)
  {
    if |a| == 0 {
      assert a + [sep] + b == [sep] + b;
      assert ([sep] + b)[1..] == b;
    } else {
      SplitPrefix(a[1..], b, sep);
      assert (a + [sep] + b)[1..] == a[1..] + [sep] + b;
      assert a == [a[0]] + a[1..];
    }
  }

  /** A string ending in the separator has an empty last part. */
  lemma {:induction false} SplitTrailingSep(s: string, sep: char)
    requires EndsWith(s, sep)
    ensures Split(s, sep)[|Split(s, sep)| - 1] == []
  {
    if |s| > 1 {
      SplitTrailingSep(s[1..], sep);
    }
  }

  /** Every character other than the separator lands in some part. */
  lemma {:induction false} SplitKeepsChar(s: string, sep: char, x: char)
    requires x in s && x != sep
    ensures exists p :: p in Split(s, sep) && x in p
  {
    var rest := Split(s[1..], sep);
    if s[0] == x {
      assert x in Split(s, sep)[0];
    } else {
      SplitKeepsChar(s[1..], sep, x);
      var p :| p in rest && x in p;
      if s[0] != sep && p == rest[0] {
        assert x in Split(s, sep)[0];
      } else {
        assert p in Split(s, sep);
      }
    }
  }

  /** `s.split_once(c)`: the text before and after the first `c`. */
  function SplitOnce(s: string, c: char): (r: Option<(string, string)>)
    ensures r.None? <==> c !in s
    ensures r.Some? ==> s == r.value.0 + [c] + r.value.1 && c !in r.value.0
  {
    if |s| == 0 then None
    else if s[0] == c then Some(([], s[1..]))
    else
      match SplitOnce(s[1..], c)
      case None => None
      case Some(p) => Some(([s[0]] + p.0, p.1))
  }

  /** The split point is determined by the first occurrence. */
  lemma {:induction false} SplitOnceAt(a: string, b: string, c: char)
    requires c !in a
    ensures SplitOnce(a + [c] + b, c) == Some((a, b))
  {
    if |a| == 0 {
      assert a + [c] + b == [c] + b;
    } else {
      var s := a + [c] + b;
      assert s[0] == a[0] != c;
      assert s[1..] == a[1..] + [c] + b;
      SplitOnceAt(a[1..], b, c);
      assert a == [a[0]] + a[1..];
    }
  }

  function Reverse<T>(s: seq<T>): (r: seq<T>)
    ensures |r| == |s| && forall i :: 0 <= i < |s| ==> r[i] == s[|s| - 1 - i]
  {
    if |s| == 0 then [] else Reverse(s[1..]) + [s[0]]
  }

  function DigitChar(d: nat): char
    requires d < 10
  {
    ['0', '1', '2', '3', '4', '5', '6', '7', '8', '9'][d]
  }

  function DigitValue(c: char): nat
    requires IsAsciiDigit(c)
  {
    c as int - '0' as int
  }

  predicate IsDigits(s: string) { forall i :: 0 <= i < |s| ==> IsAsciiDigit(s[i]) }

  /** Value of a string of ASCII digits, most significant first. */
  function DigitsValue(s: string): nat
    requires forall i :: 0 <= i < |s| ==> IsAsciiDigit(s[i])
  {
    if |s| == 0 then 0 else DigitsValue(s[..|s| - 1]) * 10 + DigitValue(s[|s| - 1])
  }

  /** `n.to_string()`: decimal digits without leading zeros. */
  function DecimalString(n: nat): (r: string)
    ensures |r| >= 1 && forall i :: 0 <= i < |r| ==> IsAsciiDigit(r[i])
    ensures |r| > 1 ==> r[0] != '0'
  {
    if n < 10 then [DigitChar(n)] else DecimalString(n / 10) + [DigitChar(n % 10)]
  }

  lemma {:induction false} DecimalStringValue(n: nat)
    ensures DigitsValue(DecimalString(n)) == n
  {
    if n >= 10 {
      DecimalStringValue(n / 10);
      var s := DecimalString(n);
      assert s[..|s| - 1] == DecimalString(n / 10);
    }
  }

  /** A 32-bit value takes at most ten decimal digits. */
  lemma {:induction false} DecimalStringU32Len(n: U32)
    ensures |DecimalString(n)| <= 10
  {
    DecimalStringBound(n, 10, 10000000000);
  }

  lemma {:induction false} DecimalStringBound(n: nat, k: nat, bound: nat)
    requires 1 <= k && n < bound && bound <= Power10(k)
    ensures |DecimalString(n)| <= k
  {
    if n >= 10 {
      assert n / 10 < Power10(k - 1);
      DecimalStringBound(n / 10, k - 1, Power10(k - 1));
    }
  }

  function Power10(k: nat): nat {
    if k == 0 then 1 else 10 * Power10(k - 1)
  }

  /** `s.parse::<u32>()`: an optional `+`, then ASCII digits whose value fits in 32 bits. */
  function ParseU32(s: string): (r: Option<U32>)
    ensures r.Some? ==> |s| > 0
  {
    var digits := if StartsWith(s, '+') then s[1..] else s;
    if |digits| == 0 then None
    else if !IsDigits(digits) then None
    else if DigitsValue(digits) > MaxU32 then None
    else Some(DigitsValue(digits))
  }

  /** Parsing the decimal text of a 32-bit value gives the value back. */
  lemma {:induction false} ParseDecimalString(n: U32)
    ensures ParseU32(DecimalString(n)) == Some(n)
  {
    DecimalStringValue(n);
  }
}
