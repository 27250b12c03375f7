/**
 * The parts of Python's `str` behaviour the system relies on: `strip()`,
 * `split()`, `partition()`, slicing with `[:n]`, `str(int)` and `int(str)`.
 * Strings are sequences of Unicode scalar values, as Python's are of code
 * points, so `len` and slicing agree with Python's.
 */
module Text {
  import opened Wrappers

  // ---------------------------------------------------------------------
  // Whitespace and strip()
  // ---------------------------------------------------------------------

  /** The characters for which Python's `str.isspace()` holds; `strip()` with
      no argument removes exactly these from both ends, and `\s` in a `str`
      regular expression matches exactly these. */
  predicate IsSpace(c: char) {
    if c <= ' ' then ('\t' <= c <= '\r') || '\U{1C}' <= c
    else if c < '\U{85}' then false
    else if c < '\U{2000}' then c == '\U{85}' || c == '\U{A0}' || c == '\U{1680}'
    else c <= '\U{200A}' || c == '\U{2028}' || c == '\U{2029}' || c == '\U{202F}' || c == '\U{205F}' || c == '\U{3000}'
  }

  /** Neither end of `s` is whitespace: what `strip()` returns. */
  predicate IsStripped(s: string) {
    s == [] || (!IsSpace(s[0]) && !IsSpace(s[|s| - 1]))
  }

  predicate AllSpace(s: string) {
    forall i | 0 <= i < |s| :: IsSpace(s[i])
  }

  /** `s.lstrip()`: the suffix of `s` left after its leading whitespace. */
  function StripStart(s: string): (r: string)
    ensures |r| <= |s| && r == s[|s| - |r|..]
    ensures r == [] || !IsSpace(r[0])
  {
    if s != [] && IsSpace(s[0]) then StripStart(s[1..]) else s
  }

  /** `s.rstrip()`: the prefix of `s` left before its trailing whitespace. */
  function StripEnd(s: string): (r: string)
    ensures |r| <= |s| && r == s[..|r|]
    ensures r == [] || !IsSpace(r[|r| - 1])
  {
    if s != [] && IsSpace(s[|s| - 1]) then StripEnd(s[..|s| - 1]) else s
  }

  /** `s.strip()`: `s` without its leading and trailing whitespace, removed
      one character at a time. */
  function Strip(s: string): (r: string)
    ensures IsStripped(r) && |r| <= |s|
    decreases |s|
  {
    if s != [] && IsSpace(s[0]) then Strip(s[1..])
    else if s != [] && IsSpace(s[|s| - 1]) then Strip(s[..|s| - 1])
    else s
  }

  /** `strip()` is `lstrip()` followed by `rstrip()`. */
  lemma {:induction false} StripEndStart(s: string)
    ensures Strip(s) == StripEnd(StripStart(s))
    decreases |s|
  {
    if s != [] && IsSpace(s[0]) {
      StripEndStart(s[1..]);
    } else if s != [] && IsSpace(s[|s| - 1]) {
      var init := s[..|s| - 1];
      StripEndStart(init);
      if init != [] { assert init[0] == s[0]; }
      assert StripStart(init) == init;
    }
  }

  /** `strip()` removes exactly the leading and the trailing whitespace: the
      result is a slice `s[i..j]` with only whitespace before `i` and from
      `j` on. */
  lemma {:induction false} StripSlice(s: string) returns (i: nat, j: nat)
    ensures i <= j <= |s| && Strip(s) == s[i..j]
    ensures forall k | 0 <= k < i :: IsSpace(s[k])
    ensures forall k | j <= k < |s| :: IsSpace(s[k])
    decreases |s|
  {
    if s != [] && IsSpace(s[0]) {
      var t := s[1..];
      var i', j' := StripSlice(t);
      i, j := i' + 1, j' + 1;
      assert t[i'..j'] == s[i..j];
      forall k | 1 <= k < i ensures IsSpace(s[k]) { assert s[k] == t[k - 1]; }
      forall k | j <= k < |s| ensures IsSpace(s[k]) { assert s[k] == t[k - 1]; }
    } else if s != [] && IsSpace(s[|s| - 1]) {
      var t := s[..|s| - 1];
      i, j := StripSlice(t);
      assert t[i..j] == s[i..j];
      forall k | j <= k < |s| - 1 ensures IsSpace(s[k]) { assert s[k] == t[k]; }
    } else {
      i, j := 0, |s|;
    }
  }

  /** Stripping a stripped string changes nothing, so `strip()` is idempotent. */
  lemma StripStripped(s: string)
    requires IsStripped(s)
    ensures Strip(s) == s
  {
  }

  lemma StripIdempotent(s: string)
    ensures Strip(Strip(s)) == Strip(s)
  {
    StripStripped(Strip(s));
  }

  lemma {:induction false} StripStartEmpty(s: string)
    ensures StripStart(s) == [] <==> AllSpace(s)
  {
    if s != [] && IsSpace(s[0]) {
      StripStartEmpty(s[1..]);
      assert forall i | 1 <= i < |s| :: s[1..][i - 1] == s[i];
    }
  }

  lemma {:induction false} StripEndEmpty(s: string)
    ensures StripEnd(s) == [] <==> AllSpace(s)
  {
    if s != [] && IsSpace(s[|s| - 1]) {
      StripEndEmpty(s[..|s| - 1]);
      assert forall i | 0 <= i < |s| - 1 :: s[..|s| - 1][i] == s[i];
    }
  }

  /** `strip()` gives "" exactly when the string is all whitespace. */
  lemma StripEmptyIff(s: string)
    ensures Strip(s) == "" <==> AllSpace(s)
  {
    StripEndStart(s);
    var t := StripStart(s);
    StripStartEmpty(s);
    StripEndEmpty(t);
    if t != [] {
      assert !IsSpace(t[0]);
    }
  }

  lemma InTail(s: string, c: char)
    requires s != [] && s[0] != c
    ensures c in s <==> c in s[1..]
  {
    assert s == [s[0]] + s[1..];
  }

  lemma {:induction false} StripStartKeeps(s: string, c: char)
    requires !IsSpace(c)
    ensures c in StripStart(s) <==> c in s
  {
    if s != [] && IsSpace(s[0]) {
      StripStartKeeps(s[1..], c);
      InTail(s, c);
    }
  }

  lemma {:induction false} StripEndKeeps(s: string, c: char)
    requires !IsSpace(c)
    ensures c in StripEnd(s) <==> c in s
  {
    if s != [] && IsSpace(s[|s| - 1]) {
      assert s[|s| - 1] != c;
      StripEndKeeps(s[..|s| - 1], c);
      assert c in s <==> c in s[..|s| - 1] by { assert s == s[..|s| - 1] + [s[|s| - 1]]; }
    }
  }

  /** `strip()` removes only whitespace, so a non-space character is in the
      result exactly when it is in the input. */
  lemma StripKeeps(s: string, c: char)
    requires !IsSpace(c)
    ensures c in Strip(s) <==> c in s
  {
    StripEndStart(s);
    StripStartKeeps(s, c);
    StripEndKeeps(StripStart(s), c);
  }

  // ---------------------------------------------------------------------
  // split(), partition(), slicing
  // ---------------------------------------------------------------------

  /** `s.split(sep)` for a one-character separator: the pieces between the
      separators, never fewer than one (`"".split(";") == [""]`). */
  function Split(s: string, sep: char): (r: seq<string>)
    ensures |r| >= 1
    ensures forall k | 0 <= k < |r| :: sep !in r[k]
  {
    if s == [] then [[]]
    else
      var rest := Split(s[1..], sep);
      if s[0] == sep then [[]] + rest
      else [[s[0]] + rest[0]] + rest[1..]
  }

  /** `sep.join(pieces)`. */
  function Join(pieces: seq<string>, sep: char): string
    requires |pieces| >= 1
  {
    if |pieces| == 1 then pieces[0] else pieces[0] + [sep] + Join(pieces[1..], sep)
  }

  /** A character other than the separator occurs in a join exactly when it
      occurs in one of the pieces. */
  lemma {:induction false} JoinHas(pieces: seq<string>, sep: char, c: char)
    requires |pieces| >= 1 && c != sep
    ensures c in Join(pieces, sep) <==> exists k | 0 <= k < |pieces| :: c in pieces[k]
  {
    if |pieces| > 1 {
      JoinHas(pieces[1..], sep, c);
      var rest := Join(pieces[1..], sep);
      assert c in pieces[0] + [sep] + rest <==> c in pieces[0] || c in rest;
      if c in rest {
        var k :| 0 <= k < |pieces[1..]| && c in pieces[1..][k];
        assert c in pieces[k + 1];
      }
      if exists k | 0 <= k < |pieces| :: c in pieces[k] {
        var k :| 0 <= k < |pieces| && c in pieces[k];
        if k > 0 { assert pieces[1..][k - 1] == pieces[k]; }
      }
    }
  }

  lemma {:induction false} JoinSplit(s: string, sep: char)
    ensures Join(Split(s, sep), sep) == s
  {
    if s != [] {
      JoinSplit(s[1..], sep);
      var rest := Split(s[1..], sep);
      if s[0] != sep {
        if |rest| == 1 {
          assert Join(Split(s, sep), sep) == [s[0]] + rest[0];
        } else {
          assert rest == [rest[0]] + rest[1..];
          assert Join(rest, sep) == rest[0] + [sep] + Join(rest[1..], sep);
          assert Join(Split(s, sep), sep) == ([s[0]] + rest[0]) + [sep] + Join(rest[1..], sep);
        }
      }
    }
  }

  /** Splitting a join gives the pieces back when no piece holds the separator. */
  lemma {:induction false} SplitJoin(pieces: seq<string>, sep: char)
    requires |pieces| >= 1
    requires forall k | 0 <= k < |pieces| :: sep !in pieces[k]
    ensures Split(Join(pieces, sep), sep) == pieces
  {
    if |pieces| == 1 {
      SplitNoSep(pieces[0], sep);
    } else {
      SplitJoin(pieces[1..], sep);
      SplitAppendSep(pieces[0], sep, Join(pieces[1..], sep));
      assert [pieces[0]] + pieces[1..] == pieces;
    }
  }

  lemma {:induction false} SplitNoSep(s: string, sep: char)
    requires sep !in s
    ensures Split(s, sep) == [s]
  {
    if s != [] {
      SplitNoSep(s[1..], sep);
      assert [s[0]] + s[1..] == s;
    }
  }

  lemma {:induction false} SplitAppendSep(a: string, sep: char, b: string)
    requires sep !in a
    ensures Split(a + [sep] + b, sep) == [a] + Split(b, sep)
  {
    if a == [] {
      assert a + [sep] + b == [sep] + b;
      assert ([sep] + b)[1..] == b;
    } else {
      assert (a + [sep] + b)[1..] == a[1..] + [sep] + b;
      SplitAppendSep(a[1..], sep, b);
      assert [a[0]] + a[1..] == a;
    }
  }

  /** Index of the first occurrence of `c` in `s`. */
  function IndexOf(s: string, c: char): (i: nat)
    requires c in s
    ensures i < |s| && s[i] == c && c !in s[..i]
  {
    if s[0] == c then 0 else 1 + IndexOf(s[1..], c)
  }

  /** `s.partition(c)` when `c` occurs in `s`: the text before and after the
      first `c`. */
  function Partition(s: string, c: char): (r: (string, string))
    requires c in s
    ensures c !in r.0 && s == r.0 + [c] + r.1
  {
    var i := IndexOf(s, c);
    assert s == s[..i] + [c] + s[i + 1..];
    (s[..i], s[i + 1..])
  }

  lemma {:induction false} IndexOfFirst(a: string, c: char, b: string)
    requires c !in a
    ensures IndexOf(a + [c] + b, c) == |a|
  {
    if a != [] {
      assert (a + [c] + b)[0] == a[0] != c by { assert a[0] in a; }
      assert (a + [c] + b)[1..] == a[1..] + [c] + b;
      IndexOfFirst(a[1..], c, b);
    }
  }

  /** `partition` splits at the first occurrence and nowhere else. */
  lemma PartitionFirst(a: string, c: char, b: string)
    requires c !in a
    ensures Partition(a + [c] + b, c) == (a, b)
  {
    IndexOfFirst(a, c, b);
    var s := a + [c] + b;
    assert s[..|a|] == a && s[|a| + 1..] == b;
  }

  /** Python's `s or d` on strings: `s` unless it is empty. */
  function Or(s: string, d: string): (r: string)
    ensures r == s || r == d
    ensures r == "" <==> s == "" && d == ""
    ensures s != "" ==> r == s
  {
    if s != "" then s else d
  }

  /** Python's `s[:n]` for a non-negative `n`. */
  function Take(s: string, n: nat): (r: string)
    ensures |r| <= n
    ensures |s| <= n ==> r == s
    ensures |s| > n ==> |r| == n
    ensures r == s[..|r|]
  {
    if |s| <= n then s else s[..n]
  }
  /** Where each of six concatenated pieces lies in the result. */
  lemma Spliced(a: string, x: string, b: string, y: string, c: string, z: string)
    ensures var r := a + x + b + y + c + z;
      && |r| == |a| + |x| + |b| + |y| + |c| + |z|
      && r[..|a|] == a && r[|a|..|a| + |x|] == x
      && r[|a| + |x|..|a| + |x| + |b|] == b
      && r[|a| + |x| + |b|..|a| + |x| + |b| + |y|] == y
      && r[|a| + |x| + |b| + |y|..|a| + |x| + |b| + |y| + |c|] == c
      && r[|a| + |x| + |b| + |y| + |c|..] == z
  {
    var r := a + x + b + y + c + z;
    assert r == a + (x + (b + (y + (c + z))));
  }


  // ---------------------------------------------------------------------
  // Decimal numerals: str(int) and int(str)
  // ---------------------------------------------------------------------

  predicate IsDigit(c: char) { '0' <= c <= '9' }

  predicate AllDigits(s: string) { forall i | 0 <= i < |s| :: IsDigit(s[i]) }

  function DigitValue(c: char): (d: nat)
    requires IsDigit(c)
    ensures d < 10
  {
    (c as int) - ('0' as int)
  }

  function DigitChar(d: nat): (c: char)
    requires d < 10
    ensures IsDigit(c) && DigitValue(c) == d
  {
    (('0' as int) + d) as char
  }

  /** The value of a string of decimal digits, read most significant first. */
  function DigitsValue(s: string): nat
    requires AllDigits(s)
  {
    if s == [] then 0 else 10 * DigitsValue(s[..|s| - 1]) + DigitValue(s[|s| - 1])
  }

  /** `str(n)` for `n >= 0`: the shortest decimal numeral of `n`. */
  function NatToDecimal(n: nat): (r: string)
    ensures |r| >= 1 && AllDigits(r)
    ensures DigitsValue(r) == n
    ensures r[0] == '0' ==> n == 0
  {
    if n < 10 then [DigitChar(n)]
    else
      var r := NatToDecimal(n / 10) + [DigitChar(n % 10)];
      assert r[..|r| - 1] == NatToDecimal(n / 10);
      r
  }

  /** `str(i)`: a minus sign before the digits of a negative number. */
  function IntToDecimal(i: int): (r: string)
    ensures |r| >= 1 && (r[0] == '-' <==> i < 0)
    ensures i < 0 ==> |r| >= 2 && r[1..] == NatToDecimal(-i)
    ensures i >= 0 ==> r == NatToDecimal(i)
  {
    if i < 0 then "-" + NatToDecimal(-i) else NatToDecimal(i)
  }

  predicate DoubleUnderscoreAt(s: string, i: nat)
    requires i + 1 < |s|
  {
    s[i] == '_' && s[i + 1] == '_'
  }

  /** The digit groups `int()` accepts: digits with single underscores
      between them (`1_000`), not at either end. */
  predicate IsNumeral(s: string) {
    && |s| >= 1
    && IsDigit(s[0]) && IsDigit(s[|s| - 1])
    && (forall i | 0 <= i < |s| :: IsDigit(s[i]) || s[i] == '_')
    && (forall i | 0 <= i < |s| - 1 :: !DoubleUnderscoreAt(s, i))
  }

  /** The digits of `s` with its underscores dropped. */
  function DropUnderscores(s: string): (r: string)
    requires forall i | 0 <= i < |s| :: IsDigit(s[i]) || s[i] == '_'
    ensures AllDigits(r)
  {
    if s == [] then []
    else if s[|s| - 1] == '_' then DropUnderscores(s[..|s| - 1])
    else DropUnderscores(s[..|s| - 1]) + [s[|s| - 1]]
  }

  /** `int(s)` for base 10 on a string with no surrounding whitespace: an
      optional sign, then a numeral; `None` where Python raises `ValueError`. */
  function ParseInt(s: string): (r: Option<int>)
    ensures r.Some? ==> |s| >= 1
  {
    if |s| >= 1 && (s[0] == '-' || s[0] == '+') then
      var body := s[1..];
      if IsNumeral(body) then
        var v: int := DigitsValue(DropUnderscores(body));
        Some(if s[0] == '-' then -v else v)
      else None
    else if IsNumeral(s) then Some(DigitsValue(DropUnderscores(s)))
    else None
  }

  lemma {:induction false} DropUnderscoresDigits(s: string)
    requires AllDigits(s)
    ensures DropUnderscores(s) == s
  {
    if s != [] {
      DropUnderscoresDigits(s[..|s| - 1]);
      assert s[..|s| - 1] + [s[|s| - 1]] == s;
    }
  }

  /** A plain run of digits is a numeral. */
  lemma DigitsAreNumeral(d: string)
    requires |d| >= 1 && AllDigits(d)
    ensures IsNumeral(d)
  {
    assert IsDigit(d[0]) && IsDigit(d[|d| - 1]);
    forall i | 0 <= i < |d| - 1 ensures !DoubleUnderscoreAt(d, i) {
      assert IsDigit(d[i]);
    }
  }

  /** `int` rejects every string holding anything other than digits,
      underscores and one leading sign. */
  lemma ParseIntRejects(s: string)
    ensures ParseInt(s).Some? ==>
      forall i | 0 <= i < |s| :: IsDigit(s[i]) || s[i] == '_' || (i == 0 && (s[i] == '-' || s[i] == '+'))
  {
    if ParseInt(s).Some? && |s| >= 1 && (s[0] == '-' || s[0] == '+') {
      forall i | 1 <= i < |s| ensures IsDigit(s[i]) || s[i] == '_' {
        assert s[i] == s[1..][i - 1];
      }
    }
  }

  /** Dropping underscores keeps the digits, in order: a grouped numeral
      reads as its digits written together. */
  lemma {:induction false} DropUnderscoresAppend(a: string, b: string)
    requires forall i | 0 <= i < |a| :: IsDigit(a[i]) || a[i] == '_'
    requires forall i | 0 <= i < |b| :: IsDigit(b[i]) || b[i] == '_'
    ensures DropUnderscores(a + b) == DropUnderscores(a) + DropUnderscores(b)
    decreases |b|
  {
    if b == [] {
      assert a + b == a;
    } else {
      var b' := b[..|b| - 1];
      assert (a + b)[..|a + b| - 1] == a + b';
      assert (a + b)[|a + b| - 1] == b[|b| - 1];
      DropUnderscoresAppend(a, b');
    }
  }

  lemma DropUnderscoresOne(c: char)
    requires IsDigit(c) || c == '_'
    ensures DropUnderscores([c]) == if c == '_' then [] else [c]
  {
    assert [c][..0] == [];
  }

  /** `int` reads a minus sign followed by digits as the negated digits. */
  lemma ParseNegative(s: string, d: string)
    requires |d| >= 1 && AllDigits(d)
    requires |s| >= 2 && s[0] == '-' && s[1..] == d
    ensures ParseInt(s) == Some(-(DigitsValue(d) as int))
  {
    DropUnderscoresDigits(d);
    DigitsAreNumeral(d);
    ParseMinus(s, DigitsValue(d));
  }

  lemma ParseMinus(s: string, v: int)
    requires |s| >= 2 && s[0] == '-' && IsNumeral(s[1..]) && DigitsValue(DropUnderscores(s[1..])) == v
    ensures ParseInt(s) == Some(-v)
  {
    ParseSigned(s);
  }

  /** With a sign, `int` reads the numeral after it, negated for `-`. */
  lemma ParseSigned(s: string)
    requires |s| >= 2 && (s[0] == '-' || s[0] == '+') && IsNumeral(s[1..])
    ensures var v: int := DigitsValue(DropUnderscores(s[1..]));
      ParseInt(s) == Some(if s[0] == '-' then -v else v)
  {
  }

  /** `int` reads a plain run of digits as their value. */
  lemma ParseDigits(d: string)
    requires |d| >= 1 && AllDigits(d)
    ensures ParseInt(d) == Some(DigitsValue(d))
  {
    DropUnderscoresDigits(d);
    DigitsAreNumeral(d);
    assert IsDigit(d[0]);
    ParseUnsigned(d);
  }

  /** Without a sign, `int` reads the numeral's digits. */
  lemma ParseUnsigned(s: string)
    requires IsNumeral(s) && s[0] != '-' && s[0] != '+'
    ensures ParseInt(s) == Some(DigitsValue(DropUnderscores(s)))
  {
  }

  /** `int(str(i)) == i`: the numeral `str` writes is read back by `int`. */
  lemma ParseIntToDecimal(i: int)
    ensures ParseInt(IntToDecimal(i)) == Some(i)
  {
    if i < 0 {
      var d := NatToDecimal(-i);
      var s := IntToDecimal(i);
      assert s[0] == '-' && s[1..] == d;
      ParseNegative(s, d);
    } else {
      ParseDigits(NatToDecimal(i));
    }
  }
}
