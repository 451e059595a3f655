/** The JavaScript string built-ins the application relies on, on strings
    modelled as sequences of characters: `split` on one separator character,
    `trim`, `parseInt` without a radix, ASCII `toLowerCase`, `startsWith`,
    `replace` of the first occurrence, `join`, and the decimal rendering of
    integers used inside template strings. */
module JsText {
  import opened Wrappers

  // ---------------------------------------------------------------------
  // split / join

  /** Position of the first `c` in `s`. */
  function IndexOf(s: string, c: char): (r: nat)
    requires c in s
    ensures r < |s| && s[r] == c && c !in s[..r]
  {
    if s[0] == c then 0
    else
      assert s == [s[0]] + s[1..];
      var k := IndexOf(s[1..], c);
      assert s[..k + 1] == [s[0]] + s[1..][..k];
      k + 1
  }

  /** `s.split(sep)` for a one-character separator: the pieces between the
      occurrences of `sep`, in order; a string without `sep` gives one piece. */
  function Split(s: string, sep: char): (r: seq<string>)
    ensures |r| >= 1
    ensures forall i :: 0 <= i < |r| ==> sep !in r[i]
    ensures sep !in s ==> r == [s]
    ensures sep in s ==> |r| >= 2
    decreases |s|
  {
    if sep !in s then [s]
    else
      var i := IndexOf(s, sep);
      [s[..i]] + Split(s[i + 1..], sep)
  }

  /** `parts.join(sep)`. */
  function Join(parts: seq<string>, sep: string): string
  {
    if |parts| == 0 then ""
    else if |parts| == 1 then parts[0]
    else parts[0] + sep + Join(parts[1..], sep)
  }

  /** Joining the pieces of a split with the separator gives the string back. */
  lemma {:induction false} SplitJoin(s: string, sep: char)
    ensures Join(Split(s, sep), [sep]) == s
    decreases |s|
  {
    if sep in s {
      var i := IndexOf(s, sep);
      var rest := Split(s[i + 1..], sep);
      SplitJoin(s[i + 1..], sep);
      assert s == s[..i] + [sep] + s[i + 1..];
    }
  }

  /** `last` is the text after the last `sep` of `s`, or all of `s` when it
      holds no `sep`. */
  ghost predicate IsLastPiece(s: string, sep: char, last: string)
  {
    && sep !in last
    && |last| <= |s| && last == s[|s| - |last|..]
    && (sep in s <==> |last| < |s|)
    && (|last| < |s| ==> s[|s| - |last| - 1] == sep)
  }

  /** The last piece of a split is the text after the last separator. */
  lemma {:induction false} SplitLast(s: string, sep: char)
    ensures IsLastPiece(s, sep, Split(s, sep)[|Split(s, sep)| - 1])
    decreases |s|
  {
    if sep in s {
      var i := IndexOf(s, sep);
      SplitLast(s[i + 1..], sep);
      LastPieceAfterFirst(s, sep, i, Split(s[i + 1..], sep), Split(s, sep));
    } else {
      WholeIsLastPiece(s, sep);
    }
  }

  /** Without a separator the only piece is the whole string. */
  lemma WholeIsLastPiece(s: string, sep: char)
    requires sep !in s
    ensures IsLastPiece(s, sep, Split(s, sep)[|Split(s, sep)| - 1])
  {
    assert Split(s, sep) == [s];
    assert s[|s| - |s|..] == s;
  }

  /** A split whose first piece ends at `i` ends with the last piece of the
      rest. */
  lemma LastPieceAfterFirst(s: string, sep: char, i: nat, rt: seq<string>, r: seq<string>)
    requires i < |s| && s[i] == sep && |rt| > 0
    requires IsLastPiece(s[i + 1..], sep, rt[|rt| - 1])
    requires r == [s[..i]] + rt
    ensures |r| > 0 && IsLastPiece(s, sep, r[|r| - 1])
  {
    LastOfCons(s[..i], rt);
    LastPieceBehind(s, sep, i, rt[|rt| - 1]);
  }

  /** The last piece after a separator at `i` is the last piece of `s`. */
  lemma LastPieceBehind(s: string, sep: char, i: nat, last: string)
    requires i < |s| && s[i] == sep
    requires IsLastPiece(s[i + 1..], sep, last)
    ensures IsLastPiece(s, sep, last)
  {
    var t := s[i + 1..];
    assert |last| <= |t| && last == t[|t| - |last|..];
    SuffixOfSuffix(s, i + 1, |t| - |last|);
    assert sep in s;
    if |last| < |t| {
      assert t[|t| - |last| - 1] == s[|s| - |last| - 1];
    } else {
      assert s[|s| - |last| - 1] == s[i];
    }
  }

  lemma LastOfCons<T>(x: T, xs: seq<T>)
    requires |xs| > 0
    ensures ([x] + xs)[|xs|] == xs[|xs| - 1]
  {
  }

  lemma SuffixOfSuffix<T>(s: seq<T>, i: nat, a: nat)
    requires i <= |s| && a <= |s| - i
    ensures s[i..][a..] == s[i + a..]
  {
  }

  lemma SliceOfSlice<T>(s: seq<T>, i: nat, a: nat, b: nat)
    requires i <= |s| && a <= b <= |s| - i
    ensures s[i..][a..b] == s[i + a..i + b]
  {
  }

  /** Splitting text that starts with a separator-free `x` and a separator
      gives `x` followed by the pieces of the rest. */
  lemma SplitFirst(x: string, sep: char, t: string)
    requires sep !in x
    ensures Split(x + [sep] + t, sep) == [x] + Split(t, sep)
  {
    var s := x + [sep] + t;
    assert s[|x|] == sep;
    assert s[..|x|] == x;
    var i := IndexOf(s, sep);
    assert i == |x|;
    assert s[i + 1..] == t;
  }

  /** The first piece is the text up to the first separator. */
  lemma SplitHead(x: string, sep: char, t: string)
    requires sep !in x
    requires t == [] || t[0] == sep
    ensures Split(x + t, sep)[0] == x
  {
    if t == [] {
      assert x + t == x;
    } else {
      assert x + t == x + [sep] + t[1..];
      SplitFirst(x, sep, t[1..]);
    }
  }

  // ---------------------------------------------------------------------
  // trim

  /** The characters ECMAScript treats as white space or line terminators. */
  predicate IsWhite(c: char)
  {
    || c == '\t' || c == '\n' || c == '\U{000B}' || c == '\U{000C}' || c == '\r'
    || c == ' ' || c == '\U{00A0}' || c == '\U{1680}'
    || ('\U{2000}' <= c <= '\U{200A}')
    || c == '\U{2028}' || c == '\U{2029}' || c == '\U{202F}' || c == '\U{205F}'
    || c == '\U{3000}' || c == '\U{FEFF}'
  }

  /** `s.trimStart()`: the suffix after the leading white space. */
  function TrimStart(s: string): (r: string)
    ensures |r| <= |s| && r == s[|s| - |r|..]
    ensures forall k :: 0 <= k < |s| - |r| ==> IsWhite(s[k])
    ensures |r| > 0 ==> !IsWhite(r[0])
  {
    if |s| > 0 && IsWhite(s[0]) then
      var r := TrimStart(s[1..]);
      assert s[1..][|s| - 1 - |r|..] == s[|s| - |r|..];
      assert forall k :: 1 <= k < |s| - |r| ==> s[k] == s[1..][k - 1];
      r
    else s
  }

  /** `s.trimEnd()`: the prefix before the trailing white space. */
  function TrimEnd(s: string): (r: string)
    ensures |r| <= |s| && r == s[..|r|]
    ensures forall k :: |r| <= k < |s| ==> IsWhite(s[k])
    ensures |r| > 0 ==> !IsWhite(r[|r| - 1])
  {
    if |s| > 0 && IsWhite(s[|s| - 1]) then
      var r := TrimEnd(s[..|s| - 1]);
      assert forall k :: |r| <= k < |s| - 1 ==> s[k] == s[..|s| - 1][k];
      r
    else s
  }

  /** `r` is the stretch of `s` starting at `i`, and everything of `s` before
      and after it is white space. */
  ghost predicate IsTrimmedFrom(s: string, i: int, r: string)
  {
    && 0 <= i <= |s| - |r| && r == s[i..][..|r|]
    && (forall k :: 0 <= k < i ==> IsWhite(s[k]))
    && (forall k :: i + |r| <= k < |s| ==> IsWhite(s[k]))
  }

  /** `s.trim()`: `s` without its leading and trailing white space. */
  function Trim(s: string): (r: string)
    ensures |r| <= |s|
    ensures |r| > 0 ==> !IsWhite(r[0]) && !IsWhite(r[|r| - 1])
    ensures exists i :: IsTrimmedFrom(s, i, r)
  {
    TrimBoth(s);
    TrimEnd(TrimStart(s))
  }

  /** Trimming keeps the stretch of `s` that has only white space on either
      side. */
  lemma TrimBoth(s: string)
    ensures IsTrimmedFrom(s, |s| - |TrimStart(s)|, TrimEnd(TrimStart(s)))
  {
    var t := TrimStart(s);
    var r := TrimEnd(t);
    TrimBothSlice(s, t, r);
    TrimBothTail(s, t, r);
  }

  lemma TrimBothSlice(s: string, t: string, r: string)
    requires |t| <= |s| && t == s[|s| - |t|..]
    requires |r| <= |t| && r == t[..|r|]
    ensures r == s[|s| - |t|..][..|r|]
  {
  }

  lemma TrimBothTail(s: string, t: string, r: string)
    requires |t| <= |s| && t == s[|s| - |t|..]
    requires |r| <= |t| && forall k :: |r| <= k < |t| ==> IsWhite(t[k])
    ensures forall k :: |s| - |t| + |r| <= k < |s| ==> IsWhite(s[k])
  {
    forall k | |s| - |t| + |r| <= k < |s|
      ensures IsWhite(s[k])
    {
      assert s[k] == t[k - (|s| - |t|)];
    }
  }

  // ---------------------------------------------------------------------
  // parseInt

  function DigitValue(c: char): nat
  {
    if '0' <= c <= '9' then c as int - '0' as int
    else if 'a' <= c <= 'z' then c as int - 'a' as int + 10
    else if 'A' <= c <= 'Z' then c as int - 'A' as int + 10
    else 36
  }

  predicate IsDigit(c: char, radix: nat)
  {
    DigitValue(c) < radix
  }

  /** The longest prefix of `s` made of digits of `radix`. */
  function DigitPrefix(s: string, radix: nat): (r: string)
    ensures |r| <= |s| && r == s[..|r|]
    ensures forall k :: 0 <= k < |r| ==> IsDigit(r[k], radix)
    ensures |r| < |s| ==> !IsDigit(s[|r|], radix)
    ensures (forall k :: 0 <= k < |s| ==> IsDigit(s[k], radix)) ==> r == s
  {
    if |s| > 0 && IsDigit(s[0], radix) then
      var rest := DigitPrefix(s[1..], radix);
      assert s[..|rest| + 1] == [s[0]] + rest;
      [s[0]] + rest
    else []
  }

  /** The value of a string of digits, most significant first. */
  function DigitsValue(d: string, radix: nat): nat
  {
    if |d| == 0 then 0
    else DigitsValue(d[..|d| - 1], radix) * radix + DigitValue(d[|d| - 1])
  }

  /** `parseInt(s)` with no radix, `None` standing for NaN: leading white
      space and one sign are skipped and the rest is read by `ParseUnsigned`. */
  function ParseInt(s: string): (r: Option<int>)
  {
    var t := TrimStart(s);
    var negative := |t| > 0 && t[0] == '-';
    var u := if |t| > 0 && (t[0] == '-' || t[0] == '+') then t[1..] else t;
    match ParseUnsigned(u)
    case None => None
    case Some(v) => Some(if negative then -(v as int) else v)
  }

  /** The unsigned part of parseInt: a `0x`/`0X` prefix selects base 16,
      otherwise base 10, and the longest run of digits that follows is read;
      no digit gives NaN. */
  function ParseUnsigned(u: string): (r: Option<nat>)
  {
    var hex := |u| >= 2 && u[0] == '0' && (u[1] == 'x' || u[1] == 'X');
    var radix := if hex then 16 else 10;
    var digits := DigitPrefix(if hex then u[2..] else u, radix);
    if |digits| == 0 then None else Some(DigitsValue(digits, radix))
  }

  // ---------------------------------------------------------------------
  // Decimal rendering of numbers in template strings

  function DigitChar(d: nat): (c: char)
    requires d < 10
    ensures IsDigit(c, 10) && DigitValue(c) == d
  {
    ('0' as int + d) as char
  }

  /** `${n}` for a natural number: its shortest decimal digits. */
  function NatToDecimal(n: nat): (r: string)
    ensures |r| >= 1
    ensures forall k :: 0 <= k < |r| ==> IsDigit(r[k], 10)
    ensures n >= 10 ==> |r| >= 2
    ensures r[0] == '0' <==> n == 0
  {
    if n < 10 then [DigitChar(n)]
    else NatToDecimal(n / 10) + [DigitChar(n % 10)]
  }

  /** `${i}` for an integer: a minus sign before the digits of a negative one. */
  function IntToDecimal(i: int): (r: string)
    ensures i >= 0 ==> r == NatToDecimal(i)
    ensures i < 0 ==> r == "-" + NatToDecimal(-i)
  {
    if i < 0 then "-" + NatToDecimal(-i) else NatToDecimal(i)
  }

  /** Reading the decimal digits back gives the number. */
  lemma {:induction false} DecimalValue(n: nat)
    ensures DigitsValue(NatToDecimal(n), 10) == n
  {
    if n >= 10 {
      DecimalValue(n / 10);
      var d := NatToDecimal(n);
      assert d[..|d| - 1] == NatToDecimal(n / 10);
    }
  }

  /** A string of decimal digits without a leading zero reads as its value. */
  lemma ParseUnsignedDigits(d: string)
    requires |d| >= 1 && forall k :: 0 <= k < |d| ==> IsDigit(d[k], 10)
    requires |d| >= 2 ==> d[0] != '0'
    ensures ParseUnsigned(d) == Some(DigitsValue(d, 10))
  {
    assert DigitPrefix(d, 10) == d;
  }

  /** parseInt of a string that starts with a digit is its unsigned reading. */
  lemma ParseIntDigitFirst(d: string)
    requires |d| >= 1 && IsDigit(d[0], 10) && ParseUnsigned(d).Some?
    ensures ParseInt(d) == Some(ParseUnsigned(d).value)
  {
    assert !IsWhite(d[0]);
    assert TrimStart(d) == d;
  }

  /** parseInt reads decimal digits up to the first character that is not
      one and ignores the rest, so "1e3" reads as 1 and "12px" as 12. */
  lemma ParseIntStopsAtNonDigit(d: string, c: char, rest: string)
    requires |d| >= 1 && forall k :: 0 <= k < |d| ==> IsDigit(d[k], 10)
    requires !IsDigit(c, 10)
    requires |d| == 1 && d[0] == '0' ==> c != 'x' && c != 'X'
    ensures ParseInt(d + [c] + rest) == Some(DigitsValue(d, 10))
  {
    var u := d + [c] + rest;
    assert forall k :: 0 <= k < |d| ==> u[k] == d[k];
    assert u[|d|] == c && u[..|d|] == d;
    ParseIntDigitRun(u, |d|);
  }

  /** parseInt of a string that starts with `n` decimal digits and then a
      character that is neither a digit nor the `x` of a `0x` prefix. */
  lemma ParseIntDigitRun(u: string, n: nat)
    requires 1 <= n < |u| && forall k :: 0 <= k < n ==> IsDigit(u[k], 10)
    requires !IsDigit(u[n], 10)
    requires n == 1 && u[0] == '0' ==> u[1] != 'x' && u[1] != 'X'
    ensures ParseInt(u) == Some(DigitsValue(u[..n], 10))
  {
    DigitRunThenStop(u, n, 10);
    assert !(u[0] == '0' && (u[1] == 'x' || u[1] == 'X'));
    ParseIntDigitFirst(u);
  }

  /** A run of `n` digits followed by a non-digit is the digit prefix. */
  lemma DigitRunThenStop(s: string, n: nat, radix: nat)
    requires n < |s| && forall k :: 0 <= k < n ==> IsDigit(s[k], radix)
    requires !IsDigit(s[n], radix)
    ensures DigitPrefix(s, radix) == s[..n]
  {
    var r := DigitPrefix(s, radix);
    assert |r| >= n;
    assert |r| <= n;
  }

  /** A first character that is not white space, a sign or an ASCII digit
      makes parseInt NaN; digits of other scripts, such as U+0663, are such
      characters. */
  lemma ParseIntNonDigitFirst(c: char, rest: string)
    requires !IsWhite(c) && c != '-' && c != '+' && !IsDigit(c, 10)
    ensures ParseInt([c] + rest) == None
  {
    assert TrimStart([c] + rest) == [c] + rest;
    assert DigitPrefix([c] + rest, 10) == [];
  }

  /** parseInt inverts the decimal rendering. */
  lemma ParseDecimal(n: nat)
    ensures ParseInt(NatToDecimal(n)) == Some(n)
  {
    var d := NatToDecimal(n);
    ParseUnsignedDigits(d);
    ParseIntDigitFirst(d);
    DecimalValue(n);
  }

  /** Different numbers render differently. */
  lemma DecimalInjective(m: nat, n: nat)
    requires NatToDecimal(m) == NatToDecimal(n)
    ensures m == n
  {
    ParseDecimal(m);
    ParseDecimal(n);
  }

  // ---------------------------------------------------------------------
  // Case, prefixes and replacement

  /** `s.toLowerCase()` on the ASCII letters. */
  function ToLower(s: string): (r: string)
    ensures |r| == |s|
    ensures forall k :: 0 <= k < |r| ==> !('A' <= r[k] <= 'Z')
    ensures forall k :: 0 <= k < |s| ==>
              r[k] == if 'A' <= s[k] <= 'Z' then (s[k] as int + 32) as char else s[k]
  {
    seq(|s|, k requires 0 <= k < |s| =>
      if 'A' <= s[k] <= 'Z' then (s[k] as int + 32) as char else s[k])
  }

  /** `s.startsWith(p)`. */
  predicate StartsWith(s: string, p: string)
  {
    |p| <= |s| && s[..|p|] == p
  }

  /** `pat` occurs in `s` starting at position `k`. */
  predicate OccursAt(s: string, pat: string, k: nat)
  {
    k + |pat| <= |s| && s[k..k + |pat|] == pat
  }

  /** Dropping the first character shifts every occurrence left by one. */
  lemma OccursAtTail(s: string, pat: string, k: nat)
    requires |s| > 0 && k >= 1
    ensures OccursAt(s, pat, k) <==> OccursAt(s[1..], pat, k - 1)
  {
    if k + |pat| <= |s| {
      SliceOfSlice(s, 1, k - 1, k - 1 + |pat|);
    }
  }

  /** Position of the first occurrence of `pat` in `s`, if any. */
  function Find(s: string, pat: string): (r: Option<nat>)
    ensures r.Some? ==> OccursAt(s, pat, r.value)
    ensures r.Some? ==> forall k: nat :: k < r.value ==> !OccursAt(s, pat, k)
    ensures r.None? ==> forall k: nat :: !OccursAt(s, pat, k)
  {
    if StartsWith(s, pat) then Some(0)
    else if |s| == 0 then None
    else
      match Find(s[1..], pat)
      case None =>
        assert forall k: nat :: !OccursAt(s, pat, k) by {
          forall k: nat ensures !OccursAt(s, pat, k) {
            if k >= 1 {
              OccursAtTail(s, pat, k);
            }
          }
        }
        None
      case Some(i) =>
        assert OccursAt(s, pat, i + 1) by {
          OccursAtTail(s, pat, i + 1);
        }
        assert forall k: nat :: k < i + 1 ==> !OccursAt(s, pat, k) by {
          forall k: nat | k < i + 1 ensures !OccursAt(s, pat, k) {
            if k >= 1 {
              OccursAtTail(s, pat, k);
            }
          }
        }
        Some(i + 1)
  }

  /** `s.replace(pat, rep)` with a string pattern: only the first occurrence
      is replaced. */
  function ReplaceFirst(s: string, pat: string, rep: string): (r: string)
    ensures Find(s, pat).None? ==> r == s
    ensures Find(s, pat).Some? ==>
              var i := Find(s, pat).value; r == s[..i] + rep + s[i + |pat|..]
  {
    match Find(s, pat)
    case None => s
    case Some(i) => s[..i] + rep + s[i + |pat|..]
  }
}
