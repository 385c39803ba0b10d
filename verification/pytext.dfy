/**
 * The parts of Python's `str` and `int` semantics the backend relies on:
 * `strip`, `split`, `join`, `lower`, the `in` operator on strings, `str(n)`
 * and `int(s)`. Strings are sequences of Unicode code points, as in Python 3.
 */
module PyText {
  import opened Wrappers

  /** `c.isspace()`: the code points Python 3 counts as whitespace. */
  predicate IsSpace(c: char) {
    || ('\U{0009}' <= c <= '\U{000D}')
    || ('\U{001C}' <= c <= '\U{001F}')
    || c == ' ' || c == '\U{0085}' || c == '\U{00A0}' || c == '\U{1680}'
    || ('\U{2000}' <= c <= '\U{200A}')
    || c == '\U{2028}' || c == '\U{2029}' || c == '\U{202F}' || c == '\U{205F}'
    || c == '\U{3000}'
  }

  /** `s.lstrip()`: drops the leading whitespace and nothing else. */
  function TrimStart(s: string): (r: string)
    ensures |r| <= |s| && r == s[|s| - |r|..]
    ensures forall k :: 0 <= k < |s| - |r| ==> IsSpace(s[k])
    ensures r == [] || !IsSpace(r[0])
  {
    if |s| > 0 && IsSpace(s[0]) then
      var r := TrimStart(s[1..]);
      assert s[1..][|s| - 1 - |r|..] == s[|s| - |r|..];
      assert forall k :: 1 <= k < |s| - |r| ==> s[k] == s[1..][k - 1];
      r
    else s
  }

  /** `s.rstrip()`: drops the trailing whitespace and nothing else. */
  function TrimEnd(s: string): (r: string)
    ensures |r| <= |s| && r == s[..|r|]
    ensures forall k :: |r| <= k < |s| ==> IsSpace(s[k])
    ensures r == [] || !IsSpace(r[|r| - 1])
  {
    if |s| > 0 && IsSpace(s[|s| - 1]) then
      var r := TrimEnd(s[..|s| - 1]);
      assert s[..|s| - 1][..|r|] == s[..|r|];
      r
    else s
  }

  /** Neither starts nor ends with whitespace. */
  predicate Unpadded(s: string) {
    s == [] || (!IsSpace(s[0]) && !IsSpace(s[|s| - 1]))
  }

  /** `r` is the infix of `s` starting at `i` with only whitespace around it. */
  predicate InfixAmidSpace(s: string, i: int, r: string) {
    && 0 <= i && i + |r| <= |s| && r == s[i..i + |r|]
    && (forall k :: 0 <= k < i ==> IsSpace(s[k]))
    && (forall k :: i + |r| <= k < |s| ==> IsSpace(s[k]))
  }

  /** `s.strip()`: the result is the text with only whitespace cut from
      either end (as many characters at the front as `lstrip` cuts), and it
      neither starts nor ends with whitespace; a string that already does
      neither is returned unchanged. */
  function Strip(s: string): (r: string)
    ensures |r| <= |s|
    ensures InfixAmidSpace(s, |s| - |TrimStart(s)|, r)
    ensures Unpadded(r)
    ensures Unpadded(s) ==> r == s
  {
    var t := TrimStart(s);
    var r := TrimEnd(t);
    StripFacts(s, t, r);
    r
  }

  /** Cutting the leading whitespace (`t`), then the trailing whitespace
      (`r`), leaves an infix with only whitespace around it and with neither
      end blank, and cuts nothing from a text whose ends were not blank. */
  lemma StripFacts(s: string, t: string, r: string)
    requires |t| <= |s| && t == s[|s| - |t|..] && forall k :: 0 <= k < |s| - |t| ==> IsSpace(s[k])
    requires t == [] || !IsSpace(t[0])
    requires |r| <= |t| && r == t[..|r|] && forall k :: |r| <= k < |t| ==> IsSpace(t[k])
    requires r == [] || !IsSpace(r[|r| - 1])
    ensures |r| <= |s|
    ensures InfixAmidSpace(s, |s| - |t|, r)
    ensures Unpadded(r)
    ensures Unpadded(s) ==> r == s
  {
    TrimmedInfix(s, t, r);
    if r != [] {
      assert r[0] == t[0];
    }
    if Unpadded(s) && s != [] {
      assert !IsSpace(s[0]);
      assert |t| == |s|;
      assert t == s;
      assert !IsSpace(t[|t| - 1]);
      assert |r| == |t|;
    }
  }

  /** Cutting whitespace from the front, then from the back, leaves an infix
      with only whitespace around it. */
  lemma TrimmedInfix(s: string, t: string, r: string)
    requires |t| <= |s| && t == s[|s| - |t|..] && forall k :: 0 <= k < |s| - |t| ==> IsSpace(s[k])
    requires |r| <= |t| && r == t[..|r|] && forall k :: |r| <= k < |t| ==> IsSpace(t[k])
    ensures var i := |s| - |t|;
      && i + |r| <= |s| && r == s[i..i + |r|]
      && (forall k :: i + |r| <= k < |s| ==> IsSpace(s[k]))
  {
    var i := |s| - |t|;
    SliceOfSlice(s, i, |r|);
    forall k | i + |r| <= k < |s| ensures IsSpace(s[k]) {
      assert s[k] == t[k - i];
    }
  }

  /** A prefix of a suffix is a slice. */
  lemma SliceOfSlice(s: string, i: nat, n: nat)
    requires i + n <= |s|
    ensures s[i..][..n] == s[i..i + n]
  {
  }

  /** Position of the first `c` in `s`. */
  function IndexOf(s: string, c: char): (i: nat)
    requires c in s
    ensures i < |s| && s[i] == c && c !in s[..i]
  {
    if s[0] == c then 0
    else
      var j := IndexOf(s[1..], c);
      assert s[..j + 1] == [s[0]] + s[1..][..j];
      j + 1
  }

  /** `sep.join(parts)` for a one-character separator. */
  function Join(parts: seq<string>, sep: char): string {
    if |parts| == 0 then ""
    else if |parts| == 1 then parts[0]
    else parts[0] + [sep] + Join(parts[1..], sep)
  }

  /** Every piece of a join is found inside the joined text. */
  lemma {:induction false} JoinHasPart(ps: seq<string>, k: nat, sep: char)
    requires k < |ps|
    ensures forall c :: c in ps[k] ==> c in Join(ps, sep)
    decreases |ps|
  {
    if |ps| > 1 {
      if k > 0 {
        JoinHasPart(ps[1..], k - 1, sep);
      }
    }
  }

  /** `s.split(sep)` for a one-character separator: the pieces between the
      separators, none of which contains one, and which join back to `s`. */
  function Split(s: string, sep: char): (parts: seq<string>)
    ensures |parts| >= 1
    ensures forall k :: 0 <= k < |parts| ==> sep !in parts[k]
    ensures Join(parts, sep) == s
    decreases |s|
  {
    if sep !in s then [s]
    else
      var i := IndexOf(s, sep);
      var rest := Split(s[i + 1..], sep);
      assert ([s[..i]] + rest)[1..] == rest;
      assert s == s[..i] + [sep] + s[i + 1..];
      [s[..i]] + rest
  }

  /** Splitting inverts joining: separator-free pieces are recovered exactly. */
  lemma {:induction false} SplitJoin(parts: seq<string>, sep: char)
    requires |parts| >= 1
    requires forall k :: 0 <= k < |parts| ==> sep !in parts[k]
    ensures Split(Join(parts, sep), sep) == parts
    decreases |parts|
  {
    if |parts| > 1 {
      var tail := Join(parts[1..], sep);
      var s := Join(parts, sep);
      assert s == parts[0] + [sep] + tail;
      SeparatorAfter(parts[0], tail, sep);
      SplitJoin(parts[1..], sep);
      assert Split(s, sep) == [parts[0]] + Split(tail, sep);
      assert [parts[0]] + parts[1..] == parts;
    }
  }

  /** The first separator of `a + [sep] + b`, for a separator-free `a`, is the one after `a`. */
  lemma SeparatorAfter(a: string, b: string, sep: char)
    requires sep !in a
    ensures var s := a + [sep] + b;
      && sep in s && IndexOf(s, sep) == |a| && s[..|a|] == a && s[|a| + 1..] == b
  {
    var s := a + [sep] + b;
    assert s[|a|] == sep;
    assert s[..|a|] == a;
    assert s[|a| + 1..] == b;
  }

  /** Joining two non-empty lists of pieces puts one separator between them. */
  lemma {:induction false} JoinAppend(xs: seq<string>, ys: seq<string>, sep: char)
    requires |xs| >= 1 && |ys| >= 1
    ensures Join(xs + ys, sep) == Join(xs, sep) + [sep] + Join(ys, sep)
    decreases |xs|
  {
    if |xs| > 1 {
      assert (xs + ys)[1..] == xs[1..] + ys;
      JoinAppend(xs[1..], ys, sep);
    } else {
      assert (xs + ys)[1..] == ys;
    }
  }

  /** Splitting at a separator placed between two texts splits each of them. */
  lemma SplitConcat(a: string, b: string, sep: char)
    ensures Split(a + [sep] + b, sep) == Split(a, sep) + Split(b, sep)
  {
    var pa, pb := Split(a, sep), Split(b, sep);
    JoinAppend(pa, pb, sep);
    FreeConcat(pa, pb, sep);
    SplitJoin(pa + pb, sep);
  }

  /** Two lists of separator-free pieces put together are separator-free. */
  lemma FreeConcat(pa: seq<string>, pb: seq<string>, sep: char)
    requires forall k :: 0 <= k < |pa| ==> sep !in pa[k]
    requires forall k :: 0 <= k < |pb| ==> sep !in pb[k]
    ensures forall k :: 0 <= k < |pa + pb| ==> sep !in (pa + pb)[k]
  {
    forall k | 0 <= k < |pa + pb| ensures sep !in (pa + pb)[k] {
      if k >= |pa| {
        assert (pa + pb)[k] == pb[k - |pa|];
      }
    }
  }

  /** `s.split(sep, 1)`: the text before the first separator and everything after it. */
  function SplitFirst(s: string, sep: char): (parts: seq<string>)
    ensures sep !in s ==> parts == [s]
    ensures sep in s ==> |parts| == 2 && sep !in parts[0] && parts[0] + [sep] + parts[1] == s
  {
    if sep !in s then [s]
    else
      var i := IndexOf(s, sep);
      assert s == s[..i] + [sep] + s[i + 1..];
      [s[..i], s[i + 1..]]
  }

  /** `s.replace(a, b)` for single characters. */
  function ReplaceChar(s: string, a: char, b: char): (r: string)
    ensures |r| == |s|
    ensures forall k :: 0 <= k < |s| ==> r[k] == (if s[k] == a then b else s[k])
  {
    seq(|s|, k requires 0 <= k < |s| => if s[k] == a then b else s[k])
  }

  /** Lower-casing of one code point. Only the ASCII letters and the basic
      Cyrillic block (U+0400..U+042F) are mapped; the region names are Russian. */
  function LowerChar(c: char): char {
    if 'A' <= c <= 'Z' || '\U{0410}' <= c <= '\U{042F}' then (c as int + 32) as char
    else if '\U{0400}' <= c <= '\U{040F}' then (c as int + 80) as char
    else c
  }

  /** `s.lower()`, code point by code point. */
  function Lower(s: string): (r: string)
    ensures |r| == |s|
    ensures forall k :: 0 <= k < |s| ==> r[k] == LowerChar(s[k])
  {
    seq(|s|, k requires 0 <= k < |s| => LowerChar(s[k]))
  }

  /** `needle` occurs in `hay` starting at position `i`. */
  predicate OccursAt(needle: string, hay: string, i: int) {
    0 <= i && i + |needle| <= |hay| && hay[i..i + |needle|] == needle
  }

  /** `hay.find(needle)`: the first position at which `needle` occurs, if any. */
  function Find(hay: string, needle: string): (r: Option<nat>)
    ensures r.None? <==> forall i :: !OccursAt(needle, hay, i)
    ensures r.Some? ==> OccursAt(needle, hay, r.value)
    ensures r.Some? ==> forall j :: 0 <= j < r.value ==> !OccursAt(needle, hay, j)
    decreases |hay|
  {
    if |needle| > |hay| then None
    else if needle <= hay then
      assert OccursAt(needle, hay, 0);
      Some(0)
    else
      var r := Find(hay[1..], needle);
      assert forall i :: OccursAt(needle, hay, i + 1) <==> OccursAt(needle, hay[1..], i) by {
        forall i ensures OccursAt(needle, hay, i + 1) <==> OccursAt(needle, hay[1..], i) {
          if 0 <= i && i + 1 + |needle| <= |hay| {
            assert hay[1..][i..i + |needle|] == hay[i + 1..i + 1 + |needle|];
          }
        }
      }
      assert !OccursAt(needle, hay, 0);
      match r
      case None =>
        assert forall i :: !OccursAt(needle, hay, i) by {
          forall i ensures !OccursAt(needle, hay, i) {
            if i > 0 {
              assert !OccursAt(needle, hay[1..], i - 1);
            }
          }
        }
        None
      case Some(j) =>
        assert OccursAt(needle, hay, j + 1);
        assert forall m :: 0 <= m < j + 1 ==> !OccursAt(needle, hay, m) by {
          forall m | 0 <= m < j + 1 ensures !OccursAt(needle, hay, m) {
            if m > 0 {
              assert !OccursAt(needle, hay[1..], m - 1);
            }
          }
        }
        Some(j + 1)
  }

  /** `needle in hay` for strings. */
  predicate Contains(hay: string, needle: string) {
    Find(hay, needle).Some?
  }

  /** A witness position makes `Contains` true. */
  lemma ContainsAt(hay: string, needle: string, i: int)
    requires OccursAt(needle, hay, i)
    ensures Contains(hay, needle)
  {
  }

  /** A text occurs inside any text built around it. */
  lemma ContainsMiddle(a: string, x: string, b: string)
    ensures Contains(a + x + b, x)
  {
    assert (a + x + b)[|a|..|a| + |x|] == x;
    ContainsAt(a + x + b, x, |a|);
  }

  /** `s.split(sep)` for a separator of several characters: scans left to
      right and cuts at each non-overlapping occurrence. */
  function SplitOn(s: string, sep: string): (parts: seq<string>)
    requires |sep| > 0
    ensures |parts| >= 1
    decreases |s|
  {
    match Find(s, sep)
    case None => [s]
    case Some(i) => [s[..i]] + SplitOn(s[i + |sep|..], sep)
  }

  predicate IsDigit(c: char) {
    '0' <= c <= '9'
  }

  function DigitChar(d: nat): (c: char)
    requires d < 10
    ensures IsDigit(c)
  {
    ('0' as int + d) as char
  }

  function DigitValue(c: char): nat
    requires IsDigit(c)
  {
    c as int - '0' as int
  }

  predicate AllDigits(s: string) {
    forall k :: 0 <= k < |s| ==> IsDigit(s[k])
  }

  /** The number a string of decimal digits denotes (most significant first). */
  function DigitsValue(s: string): nat
    requires AllDigits(s)
  {
    if s == [] then 0 else DigitsValue(s[..|s| - 1]) * 10 + DigitValue(s[|s| - 1])
  }

  /** `str(n)` for a natural number: its shortest decimal spelling. */
  function NatToString(n: nat): (r: string)
    ensures |r| >= 1 && AllDigits(r)
    ensures |r| > 1 ==> r[0] != '0'
  {
    if n < 10 then [DigitChar(n)] else NatToString(n / 10) + [DigitChar(n % 10)]
  }

  /** Reading back the digits of `str(n)` gives `n`. */
  lemma {:induction false} NatToStringValue(n: nat)
    ensures DigitsValue(NatToString(n)) == n
  {
    if n >= 10 {
      var s := NatToString(n);
      assert s[..|s| - 1] == NatToString(n / 10);
      NatToStringValue(n / 10);
    }
  }

  /** `str(n)` for any integer. */
  function IntToString(n: int): (r: string)
    ensures |r| >= 1 && !IsSpace(r[0]) && !IsSpace(r[|r| - 1])
    ensures n < 0 <==> r[0] == '-'
    ensures n >= 0 ==> AllDigits(r)
    ensures n < 0 ==> AllDigits(r[1..])
  {
    if n < 0 then
      var d := NatToString(-n);
      assert ("-" + d)[1..] == d;
      "-" + d
    else NatToString(n)
  }

  /** The digit grammar `int()` accepts: digits, optionally grouped by single underscores. */
  predicate WellGrouped(s: string) {
    && |s| > 0 && IsDigit(s[0]) && IsDigit(s[|s| - 1])
    && DigitsOrUnderscores(s)
    && (forall k :: 0 <= k < |s| - 1 ==> !(s[k] == '_' && s[k + 1] == '_'))
  }

  /** Every character is an ASCII digit or an underscore. */
  predicate DigitsOrUnderscores(s: string) {
    forall k :: 0 <= k < |s| ==> IsDigit(s[k]) || s[k] == '_'
  }

  function DropUnderscores(s: string): (r: string)
    requires DigitsOrUnderscores(s)
    ensures AllDigits(r)
    ensures AllDigits(s) ==> r == s
  {
    if s == [] then ""
    else (if s[0] == '_' then "" else [s[0]]) + DropUnderscores(s[1..])
  }

  /** The value of an underscore-grouped digit text, if it is one. */
  function GroupedValue(u: string): Option<nat> {
    if WellGrouped(u) then Some(DigitsValue(DropUnderscores(u))) else None
  }

  /** An optional leading sign, then underscore-grouped digits. */
  predicate Numeral(t: string) {
    if |t| > 0 && (t[0] == '+' || t[0] == '-') then WellGrouped(t[1..]) else WellGrouped(t)
  }

  /** `int(s)` in base 10: surrounding whitespace, an optional sign, then
      underscore-grouped ASCII digits; anything else is `None` here. Python
      also reads the other Unicode decimal digits, which this model does not. */
  function ParseInt(s: string): (r: Option<int>)
    ensures r.Some? <==> Numeral(Strip(s))
    ensures r.Some? ==> Strip(s) != ""
    ensures r.Some? && r.value < 0 ==> Strip(s)[0] == '-'
    ensures Strip(s) != "" && AllDigits(Strip(s)) ==> r == Some(DigitsValue(Strip(s)))
  {
    ReadPlain(Strip(s));
    ReadNumber(Strip(s))
  }

  /** A stripped text holding a character other than a digit, an underscore
      or a leading sign is rejected. */
  lemma ParseRejectsStray(s: string, k: int)
    requires 0 <= k < |Strip(s)| && !IsDigit(Strip(s)[k]) && Strip(s)[k] != '_'
    requires k == 0 ==> Strip(s)[0] != '+' && Strip(s)[0] != '-'
    ensures ParseInt(s).None?
  {
    var t := Strip(s);
    if |t| > 0 && (t[0] == '+' || t[0] == '-') {
      assert !DigitsOrUnderscores(t[1..]) by { assert t[1..][k - 1] == t[k]; }
    } else {
      assert !DigitsOrUnderscores(t);
    }
  }

  /** The number an already stripped text spells: an optional sign, then
      underscore-grouped digits. */
  function ReadNumber(t: string): (r: Option<int>)
    ensures r.Some? <==> Numeral(t)
    ensures r.Some? ==> t != ""
    ensures r.Some? && r.value < 0 ==> t[0] == '-'
  {
    if |t| > 0 && (t[0] == '+' || t[0] == '-') then
      match GroupedValue(t[1..])
      case None => None
      case Some(v) =>
        var signed: int := if t[0] == '-' then -(v as int) else v as int;
        Some(signed)
    else
      match GroupedValue(t)
      case None => None
      case Some(v) => Some(v)
  }

  /** A plain run of digits reads as its decimal value. */
  lemma ReadPlain(t: string)
    ensures t != "" && AllDigits(t) ==> ReadNumber(t) == Some(DigitsValue(t))
  {
    if t != "" && AllDigits(t) {
      PlainDigits(t);
    }
  }

  /** A text without whitespace at either end is read as it stands. */
  lemma ParseUnpadded(t: string)
    requires Unpadded(t)
    ensures ParseInt(t) == ReadNumber(t)
  {
    StripUnpadded(t);
  }

  /** A plain run of digits is well grouped and denotes its digits' value. */
  lemma PlainDigits(d: string)
    requires |d| >= 1 && AllDigits(d)
    ensures GroupedValue(d) == Some(DigitsValue(d))
  {
    assert WellGrouped(d) && DropUnderscores(d) == d;
  }

  /** A minus sign followed by the grouped digits of `v` reads as `-v`. */
  lemma ReadNegative(t: string, v: nat)
    requires |t| > 0 && t[0] == '-' && GroupedValue(t[1..]) == Some(v)
    ensures ReadNumber(t) == Some(-(v as int))
  {
  }

  /** `int(str(n)) == n` for every integer `n`. */
  lemma IntRoundTrip(n: int)
    ensures ParseInt(IntToString(n)) == Some(n)
  {
    var s := IntToString(n);
    ParseUnpadded(s);
    if n < 0 {
      var d := NatToString(-n);
      assert s[1..] == d;
      PlainDigits(d);
      NatToStringValue(-n);
      ReadNegative(s, -n);
    } else {
      NatToStringValue(n);
      ReadPlain(s);
    }
  }

  /** A text that neither starts nor ends with whitespace is its own strip. */
  lemma StripUnpadded(t: string)
    requires Unpadded(t)
    ensures Strip(t) == t
  {
  }

  /** Every character is whitespace. */
  predicate AllSpace(w: string) {
    forall i :: 0 <= i < |w| ==> IsSpace(w[i])
  }

  /** Leading whitespace is all `lstrip` looks past. */
  lemma {:induction false} TrimStartSpaces(w: string, x: string)
    requires AllSpace(w)
    ensures TrimStart(w + x) == TrimStart(x)
    decreases |w|
  {
    if |w| > 0 {
      assert (w + x)[0] == w[0] && IsSpace(w[0]);
      assert (w + x)[1..] == w[1..] + x;
      TrimStartSpaces(w[1..], x);
    } else {
      assert w + x == x;
    }
  }

  /** Trailing whitespace is all `rstrip` looks past. */
  lemma {:induction false} TrimEndSpaces(x: string, w: string)
    requires AllSpace(w)
    ensures TrimEnd(x + w) == TrimEnd(x)
    decreases |w|
  {
    if |w| > 0 {
      var v := w[..|w| - 1];
      assert (x + w)[|x + w| - 1] == w[|w| - 1] && IsSpace(w[|w| - 1]);
      assert (x + w)[..|x + w| - 1] == x + v;
      TrimEndSpaces(x, v);
    } else {
      assert x + w == x;
    }
  }

  /** `lstrip` of a text with something appended: the appended part survives
      whole unless the text was blank. */
  lemma {:induction false} TrimStartAppend(s: string, w: string)
    ensures TrimStart(s) != "" ==> TrimStart(s + w) == TrimStart(s) + w
    ensures TrimStart(s) == "" ==> TrimStart(s + w) == TrimStart(w)
    decreases |s|
  {
    if |s| == 0 {
      assert s + w == w;
    } else if IsSpace(s[0]) {
      assert (s + w)[0] == s[0];
      assert (s + w)[1..] == s[1..] + w;
      TrimStartAppend(s[1..], w);
    } else {
      assert (s + w)[0] == s[0];
    }
  }

  /** `(w1 + s + w2).strip() == s.strip()` for whitespace `w1` and `w2`. */
  lemma StripPadded(w1: string, s: string, w2: string)
    requires AllSpace(w1) && AllSpace(w2)
    ensures Strip(w1 + s + w2) == Strip(s)
  {
    assert w1 + s + w2 == w1 + (s + w2);
    TrimStartSpaces(w1, s + w2);
    TrimStartAppend(s, w2);
    if TrimStart(s) != "" {
      TrimEndSpaces(TrimStart(s), w2);
    } else {
      TrimStartSpaces(w2, "");
    }
  }

  /** `int()` ignores whitespace around the number: `int(w1 + s + w2) == int(s)`. */
  lemma ParsePadded(w1: string, s: string, w2: string)
    requires AllSpace(w1) && AllSpace(w2)
    ensures ParseInt(w1 + s + w2) == ParseInt(s)
  {
    StripPadded(w1, s, w2);
  }

  /** A minus sign in front of an unsigned, unpadded text negates its value,
      and makes it unreadable exactly when the text was. */
  lemma ParseMinus(s: string)
    requires Unpadded(s) && (s == [] || (s[0] != '+' && s[0] != '-'))
    ensures ParseInt("-" + s).None? <==> ParseInt(s).None?
    ensures ParseInt(s).Some? ==> ParseInt("-" + s).Some? && ParseInt("-" + s).value == -ParseInt(s).value
  {
    var m := "-" + s;
    assert m[0] == '-' && m[1..] == s;
    ReadSigned(m, s);
    SignedUnpadded(m, s);
    ParseUnpadded(m);
    ParseUnpadded(s);
  }

  /** A plus sign in front of an unsigned, unpadded text changes nothing. */
  lemma ParsePlus(s: string)
    requires Unpadded(s) && (s == [] || (s[0] != '+' && s[0] != '-'))
    ensures ParseInt("+" + s) == ParseInt(s)
  {
    var m := "+" + s;
    assert m[0] == '+' && m[1..] == s;
    SignedUnpadded(m, s);
    ParseUnpadded(m);
    ParseUnpadded(s);
    ReadSigned(m, s);
  }

  /** A sign in front of an unsigned text: `+` keeps its reading, `-` negates it. */
  lemma ReadSigned(m: string, s: string)
    requires |m| > 0 && (m[0] == '+' || m[0] == '-') && m[1..] == s
    requires s == [] || (s[0] != '+' && s[0] != '-')
    ensures m[0] == '+' ==> ReadNumber(m) == ReadNumber(s)
    ensures m[0] == '-' ==> (ReadNumber(m).None? <==> ReadNumber(s).None?)
    ensures m[0] == '-' && ReadNumber(s).Some? ==> ReadNumber(m).Some? && ReadNumber(m).value == -ReadNumber(s).value
  {
  }

  /** A sign in front of an unpadded text leaves it unpadded. */
  lemma SignedUnpadded(m: string, s: string)
    requires Unpadded(s) && |m| == |s| + 1 && (m[0] == '+' || m[0] == '-') && m[1..] == s
    ensures Unpadded(m)
  {
    if s != [] {
      assert m[|m| - 1] == s[|s| - 1];
    }
  }

  /** A text that starts and ends with a digit has no whitespace to strip. */
  lemma DigitEnds(t: string)
    requires |t| > 0 && IsDigit(t[0]) && IsDigit(t[|t| - 1])
    ensures Unpadded(t)
  {
  }

  /** One underscore between two digits is ignored: `int("12_34") == int("1234")`. */
  lemma ParseGrouped(d: string, k: nat)
    requires AllDigits(d) && 0 < k < |d|
    ensures ParseInt(d[..k] + "_" + d[k..]) == ParseInt(d)
    ensures ParseInt(d).Some? && ParseInt(d).value == DigitsValue(d)
  {
    var u := d[..k] + "_" + d[k..];
    ReadGrouped(d, k);
    SplitGrouped(d, k);
    ParseUnpadded(u);
    StripUnpadded(d);
  }

  /** The reading of digits with one underscore inside is the digits' value. */
  lemma ReadGrouped(d: string, k: nat)
    requires AllDigits(d) && 0 < k < |d|
    ensures ReadNumber(d[..k] + "_" + d[k..]) == ReadNumber(d)
  {
    var u := d[..k] + "_" + d[k..];
    assert d[..k] + d[k..] == d;
    assert u[0] == d[0];
    SplitGrouped(d, k);
    DropOne(d[..k], d[k..]);
    PlainDigits(d);
  }

  /** Digits with one underscore inside are well grouped. */
  lemma SplitGrouped(d: string, k: nat)
    requires AllDigits(d) && 0 < k < |d|
    ensures WellGrouped(d[..k] + "_" + d[k..])
    ensures Unpadded(d[..k] + "_" + d[k..]) && Unpadded(d)
  {
    var u := d[..k] + "_" + d[k..];
    assert DigitsOrUnderscores(u) by {
      forall i | 0 <= i < |u| ensures IsDigit(u[i]) || u[i] == '_' {
        if i < k { assert u[i] == d[i]; } else if i > k { assert u[i] == d[i - 1]; }
      }
    }
    forall i | 0 <= i < |u| - 1 ensures !(u[i] == '_' && u[i + 1] == '_') {
      if i < k { assert u[i] == d[i]; } else { assert u[i + 1] == d[i]; }
    }
    assert u[0] == d[0] && u[|u| - 1] == d[|d| - 1];
    DigitEnds(u);
    DigitEnds(d);
  }

  /** Dropping the one underscore between two digit runs joins them. */
  lemma {:induction false} DropOne(a: string, b: string)
    requires AllDigits(a) && AllDigits(b)
    ensures DigitsOrUnderscores(a + "_" + b) && DropUnderscores(a + "_" + b) == a + b
    decreases |a|
  {
    var u := a + "_" + b;
    assert DigitsOrUnderscores(u) by {
      forall i | 0 <= i < |u| ensures IsDigit(u[i]) || u[i] == '_' {
        if i < |a| { assert u[i] == a[i]; } else if i > |a| { assert u[i] == b[i - |a| - 1]; }
      }
    }
    if a == [] {
      assert u[0] == '_' && u[1..] == b;
    } else {
      assert u[0] == a[0] && u[1..] == a[1..] + "_" + b;
      assert AllDigits(a[1..]) by {
        assert forall i :: 0 <= i < |a| - 1 ==> a[1..][i] == a[i + 1];
      }
      DropOne(a[1..], b);
      assert [a[0]] + (a[1..] + b) == a + b;
    }
  }

  /** Two underscores in a row make the text unreadable, wherever they stand. */
  lemma ParseDoubleUnderscore(x: string, p: nat)
    requires p + 1 < |x| && x[p] == '_' && x[p + 1] == '_'
    ensures ParseInt(x) == None
  {
    InfixDoubleUnderscore(x, p, |x| - |TrimStart(x)|, Strip(x));
  }

  /** Two underscores in a row survive into any infix with only whitespace
      around it, so that infix is unreadable. */
  lemma InfixDoubleUnderscore(x: string, p: nat, i: int, t: string)
    requires p + 1 < |x| && x[p] == '_' && x[p + 1] == '_'
    requires InfixAmidSpace(x, i, t)
    ensures ReadNumber(t) == None
  {
    KeptByStrip(x, i, t, p);
    KeptByStrip(x, i, t, p + 1);
    ReadDoubleUnderscore(t, p - i);
  }

  /** A character that is not whitespace survives stripping, in place. */
  lemma KeptByStrip(x: string, i: int, t: string, p: nat)
    requires InfixAmidSpace(x, i, t) && p < |x| && !IsSpace(x[p])
    ensures i <= p < i + |t| && t[p - i] == x[p]
  {
  }

  /** A stripped text with two underscores in a row reads as nothing. */
  lemma ReadDoubleUnderscore(t: string, j: nat)
    requires j + 1 < |t| && t[j] == '_' && t[j + 1] == '_'
    ensures ReadNumber(t) == None
  {
    if |t| > 0 && (t[0] == '+' || t[0] == '-') {
      assert j > 0;
      assert t[1..][j - 1] == '_' && t[1..][j] == '_';
      assert !WellGrouped(t[1..]);
    } else {
      assert !WellGrouped(t);
    }
  }
}
