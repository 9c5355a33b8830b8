/**
 * Character-level string helpers: the parts of Rust's `str` and Python's `str`
 * that the timeline parsers, the save-file naming rule and the colour parser use.
 * Strings are `seq<char>`; no Unicode normalisation or case folding is involved.
 */
module Text {
  import opened Wrappers

  /** The en dash (U+2013) that timeline authors write between the two times. */
  const EnDash: char := '\U{2013}'

  // ---------------------------------------------------------------------------
  // Whitespace trimming (Rust `str::trim`, Python `str.strip()`)
  // ---------------------------------------------------------------------------

  /** ASCII whitespace: space, tab, line feed, carriage return, vertical tab, form feed. */
  predicate IsWhitespace(c: char) {
    c == ' ' || c == '\t' || c == '\n' || c == '\r' || c == '\U{000B}' || c == '\U{000C}'
  }

  /** `s` without the whitespace at its start. */
  function TrimStart(s: string): (r: string)
    ensures r == [] || !IsWhitespace(r[0])
    decreases |s|
  {
    if |s| > 0 && IsWhitespace(s[0]) then TrimStart(s[1..]) else s
  }

  /** `s` without the whitespace at its end. */
  function TrimEnd(s: string): (r: string)
    ensures r == [] || !IsWhitespace(r[|r| - 1])
    ensures |r| <= |s| && (r == [] || r[0] == s[0])
    decreases |s|
  {
    if |s| > 0 && IsWhitespace(s[|s| - 1]) then TrimEnd(s[..|s| - 1]) else s
  }

  /** `s` with no whitespace at either end (the empty string counts as trimmed). */
  predicate IsTrimmed(s: string) {
    s == [] || (!IsWhitespace(s[0]) && !IsWhitespace(s[|s| - 1]))
  }

  /** Whitespace removed from both ends. */
  function Trim(s: string): (r: string)
    ensures IsTrimmed(r)
    ensures IsTrimmed(s) ==> r == s
  {
    TrimEnd(TrimStart(s))
  }

  // ---------------------------------------------------------------------------
  // Character replacement (Rust `str::replace(char, &str)` with a one-char target)
  // ---------------------------------------------------------------------------

  /** Every occurrence of `from` replaced by `to`, everything else kept in place. */
  function Replace(s: string, from: char, to: char): (r: string)
    ensures |r| == |s|
    decreases |s|
  {
    if |s| == 0 then [] else [if s[0] == from then to else s[0]] + Replace(s[1..], from, to)
  }

  /** Character by character, the replacement changes exactly the occurrences of `from`. */
  lemma {:induction false} ReplaceChars(s: string, from: char, to: char)
    ensures forall k :: 0 <= k < |s| ==> Replace(s, from, to)[k] == (if s[k] == from then to else s[k])
    decreases |s|
  {
    if |s| > 0 {
      ReplaceChars(s[1..], from, to);
    }
  }

  /** A string without `from` is left as it is. */
  lemma ReplaceAbsent(s: string, from: char, to: char)
    requires from !in s
    ensures Replace(s, from, to) == s
  {
    ReplaceChars(s, from, to);
  }

  /** Replacing `from` by `to` leaves no `from` behind, so doing it again changes nothing. */
  lemma ReplaceIdempotent(s: string, from: char, to: char)
    ensures Replace(Replace(s, from, to), from, to) == Replace(s, from, to)
  {
    ReplaceChars(s, from, to);
    ReplaceChars(Replace(s, from, to), from, to);
  }

  /** Replacement works piecewise on a concatenation. */
  lemma {:induction false} ReplaceConcat(x: string, y: string, from: char, to: char)
    ensures Replace(x + y, from, to) == Replace(x, from, to) + Replace(y, from, to)
    decreases |x|
  {
    if |x| > 0 {
      assert (x + y)[0] == x[0];
      assert (x + y)[1..] == x[1..] + y;
      ReplaceConcat(x[1..], y, from, to);
    } else {
      assert x + y == y;
    }
  }

  /** Replacing one non-whitespace character by another commutes with trimming. */
  lemma TrimReplaceCommute(s: string, from: char, to: char)
    requires !IsWhitespace(from) && !IsWhitespace(to)
    ensures Trim(Replace(s, from, to)) == Replace(Trim(s), from, to)
  {
    TrimStartReplace(s, from, to);
    TrimEndReplace(TrimStart(s), from, to);
  }

  lemma {:induction false} TrimStartReplace(s: string, from: char, to: char)
    requires !IsWhitespace(from) && !IsWhitespace(to)
    ensures TrimStart(Replace(s, from, to)) == Replace(TrimStart(s), from, to)
    decreases |s|
  {
    if |s| > 0 {
      assert Replace(s, from, to)[1..] == Replace(s[1..], from, to);
      TrimStartReplace(s[1..], from, to);
    }
  }

  lemma {:induction false} TrimEndReplace(s: string, from: char, to: char)
    requires !IsWhitespace(from) && !IsWhitespace(to)
    ensures TrimEnd(Replace(s, from, to)) == Replace(TrimEnd(s), from, to)
    decreases |s|
  {
    if |s| > 0 {
      var r := Replace(s, from, to);
      ReplaceConcat(s[..|s| - 1], [s[|s| - 1]], from, to);
      assert s == s[..|s| - 1] + [s[|s| - 1]];
      assert r[..|s| - 1] == Replace(s[..|s| - 1], from, to);
      assert r[|s| - 1] == (if s[|s| - 1] == from then to else s[|s| - 1]);
      TrimEndReplace(s[..|s| - 1], from, to);
    }
  }

  // ---------------------------------------------------------------------------
  // Splitting on a separator (Rust `str::split(char)`, Python `str.split(sep)`)
  // ---------------------------------------------------------------------------

  /** Position of the first `c` in `s`, if there is one. */
  function IndexOf(s: string, c: char): (r: Option<nat>)
    ensures r.Some? ==> r.value < |s|
    decreases |s|
  {
    if |s| == 0 then None
    else if s[0] == c then Some(0)
    else match IndexOf(s[1..], c)
      case None => None
      case Some(i) => Some(i + 1)
  }

  /** `IndexOf` finds nothing exactly when `c` is absent, and otherwise its first occurrence. */
  lemma {:induction false} IndexOfFirst(s: string, c: char)
    ensures IndexOf(s, c).None? <==> c !in s
    ensures IndexOf(s, c).Some? ==>
      var i := IndexOf(s, c).value; s[i] == c && c !in s[..i]
    decreases |s|
  {
    if |s| > 0 && s[0] != c {
      IndexOfFirst(s[1..], c);
      assert s == [s[0]] + s[1..];
      match IndexOf(s[1..], c)
      case None =>
      case Some(i) =>
        assert s[..i + 1] == [s[0]] + s[1..][..i];
    }
  }

  /** The pieces between separators, joined back with the separator. */
  function Join(parts: seq<string>, sep: char): string
    requires |parts| >= 1
  {
    if |parts| == 1 then parts[0] else parts[0] + [sep] + Join(parts[1..], sep)
  }

  /**
   * All pieces of `s` between occurrences of `sep`, in order; an empty string and
   * adjacent separators give empty pieces, and there is always at least one piece.
   */
  function Split(s: string, sep: char): (parts: seq<string>)
    ensures |parts| >= 1
    decreases |s|
  {
    match IndexOf(s, sep)
    case None => [s]
    case Some(i) => [s[..i]] + Split(s[i + 1..], sep)
  }

  /** No piece contains the separator. */
  lemma {:induction false} SplitPiecesFree(s: string, sep: char)
    ensures forall i :: 0 <= i < |Split(s, sep)| ==> sep !in Split(s, sep)[i]
    decreases |s|
  {
    IndexOfFirst(s, sep);
    match IndexOf(s, sep)
    case None =>
    case Some(i) =>
      SplitPiecesFree(s[i + 1..], sep);
  }

  /** Joining the pieces with the separator gives back the original string. */
  lemma {:induction false} SplitJoinRoundTrip(s: string, sep: char)
    ensures Join(Split(s, sep), sep) == s
    decreases |s|
  {
    IndexOfFirst(s, sep);
    match IndexOf(s, sep)
    case None =>
    case Some(i) =>
      var rest := Split(s[i + 1..], sep);
      SplitJoinRoundTrip(s[i + 1..], sep);
      assert ([s[..i]] + rest)[1..] == rest;
      assert s == s[..i] + [sep] + s[i + 1..];
  }

  /** There is one piece more than there are separators. */
  lemma {:induction false} SplitCount(s: string, sep: char)
    ensures |Split(s, sep)| == multiset(s)[sep] + 1
    decreases |s|
  {
    IndexOfFirst(s, sep);
    match IndexOf(s, sep)
    case None =>
      assert multiset(s)[sep] == 0;
    case Some(i) =>
      SplitCount(s[i + 1..], sep);
      assert s == s[..i] + [sep] + s[i + 1..];
      assert multiset(s) == multiset(s[..i]) + multiset{sep} + multiset(s[i + 1..]);
      assert multiset(s[..i])[sep] == 0;
  }

  /** A string without the separator is a single piece. */
  lemma SplitWithout(a: string, sep: char)
    requires sep !in a
    ensures Split(a, sep) == [a]
  {
    IndexOfFirst(a, sep);
  }

  /** The piece before the first separator comes first, the rest is split again. */
  lemma SplitAt(a: string, sep: char, b: string)
    requires sep !in a
    ensures Split(a + [sep] + b, sep) == [a] + Split(b, sep)
  {
    var s := a + [sep] + b;
    IndexOfFirst(s, sep);
    var r := IndexOf(s, sep);
    assert s[|a|] == sep;
    assert r.Some?;
    assert s[..|a|] == a;
    assert s[|a| + 1..] == b;
  }

  /** The first piece of `r rest` is `r` when `rest` is empty or starts with the separator. */
  lemma SplitHead(r: string, sep: char, rest: string)
    requires sep !in r
    requires rest == [] || rest[0] == sep
    ensures Split(r + rest, sep)[0] == r
  {
    if rest == [] {
      assert r + rest == r;
      SplitWithout(r, sep);
    } else {
      assert r + rest == r + [sep] + rest[1..];
      SplitAt(r, sep, rest[1..]);
    }
  }

  /** The first two pieces of `l sep r rest` are `l` and `r` when `rest` is empty or starts a new piece. */
  lemma SplitFirstTwo(l: string, sep: char, r: string, rest: string)
    requires sep !in l && sep !in r
    requires rest == [] || rest[0] == sep
    ensures |Split(l + [sep] + r + rest, sep)| >= 2
    ensures Split(l + [sep] + r + rest, sep)[0] == l
    ensures Split(l + [sep] + r + rest, sep)[1] == r
  {
    var tail := r + rest;
    assert l + [sep] + r + rest == l + [sep] + tail;
    SplitAt(l, sep, tail);
    SplitHead(r, sep, rest);
  }

  // ---------------------------------------------------------------------------
  // Suffixes (Rust `str::ends_with`)
  // ---------------------------------------------------------------------------

  predicate EndsWith(s: string, suffix: string) {
    |suffix| <= |s| && s[|s| - |suffix|..] == suffix
  }

  // ---------------------------------------------------------------------------
  // Decimal numerals
  // ---------------------------------------------------------------------------

  predicate IsDigit(c: char) {
    '0' <= c <= '9'
  }

  /** Every character is a decimal digit (read from the back, as numerals are valued). */
  predicate AllDigits(s: string) {
    |s| == 0 || (IsDigit(s[|s| - 1]) && AllDigits(s[..|s| - 1]))
  }

  /** A non-empty run of decimal digits. */
  predicate IsDigits(s: string) {
    |s| > 0 && AllDigits(s)
  }

  /** The recursive digit test agrees with the character-by-character one. */
  lemma {:induction false} AllDigitsChars(s: string)
    ensures AllDigits(s) <==> forall k :: 0 <= k < |s| ==> IsDigit(s[k])
    decreases |s|
  {
    if |s| > 0 {
      AllDigitsChars(s[..|s| - 1]);
    }
  }

  function DigitValue(c: char): (d: nat)
    requires IsDigit(c)
    ensures d < 10
  {
    (c as int) - ('0' as int)
  }

  function DigitChar(d: nat): (c: char)
    requires d < 10
    ensures IsDigit(c) && DigitValue(c) == d
  {
    (('0' as int) + d) as char
  }

  /** Value of a digit string read most-significant digit first. */
  function DigitsValue(s: string): nat
    requires AllDigits(s)
  {
    if |s| == 0 then 0 else 10 * DigitsValue(s[..|s| - 1]) + DigitValue(s[|s| - 1])
  }

  /**
   * A decimal numeral with an optional leading '+', the integer forms that both
   * Rust's `str::parse` and Python's `int()` accept; anything else is no number.
   */
  function ParseNat(s: string): (r: Option<nat>)
    ensures r.Some? ==> |s| > 0 && s[0] != '-' && s[0] != ':' && !IsWhitespace(s[0])
  {
    if IsDigits(s) then
      AllDigitsChars(s);
      Some(DigitsValue(s))
    else if |s| > 0 && s[0] == '+' && IsDigits(s[1..]) then Some(DigitsValue(s[1..]))
    else None
  }

  /** A numeral is trimmed and holds no ':', '-' or en dash. */
  lemma ParseNatShape(s: string)
    requires ParseNat(s).Some?
    ensures IsTrimmed(s) && ':' !in s && '-' !in s && EnDash !in s
  {
    if IsDigits(s) {
      AllDigitsChars(s);
    } else {
      AllDigitsChars(s[1..]);
      assert s == [s[0]] + s[1..];
      assert s[|s| - 1] == s[1..][|s| - 2];
    }
  }

  /** Shortest decimal rendering of `n`. */
  function NatToString(n: nat): (s: string)
    ensures IsDigits(s)
  {
    if n < 10 then [DigitChar(n)]
    else
      var s := NatToString(n / 10) + [DigitChar(n % 10)];
      assert s[..|s| - 1] == NatToString(n / 10);
      s
  }

  /** Decimal rendering of `n` padded with a leading zero to at least two digits. */
  function Pad2(n: nat): (s: string)
    ensures IsDigits(s)
  {
    if n < 10 then
      var s := ['0'] + NatToString(n);
      assert s[..|s| - 1] == ['0'];
      s
    else NatToString(n)
  }

  lemma {:induction false} DigitsValueRoundTrip(n: nat)
    ensures DigitsValue(NatToString(n)) == n
  {
    if n >= 10 {
      var s := NatToString(n);
      assert s[..|s| - 1] == NatToString(n / 10);
      DigitsValueRoundTrip(n / 10);
    }
  }

  /** A leading zero does not change a numeral's value. */
  lemma {:induction false} DigitsValueLeadingZero(s: string)
    requires AllDigits(s)
    ensures AllDigits(['0'] + s) && DigitsValue(['0'] + s) == DigitsValue(s)
    decreases |s|
  {
    if |s| > 0 {
      var t := ['0'] + s;
      assert t[..|t| - 1] == ['0'] + s[..|s| - 1];
      DigitsValueLeadingZero(s[..|s| - 1]);
    }
  }

  /** Parsing inverts rendering, with or without the padding zero. */
  lemma ParseNatRoundTrip(n: nat)
    ensures ParseNat(NatToString(n)) == Some(n)
    ensures ParseNat(Pad2(n)) == Some(n)
  {
    DigitsValueRoundTrip(n);
    if n < 10 {
      DigitsValueLeadingZero(NatToString(n));
    }
  }
}
