/**
 * The pieces of Python's str behaviour that the reminder logic relies on:
 * str.isspace/str.strip, str.split on one separator, re.split on a character
 * class followed by dropping empty pieces, the `in` substring test, int(str),
 * str(int) and the `02d` format. Strings are sequences of Unicode code points,
 * as Python's str is.
 */
module PyText {
  import opened Wrappers

  /** The characters for which str.isspace() holds; a regex `\s` matches exactly these. */
  predicate IsSpace(c: char) {
    ('\U{0009}' <= c <= '\U{000D}') || ('\U{001C}' <= c <= '\U{0020}') ||
    c == '\U{0085}' || c == '\U{00A0}' || c == '\U{1680}' ||
    ('\U{2000}' <= c <= '\U{200A}') || c == '\U{2028}' || c == '\U{2029}' ||
    c == '\U{202F}' || c == '\U{205F}' || c == '\U{3000}'
  }

  predicate IsDigit(c: char) {
    '0' <= c <= '9'
  }

  lemma DigitIsNotSpace(c: char)
    requires IsDigit(c)
    ensures !IsSpace(c)
  {
  }

  /** True when every character of `s` is whitespace (Python: `not s.strip()`). */
  predicate IsBlank(s: string) {
    forall i :: 0 <= i < |s| ==> IsSpace(s[i])
  }

  /** No character of `t` satisfies `isSep`. */
  predicate Avoids(t: string, isSep: char -> bool) {
    forall i :: 0 <= i < |t| ==> !isSep(t[i])
  }

  // ---------------------------------------------------------------- strip

  /** str.lstrip(): the longest suffix of `s` that does not start with whitespace. */
  function StripLeft(s: string): (r: string)
    ensures |r| <= |s| && r == s[|s| - |r|..]
    ensures forall i :: 0 <= i < |s| - |r| ==> IsSpace(s[i])
    ensures r == [] || !IsSpace(r[0])
  {
    if |s| > 0 && IsSpace(s[0]) then StripLeft(s[1..]) else s
  }

  /** str.rstrip(): the longest prefix of `s` that does not end with whitespace. */
  function StripRight(s: string): (r: string)
    ensures |r| <= |s| && r == s[..|r|]
    ensures forall i :: |r| <= i < |s| ==> IsSpace(s[i])
    ensures r == [] || !IsSpace(r[|r| - 1])
  {
    if |s| > 0 && IsSpace(s[|s| - 1]) then StripRight(s[..|s| - 1]) else s
  }

  /** str.strip(): leading and trailing whitespace removed, nothing else. */
  function Strip(s: string): (r: string)
    ensures r == [] || (!IsSpace(r[0]) && !IsSpace(r[|r| - 1]))
  {
    StripRight(StripLeft(s))
  }

  /** str.strip() leaves nothing exactly when the string is all whitespace. */
  lemma StripBlank(s: string)
    ensures Strip(s) == [] <==> IsBlank(s)
  {
    var l := StripLeft(s);
    assert IsBlank(s) ==> IsBlank(l);
    assert IsBlank(l) ==> l == [];
  }

  /** A string that starts and ends with a non-space character is its own strip. */
  lemma StripStripped(s: string)
    requires s == [] || (!IsSpace(s[0]) && !IsSpace(s[|s| - 1]))
    ensures Strip(s) == s
  {
  }

  /** A string that starts with a non-space character loses only its trailing whitespace. */
  lemma StripOfSolidStart(s: string)
    requires s != [] && !IsSpace(s[0])
    ensures Strip(s) == StripRight(s)
  {
    assert StripLeft(s) == s;
  }

  lemma ConcatAssoc<T>(x: seq<T>, y: seq<T>, z: seq<T>)
    ensures x + y + z == x + (y + z)
  {
  }

  /** Stripping a string with a prefix that starts and ends in non-space characters only touches the suffix. */
  lemma StripAfterSolid(p: string, q: string)
    requires p != [] && !IsSpace(p[0]) && !IsSpace(p[|p| - 1])
    ensures Strip(p + q) == p + StripRight(q)
  {
    assert (p + q)[0] == p[0];
    StripOfSolidStart(p + q);
    StripRightConcat(p, q);
  }

  /** Whitespace after a non-space prefix is stripped from the suffix alone. */
  lemma {:induction false} StripRightConcat(p: string, q: string)
    requires p != [] && !IsSpace(p[|p| - 1])
    ensures StripRight(p + q) == p + StripRight(q)
    decreases |q|
  {
    if q != [] && IsSpace(q[|q| - 1]) {
      assert (p + q)[..|p + q| - 1] == p + q[..|q| - 1];
      StripRightConcat(p, q[..|q| - 1]);
    } else {
      assert (p + q)[|p + q| - 1] == if q == [] then p[|p| - 1] else q[|q| - 1];
    }
  }

  // ---------------------------------------------------------------- split

  /** The separator of str.split("/"). */
  predicate IsSlash(c: char) {
    c == '/'
  }

  /** The separator of str.split(","). */
  predicate IsComma(c: char) {
    c == ','
  }

  /** The characters `re.split(r"[,\s]+", …)` cuts at. */
  predicate IsTokenSep(c: char) {
    c == ',' || IsSpace(c)
  }

  /**
   * `s` cut at every character satisfying `isSep`, keeping empty pieces: with
   * IsSlash or IsComma this is Python's s.split("/") or s.split(",").
   */
  function Split(s: string, isSep: char -> bool): (parts: seq<string>)
    ensures |parts| >= 1
    decreases |s|
  {
    if |s| == 0 then [""]
    else
      var rest := Split(s[1..], isSep);
      if isSep(s[0]) then [""] + rest
      else [[s[0]] + rest[0]] + rest[1..]
  }

  /** No piece of a split holds a separator. */
  lemma {:induction false} SplitPiecesAvoid(s: string, isSep: char -> bool)
    ensures forall p | p in Split(s, isSep) :: Avoids(p, isSep)
    decreases |s|
  {
    if |s| > 0 {
      SplitPiecesAvoid(s[1..], isSep);
      var rest := Split(s[1..], isSep);
      if !isSep(s[0]) {
        var head := [s[0]] + rest[0];
        assert rest[0] in rest;
        assert forall i :: 1 <= i < |head| ==> head[i] == rest[0][i - 1];
        assert forall p | p in rest[1..] :: p in rest;
      }
    }
  }

  /** sep.join(parts) for a one-character separator. */
  function Join(parts: seq<string>, sep: char): string
  {
    if |parts| == 0 then ""
    else if |parts| == 1 then parts[0]
    else parts[0] + [sep] + Join(parts[1..], sep)
  }

  /** Cutting at a separator splits the result into the pieces of both sides. */
  lemma {:induction false} SplitConcat(a: string, c: char, b: string, isSep: char -> bool)
    requires isSep(c)
    ensures Split(a + [c] + b, isSep) == Split(a, isSep) + Split(b, isSep)
    decreases |a|
  {
    var s := a + [c] + b;
    if a == [] {
      assert s[1..] == b;
    } else {
      assert s[1..] == a[1..] + [c] + b;
      SplitConcat(a[1..], c, b, isSep);
    }
  }

  /** A string without separators is a single piece. */
  lemma {:induction false} SplitAvoiding(t: string, isSep: char -> bool)
    requires Avoids(t, isSep)
    ensures Split(t, isSep) == [t]
    decreases |t|
  {
    if t != [] {
      SplitAvoiding(t[1..], isSep);
      assert [t[0]] + t[1..] == t;
    }
  }

  /** Joining pieces free of separators and splitting again gives the pieces back. */
  lemma {:induction false} SplitJoin(parts: seq<string>, c: char, isSep: char -> bool)
    requires isSep(c) && |parts| >= 1
    requires forall p | p in parts :: Avoids(p, isSep)
    ensures Split(Join(parts, c), isSep) == parts
    decreases |parts|
  {
    SplitAvoiding(parts[0], isSep);
    if |parts| > 1 {
      SplitConcat(parts[0], c, Join(parts[1..], c), isSep);
      SplitJoin(parts[1..], c, isSep);
      assert [parts[0]] + parts[1..] == parts;
    }
  }

  /** Splitting on a character and joining with it again gives the string back. */
  lemma {:induction false} JoinSplit(s: string, c: char)
    ensures Join(Split(s, x => x == c), c) == s
    decreases |s|
  {
    var isSep := x => x == c;
    if s != [] {
      JoinSplit(s[1..], c);
      var rest := Split(s[1..], isSep);
      if s[0] != c && |rest| > 1 {
        assert Join(rest, c) == rest[0] + [c] + Join(rest[1..], c);
      }
      assert [s[0]] + s[1..] == s;
    }
  }

  // ---------------------------------------------------------------- tokens

  /** The pieces that are not empty, in order. */
  function NonEmpty(parts: seq<string>): (r: seq<string>)
    ensures forall t | t in r :: t != "" && t in parts
    ensures forall t | t in parts && t != "" :: t in r
  {
    if parts == [] then []
    else if parts[0] == "" then NonEmpty(parts[1..])
    else [parts[0]] + NonEmpty(parts[1..])
  }

  lemma {:induction false} NonEmptyConcat(a: seq<string>, b: seq<string>)
    ensures NonEmpty(a + b) == NonEmpty(a) + NonEmpty(b)
    decreases |a|
  {
    if a != [] {
      assert (a + b)[0] == a[0];
      assert (a + b)[1..] == a[1..] + b;
      NonEmptyConcat(a[1..], b);
      if a[0] == "" {
        assert NonEmpty(a + b) == NonEmpty(a[1..] + b);
      } else {
        assert NonEmpty(a + b) == [a[0]] + (NonEmpty(a[1..]) + NonEmpty(b));
        assert NonEmpty(a) == [a[0]] + NonEmpty(a[1..]);
      }
    } else {
      assert a + b == b;
    }
  }

  /**
   * `[t for t in re.split(r"[,\s]+", s) if t]`: the maximal runs of characters
   * that are neither commas nor whitespace. Cutting at every single separator
   * and dropping the empty pieces gives the same runs as cutting at runs of
   * separators.
   */
  function Tokens(s: string): (r: seq<string>)
    ensures forall t | t in r :: t != "" && Avoids(t, IsTokenSep)
  {
    SplitPiecesAvoid(s, IsTokenSep);
    NonEmpty(Split(s, IsTokenSep))
  }

  /** A string made only of separators has no tokens. */
  lemma {:induction false} TokensOfSeparators(s: string)
    requires forall i :: 0 <= i < |s| ==> IsTokenSep(s[i])
    ensures Tokens(s) == []
    decreases |s|
  {
    if s != [] {
      TokensOfSeparators(s[1..]);
      var rest := Split(s[1..], IsTokenSep);
      var parts := [""] + rest;
      assert Split(s, IsTokenSep) == parts;
      assert parts[0] == "" && parts[1..] == rest;
      assert NonEmpty(parts) == NonEmpty(rest);
    } else {
      assert Split(s, IsTokenSep) == [""];
      assert [""][1..] == [];
      assert NonEmpty([""]) == NonEmpty([]);
    }
  }

  /** A separator between two strings splits their tokens apart. */
  lemma TokensConcat(a: string, c: char, b: string)
    requires IsTokenSep(c)
    ensures Tokens(a + [c] + b) == Tokens(a) + Tokens(b)
  {
    SplitConcat(a, c, b, IsTokenSep);
    NonEmptyConcat(Split(a, IsTokenSep), Split(b, IsTokenSep));
  }

  /** Leading whitespace does not change the tokens. */
  lemma TokensOfStripLeft(s: string)
    ensures Tokens(StripLeft(s)) == Tokens(s)
  {
    var l := StripLeft(s);
    var i := |s| - |l|;
    if i > 0 {
      TokensOfSeparators(s[..i - 1]);
      TokensConcat(s[..i - 1], s[i - 1], l);
      assert s[..i - 1] + [s[i - 1]] + l == s;
    }
  }

  /** Trailing whitespace does not change the tokens. */
  lemma TokensOfStripRight(s: string)
    ensures Tokens(StripRight(s)) == Tokens(s)
  {
    var r := StripRight(s);
    if |r| < |s| {
      TokensOfSeparators(s[|r| + 1..]);
      TokensConcat(r, s[|r|], s[|r| + 1..]);
      assert r + [s[|r|]] + s[|r| + 1..] == s;
    }
  }

  /** Stripping whitespace does not change the tokens. */
  lemma TokensOfStrip(s: string)
    ensures Tokens(Strip(s)) == Tokens(s)
  {
    TokensOfStripLeft(s);
    TokensOfStripRight(StripLeft(s));
  }

  /** A non-empty string without separators is one token. */
  lemma TokensOfWord(t: string)
    requires t != [] && Avoids(t, IsTokenSep)
    ensures Tokens(t) == [t]
  {
    SplitAvoiding(t, IsTokenSep);
    assert [t][0] == t && [t][1..] == [];
    assert NonEmpty([t]) == [t] + NonEmpty([]);
  }

  // ---------------------------------------------------------------- substrings

  /** Python's `sub in s` for two strings. */
  predicate Contains(s: string, sub: string) {
    exists i | 0 <= i <= |s| - |sub| :: OccursAt(s, sub, i)
  }

  /** `sub` is the slice of `s` that starts at index `i`. */
  predicate OccursAt(s: string, sub: string, i: int) {
    0 <= i <= |s| - |sub| && s[i..i + |sub|] == sub
  }

  // ---------------------------------------------------------------- integers

  function DigitValue(c: char): nat
    requires IsDigit(c)
  {
    (c as int) - ('0' as int)
  }

  function DigitChar(n: nat): (c: char)
    requires n < 10
    ensures IsDigit(c) && DigitValue(c) == n
  {
    ('0' as int + n) as char
  }

  predicate AllDigits(s: string) {
    forall i :: 0 <= i < |s| ==> IsDigit(s[i])
  }

  /** The number a string of decimal digits denotes. */
  function DigitsValue(s: string): nat
    requires AllDigits(s)
  {
    if s == [] then 0 else DigitsValue(s[..|s| - 1]) * 10 + DigitValue(s[|s| - 1])
  }

  /** str(n) for n >= 0: decimal digits, no leading zero. */
  function NatToString(n: nat): (s: string)
    ensures |s| >= 1 && AllDigits(s)
    ensures s[0] != '0' || n == 0
    decreases n
  {
    if n < 10 then [DigitChar(n)] else NatToString(n / 10) + [DigitChar(n % 10)]
  }

  /** str(n): a minus sign for negative numbers, then the digits. */
  function IntToString(n: int): (s: string)
    ensures |s| >= 1 && !IsSpace(s[0]) && !IsSpace(s[|s| - 1])
    ensures forall i :: 0 <= i < |s| ==> IsDigit(s[i]) || (i == 0 && s[i] == '-')
  {
    var digits := if n < 0 then NatToString(-n) else NatToString(n);
    DigitIsNotSpace(digits[|digits| - 1]);
    if n < 0 then "-" + digits else digits
  }

  /** f"{n:02d}": at least two characters, zero-padded on the left. */
  function ZeroPad2(n: int): (s: string)
    ensures |s| >= 2
    ensures n >= 0 ==> AllDigits(s)
    ensures 0 <= n < 100 ==> |s| == 2
  {
    if n < 0 then "-" + NatToString(-n)
    else if n < 10 then ['0', DigitChar(n)]
    else
      assert n < 100 ==> |NatToString(n)| == 2 by {
        if n < 100 { assert n / 10 < 10; }
      }
      NatToString(n)
  }

  /** The value of a two-digit string. */
  lemma TwoDigitsValue(s: string)
    requires |s| == 2 && AllDigits(s)
    ensures DigitsValue(s) == 10 * DigitValue(s[0]) + DigitValue(s[1])
  {
    assert s[..1][..0] == [] && s[..1][0] == s[0];
    assert DigitsValue(s[..1]) == DigitValue(s[0]);
  }

  lemma {:induction false} NatToStringValue(n: nat)
    ensures DigitsValue(NatToString(n)) == n
    decreases n
  {
    if n >= 10 {
      NatToStringValue(n / 10);
      var s := NatToString(n);
      assert s[..|s| - 1] == NatToString(n / 10);
    }
  }

  /**
   * The body of a Python integer literal as int() accepts it: ASCII digits,
   * with single underscores allowed between two digits.
   */
  predicate IsDigitLiteral(t: string) {
    |t| >= 1 && IsDigit(t[0]) && IsDigit(t[|t| - 1]) &&
    forall i :: 0 <= i < |t| ==> IsDigit(t[i]) || (t[i] == '_' && i + 1 < |t| && IsDigit(t[i + 1]))
  }

  function RemoveUnderscores(t: string): (r: string)
    ensures (forall i :: 0 <= i < |t| ==> IsDigit(t[i]) || t[i] == '_') ==> AllDigits(r)
  {
    if t == [] then [] else (if t[0] == '_' then [] else [t[0]]) + RemoveUnderscores(t[1..])
  }

  lemma {:induction false} RemoveUnderscoresOfDigits(t: string)
    requires AllDigits(t)
    ensures RemoveUnderscores(t) == t
    decreases |t|
  {
    if t != [] {
      RemoveUnderscoresOfDigits(t[1..]);
      assert [t[0]] + t[1..] == t;
    }
  }

  function LiteralValue(t: string): nat
    requires IsDigitLiteral(t)
  {
    forall i | 0 <= i < |t| ensures IsDigit(t[i]) || t[i] == '_' {
      assert IsDigit(t[i]) || (t[i] == '_' && i + 1 < |t| && IsDigit(t[i + 1]));
    }
    DigitsValue(RemoveUnderscores(t))
  }

  /**
   * The whitespace int() skips around a number: every str.isspace() character
   * except the four separators U+001C..U+001F, which CPython's int() copies
   * through unchanged (ASCII characters are only skipped when C isspace() holds).
   */
  predicate IsIntSpace(c: char) {
    IsSpace(c) && !('\U{001C}' <= c <= '\U{001F}')
  }

  /** The longest suffix of `s` that does not start with int() whitespace. */
  function IntStripLeft(s: string): (r: string)
    ensures |r| <= |s| && r == s[|s| - |r|..]
    ensures forall i :: 0 <= i < |s| - |r| ==> IsIntSpace(s[i])
    ensures r == [] || !IsIntSpace(r[0])
  {
    if |s| > 0 && IsIntSpace(s[0]) then IntStripLeft(s[1..]) else s
  }

  /** The longest prefix of `s` that does not end with int() whitespace. */
  function IntStripRight(s: string): (r: string)
    ensures |r| <= |s| && r == s[..|r|]
    ensures forall i :: |r| <= i < |s| ==> IsIntSpace(s[i])
    ensures r == [] || !IsIntSpace(r[|r| - 1])
  {
    if |s| > 0 && IsIntSpace(s[|s| - 1]) then IntStripRight(s[..|s| - 1]) else s
  }

  /** The text int() reads: `s` without the int() whitespace around it. */
  function IntStrip(s: string): (r: string)
    ensures r == [] || (!IsIntSpace(r[0]) && !IsIntSpace(r[|r| - 1]))
  {
    IntStripRight(IntStripLeft(s))
  }

  /** A string that starts and ends outside int() whitespace is read as it is. */
  lemma IntStripStripped(s: string)
    requires s == [] || (!IsIntSpace(s[0]) && !IsIntSpace(s[|s| - 1]))
    ensures IntStrip(s) == s
  {
  }

  /** What int() makes of the text left after stripping: an optional sign and a digit literal. */
  function ParseStripped(t: string): Option<int>
  {
    if |t| > 0 && (t[0] == '+' || t[0] == '-') then
      var body := t[1..];
      if IsDigitLiteral(body) then
        var v: int := LiteralValue(body);
        Some(if t[0] == '-' then -v else v)
      else None
    else if IsDigitLiteral(t) then Some(LiteralValue(t))
    else None
  }

  /**
   * int(s) for a str `s`: surrounding int() whitespace is ignored, then an
   * optional sign and a digit literal; anything else raises ValueError (None
   * here).
   */
  function ParseInt(s: string): (r: Option<int>)
    ensures var t := IntStrip(s); r.Some? ==>
      && t != [] && IsDigit(t[|t| - 1])
      && (IsDigit(t[0]) || t[0] == '+' || t[0] == '-')
      && (r.value < 0 ==> t[0] == '-')
  {
    ParseStrippedAccepts(IntStrip(s));
    ParseStripped(IntStrip(s))
  }

  /**
   * What int() accepts: the text starts with a digit or a sign and ends with a
   * digit, and only a leading minus sign gives a negative value.
   */
  lemma ParseStrippedAccepts(t: string)
    ensures ParseStripped(t).Some? ==>
      && t != [] && IsDigit(t[|t| - 1])
      && (IsDigit(t[0]) || t[0] == '+' || t[0] == '-')
      && (ParseStripped(t).value < 0 ==> t[0] == '-')
  {
    if ParseStripped(t).Some? && (t[0] == '+' || t[0] == '-') {
      assert t[|t| - 1] == t[1..][|t| - 2];
    }
  }

  /** A plain string of digits is a digit literal denoting its decimal value. */
  lemma DigitsAreLiteral(t: string)
    requires t != [] && AllDigits(t)
    ensures IsDigitLiteral(t) && LiteralValue(t) == DigitsValue(t)
  {
    RemoveUnderscoresOfDigits(t);
  }

  /** int() reads a plain string of digits as its decimal value, leading zeros included. */
  lemma ParseIntDigits(t: string)
    requires t != [] && AllDigits(t)
    ensures ParseInt(t) == Some(DigitsValue(t))
  {
    IntStripStripped(t);
    DigitsAreLiteral(t);
  }

  /** int(str(n)) == n. */
  lemma ParseIntOfIntToString(n: int)
    ensures ParseInt(IntToString(n)) == Some(n)
  {
    if n >= 0 {
      NatToStringValue(n);
      ParseIntDigits(NatToString(n));
    } else {
      ParseIntNegative(n);
    }
  }

  /** int() reads a minus sign followed by the digits of -n as n. */
  lemma ParseIntNegative(n: int)
    requires n < 0
    ensures ParseInt("-" + NatToString(-n)) == Some(n)
  {
    NatToStringValue(-n);
    ParseIntOfMinusDigits(NatToString(-n), -n);
  }

  /** A minus sign followed by plain digits is read as the negated decimal value. */
  lemma ParseIntOfMinusDigits(digits: string, v: int)
    requires digits != [] && AllDigits(digits) && DigitsValue(digits) == v
    ensures ParseInt("-" + digits) == Some(-v)
  {
    var s := "-" + digits;
    assert s[1..] == digits;
    assert IntStrip(s) == s by {
      assert s[0] == '-' && s[|s| - 1] == digits[|digits| - 1];
      IntStripStripped(s);
    }
    DigitsAreLiteral(digits);
    ParseIntOfSigned(s, v);
  }

  /** A stripped string made of a minus sign and a digit literal is read as the negated literal. */
  lemma ParseIntOfSigned(s: string, v: int)
    requires IntStrip(s) == s && |s| > 0 && s[0] == '-' && IsDigitLiteral(s[1..]) && LiteralValue(s[1..]) == v
    ensures ParseInt(s) == Some(-v)
  {
  }

  /** int(f"{n:02d}") == n: the zero padding reads back as the same number. */
  lemma ParseIntOfZeroPad2(n: int)
    ensures ParseInt(ZeroPad2(n)) == Some(n)
  {
    if n < 0 {
      ParseIntOfIntToString(n);
    } else if n < 10 {
      var s := ZeroPad2(n);
      assert s[..1] == "0" && "0"[..0] == [];
      assert DigitsValue(s) == n;
      ParseIntDigits(s);
    } else {
      NatToStringValue(n);
      ParseIntDigits(NatToString(n));
    }
  }

  /**
   * int() does not skip the separator characters U+001C..U+001F that
   * str.strip() removes: int("5\x1c") raises while "5\x1c".strip() == "5".
   */
  lemma IntKeepsSeparators(d: char, c: char)
    requires IsDigit(d) && '\U{001C}' <= c <= '\U{001F}'
    ensures ParseInt([d, c]) == None
    ensures Strip([d, c]) == [d]
  {
    var s := [d, c];
    assert ParseInt(s) == None by {
      IntStripStripped(s);
      ParseStrippedAccepts(s);
    }
    StripDropsSeparator(d, c);
  }

  lemma StripDropsSeparator(d: char, c: char)
    requires IsDigit(d) && '\U{001C}' <= c <= '\U{001F}'
    ensures Strip([d, c]) == [d]
  {
    var s := [d, c];
    DigitIsNotSpace(d);
    assert StripLeft(s) == s;
    assert s[..1] == [d];
  }
}
