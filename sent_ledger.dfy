/**
 * The "Enviado" (sent) column of the roster: a comma- or space-separated
 * list of the years in which a row's birthday was already announced
 * (ya_enviado_en_anio reads it, marcar_enviado appends to it).
 */
module SentLedger {
  import opened Wrappers
  import opened PyText
  import opened Sheet

  /** Header of the column that records the years already announced. */
  const SentColumn := "Enviado"

  /** Why marcar_enviado raised. */
  datatype LedgerError = NoSentColumn

  /**
   * ya_enviado_en_anio(value, year): nothing is recorded for None; otherwise
   * the year counts as sent when str(year) is one of the tokens of the
   * stripped value (split on runs of commas and whitespace).
   */
  function AlreadySentIn(value: Option<string>, year: int): (sent: bool)
    ensures value.None? ==> !sent
  {
    value.Some? && IntToString(year) in Tokens(Strip(value.value))
  }

  /**
   * The value marcar_enviado writes for `year` over the current cell value:
   * the cell unchanged when str(year) already occurs in it as a substring,
   * the year appended after a comma when the cell holds anything but
   * whitespace, and the year alone otherwise.
   */
  function MarkedValue(current: string, year: int): (r: string)
    ensures Contains(r, IntToString(year))
    ensures current != "" && Contains(current, IntToString(year)) ==> r == current
    ensures !Contains(current, IntToString(year)) && Strip(current) != "" ==> r == current + "," + IntToString(year)
    ensures Strip(current) == "" && !Contains(current, IntToString(year)) ==> r == IntToString(year)
  {
    var y := IntToString(year);
    if current != "" && Contains(current, y) then current
    else if current != "" && Strip(current) != "" then
      assert OccursAt(current + "," + y, y, |current| + 1);
      current + "," + y
    else
      assert OccursAt(y, y, 0);
      y
  }

  /** Marking twice with the same year writes the same value as marking once. */
  lemma MarkedValueIdempotent(current: string, year: int)
    ensures MarkedValue(MarkedValue(current, year), year) == MarkedValue(current, year)
  {
    var r := MarkedValue(current, year);
    assert r != "" by {
      var i :| 0 <= i <= |r| - |IntToString(year)| && OccursAt(r, IntToString(year), i);
    }
  }

  lemma YearIsToken(year: int)
    ensures Avoids(IntToString(year), IsTokenSep)
  {
    var y := IntToString(year);
    forall i | 0 <= i < |y| ensures !IsTokenSep(y[i]) {
      if IsDigit(y[i]) { DigitIsNotSpace(y[i]); }
    }
  }

  /**
   * Marking a value that does not yet contain the year as a substring makes
   * ya_enviado_en_anio report the year as sent.
   */
  lemma MarkThenCheck(current: string, year: int)
    requires !Contains(current, IntToString(year))
    ensures AlreadySentIn(Some(MarkedValue(current, year)), year)
  {
    var y := IntToString(year);
    YearIsToken(year);
    TokensOfWord(y);
    var r := MarkedValue(current, year);
    TokensOfStrip(r);
    if Strip(current) != "" {
      assert r == current + [','] + y;
      TokensConcat(current, ',', y);
      assert Tokens(r) == Tokens(current) + [y];
    }
  }

  // ---------------------------------------------------------------- tokens are substrings

  /**
   * `sub` occurs in `s` at index `i` as a whole token: the characters just
   * before and just after it are separators or the ends of `s`.
   */
  predicate DelimitedAt(s: string, sub: string, i: int, isSep: char -> bool) {
    && OccursAt(s, sub, i)
    && (i == 0 || isSep(s[i - 1]))
    && (i + |sub| == |s| || isSep(s[i + |sub|]))
  }

  /** The first piece of a split is a prefix of the string, ended by a separator or by the end. */
  lemma {:induction false} FirstPieceIsPrefix(s: string, isSep: char -> bool)
    ensures var p := Split(s, isSep)[0]; |p| <= |s| && s[..|p|] == p && (|p| == |s| || isSep(s[|p|]))
    decreases |s|
  {
    if s != [] {
      FirstPieceIsPrefix(s[1..], isSep);
      var rest := Split(s[1..], isSep);
      if !isSep(s[0]) {
        var n := |rest[0]|;
        assert n < |s| - 1 ==> s[n + 1] == s[1..][n];
      }
    }
  }

  /** Every piece of a split occurs in the string as a whole token, at the index returned. */
  lemma {:induction false} PieceOffset(s: string, isSep: char -> bool, k: nat) returns (i: nat)
    requires k < |Split(s, isSep)|
    ensures DelimitedAt(s, Split(s, isSep)[k], i, isSep)
    ensures k == 0 <==> i == 0
    decreases |s|
  {
    if k == 0 {
      FirstPieceIsPrefix(s, isSep);
      i := 0;
    } else {
      var rest := Split(s[1..], isSep);
      var k' := if isSep(s[0]) then k - 1 else k;
      assert Split(s, isSep)[k] == rest[k'];
      var j := PieceOffset(s[1..], isSep, k');
      DelimitedShift(s, rest[k'], j, isSep);
      i := j + 1;
    }
  }

  /** A whole-token occurrence after the first character, preceded by a separator, is one in the whole string. */
  lemma DelimitedShift(s: string, p: string, j: nat, isSep: char -> bool)
    requires s != [] && DelimitedAt(s[1..], p, j, isSep) && (j > 0 || isSep(s[0]))
    ensures DelimitedAt(s, p, j + 1, isSep)
  {
    var n := |p|;
    var t := s[1..];
    assert j + n <= |t| == |s| - 1;
    var here, there := s[j + 1..j + 1 + n], t[j..j + n];
    forall m | 0 <= m < n
      ensures here[m] == there[m]
    {
      assert there[m] == t[j + m] == s[j + m + 1];
    }
    assert here == there;
    assert j > 0 ==> s[j] == s[1..][j - 1];
    assert j + n < |s| - 1 ==> s[j + 1 + n] == s[1..][j + n];
  }

  /** A separator-free prefix followed by a separator or by the end is the first piece. */
  lemma {:induction false} FirstPieceOf(t: string, y: string, isSep: char -> bool)
    requires Avoids(y, isSep) && |y| <= |t| && t[..|y|] == y
    requires |y| == |t| || isSep(t[|y|])
    ensures Split(t, isSep)[0] == y
    decreases |y|
  {
    if y != [] {
      assert t[0] == y[0];
      assert t[1..][..|y| - 1] == y[1..];
      assert |y| < |t| ==> t[1..][|y| - 1] == t[|y|];
      FirstPieceOf(t[1..], y[1..], isSep);
      assert [y[0]] + y[1..] == y;
    }
  }

  /** A whole-token occurrence of a separator-free string is one of the pieces. */
  lemma DelimitedIsPiece(t: string, y: string, i: int, isSep: char -> bool)
    requires Avoids(y, isSep) && DelimitedAt(t, y, i, isSep)
    ensures y in Split(t, isSep)
  {
    var after := t[i..];
    assert after[..|y|] == y;
    assert i + |y| < |t| ==> after[|y|] == t[i + |y|];
    FirstPieceOf(after, y, isSep);
    if i > 0 {
      assert t == t[..i - 1] + [t[i - 1]] + after;
      SplitConcat(t[..i - 1], t[i - 1], after, isSep);
    }
  }

  /**
   * A non-empty string without commas or whitespace is a token of `s` exactly
   * when it occurs in `s` with a comma, whitespace or an end of `s` on each side.
   */
  lemma TokenIffDelimited(s: string, y: string)
    requires y != "" && Avoids(y, IsTokenSep)
    ensures y in Tokens(s) <==> exists i :: DelimitedAt(s, y, i, IsTokenSep)
  {
    var parts := Split(s, IsTokenSep);
    if y in Tokens(s) {
      var k :| 0 <= k < |parts| && parts[k] == y;
      var i := PieceOffset(s, IsTokenSep, k);
    }
    if exists i :: DelimitedAt(s, y, i, IsTokenSep) {
      var i :| DelimitedAt(s, y, i, IsTokenSep);
      DelimitedIsPiece(s, y, i, IsTokenSep);
    }
  }

  /**
   * ya_enviado_en_anio says "sent" exactly when the cell has a value in whose
   * stripped text str(year) stands as a whole token, between commas,
   * whitespace or the ends of the text, and not as part of a longer number.
   */
  lemma AlreadySentMeaning(value: Option<string>, year: int)
    ensures AlreadySentIn(value, year) <==>
      value.Some? && exists i :: DelimitedAt(Strip(value.value), IntToString(year), i, IsTokenSep)
  {
    if value.Some? {
      YearIsToken(year);
      TokenIffDelimited(Strip(value.value), IntToString(year));
    }
  }

  lemma TokenOccurs(s: string, t: string)
    requires t in Tokens(s)
    ensures Contains(s, t)
  {
    var parts := Split(s, IsTokenSep);
    var k :| 0 <= k < |parts| && parts[k] == t;
    var i := PieceOffset(s, IsTokenSep, k);
  }

  /**
   * A year ya_enviado_en_anio reports as sent also occurs as a substring, so
   * marking it again leaves the cell unchanged.
   */
  lemma SentYearIsSubstring(value: string, year: int)
    requires AlreadySentIn(Some(value), year)
    ensures Contains(value, IntToString(year))
    ensures MarkedValue(value, year) == value
  {
    TokensOfStrip(value);
    TokenOccurs(value, IntToString(year));
  }

  /**
   * The two tests disagree: with the cell "12025", 2025 is not a token, so the
   * row counts as not sent, yet "2025" is a substring, so marking writes the
   * cell back unchanged.
   */
  lemma SubstringMarkDisagrees(value: string)
    requires value == "12025"
    ensures !AlreadySentIn(Some(value), 2025)
    ensures MarkedValue(value, 2025) == value
  {
    YearText();
    assert OccursAt(value, "2025", 1);
    assert Avoids(value, IsTokenSep);
    TokensOfWord(value);
    StripStripped(value);
  }

  lemma YearText()
    ensures IntToString(2025) == "2025"
  {
    assert NatToString(2025) == NatToString(202) + "5";
  }

  // ---------------------------------------------------------------- marcar_enviado

  /**
   * marcar_enviado(ws, row, year): find the "Enviado" column in the header
   * (failing before any write when there is none), read the cell of `row` in
   * it and write back MarkedValue of it. No other cell changes.
   */
  method MarkSent(ws: Worksheet, row: int, year: int) returns (r: Outcome<LedgerError>)
    requires ws.Valid() && 1 <= row <= |ws.rows| + 1
    modifies ws
    ensures ws.Valid()
    ensures r.Fail? <==> SentColumn !in old(ws.header)
    ensures r.Fail? ==> ws.header == old(ws.header) && ws.rows == old(ws.rows)
    ensures r.Pass? ==>
      var col := IndexOf(old(ws.header), SentColumn) + 1;
      && ws.InSheet(row, col)
      && ws.Cell(row, col) == MarkedValue(old(ws.Cell(row, col)), year)
      && (forall r', c' | old(ws.InSheet(r', c')) && (r', c') != (row, col) ::
            ws.InSheet(r', c') && ws.Cell(r', c') == old(ws.Cell(r', c')))
      && (row >= 2 ==> ws.header == old(ws.header)
                       && ws.rows == old(ws.rows)[row - 2 := old(ws.rows)[row - 2][col - 1 := MarkedValue(old(ws.rows)[row - 2][col - 1], year)]])
  {
    var headers := ws.RowValues();
    if SentColumn !in headers {
      return Fail(NoSentColumn);
    }
    var col := IndexOf(headers, SentColumn) + 1;
    var current := ws.Cell(row, col);
    ws.UpdateCell(row, col, MarkedValue(current, year));
    return Pass;
  }
}
