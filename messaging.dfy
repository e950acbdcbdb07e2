/**
 * What a reminder says and whom it goes to: the message construir_mensaje
 * builds, the date main shows in it, and the recipient list read from the
 * NUMEROS_DESTINATARIOS setting.
 */
module Messaging {
  import opened Wrappers
  import opened PyText
  import opened Calendar
  import opened BirthdayDates

  // ---------------------------------------------------------------- construir_mensaje

  /** First line: party popper, then the bold title. */
  const TitleLine := "\U{1F389} *Recordatorio de Cumplea\U{F1}os*"
  /** Last line: inverted exclamation mark, the wish, cake and balloon. */
  const ClosingLine := "\U{A1}Felicidades anticipadas! \U{1F382}\U{1F388}"

  /** Second line: bust silhouette, the name in bold, the role in parentheses. */
  function PersonLine(name: string, role: string): string {
    "\U{1F464} *" + name + "* (" + role + ")"
  }

  /** Third line: calendar, then the date as shown. */
  function DateLine(date: string): string {
    "\U{1F4C5} " + date
  }

  predicate IsNewline(c: char) {
    c == '\n'
  }

  /** construir_mensaje(nombre, cargo, fecha_str). */
  function BuildMessage(name: string, role: string, date: string): (msg: string)
    ensures |msg| > |TitleLine| + |ClosingLine|
    ensures msg[..|TitleLine|] == TitleLine && msg[|msg| - |ClosingLine|..] == ClosingLine
  {
    TitleLine + "\n" + PersonLine(name, role) + "\n" + DateLine(date) + "\n\n" + ClosingLine
  }

  lemma PersonLineAvoids(name: string, role: string, isSep: char -> bool)
    requires Avoids(name, isSep) && Avoids(role, isSep)
    requires !isSep('\U{1F464}') && !isSep(' ') && !isSep('*') && !isSep('(') && !isSep(')')
    ensures Avoids(PersonLine(name, role), isSep)
  {
    var p := PersonLine(name, role);
    forall i | 0 <= i < |p| ensures !isSep(p[i]) {
      if 3 <= i < 3 + |name| {
        assert p[i] == name[i - 3];
      } else if 6 + |name| <= i < 6 + |name| + |role| {
        assert p[i] == role[i - 6 - |name|];
      }
    }
  }

  lemma DateLineAvoids(date: string, isSep: char -> bool)
    requires Avoids(date, isSep) && !isSep('\U{1F4C5}') && !isSep(' ')
    ensures Avoids(DateLine(date), isSep)
  {
    var l := DateLine(date);
    forall i | 0 <= i < |l| ensures !isSep(l[i]) {
      if i >= 2 { assert l[i] == date[i - 2]; }
    }
  }

  /** The message is its five lines joined by line breaks. */
  lemma MessageIsJoinedLines(name: string, role: string, date: string)
    ensures BuildMessage(name, role, date)
         == Join([TitleLine, PersonLine(name, role), DateLine(date), "", ClosingLine], '\n')
  {
    var t, p, d, c := TitleLine, PersonLine(name, role), DateLine(date), ClosingLine;
    var n := "\n";
    assert n == ['\n'] && "" + n == n && "\n\n" == n + n;
    assert Join([t, p, d, "", c], '\n') == (t + n) + ((p + n) + ((d + n) + (n + c))) by {
      assert ["", c][1..] == [c];
      assert Join(["", c], '\n') == "" + n + c;
      assert [d, "", c][1..] == ["", c];
      assert Join([d, "", c], '\n') == (d + n) + Join(["", c], '\n');
      assert [p, d, "", c][1..] == [d, "", c];
      assert Join([p, d, "", c], '\n') == (p + n) + Join([d, "", c], '\n');
      assert [t, p, d, "", c][1..] == [p, d, "", c];
      assert Join([t, p, d, "", c], '\n') == (t + n) + Join([p, d, "", c], '\n');
    }
    ConcatAssoc(d + n, n, c);
    ConcatAssoc(d, n, n);
    ConcatAssoc(p + n, d + (n + n), c);
    ConcatAssoc(p + n, d, n + n);
    ConcatAssoc(t + n, (p + n) + d + (n + n), c);
    ConcatAssoc(t + n, (p + n) + d, n + n);
    ConcatAssoc(t + n, p + n, d);
    ConcatAssoc(t + n, p, n);
  }

  /**
   * When the name, role and date hold no line break, the message is exactly
   * five lines: title, person, date, a blank line, closing.
   */
  lemma MessageLines(name: string, role: string, date: string)
    requires Avoids(name, IsNewline) && Avoids(role, IsNewline) && Avoids(date, IsNewline)
    ensures Split(BuildMessage(name, role, date), IsNewline)
         == [TitleLine, PersonLine(name, role), DateLine(date), "", ClosingLine]
  {
    var lines := [TitleLine, PersonLine(name, role), DateLine(date), "", ClosingLine];
    PersonLineAvoids(name, role, IsNewline);
    DateLineAvoids(date, IsNewline);
    assert Avoids(TitleLine, IsNewline);
    assert Avoids(ClosingLine, IsNewline);
    MessageIsJoinedLines(name, role, date);
    SplitJoin(lines, '\n', IsNewline);
  }

  /** The name and the role sit, in that order, on the second line. */
  lemma MessageNamesPerson(name: string, role: string, date: string)
    ensures var msg := BuildMessage(name, role, date);
      var at := |TitleLine| + 4;
      && msg[at..at + |name|] == name
      && msg[at + |name| + 3..at + |name| + 3 + |role|] == role
  {
    PersonSlices(TitleLine + "\n", name, role, DateLine(date), ClosingLine);
  }

  /** The person line's name and role, located in any message laid out like construir_mensaje's. */
  lemma PersonSlices(head: string, name: string, role: string, date: string, closing: string)
    ensures var msg := head + PersonLine(name, role) + "\n" + date + "\n\n" + closing;
      && msg[|head| + 3..|head| + 3 + |name|] == name
      && msg[|head| + |name| + 6..|head| + |name| + 6 + |role|] == role
  {
    var msg := head + PersonLine(name, role) + "\n" + date + "\n\n" + closing;
    var p := PersonLine(name, role);
    var front := head + p;
    assert msg[..|front|] == front by {
      var rest := "\n" + date + "\n\n" + closing;
      assert msg == front + rest;
    }
    assert p[3..3 + |name|] == name;
    assert p[6 + |name|..6 + |name| + |role|] == role;
    SliceWithin(msg, front, |head|, p, 3, 3 + |name|);
    SliceWithin(msg, front, |head|, p, 6 + |name|, 6 + |name| + |role|);
  }

  /** A slice of a prefix's inner piece is the same slice of the whole. */
  lemma SliceWithin(s: string, front: string, k: nat, p: string, i: nat, j: nat)
    requires |front| <= |s| && s[..|front|] == front
    requires k + |p| <= |front| && front[k..k + |p|] == p && i <= j <= |p|
    ensures s[k + i..k + j] == p[i..j]
  {
    assert forall m | k + i <= m < k + j :: s[m] == front[m] == p[m - k];
  }

  // ---------------------------------------------------------------- fecha_mostrar

  /** f"{d:02d}/{m:02d}/{anio_evento}": the date main puts in the message. */
  function DisplayDate(day: int, month: int, year: int): (s: string)
    ensures 0 <= day < 100 && 0 <= month < 100 ==> |s| > 6 && s[2] == '/' && s[5] == '/'
  {
    ZeroPad2(day) + "/" + ZeroPad2(month) + "/" + IntToString(year)
  }

  /**
   * For a day and a month below 100 the shown date is dd/mm/year: int() reads
   * the first two characters back as the day, the two after the first slash
   * as the month, and everything after the second slash as the year.
   */
  lemma DisplayDateFields(day: int, month: int, year: int)
    requires 0 <= day < 100 && 0 <= month < 100
    ensures var s := DisplayDate(day, month, year);
      && |s| > 6 && s[2] == '/' && s[5] == '/'
      && ParseInt(s[..2]) == Some(day)
      && ParseInt(s[3..5]) == Some(month)
      && s[6..] == IntToString(year) && ParseInt(s[6..]) == Some(year)
  {
    var s := DisplayDate(day, month, year);
    assert s[..2] == ZeroPad2(day);
    assert s[3..5] == ZeroPad2(month);
    assert s[6..] == IntToString(year);
    ParseIntOfZeroPad2(day);
    ParseIntOfZeroPad2(month);
    ParseIntOfIntToString(year);
  }

  /**
   * The shown date reads back, through parse_fecha_ddmmyy, as the day and
   * month it was built from, whatever the year of the occurrence.
   */
  lemma DisplayDateRoundTrip(dm: DayMonth, year: int)
    requires IsValid(Date(ReferenceYear, dm.month, dm.day))
    ensures ParseDayMonth(DisplayDate(dm.day, dm.month, year)) == Success(dm)
  {
    var a := ZeroPad2(dm.day);
    var b := ZeroPad2(dm.month);
    DigitsAreField(a);
    DigitsAreField(b);
    YearPartIgnored(a, b, IntToString(year));
    PiecesOfTwoFields(a, b);
    ParseIntOfZeroPad2(dm.day);
    ParseIntOfZeroPad2(dm.month);
    DayMonthOfNumbers([a, b], dm.day, dm.month);
  }

  // ---------------------------------------------------------------- NUMEROS_DESTINATARIOS

  /** What one entry of the recipient list looks like: non-empty, no comma, no surrounding whitespace. */
  predicate IsRecipient(t: string) {
    t != [] && !IsSpace(t[0]) && !IsSpace(t[|t| - 1]) && Avoids(t, IsComma)
  }

  /** Stripping keeps only characters of the original. */
  lemma StripAvoids(s: string, isSep: char -> bool)
    requires Avoids(s, isSep)
    ensures Avoids(Strip(s), isSep)
  {
    var l := StripLeft(s);
    SliceAvoids(s, |s| - |l|, |s|, isSep);
    SliceAvoids(l, 0, |StripRight(l)|, isSep);
  }

  lemma SliceAvoids(s: string, i: nat, j: nat, isSep: char -> bool)
    requires i <= j <= |s| && Avoids(s, isSep)
    ensures Avoids(s[i..j], isSep)
  {
    assert forall m | 0 <= m < j - i :: s[i..j][m] == s[i + m];
  }

  /** The stripped pieces that are not empty, in order. */
  function CleanPieces(pieces: seq<string>): (r: seq<string>)
  {
    if pieces == [] then []
    else
      var t := Strip(pieces[0]);
      (if t != "" then [t] else []) + CleanPieces(pieces[1..])
  }

  /** Pieces without commas clean up into well-formed entries. */
  lemma {:induction false} CleanPiecesAreRecipients(pieces: seq<string>)
    requires forall p | p in pieces :: Avoids(p, IsComma)
    ensures forall t | t in CleanPieces(pieces) :: IsRecipient(t)
    decreases |pieces|
  {
    if pieces != [] {
      assert pieces[0] in pieces;
      StripAvoids(pieces[0], IsComma);
      assert forall p | p in pieces[1..] :: p in pieces;
      CleanPiecesAreRecipients(pieces[1..]);
    }
  }

  /** An entry is kept exactly when it is the non-empty strip of some piece. */
  lemma {:induction false} CleanPiecesMembers(pieces: seq<string>, t: string)
    ensures t in CleanPieces(pieces) <==> t != "" && exists p | p in pieces :: Strip(p) == t
    decreases |pieces|
  {
    if pieces != [] {
      CleanPiecesMembers(pieces[1..], t);
      assert forall p | p in pieces :: p == pieces[0] || p in pieces[1..];
      assert pieces[0] in pieces;
      assert forall p | p in pieces[1..] :: p in pieces;
    }
  }

  /**
   * NUMEROS_DESTINATARIOS: the setting cut at every comma, each piece
   * stripped, the empty ones dropped.
   */
  function ParseRecipients(setting: string): (r: seq<string>)
    ensures forall t | t in r :: IsRecipient(t)
  {
    SplitPiecesAvoid(setting, IsComma);
    CleanPiecesAreRecipients(Split(setting, IsComma));
    CleanPieces(Split(setting, IsComma))
  }

  /** The list holds the stripped comma-separated pieces of the setting that are not blank, and only those. */
  lemma RecipientsAreNonBlankPieces(setting: string, t: string)
    ensures t in ParseRecipients(setting) <==> t != "" && exists p | p in Split(setting, IsComma) :: Strip(p) == t
  {
    CleanPiecesMembers(Split(setting, IsComma), t);
  }

  /** The default setting names one recipient. */
  const DefaultRecipients := "5217292251844"

  lemma {:induction false} CleanPiecesConcat(a: seq<string>, b: seq<string>)
    ensures CleanPieces(a + b) == CleanPieces(a) + CleanPieces(b)
    decreases |a|
  {
    if a != [] {
      assert (a + b)[0] == a[0];
      assert (a + b)[1..] == a[1..] + b;
      CleanPiecesConcat(a[1..], b);
      var t := Strip(a[0]);
      var head: seq<string> := if t != "" then [t] else [];
      assert CleanPieces(a + b) == head + (CleanPieces(a[1..]) + CleanPieces(b));
      ConcatAssoc(head, CleanPieces(a[1..]), CleanPieces(b));
    } else {
      assert a + b == b;
    }
  }

  lemma {:induction false} CleanRecipients(xs: seq<string>)
    requires forall x | x in xs :: IsRecipient(x)
    ensures CleanPieces(xs) == xs
    decreases |xs|
  {
    if xs != [] {
      assert xs[0] in xs;
      StripStripped(xs[0]);
      CleanRecipients(xs[1..]);
      assert xs == [xs[0]] + xs[1..];
    }
  }

  /** A list of well-formed recipients joined with commas reads back as the same list. */
  lemma RecipientsOfJoin(xs: seq<string>)
    requires forall x | x in xs :: IsRecipient(x)
    ensures ParseRecipients(Join(xs, ',')) == xs
  {
    if xs == [] {
      assert Split("", IsComma) == [""];
      assert Strip("") == "";
      assert CleanPieces([""]) == [] + CleanPieces([]);
    } else {
      SplitJoin(xs, ',', IsComma);
      CleanRecipients(xs);
    }
  }

  /** Joining two settings with a comma lists the recipients of both, in order. */
  lemma RecipientsConcat(a: string, b: string)
    ensures ParseRecipients(a + "," + b) == ParseRecipients(a) + ParseRecipients(b)
  {
    assert a + "," + b == a + [','] + b;
    SplitConcat(a, ',', b, IsComma);
    CleanPiecesConcat(Split(a, IsComma), Split(b, IsComma));
  }

  /** Without the setting the list holds the default number alone. */
  lemma DefaultRecipientsList()
    ensures ParseRecipients(DefaultRecipients) == [DefaultRecipients]
  {
    var x := DefaultRecipients;
    assert forall i :: 0 <= i < |x| ==> IsDigit(x[i]);
    forall i | 0 <= i < |x| ensures !IsSpace(x[i]) { DigitIsNotSpace(x[i]); }
    RecipientsOfJoin([x]);
  }
}
