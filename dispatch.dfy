/**
 * The reminder run of `main`: read every record of the roster once, decide
 * for each row whether its birthday is due, already announced or neither,
 * send the message to every recipient of a due row, and record the year in
 * the row's "Enviado" cell when at least one send went through.
 *
 * The browser is not modelled: whether sending to recipient j for row i goes
 * through is the oracle `delivered(i, j)`, and whether recording the year for
 * row i fails inside the spreadsheet client is the oracle `markFails(i)`.
 */
module Dispatch {
  import opened Wrappers
  import opened PyText
  import opened Calendar
  import opened BirthdayDates
  import opened Sheet
  import opened SentLedger
  import opened Messaging

  /** The columns the roster must have. */
  const Required: set<string> := {"Nombre", "Cargo", "Fecha", SentColumn}

  /** What the run does with one record. */
  datatype RowPlan =
    | Incomplete                                   // no name, or no date
    | Unparseable(error: ParseError)               // the date does not parse
    | Overflow                                     // the next occurrence would be after year 9999
    | OutsideWindow(days: int)                     // not due within the window
    | AlreadySent(days: int, year: int)            // due, but the year is already recorded
    | Notify(days: int, year: int, date: DayMonth) // due and not yet announced

  /** One call of the sender: sheet row, recipient, message. */
  datatype Attempt = Attempt(row: nat, phone: string, message: string)

  /** How `main` ends. */
  datatype RunOutcome =
    | NoRecords                         // the roster has no data rows
    | MissingColumns(missing: set<string>) // raised before anything is sent
    | DateOutOfRange(row: nat)          // raised by dias_hasta_proximo at this sheet row
    | Finished(sent: nat, skipped: nat) // the two counters of the final report

  /** Everything the run depends on besides the sheet. */
  datatype Setup = Setup(
    today: Date,
    window: int,                    // DIAS_VENTANA
    recipients: seq<string>,        // NUMEROS_DESTINATARIOS
    delivered: (nat, nat) -> bool,  // enviar_whatsapp for (record index, recipient index)
    markFails: nat -> bool)         // marcar_enviado raising for a record index

  /** requeridas - set(df.columns). */
  function Absent(header: seq<string>): (missing: set<string>)
    ensures forall c :: c in missing <==> c in Required && c !in header
  {
    set c | c in Required && c !in header
  }

  // ---------------------------------------------------------------- one record

  /** The four cells the loop reads from a record, as text. */
  datatype Fields = Fields(name: string, role: string, date: string, sent: string)

  /** The fields of one data row, looked up by header as row.get does. */
  function FieldsOf(header: seq<string>, row: seq<string>): Fields
    requires |row| == |header|
  {
    Fields(
      RecordField(header, row, "Nombre"),
      RecordField(header, row, "Cargo"),
      RecordField(header, row, "Fecha"),
      RecordField(header, row, SentColumn))
  }

  /**
   * The loop body up to the ledger check: a record without a name or a date
   * is passed over, a date that does not parse is reported and passed over,
   * and a parsed date is due when its next occurrence is fewer than `window`
   * days away (Notify here means "due").
   */
  function Schedule(name: string, date: string, today: Date, window: int): (p: RowPlan)
    requires IsValid(today)
    ensures p.Incomplete? <==> name == "" || date == ""
    ensures p.Unparseable? ==> ParseDayMonth(date) == Failure(p.error)
    ensures p.Notify? ==> ParseDayMonth(date) == Success(p.date) && 0 <= p.days < window
    ensures p.OutsideWindow? ==> !(0 <= p.days < window)
    ensures !p.AlreadySent?
  {
    if name == "" || date == "" then Incomplete
    else
      match ParseDayMonth(date)
      case Failure(e) => Unparseable(e)
      case Success(dm) =>
        match DaysUntilNext(dm.day, dm.month, today)
        case Failure(_) => Overflow
        case Success(c) =>
          if !(0 <= c.days < window) then OutsideWindow(c.days)
          else Notify(c.days, c.year, dm)
  }

  /** The body of the loop over records, up to the sending: a due record whose ledger holds the year is skipped. */
  function PlanFields(f: Fields, today: Date, window: int): (p: RowPlan)
    requires IsValid(today)
    ensures p.Incomplete? <==> Strip(f.name) == "" || f.date == ""
    ensures p.Notify? ==> !AlreadySentIn(Some(f.sent), p.year) && 0 <= p.days < window
    ensures p.AlreadySent? ==> AlreadySentIn(Some(f.sent), p.year) && 0 <= p.days < window
  {
    var p := Schedule(Strip(f.name), f.date, today, window);
    if p.Notify? && AlreadySentIn(Some(f.sent), p.year) then AlreadySent(p.days, p.year) else p
  }

  /** fecha_mostrar and mensaje of a record with this plan ("" when it is not announced). */
  function MessageOf(f: Fields, p: RowPlan): (msg: string)
    ensures msg != "" <==> p.Notify?
    ensures p.Notify? ==> |msg| > |TitleLine| && msg[..|TitleLine|] == TitleLine
  {
    if p.Notify? then BuildMessage(Strip(f.name), Strip(f.role), DisplayDate(p.date.day, p.date.month, p.year)) else ""
  }

  /**
   * A record Schedule finds due has a name and a date that parses; its count
   * is the days from today to the next occurrence of that date, inside the
   * window, and the plan carries the parsed date.
   */
  lemma ScheduleDue(name: string, date: string, today: Date, window: int)
    requires IsValid(today)
    ensures var p := Schedule(name, date, today, window);
      var parsed := ParseDayMonth(date);
      p.Notify? ==>
        && name != ""
        && parsed.Success? && p.date == parsed.value
        && CountsToOccurrence(p.date.day, p.date.month, today, Countdown(p.days, p.year))
        && 0 <= p.days < window && p.days <= 365
  {
    var parsed := ParseDayMonth(date);
    if parsed.Success? {
      DaysUntilNextIsNextOccurrence(parsed.value.day, parsed.value.month, today);
    }
  }

  /**
   * A due record (announced now or before) has a name and a date that
   * parses; its count is the days from today to the next occurrence of that
   * date, inside the window. It is announced exactly when the ledger does not
   * hold the occurrence's year.
   */
  lemma PlanDue(f: Fields, today: Date, window: int)
    requires IsValid(today)
    ensures var p := PlanFields(f, today, window);
      var parsed := ParseDayMonth(f.date);
      p.Notify? || p.AlreadySent? ==>
        && Strip(f.name) != ""
        && parsed.Success?
        && CountsToOccurrence(parsed.value.day, parsed.value.month, today, Countdown(p.days, p.year))
        && 0 <= p.days < window && p.days <= 365
        && (p.Notify? <==> !AlreadySentIn(Some(f.sent), p.year))
        && (p.Notify? ==> p.date == parsed.value)
  {
    var name := Strip(f.name);
    ScheduleDue(name, f.date, today, window);
    PlanOfSchedule(f, today, window);
  }

  /** PlanFields keeps Schedule's count and year, and turns a due record into AlreadySent exactly when the ledger holds the year. */
  lemma PlanOfSchedule(f: Fields, today: Date, window: int)
    requires IsValid(today)
    ensures var p := PlanFields(f, today, window);
      var q := Schedule(Strip(f.name), f.date, today, window);
      && (p.Notify? || p.AlreadySent? <==> q.Notify?)
      && (q.Notify? ==>
            && p.days == q.days && p.year == q.year
            && (p.Notify? <==> !AlreadySentIn(Some(f.sent), q.year))
            && (p.Notify? ==> p == q))
  {
    var q := Schedule(Strip(f.name), f.date, today, window);
    var p := PlanFields(f, today, window);
    if q.Notify? && AlreadySentIn(Some(f.sent), q.year) {
      assert p == AlreadySent(q.days, q.year);
    } else {
      assert p == q;
    }
  }

  /**
   * The message of an announced record names the person and the role, and
   * shows a date that reads back, through the same parser, as the record's
   * own date, followed after its second slash by the year of the occurrence.
   */
  lemma NotifyMessage(f: Fields, today: Date, window: int)
    requires IsValid(today) && PlanFields(f, today, window).Notify?
    ensures var p := PlanFields(f, today, window);
      exists date ::
        && MessageOf(f, p) == BuildMessage(Strip(f.name), Strip(f.role), date)
        && ParseDayMonth(date) == ParseDayMonth(f.date)
        && |date| > 6 && date[5] == '/' && ParseInt(date[6..]) == Some(p.year)
  {
    var p := PlanFields(f, today, window);
    PlanDue(f, today, window);
    DisplayDateRoundTrip(p.date, p.year);
    DisplayDateFields(p.date.day, p.date.month, p.year);
    assert MessageOf(f, p) == BuildMessage(Strip(f.name), Strip(f.role), DisplayDate(p.date.day, p.date.month, p.year));
  }

  /**
   * A named person whose date is today's day and month is due today with a
   * count of zero, whenever the window holds at least one day.
   */
  lemma BirthdayTodayIsDue(f: Fields, today: Date, window: int)
    requires IsValid(today) && window >= 1 && Strip(f.name) != ""
    requires ParseDayMonth(f.date) == Success(DayMonth(today.day, today.month))
    ensures var p := PlanFields(f, today, window);
      (p.Notify? || p.AlreadySent?) && p.days == 0 && p.year == today.year
  {
    var q := Schedule(Strip(f.name), f.date, today, window);
    assert q.Notify? && q.days == 0 && q.year == today.year by {
      EmptyDateFails();
      assert f.date != "";
      TodayCountdown(today);
    }
    PlanOfSchedule(f, today, window);
  }

  /**
   * A 29 February birthday (written "29/02/24", say: ParseLeapDayExample), on 28
   * February of the common year 2025 with a three-day window and an empty
   * ledger: _safe_date moves the occurrence to today, so the record is
   * announced now, for 2025, and the message shows "29/02/2025".
   */
  lemma LeapDayScenario(f: Fields)
    requires Strip(f.name) != "" && f.sent == "" && ParseDayMonth(f.date) == Success(DayMonth(29, 2))
    ensures var p := PlanFields(f, Date(2025, 2, 28), 3);
      && p == Notify(0, 2025, DayMonth(29, 2))
      && DisplayDate(p.date.day, p.date.month, p.year) == "29/02/2025"
  {
    EmptyDateFails();
    LeapDayCountdown();
    DuePlan(f, Date(2025, 2, 28), 3, DayMonth(29, 2), Countdown(0, 2025));
    LeapDayShown();
  }

  /** The 29 February occurrence in 2025 falls back to 28 February: zero days from that day. */
  lemma LeapDayCountdown()
    ensures DaysUntilNext(29, 2, Date(2025, 2, 28)) == Success(Countdown(0, 2025))
  {
    assert !IsLeapYear(2025);
    assert SafeDate(2025, 2, 29) == Success(Date(2025, 2, 28));
  }

  lemma LeapDayShown()
    ensures DisplayDate(29, 2, 2025) == "29/02/2025"
  {
    YearText();
    assert ZeroPad2(29) == "29" && ZeroPad2(2) == "02";
  }

  /** A named record with an empty ledger, a date that parses and a next occurrence inside the window is announced. */
  lemma DuePlan(f: Fields, today: Date, window: int, dm: DayMonth, c: Countdown)
    requires IsValid(today) && Strip(f.name) != "" && f.date != "" && f.sent == ""
    requires ParseDayMonth(f.date) == Success(dm) && DaysUntilNext(dm.day, dm.month, today) == Success(c)
    requires 0 <= c.days < window
    ensures PlanFields(f, today, window) == Notify(c.days, c.year, dm)
  {
    DueSchedule(Strip(f.name), f.date, today, window, dm, c);
    EmptyLedgerPlan(f, today, window);
  }

  /** A named record whose date parses and whose next occurrence is inside the window is due. */
  lemma DueSchedule(name: string, date: string, today: Date, window: int, dm: DayMonth, c: Countdown)
    requires IsValid(today) && name != "" && date != ""
    requires ParseDayMonth(date) == Success(dm) && DaysUntilNext(dm.day, dm.month, today) == Success(c)
    requires 0 <= c.days < window
    ensures Schedule(name, date, today, window) == Notify(c.days, c.year, dm)
  {
  }

  /** With an empty ledger no year counts as sent, so the plan is the schedule. */
  lemma EmptyLedgerPlan(f: Fields, today: Date, window: int)
    requires IsValid(today) && f.sent == ""
    ensures PlanFields(f, today, window) == Schedule(Strip(f.name), f.date, today, window)
  {
    assert Strip("") == "" && Split("", IsTokenSep) == [""];
  }

  // ---------------------------------------------------------------- the run, as functions of the plans

  /** The fields of every record of the snapshot, in order (get_all_records). */
  function Records(header: seq<string>, rows: seq<seq<string>>): (fields: seq<Fields>)
    requires Rectangular(header, rows)
    ensures |fields| == |rows|
  {
    if rows == [] then []
    else
      assert rows[0] in rows;
      assert forall r | r in rows[1..] :: r in rows;
      [FieldsOf(header, rows[0])] + Records(header, rows[1..])
  }

  lemma {:induction false} RecordAt(header: seq<string>, rows: seq<seq<string>>, i: nat)
    requires Rectangular(header, rows) && i < |rows|
    ensures |rows[i]| == |header| && Records(header, rows)[i] == FieldsOf(header, rows[i])
  {
    assert rows[i] in rows;
    if i > 0 {
      assert forall r | r in rows[1..] :: r in rows;
      RecordAt(header, rows[1..], i - 1);
    }
  }

  /** The plan of every record, in order. */
  function Plans(fields: seq<Fields>, today: Date, window: int): (plans: seq<RowPlan>)
    requires IsValid(today)
    ensures |plans| == |fields|
  {
    if fields == [] then [] else [PlanFields(fields[0], today, window)] + Plans(fields[1..], today, window)
  }

  lemma {:induction false} PlanAt(fields: seq<Fields>, today: Date, window: int, i: nat)
    requires IsValid(today) && i < |fields|
    ensures Plans(fields, today, window)[i] == PlanFields(fields[i], today, window)
  {
    var plans := Plans(fields, today, window);
    if i > 0 {
      var rest := Plans(fields[1..], today, window);
      assert plans == [PlanFields(fields[0], today, window)] + rest;
      assert plans[i] == rest[i - 1];
      assert fields[1..][i - 1] == fields[i];
      PlanAt(fields[1..], today, window, i - 1);
    }
  }

  /** At least one send for record i went through. */
  predicate Delivered(s: Setup, i: nat) {
    exists j | 0 <= j < |s.recipients| :: s.delivered(i, j)
  }

  /** Record i is announced and its year is recorded (and counted in `enviados`). */
  predicate Marked(plans: seq<RowPlan>, s: Setup, i: nat)
    requires i < |plans|
  {
    plans[i].Notify? && Delivered(s, i) && !s.markFails(i)
  }

  /** Record i after the run: its ledger cell (column `col`) marked when it is Marked, unchanged otherwise. */
  function RowAfter(rows: seq<seq<string>>, plans: seq<RowPlan>, s: Setup, col: nat, i: nat): (row: seq<string>)
    requires |plans| == |rows| && i < |rows| && col < |rows[i]|
    ensures |row| == |rows[i]|
  {
    if Marked(plans, s, i) then rows[i][col := MarkedValue(rows[i][col], plans[i].year)] else rows[i]
  }

  /** The data rows once the first k records have been handled. */
  function RowsAfter(rows: seq<seq<string>>, plans: seq<RowPlan>, s: Setup, col: nat, k: nat): (after: seq<seq<string>>)
    requires |plans| == |rows| && k <= |rows| && forall r | r in rows :: col < |r|
    ensures |after| == |rows|
    ensures forall i | 0 <= i < |rows| :: |after[i]| == |rows[i]|
  {
    seq(|rows|, i requires 0 <= i < |rows| =>
      assert rows[i] in rows;
      if i < k then RowAfter(rows, plans, s, col, i) else rows[i])
  }

  /** The sends for an announced record, one per recipient, in order. */
  function SendsFor(i: nat, recipients: seq<string>, message: string): (sends: seq<Attempt>)
    ensures |sends| == |recipients|
    ensures forall j | 0 <= j < |recipients| :: sends[j] == Attempt(i + 2, recipients[j], message)
  {
    seq(|recipients|, j requires 0 <= j < |recipients| => Attempt(i + 2, recipients[j], message))
  }

  /** g applied to the pairs of xs and ys, in order. */
  function ZipWith<A, B, C>(g: (A, B) -> C, xs: seq<A>, ys: seq<B>): (zs: seq<C>)
    requires |xs| == |ys|
    ensures |zs| == |xs|
  {
    if xs == [] then [] else [g(xs[0], ys[0])] + ZipWith(g, xs[1..], ys[1..])
  }

  lemma {:induction false} ZipWithAt<A, B, C>(g: (A, B) -> C, xs: seq<A>, ys: seq<B>, i: nat)
    requires |xs| == |ys| && i < |xs|
    ensures ZipWith(g, xs, ys)[i] == g(xs[i], ys[i])
  {
    if i > 0 {
      ZipWithAt(g, xs[1..], ys[1..], i - 1);
    }
  }

  /** The message of every record, in order. */
  function Messages(fields: seq<Fields>, plans: seq<RowPlan>): (messages: seq<string>)
    requires |fields| == |plans|
    ensures |messages| == |plans|
  {
    ZipWith(MessageOf, fields, plans)
  }

  /** The sends for record i. */
  function RowSends(plans: seq<RowPlan>, messages: seq<string>, s: Setup, i: nat): seq<Attempt>
    requires |messages| == |plans| && i < |plans|
  {
    if plans[i].Notify? then SendsFor(i, s.recipients, messages[i]) else []
  }

  /** Every send made while handling the first k records, in order. */
  function Log(plans: seq<RowPlan>, messages: seq<string>, s: Setup, k: nat): seq<Attempt>
    requires |messages| == |plans| && k <= |plans|
  {
    if k == 0 then [] else Log(plans, messages, s, k - 1) + RowSends(plans, messages, s, k - 1)
  }

  /** `enviados` after the first k records. */
  function SentCount(plans: seq<RowPlan>, s: Setup, k: nat): nat
    requires k <= |plans|
  {
    if k == 0 then 0
    else SentCount(plans, s, k - 1) + if Marked(plans, s, k - 1) then 1 else 0
  }

  /** `omitidos` after the first k records. */
  function SkippedCount(plans: seq<RowPlan>, k: nat): nat
    requires k <= |plans|
  {
    if k == 0 then 0
    else SkippedCount(plans, k - 1) + if plans[k - 1].AlreadySent? then 1 else 0
  }

  // ---------------------------------------------------------------- main

  /**
   * main(): no records ends the run at once; a missing required column raises
   * before anything is sent; otherwise the records are handled in order until
   * one of them makes dias_hasta_proximo raise, or until all are done. The
   * handled records leave the sheet as RowsAfter says and the sends as Log
   * says; the counters are those of the final report.
   */
  method Run(ws: Worksheet, s: Setup) returns (outcome: RunOutcome, sends: seq<Attempt>)
    requires ws.Valid() && IsValid(s.today)
    modifies ws
    ensures ws.Valid() && ws.header == old(ws.header)
    ensures old(ws.rows) == [] ==> outcome == NoRecords && sends == [] && ws.rows == old(ws.rows)
    ensures old(ws.rows) != [] && Absent(old(ws.header)) != {} ==>
      outcome == MissingColumns(Absent(old(ws.header))) && sends == [] && ws.rows == old(ws.rows)
    ensures old(ws.rows) != [] && Absent(old(ws.header)) == {} ==>
      var rows := old(ws.rows);
      var fields := Records(old(ws.header), rows);
      var plans := Plans(fields, s.today, s.window);
      var messages := Messages(fields, plans);
      var col := IndexOf(old(ws.header), SentColumn);
      RunEffect(rows, plans, messages, s, col, outcome, sends, ws.rows)
  {
    var header := ws.header;
    var records := ws.rows;
    if records == [] {
      return NoRecords, [];
    }
    var missing := Absent(header);
    if missing != {} {
      return MissingColumns(missing), [];
    }
    assert SentColumn in header;
    ghost var fields := Records(header, records);
    ghost var plans := Plans(fields, s.today, s.window);
    ghost var messages := Messages(fields, plans);
    var today, window := s.today, s.window;
    var planner: Fields -> RowPlan := f => PlanFields(f, today, window);
    var compose: (Fields, RowPlan) -> string := MessageOf;
    forall i | 0 <= i < |records|
      ensures |records[i]| == |header|
      ensures PlannedAs(planner, compose, header, records[i], plans[i], messages[i])
    {
      RecordAt(header, records, i);
      PlanAt(fields, s.today, s.window, i);
      ZipWithAt(MessageOf, fields, plans, i);
    }
    outcome, sends := RunRecords(ws, s, planner, compose, header, records, plans, messages);
  }

  /** `plan` and `message` are what the loop body makes of `row`, with `planner` and `compose`. */
  ghost predicate PlannedAs(planner: Fields -> RowPlan, compose: (Fields, RowPlan) -> string,
                            header: seq<string>, row: seq<string>, plan: RowPlan, message: string)
    requires |row| == |header|
  {
    var f := FieldsOf(header, row);
    plan == planner(f) && message == compose(f, plan)
  }

  /**
   * What handling the records in order did: either every record was handled
   * (none out of range) or the run stopped at the first one out of range;
   * the handled records leave the rows as RowsAfter says and the sends as
   * Log says, and a finished run reports the counters of all records.
   */
  ghost predicate RunEffect(rows: seq<seq<string>>, plans: seq<RowPlan>, messages: seq<string>, s: Setup, col: nat,
                            outcome: RunOutcome, sends: seq<Attempt>, after: seq<seq<string>>)
    requires |plans| == |rows| && |messages| == |rows| && forall r | r in rows :: col < |r|
  {
    && (outcome.Finished? || outcome.DateOutOfRange?)
    && (outcome.Finished? ==>
          && (forall i | 0 <= i < |rows| :: !plans[i].Overflow?)
          && after == RowsAfter(rows, plans, s, col, |rows|)
          && sends == Log(plans, messages, s, |rows|)
          && outcome.sent == SentCount(plans, s, |rows|)
          && outcome.skipped == SkippedCount(plans, |rows|))
    && (outcome.DateOutOfRange? ==>
          && 2 <= outcome.row < |rows| + 2
          && plans[outcome.row - 2].Overflow?
          && (forall i | 0 <= i < outcome.row - 2 :: !plans[i].Overflow?)
          && after == RowsAfter(rows, plans, s, col, outcome.row - 2)
          && sends == Log(plans, messages, s, outcome.row - 2))
  }

  /**
   * The state of the loop once the first k records are handled: the rows,
   * the sends and the two counters are those RowsAfter, Log, SentCount and
   * SkippedCount give, and no handled record was out of range.
   */
  ghost predicate HandledUpTo(rows: seq<seq<string>>, plans: seq<RowPlan>, messages: seq<string>, s: Setup, col: nat, k: nat,
                              after: seq<seq<string>>, sends: seq<Attempt>, sent: int, skipped: int)
    requires |plans| == |rows| && |messages| == |rows| && k <= |rows| && forall r | r in rows :: col < |r|
  {
    && after == RowsAfter(rows, plans, s, col, k)
    && sends == Log(plans, messages, s, k)
    && sent == SentCount(plans, s, k)
    && skipped == SkippedCount(plans, k)
    && forall i | 0 <= i < k :: !plans[i].Overflow?
  }

  /**
   * The `for idx, row in df.iterrows()` loop of main over a roster with all
   * required columns, given the plan and message of every record.
   */
  method RunRecords(ws: Worksheet, s: Setup, planner: Fields -> RowPlan, compose: (Fields, RowPlan) -> string, ghost header: seq<string>, ghost rows: seq<seq<string>>,
                    ghost plans: seq<RowPlan>, ghost messages: seq<string>)
      returns (outcome: RunOutcome, sends: seq<Attempt>)
    requires ws.Valid() && SentColumn in ws.header && ws.rows == rows
    requires |plans| == |rows| && |messages| == |rows|
    requires ws.header == header && |plans| == |rows| && |messages| == |rows|
    requires forall r | r in rows :: |r| == |header|
    requires forall i | 0 <= i < |rows| :: assert rows[i] in rows; PlannedAs(planner, compose, header, rows[i], plans[i], messages[i])
    modifies ws
    ensures ws.Valid() && ws.header == old(ws.header)
    ensures RunEffect(old(ws.rows), plans, messages, s, IndexOf(old(ws.header), SentColumn), outcome, sends, ws.rows)
  {
    var records := ws.rows;
    ghost var col := IndexOf(header, SentColumn);
    var sent, skipped := 0, 0;
    sends := [];
    var k, stop := 0, false;
    while k < |records| && !stop
      invariant 0 <= k <= |records|
      invariant ws.Valid() && ws.header == header && |ws.rows| == |records|
      invariant HandledUpTo(records, plans, messages, s, col, k, ws.rows, sends, sent, skipped)
      invariant stop ==> k < |records| && plans[k].Overflow?
      decreases |records| - k, if stop then 0 else 1
    {
      stop, sends, sent, skipped := Step(ws, s, planner, compose, k, header, records, plans, messages, sends, sent, skipped);
      if !stop {
        k := k + 1;
      }
    }
    outcome := if stop then DateOutOfRange(k + 2) else Finished(sent, skipped);
    EndEffect(records, plans, messages, s, col, k, ws.rows, sends, sent, skipped, outcome);
  }

  /**
   * When the loop ends, either at the first record out of range or after
   * the last record, the run has had the effect RunEffect describes.
   */
  lemma EndEffect(rows: seq<seq<string>>, plans: seq<RowPlan>, messages: seq<string>, s: Setup, col: nat, k: nat,
                  after: seq<seq<string>>, sends: seq<Attempt>, sent: nat, skipped: nat, outcome: RunOutcome)
    requires |plans| == |rows| && |messages| == |rows| && k <= |rows| && forall r | r in rows :: col < |r|
    requires HandledUpTo(rows, plans, messages, s, col, k, after, sends, sent, skipped)
    requires outcome == DateOutOfRange(k + 2) || outcome == Finished(sent, skipped)
    requires outcome.DateOutOfRange? ==> k < |rows| && plans[k].Overflow?
    requires outcome.Finished? ==> k == |rows|
    ensures RunEffect(rows, plans, messages, s, col, outcome, sends, after)
  {
  }

  /**
   * One turn of the loop: record k is handled and the counters updated,
   * unless its next occurrence is out of range, in which case nothing has
   * changed and the loop stops.
   */
  method Step(ws: Worksheet, s: Setup, planner: Fields -> RowPlan, compose: (Fields, RowPlan) -> string, k: nat, ghost header: seq<string>, ghost rows: seq<seq<string>>,
              ghost plans: seq<RowPlan>, ghost messages: seq<string>,
              sends: seq<Attempt>, sent: nat, skipped: nat)
      returns (stop: bool, sends': seq<Attempt>, sent': nat, skipped': nat)
    requires ws.Valid() && SentColumn in ws.header && ws.header == header
    requires |plans| == |rows| && |messages| == |rows| && k < |rows| && |ws.rows| == |rows|
    requires forall r | r in rows :: |r| == |header|
    requires forall i | 0 <= i < |rows| :: assert rows[i] in rows; PlannedAs(planner, compose, header, rows[i], plans[i], messages[i])
    requires HandledUpTo(rows, plans, messages, s, IndexOf(header, SentColumn), k, ws.rows, sends, sent, skipped)
    modifies ws
    ensures ws.Valid() && ws.header == header && |ws.rows| == |rows|
    ensures stop <==> plans[k].Overflow?
    ensures stop ==> ws.rows == old(ws.rows) && sends' == sends && sent' == sent && skipped' == skipped
    ensures !stop ==> HandledUpTo(rows, plans, messages, s, IndexOf(header, SentColumn), k + 1, ws.rows, sends', sent', skipped')
  {
    ghost var col := IndexOf(header, SentColumn);
    ghost var before := ws.rows;
    assert rows[k] in rows;
    RowsAfterStep(rows, plans, s, col, k);
    var plan, made, marked := HandleRecord(ws, s, planner, compose, k, header, rows, plans, messages);
    stop := plan.Overflow?;
    sends', sent', skipped' := sends, sent, skipped;
    if !stop {
      sends' := sends + made;
      if plan.AlreadySent? {
        skipped' := skipped + 1;
      }
      if marked {
        sent' := sent + 1;
      }
      HandledStep(rows, plans, messages, s, col, k, before, sends, sent, skipped, ws.rows, made, sent', skipped');
    }
  }

  /** The bookkeeping of one handled record carries HandledUpTo from k to k + 1. */
  lemma HandledStep(rows: seq<seq<string>>, plans: seq<RowPlan>, messages: seq<string>, s: Setup, col: nat, k: nat,
                    after: seq<seq<string>>, sends: seq<Attempt>, sent: int, skipped: int,
                    after': seq<seq<string>>, made: seq<Attempt>, sent': int, skipped': int)
    requires |plans| == |rows| && |messages| == |rows| && k < |rows| && forall r | r in rows :: col < |r|
    requires HandledUpTo(rows, plans, messages, s, col, k, after, sends, sent, skipped) && !plans[k].Overflow?
    requires after' == after[k := RowAfter(rows, plans, s, col, k)] && made == RowSends(plans, messages, s, k)
    requires sent' == sent + (if Marked(plans, s, k) then 1 else 0)
    requires skipped' == skipped + (if plans[k].AlreadySent? then 1 else 0)
    ensures HandledUpTo(rows, plans, messages, s, col, k + 1, after', sends + made, sent', skipped')
  {
    RowsAfterStep(rows, plans, s, col, k);
    CountersStep(plans, messages, s, k);
  }

  /**
   * The loop body for record k, whose fields are f: plan the record; when it
   * is due and not yet announced, build its message, send it to every
   * recipient and, when a send went through and the client does not fail,
   * record the year in its ledger cell. A record whose next occurrence is
   * out of range (Overflow) is left for the caller to report.
   */
  method HandleRecord(ws: Worksheet, s: Setup, planner: Fields -> RowPlan, compose: (Fields, RowPlan) -> string, k: nat,
                      ghost header: seq<string>, ghost rows: seq<seq<string>>,
                      ghost plans: seq<RowPlan>, ghost messages: seq<string>)
      returns (plan: RowPlan, made: seq<Attempt>, marked: bool)
    requires ws.Valid() && SentColumn in ws.header && ws.header == header
    requires |rows| == |ws.rows| && k < |rows| && ws.rows[k] == rows[k]
    requires |plans| == |rows| && |messages| == |rows|
    requires forall r | r in rows :: |r| == |header|
    requires forall i | 0 <= i < |rows| :: assert rows[i] in rows; PlannedAs(planner, compose, header, rows[i], plans[i], messages[i])
    modifies ws
    ensures plan == plans[k] && marked == Marked(plans, s, k)
    ensures made == RowSends(plans, messages, s, k)
    ensures ws.Valid() && ws.header == old(ws.header)
    ensures ws.rows == old(ws.rows)[k := RowAfter(rows, plans, s, IndexOf(ws.header, SentColumn), k)]
  {
    assert rows[k] in rows;
    assert PlannedAs(planner, compose, header, rows[k], plans[k], messages[k]);
    var f := FieldsOf(ws.header, ws.rows[k]);
    plan := planner(f);
    ghost var col := IndexOf(ws.header, SentColumn);
    assert rows[k] in ws.rows;
    ghost var target := RowAfter(rows, plans, s, col, k);
    made, marked := [], false;
    if plan.Notify? {
      var message := compose(f, plan);
      var ok;
      ok, made := SendToAll(k, message, s);
      if ok && !s.markFails(k) {
        assert target == rows[k][col := MarkedValue(rows[k][col], plan.year)];
        var r := MarkSent(ws, k + 2, plan.year);
        marked := r.Pass?;
        assert ws.rows == old(ws.rows)[k := target];
      } else {
        assert target == rows[k];
        UpdateSame(ws.rows, k);
      }
    } else {
      assert target == rows[k];
      UpdateSame(ws.rows, k);
    }
  }

  lemma UpdateSame<T>(xs: seq<T>, k: nat)
    requires k < |xs|
    ensures xs[k := xs[k]] == xs
  {
  }

  /**
   * The loop over NUMEROS_DESTINATARIOS for record k: every recipient is
   * sent the message, in order, whatever happened to the previous ones, and
   * the record counts as delivered when any send went through.
   */
  method SendToAll(k: nat, message: string, s: Setup) returns (ok: bool, made: seq<Attempt>)
    ensures ok <==> Delivered(s, k)
    ensures made == SendsFor(k, s.recipients, message)
  {
    ok := false;
    made := [];
    var j := 0;
    while j < |s.recipients|
      invariant 0 <= j <= |s.recipients|
      invariant ok <==> exists j' | 0 <= j' < j :: s.delivered(k, j')
      invariant made == SendsFor(k, s.recipients[..j], message)
    {
      var delivered := s.delivered(k, j);
      made := made + [Attempt(k + 2, s.recipients[j], message)];
      ok := ok || delivered;
      j := j + 1;
    }
    assert s.recipients[..j] == s.recipients;
  }

  /** Handling record k adds its sends to the log and its outcome to the counters. */
  lemma CountersStep(plans: seq<RowPlan>, messages: seq<string>, s: Setup, k: nat)
    requires |messages| == |plans| && k < |plans|
    ensures Log(plans, messages, s, k + 1) == Log(plans, messages, s, k) + RowSends(plans, messages, s, k)
    ensures SentCount(plans, s, k + 1) == SentCount(plans, s, k) + if Marked(plans, s, k) then 1 else 0
    ensures SkippedCount(plans, k + 1) == SkippedCount(plans, k) + if plans[k].AlreadySent? then 1 else 0
  {
  }

  /** Handling record k changes row k, and only when it is Marked. */
  lemma RowsAfterStep(rows: seq<seq<string>>, plans: seq<RowPlan>, s: Setup, col: nat, k: nat)
    requires |plans| == |rows| && k < |rows| && forall r | r in rows :: col < |r|
    ensures RowsAfter(rows, plans, s, col, k)[k] == rows[k]
    ensures RowsAfter(rows, plans, s, col, k + 1) == RowsAfter(rows, plans, s, col, k)[k := RowAfter(rows, plans, s, col, k)]
  {
  }

  // ---------------------------------------------------------------- properties of the run

  /**
   * Every send goes to a configured recipient, for a record announced in
   * this run, with that record's message and sheet row.
   */
  lemma {:induction false} SendsOnlyForNotifiedRows(plans: seq<RowPlan>, messages: seq<string>, s: Setup, k: nat)
    requires |messages| == |plans| && k <= |plans|
    ensures forall a | a in Log(plans, messages, s, k) ::
      && 2 <= a.row < k + 2
      && plans[a.row - 2].Notify?
      && a.message == messages[a.row - 2]
      && a.phone in s.recipients
  {
    if k > 0 {
      SendsOnlyForNotifiedRows(plans, messages, s, k - 1);
      var sends := RowSends(plans, messages, s, k - 1);
      forall a | a in sends
        ensures 2 <= a.row < k + 2 && plans[a.row - 2].Notify?
        ensures a.message == messages[a.row - 2]
        ensures a.phone in s.recipients
      {
        var j :| 0 <= j < |sends| && sends[j] == a;
      }
    }
  }

  /** Records not announced, the already-announced ones among them, get no send at all. */
  lemma AlreadySentRowsGetNoSend(plans: seq<RowPlan>, messages: seq<string>, s: Setup, k: nat, i: nat)
    requires |messages| == |plans| && k <= |plans| && i < |plans| && !plans[i].Notify?
    ensures forall a | a in Log(plans, messages, s, k) :: a.row != i + 2
  {
    SendsOnlyForNotifiedRows(plans, messages, s, k);
  }

  /** A record announced in this run is sent to every recipient, with its sheet row. */
  lemma {:induction false} NotifiedRowsReachEveryone(plans: seq<RowPlan>, messages: seq<string>, s: Setup, k: nat, i: nat, j: nat)
    requires |messages| == |plans| && i < k <= |plans| && j < |s.recipients| && plans[i].Notify?
    ensures Attempt(i + 2, s.recipients[j], messages[i]) in Log(plans, messages, s, k)
  {
    if i < k - 1 {
      NotifiedRowsReachEveryone(plans, messages, s, k - 1, i, j);
    } else {
      assert RowSends(plans, messages, s, i)[j] == Attempt(i + 2, s.recipients[j], messages[i]);
    }
  }

  /** The run never counts more records than it handled. */
  lemma {:induction false} CountsBound(plans: seq<RowPlan>, s: Setup, k: nat)
    requires k <= |plans|
    ensures SentCount(plans, s, k) + SkippedCount(plans, k) <= k
  {
    if k > 0 {
      CountsBound(plans, s, k - 1);
    }
  }

  /**
   * A record's row changes only in the ledger column, only when it was
   * announced and at least one send went through, and a marked record's
   * ledger cell then holds the year.
   */
  lemma LedgerChangesOnlyOnDelivery(rows: seq<seq<string>>, plans: seq<RowPlan>, s: Setup, col: nat, k: nat, i: nat)
    requires |plans| == |rows| && k <= |rows| && i < |rows| && forall r | r in rows :: col < |r|
    ensures var after := RowsAfter(rows, plans, s, col, k)[i];
      && (forall c | 0 <= c < |rows[i]| && c != col :: after[c] == rows[i][c])
      && (after != rows[i] ==> i < k && plans[i].Notify? && Delivered(s, i))
      && (i < k && Marked(plans, s, i) ==> Contains(after[col], IntToString(plans[i].year)))
  {
    assert rows[i] in rows;
  }

  /** Replacing the ledger cell leaves the other fields of a record as they were. */
  lemma FieldUntouched(header: seq<string>, row: seq<string>, col: nat, v: string, key: string)
    requires |row| == |header| && col < |header| && header[col] == SentColumn && key != SentColumn
    ensures RecordField(header, row[col := v], key) == RecordField(header, row, key)
  {
    if key in header {
      assert LastIndexOf(header, key) != col;
    }
  }

  /**
   * With a single ledger column, the fields of a marked row are those of the
   * original with the ledger value replaced by its marked value.
   */
  lemma MarkedFields(header: seq<string>, row: seq<string>, year: int)
    requires |row| == |header| && SentColumn in header
    requires LastIndexOf(header, SentColumn) == IndexOf(header, SentColumn)
    ensures var col := IndexOf(header, SentColumn);
      var f := FieldsOf(header, row);
      FieldsOf(header, row[col := MarkedValue(row[col], year)]) == f.(sent := MarkedValue(f.sent, year))
  {
    var col := IndexOf(header, SentColumn);
    var v := MarkedValue(row[col], year);
    FieldUntouched(header, row, col, v, "Nombre");
    FieldUntouched(header, row, col, v, "Cargo");
    FieldUntouched(header, row, col, v, "Fecha");
  }

  /**
   * Planning the same record again, on the same day, once its ledger value
   * has been marked for the year of the occurrence: it is skipped exactly when
   * the old value did not already contain the year as text. When it did (the
   * value "12025" for 2025, say), marking left it unchanged and the record is
   * announced again.
   */
  lemma ReplanAfterMark(f: Fields, today: Date, window: int)
    requires IsValid(today) && PlanFields(f, today, window).Notify?
    ensures var p := PlanFields(f, today, window);
      var again := PlanFields(f.(sent := MarkedValue(f.sent, p.year)), today, window);
      && (again.AlreadySent? <==> !Contains(f.sent, IntToString(p.year)))
      && (again.AlreadySent? ==> again.days == p.days && again.year == p.year)
      && (!again.AlreadySent? ==> again == p)
  {
    var p := PlanFields(f, today, window);
    var g := f.(sent := MarkedValue(f.sent, p.year));
    assert g.name == f.name && g.date == f.date;
    if Contains(f.sent, IntToString(p.year)) {
      assert f.sent != "" by {
        var j :| 0 <= j <= |f.sent| - |IntToString(p.year)| && OccursAt(f.sent, IntToString(p.year), j);
      }
      assert f.(sent := MarkedValue(f.sent, p.year)) == f;
    } else {
      MarkThenCheck(f.sent, p.year);
    }
  }

  /** After the run, the row of a Marked record holds the marked value in its ledger cell. */
  lemma MarkedRowAfter(rows: seq<seq<string>>, plans: seq<RowPlan>, s: Setup, col: nat, i: nat)
    requires |plans| == |rows| && i < |rows| && (forall r | r in rows :: col < |r|) && Marked(plans, s, i)
    ensures RowsAfter(rows, plans, s, col, |rows|)[i] == rows[i][col := MarkedValue(rows[i][col], plans[i].year)]
  {
  }

  /**
   * With a single ledger column, a record this run announced and marked is
   * skipped by a second run on the same day exactly when its ledger cell did
   * not already contain the year as text.
   */
  lemma SecondRunSkips(header: seq<string>, rows: seq<seq<string>>, s: Setup, i: nat)
    requires Rectangular(header, rows) && IsValid(s.today) && i < |rows| && SentColumn in header
    requires LastIndexOf(header, SentColumn) == IndexOf(header, SentColumn)
    requires Marked(Plans(Records(header, rows), s.today, s.window), s, i)
    ensures var plans := Plans(Records(header, rows), s.today, s.window);
      var col := IndexOf(header, SentColumn);
      var after := RowsAfter(rows, plans, s, col, |rows|);
      assert Rectangular(header, after);
      var again := Plans(Records(header, after), s.today, s.window)[i];
      again.AlreadySent? <==> !Contains(rows[i][col], IntToString(plans[i].year))
  {
    var fields := Records(header, rows);
    var plans := Plans(fields, s.today, s.window);
    var col := IndexOf(header, SentColumn);
    var after := RowsAfter(rows, plans, s, col, |rows|);
    assert Rectangular(header, after);
    var year := plans[i].year;
    MarkedRowAfter(rows, plans, s, col, i);
    RecordAt(header, rows, i);
    PlanAt(fields, s.today, s.window, i);
    var f := fields[i];
    MarkedFields(header, rows[i], year);
    RecordAt(header, after, i);
    PlanAt(Records(header, after), s.today, s.window, i);
    assert Records(header, after)[i] == f.(sent := MarkedValue(f.sent, year));
    ReplanAfterMark(f, s.today, s.window);
  }
}
