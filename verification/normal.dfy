/** The ICMS Normal batch (tax, interest and penalty, code 113000) on the
    SEFAZ-PI DAR Web portal: which records are refused, skipped or
    submitted, what is typed into the form, and the browser session around
    the batch. The browser is a driver whose calls either succeed or fail
    with a message, and the date of the run is a parameter. */
module Normal {
  import opened Wrappers
  import opened Text
  import opened Values
  import opened Period
  import opened Amounts
  import opened Records

  const MissingPeriodReason: string := "Per\U{ED}odo (m\U{EA}s/ano) ausente nos dados da planilha"
  const InvalidIeReason: string := "IE inv\U{E1}lida ou vazia"
  const PastDueReason: string :=
    "Data de vencimento no passado \U{2014} portal n\U{E3}o permite datas passadas"
  const FormFailureReason: string := "Falha ao preencher formul\U{E1}rio ICMS Normal"
  /** What an error entry shows in place of an empty I.E. */
  const EmptyIeLabel: string := "(vazio)"
  const MaxReasonLength: nat := 80
  /** What `float()` says of a text it cannot read, before the text's repr. */
  const FloatTextError: string := "could not convert string to float: "
  /** Due date and payment date are both this day of the reference month. */
  const DueDay: nat := 15

  // ---------------------------------------------------------------------
  // the NORMAL value
  // ---------------------------------------------------------------------

  /** The NORMAL value is not to be submitted: it is missing, a numeric
      zero, or a text that is empty or `null` in any case once stripped. */
  predicate NormalValueInvalid(c: Cell) {
    match c
    case Empty => true
    case Int(i) => i == 0
    case Float(d) => IsZero(d)
    case Str(s) => Lower(Strip(s)) == [] || Lower(Strip(s)) == "null"
    case DateTime(_) => false
  }

  /** Outside texts, a value is invalid exactly when it is falsy; a falsy
      text is invalid too. */
  lemma InvalidIsFalsy(c: Cell)
    ensures !c.Str? ==> (NormalValueInvalid(c) <==> !Truthy(c))
    ensures !Truthy(c) ==> NormalValueInvalid(c)
  {
    if c.Str? && c.s == [] {
      assert Strip(c.s) == [];
    }
  }

  /** A text that is not blank or `null` is submitted even when it is not a
      number; `null` is recognised in any case and with padding. */
  lemma NormalValueExamples()
    ensures !NormalValueInvalid(Str("abc"))
    ensures NormalValueInvalid(Str(" NULL "))
    ensures NormalValueInvalid(Float(Decimal(0, 2))) && !NormalValueInvalid(Int(5))
  {
    AbcText("abc");
    NullText(" NULL ");
  }

  lemma AbcText(s: string)
    requires s == "abc"
    ensures Lower(Strip(s)) == "abc"
  {
    StripNoop(s);
    assert NoUpper(s);
    LowerNoop(s);
  }

  lemma NullText(s: string)
    requires s == " NULL "
    ensures Lower(Strip(s)) == "null"
  {
    assert s[1..] == "NULL ";
    assert TrimStart(s) == "NULL ";
    assert "NULL "[..4] == "NULL";
    assert Strip(s) == "NULL";
    assert Lower("NULL") == "null";
  }

  // ---------------------------------------------------------------------
  // Python's int() and float() on a cell
  // ---------------------------------------------------------------------

  /** `int(x)` for a float: the decimal truncated toward zero. */
  function Truncate(d: Decimal): (r: int)
    ensures d.units >= 0 ==> 0 <= r && r * Pow10(d.scale) <= d.units < (r + 1) * Pow10(d.scale)
    ensures d.units < 0 ==> r <= 0 && -r * Pow10(d.scale) <= -d.units < (-r + 1) * Pow10(d.scale)
  {
    if d.units >= 0 then Quotient(d.units, Pow10(d.scale))
    else -(Quotient(-d.units, Pow10(d.scale)) as int)
  }

  function Quotient(a: nat, p: nat): (q: nat)
    requires p >= 1
    ensures q * p <= a < (q + 1) * p
  {
    a / p
  }

  /** Python's `int(v)`: an int as it is, a float truncated toward zero, a
      text read as a whole number; None, a date and any other text raise. */
  function IntOf(c: Cell): Option<int> {
    match c
    case Int(i) => Some(i)
    case Float(d) => Some(Truncate(d))
    case Str(s) => ParseInt(s)
    case _ => None
  }

  /** Python's `float(v)`: the value of a number, the reading of a text, or
      the message of the error raised. */
  function FloatOf(c: Cell): Result<Decimal> {
    match c
    case Int(i) => Ok(Decimal(i, 0))
    case Float(d) => Ok(d)
    case Str(s) =>
      if ParseFloat(s).Some? then Ok(ParseFloat(s).value)
      else Err(FloatTextError + Repr(s))
    case Empty => Err("float() argument must be a string or a real number, not 'NoneType'")
    case DateTime(_) => Err("float() argument must be a string or a real number, not 'datetime.datetime'")
  }

  // ---------------------------------------------------------------------
  // the due date
  // ---------------------------------------------------------------------

  /** A calendar date, as `datetime.date` holds it. */
  datatype Date = Date(year: int, month: int, day: int)

  /** Dates compare by year, then month, then day. */
  predicate Before(a: Date, b: Date) {
    a.year < b.year || (a.year == b.year && (a.month < b.month || (a.month == b.month && a.day < b.day)))
  }

  /** The day, month and year of the due date: the 15th of the reference
      month. */
  function DueDate(month: int, year: int): (r: (int, int, int))
    ensures r.0 == DueDay && r.1 == month && r.2 == year
  {
    (DueDay, month, year)
  }

  /** `date(year, month, 15)` exists: the month is 1 to 12 and the year 1
      to 9999. */
  predicate ValidPeriod(month: int, year: int) {
    1 <= month <= 12 && 1 <= year <= 9999
  }

  /** The due date has passed on `today`, or it is not a date at all. */
  predicate DueDatePassed(month: int, year: int, today: Date) {
    var (day, m, y) := DueDate(month, year);
    !ValidPeriod(m, y) || Before(Date(y, m, day), today)
  }

  /** A period that is not a date counts as past due. For a valid period the
      due date has passed exactly when the reference month is over, or it is
      the current month and today is after the 15th. */
  lemma DueDatePassedIff(month: int, year: int, today: Date)
    ensures !ValidPeriod(month, year) ==> DueDatePassed(month, year, today)
    ensures ValidPeriod(month, year) ==> (DueDatePassed(month, year, today) <==>
      (year < today.year || (year == today.year && month < today.month)
       || (year == today.year && month == today.month && today.day > DueDay)))
  {
  }

  /** Once a due date has passed, it stays passed on every later day. */
  lemma DueDateStaysPassed(month: int, year: int, today: Date, later: Date)
    requires DueDatePassed(month, year, today) && (today == later || Before(today, later))
    ensures DueDatePassed(month, year, later)
  {
  }

  /** The due date and payment date typed into the form, `15/MM/YYYY`. */
  function DueDateText(month: nat, year: nat): string {
    var (day, m, y) := DueDate(month, year);
    TwoDigits(day) + "/" + TwoDigits(m) + "/" + NatText(y)
  }

  /** The date typed into the form is read back by the title-area reader as
      the reference month and year. */
  lemma DueDateTextReadsBack(month: nat, year: nat)
    requires 1 <= month <= 12 && 1000 <= year <= 9999
    ensures |DueDateText(month, year)| == 10
    ensures ParsePeriodText(DueDateText(month, year)) == Some((month, year))
  {
    var d, m, y := TwoDigits(DueDay), TwoDigits(month), NatText(year);
    TwoDigitsText(DueDay);
    TwoDigitsText(month);
    NatTextLength(year);
    NatTextRoundTrip(year);
    assert DigitRun(d, 1, 2) && DigitRun(m, 1, 2) && DigitRun(y, 2, 4);
    assert DueDateText(month, year) == d + ['/'] + m + ['/'] + y;
    ReadsDate(d, '/', m, '/', y);
  }

  // ---------------------------------------------------------------------
  // the failure reason
  // ---------------------------------------------------------------------

  /** A reason longer than 80 characters cut to its first 77 and `...`. */
  function Shorten(reason: string): (r: string)
    ensures |r| <= MaxReasonLength
    ensures |reason| <= MaxReasonLength ==> r == reason
    ensures |reason| > MaxReasonLength ==> |r| == MaxReasonLength && StartsWith(reason, r[..77]) && r[77..] == "..."
  {
    if |reason| > MaxReasonLength then reason[..77] + "..." else reason
  }

  /** The reason recorded when filling the form raises: the first line of
      the error's text, stripped, or a fixed text when the error's text is
      empty; shortened to at most 80 characters. */
  function FailureReason(message: string): (r: string)
    ensures |r| <= MaxReasonLength
    ensures message == [] ==> r == FormFailureReason
    ensures '\n' !in r
  {
    var line := if message != [] then Strip(FirstLine(message)) else FormFailureReason;
    LineHasNoBreak(message);
    Shorten(line)
  }

  lemma LineHasNoBreak(message: string)
    ensures '\n' !in Strip(FirstLine(message)) && '\n' !in FormFailureReason
  {
    var l := FirstLine(message);
    var lead := StripBounds(l);
    assert forall i :: 0 <= i < |Strip(l)| ==> Strip(l)[i] == l[lead + i];
  }

  /** A text `float()` cannot read fails the form with a one-line message
      quoting the text by its `repr`, so the reason recorded is that whole
      message, shortened. */
  lemma FloatErrorReason(s: string)
    requires ParseFloat(s).None?
    ensures FloatOf(Str(s)) == Err(FloatTextError + Repr(s))
    ensures FailureReason(FloatTextError + Repr(s)) == Shorten(FloatTextError + Repr(s))
  {
    var message := FloatTextError + Repr(s);
    assert '\n' !in FloatTextError;
    assert '\n' !in message;
    FirstLineWhole(message);
    assert message[0] == 'c' && message[|message| - 1] == Repr(s)[|Repr(s)| - 1];
    StripNoop(message);
  }

  // ---------------------------------------------------------------------
  // classifying a record
  // ---------------------------------------------------------------------

  /** What the batch does with one record. */
  datatype Plan =
    | Refuse(ie: string, reason: string)
    | Skip
    | Submit(ie: string, form: Form)

  /** `str(item.get("ie", ""))`. */
  function IeOf(item: Dict<Cell>): string {
    CellText(GetOr(item, "ie", Str("")))
  }

  /** `str(item.get("ie_digitos", "") or ie)`. */
  function IeDigitsOf(item: Dict<Cell>): string {
    var digits := GetOr(item, "ie_digitos", Str(""));
    if Truthy(digits) then CellText(digits) else IeOf(item)
  }

  /** The I.E. an error entry shows: the record's, or `(vazio)`. */
  function ShownIe(ie: string): (r: string)
    ensures r != []
  {
    if ie != [] then ie else EmptyIeLabel
  }

  /** The checks, in the order the batch makes them: an unreadable period,
      then an empty I.E., then a NORMAL value not to submit, then a due date
      already past; a record that passes them all is submitted. */
  function PlanOf(item: Dict<Cell>, today: Date): Plan {
    var ie := IeOf(item);
    var ieDigits := IeDigitsOf(item);
    var value := GetOr(item, "valor_normal", Empty);
    var month := IntOf(GetOr(item, "mes_ref", Empty));
    var year := IntOf(GetOr(item, "ano_ref", Empty));
    if month.None? || year.None? then Refuse(ShownIe(ie), MissingPeriodReason)
    else if ie == [] || ieDigits == [] then Refuse(ShownIe(ie), InvalidIeReason)
    else if NormalValueInvalid(value) then Skip
    else if DueDatePassed(month.value, year.value, today) then Refuse(ie, PastDueReason)
    else Submit(ie, FormOf(ieDigits, month.value, year.value, value))
  }

  /** `ie_digitos` falls back to `ie`, so it is empty only when `ie` is:
      the I.E. check comes down to `ie` alone. */
  lemma IeDigitsEmptyIff(item: Dict<Cell>)
    ensures (IeOf(item) == [] || IeDigitsOf(item) == []) <==> IeOf(item) == []
  {
  }

  /** Which reason a refused record gets, as an if-and-only-if per reason,
      and what a submitted record carries. */
  lemma PlanReasons(item: Dict<Cell>, today: Date)
    ensures var p := PlanOf(item, today);
      var value := GetOr(item, "valor_normal", Empty);
      var month := IntOf(GetOr(item, "mes_ref", Empty));
      var year := IntOf(GetOr(item, "ano_ref", Empty));
      var periodOk := month.Some? && year.Some?;
      (p.Refuse? && p.reason == MissingPeriodReason <==> !periodOk)
      && (p.Refuse? && p.reason == InvalidIeReason <==> periodOk && IeOf(item) == [])
      && (p.Skip? <==> periodOk && IeOf(item) != [] && NormalValueInvalid(value))
      && (p.Refuse? && p.reason == PastDueReason <==>
            periodOk && IeOf(item) != [] && !NormalValueInvalid(value) && DueDatePassed(month.value, year.value, today))
      && (p.Refuse? ==> |p.reason| <= MaxReasonLength && p.ie != [])
      && (p.Submit? ==> p.ie == IeOf(item) && p.ie != [] && periodOk && ValidPeriod(month.value, year.value)
                        && !DueDatePassed(month.value, year.value, today) && !NormalValueInvalid(value)
                        && p.form == FormOf(IeDigitsOf(item), month.value, year.value, value)
                        && p.form.ieDigits != [])
  {
    IeDigitsEmptyIff(item);
    ReasonsDiffer();
  }

  /** A refusal names a non-empty I.E. and a reason of at most 80
      characters, and a submission a non-empty I.E. */
  predicate Sound(p: Plan) {
    (p.Refuse? ==> p.ie != [] && |p.reason| <= MaxReasonLength)
    && (p.Submit? ==> p.ie != [])
  }

  lemma PlanSound(item: Dict<Cell>, today: Date)
    ensures Sound(PlanOf(item, today))
  {
    ReasonsDiffer();
  }

  lemma ReasonsDiffer()
    ensures MissingPeriodReason != InvalidIeReason && MissingPeriodReason != PastDueReason
    ensures InvalidIeReason != PastDueReason
    ensures |MissingPeriodReason| <= MaxReasonLength && |InvalidIeReason| <= MaxReasonLength
    ensures |PastDueReason| <= MaxReasonLength
  {
    assert |MissingPeriodReason| == 47 && |InvalidIeReason| == 20 && |PastDueReason| == 65;
  }

  // ---------------------------------------------------------------------
  // the driver
  // ---------------------------------------------------------------------

  /** The calls the batch makes on the browser. */
  datatype Step =
    | Launch | OpenPortal | Pause(ms: nat)
    | ClickIcmsMenu | SelectTaxCode | ClickAdvance | FillIe(ie: string) | SelectNoSubstitution
    | FillPeriod(text: string) | FillDueDates(text: string) | FillPrincipal(amount: Decimal)
    | ClickCalculate | Capture | Shutdown

  /** Every call but opening and closing the session. */
  predicate Inner(s: Step) {
    !s.Launch? && !s.Shutdown?
  }

  /** How call number `n` ends: the message of its failure, or none. */
  function Answer(failures: map<nat, string>, n: nat): Option<string> {
    if n in failures then Some(failures[n]) else None
  }

  /** The browser as the batch sees it: every call is recorded in order,
      and the call with a given number fails with its scripted message. */
  class Driver {
    var calls: seq<Step>
    const failures: map<nat, string>

    constructor(failures: map<nat, string>)
      ensures calls == [] && this.failures == failures
    {
      calls := [];
      this.failures := failures;
    }

    method Perform(step: Step) returns (error: Option<string>)
      modifies this
      ensures calls == old(calls) + [step]
      ensures error == Answer(failures, |old(calls)|)
    {
      error := Answer(failures, |calls|);
      calls := calls + [step];
    }
  }

  /** A run of calls so far and how it ended, extended by one more call:
      after a failure nothing more is called. `n` is the number of the run's
      first call. */
  function Then(run: (seq<Step>, Option<string>), step: Step, n: nat, failures: map<nat, string>)
    : (r: (seq<Step>, Option<string>))
    ensures run.1.Some? ==> r == run
    ensures run.1.None? ==> r.0 == run.0 + [step]
  {
    if run.1.Some? then run else (run.0 + [step], Answer(failures, n + |run.0|))
  }

  /** Awaiting `steps` one after the other from call number `n` on: the
      calls made, which stop at the first failure, and that failure's
      message, if any. */
  function Calls(steps: seq<Step>, n: nat, failures: map<nat, string>): (r: (seq<Step>, Option<string>))
    ensures |r.0| <= |steps| && r.0 == steps[..|r.0|]
    ensures r.1.None? ==> r.0 == steps
    ensures steps != [] ==> |r.0| >= 1
  {
    if steps == [] then ([], None)
    else Then(Calls(steps[..|steps| - 1], n, failures), steps[|steps| - 1], n, failures)
  }

  /** One more step awaited after the others. */
  lemma CallsSnoc(steps: seq<Step>, step: Step, n: nat, failures: map<nat, string>)
    ensures Calls(steps + [step], n, failures) == Then(Calls(steps, n, failures), step, n, failures)
  {
    assert (steps + [step])[..|steps|] == steps;
  }

  /** Awaited steps stop at the first failure: the run completes exactly
      when none of its call numbers fails, and otherwise its failure is the
      answer to the last call made, every earlier call having succeeded. */
  lemma CallsMeaning(steps: seq<Step>, n: nat, failures: map<nat, string>)
    ensures var r := Calls(steps, n, failures);
      (r.1.None? <==> forall k :: n <= k < n + |steps| ==> k !in failures)
      && (r.1.Some? ==> |r.0| >= 1 && r.1 == Answer(failures, n + |r.0| - 1)
                        && forall k :: n <= k < n + |r.0| - 1 ==> k !in failures)
  {
    CallsFirstFailure(steps, n, failures);
    var r := Calls(steps, n, failures);
    if r.1.Some? {
      assert n + |r.0| - 1 in failures;
    }
  }

  /** The calls made succeed, but for the last one when the run failed. */
  lemma {:induction false} CallsFirstFailure(steps: seq<Step>, n: nat, failures: map<nat, string>)
    ensures var r := Calls(steps, n, failures);
      (r.1.None? ==> forall k :: n <= k < n + |steps| ==> k !in failures)
      && (r.1.Some? ==> |r.0| >= 1 && r.1 == Answer(failures, n + |r.0| - 1)
                        && forall k :: n <= k < n + |r.0| - 1 ==> k !in failures)
  {
    if steps != [] {
      var init := steps[..|steps| - 1];
      var r0 := Calls(init, n, failures);
      CallsFirstFailure(init, n, failures);
      assert Calls(steps, n, failures) == Then(r0, steps[|steps| - 1], n, failures);
      if r0.1.None? {
        assert |r0.0| == |init|;
      }
    }
  }

  /** What the form is filled with: the I.E. digits, the period and
      due-date texts, and the principal amount as `float()` reads the NORMAL
      value, or its error. */
  datatype Form = Form(ieDigits: string, period: string, dueDates: string, amount: Result<Decimal>)

  /** The form for a record with these digits, period and NORMAL value. */
  function FormOf(ieDigits: string, month: nat, year: nat, value: Cell): Form {
    Form(ieDigits, PeriodText(month, year), DueDateText(month, year), FloatOf(value))
  }

  /** For a valid period with a four-digit year, the period typed is read
      back from a cell as the same month and year, and so are the due and
      payment dates, ten characters long; the amount is typed exactly when
      `float()` reads the value. */
  lemma FormTexts(ieDigits: string, month: nat, year: nat, value: Cell)
    requires ValidPeriod(month, year) && year >= 1000
    ensures var f := FormOf(ieDigits, month, year, value);
      CellPeriod(Str(f.period)) == Some((month, year))
      && |f.dueDates| == 10 && ParsePeriodText(f.dueDates) == Some((month, year))
      && (f.amount.Ok? <==> FloatOf(value).Ok?)
  {
    DueDateTextReadsBack(month, year);
    CellReadsPeriodText(month, year);
  }

  /** The steps of the form up to the due dates: ICMS menu, code 113000,
      Advance, the I.E., no tax substitution, Advance, the period and the
      due and payment dates. */
  function FormSteps(f: Form): (r: seq<Step>)
    ensures |r| == 8 && r[0] == ClickIcmsMenu && forall k :: 0 <= k < |r| ==> Inner(r[k])
  {
    [ClickIcmsMenu] + [SelectTaxCode] + [ClickAdvance] + [FillIe(f.ieDigits)] + [SelectNoSubstitution]
    + [ClickAdvance] + [FillPeriod(f.period)] + [FillDueDates(f.dueDates)]
  }

  /** The whole form from call number `n` on: its first eight steps, then
      the principal amount and Calculate. A value `float()` refuses fails
      the form with Python's message before anything more is typed. */
  function FormRun(f: Form, n: nat, failures: map<nat, string>): (seq<Step>, Option<string>)
  {
    var steps := FormSteps(f);
    var head := Calls(steps, n, failures);
    if head.1.Some? then head
    else match f.amount
      case Err(message) => (head.0, Some(message))
      case Ok(amount) => Calls(steps + [FillPrincipal(amount)] + [ClickCalculate], n, failures)
  }

  /** The form starts at the ICMS menu and never opens or closes the
      session; it succeeds only when `float()` read the value, after all
      ten steps. */
  lemma FormShape(f: Form, n: nat, failures: map<nat, string>)
    ensures var r := FormRun(f, n, failures);
      |r.0| >= 1 && r.0[0] == ClickIcmsMenu
      && (forall k :: 0 <= k < |r.0| ==> Inner(r.0[k]))
      && (r.1.None? ==> f.amount.Ok? && r.0 == FormSteps(f) + [FillPrincipal(f.amount.value)] + [ClickCalculate])
  {
    var steps := FormSteps(f);
    var head := Calls(steps, n, failures);
    assert head.0[0] == steps[0];
    if head.1.None? && f.amount.Ok? {
      var all := steps + [FillPrincipal(f.amount.value)] + [ClickCalculate];
      var r := Calls(all, n, failures);
      assert r.0[0] == all[0] == steps[0];
      assert forall k :: 0 <= k < |all| ==> Inner(all[k]);
      assert forall k :: 0 <= k < |r.0| ==> r.0[k] == all[k];
    } else {
      assert forall k :: 0 <= k < |head.0| ==> head.0[k] == steps[k];
    }
  }

  // ---------------------------------------------------------------------
  // the batch, as a specification
  // ---------------------------------------------------------------------

  /** The batch so far: the driver calls, the I.E.s submitted, the refused
      I.E.s with their reasons, and the error that ended the batch, if any. */
  datatype Batch = Batch(calls: seq<Step>, done: seq<string>, failed: seq<(string, string)>, abort: Option<string>)

  /** What a submission does before the form: from the second record on,
      wait the configured interval and reopen the portal. */
  function PreSteps(index: nat, intervalMs: nat): (r: seq<Step>)
    ensures index == 0 <==> r == []
  {
    if index > 0 then [Pause(intervalMs)] + [OpenPortal] else []
  }

  /** The form on top of the batch so far. A failure of the form is
      recorded with its reason after a screenshot, whose own failure ends
      the batch. */
  function Attempt(b: Batch, ie: string, f: Form, failures: map<nat, string>)
    : Batch
  {
    var form := FormRun(f, |b.calls|, failures);
    if form.1.None? then b.(calls := b.calls + form.0, done := b.done + [ie])
    else
      var capture := Answer(failures, |b.calls| + |form.0|);
      var calls := b.calls + form.0 + [Capture];
      if capture.Some? then b.(calls := calls, abort := capture)
      else b.(calls := calls, failed := b.failed + [(ie, FailureReason(form.1.value))])
  }

  /** A submission on top of the batch so far: the steps before the form,
      whose failure ends the batch, then the form. */
  function Submission(b: Batch, ie: string, f: Form, index: nat,
                      intervalMs: nat, failures: map<nat, string>): Batch
  {
    var pre := Calls(PreSteps(index, intervalMs), |b.calls|, failures);
    if pre.1.Some? then b.(calls := b.calls + pre.0, abort := pre.1)
    else Attempt(b.(calls := b.calls + pre.0), ie, f, failures)
  }

  /** One record, at position `index` of the input and with this plan, on
      top of the batch so far: nothing once the batch has ended, otherwise
      as the plan says. */
  function Process(b: Batch, plan: Plan, index: nat, intervalMs: nat, failures: map<nat, string>): Batch {
    if b.abort.Some? then b
    else match plan
      case Skip => b
      case Refuse(ie, reason) => b.(failed := b.failed + [(ie, reason)])
      case Submit(ie, form) => Submission(b, ie, form, index, intervalMs, failures)
  }

  /** The plan of every record of the input. */
  function Plans(items: seq<Dict<Cell>>, today: Date): (plans: seq<Plan>)
    ensures |plans| == |items| && forall k :: 0 <= k < |items| ==> plans[k] == PlanOf(items[k], today)
  {
    seq(|items|, k requires 0 <= k < |items| => PlanOf(items[k], today))
  }

  /** The batch after the first `i` records of the input, given their
      plans. */
  function Progress(plans: seq<Plan>, i: nat, intervalMs: nat, failures: map<nat, string>, start: Batch): Batch
    requires i <= |plans|
  {
    if i == 0 then start
    else Process(Progress(plans, i - 1, intervalMs, failures, start), plans[i - 1], i - 1, intervalMs, failures)
  }

  /** The steps that open the session: launch the browser, open the portal. */
  function OpenSteps(): (r: seq<Step>)
    ensures |r| == 2 && r[0] == Launch && Inner(r[1])
  {
    [Launch] + [OpenPortal]
  }

  /** The batch of a whole run before the browser is closed: the session
      opened, then every record processed unless opening failed. */
  function SessionBatch(items: seq<Dict<Cell>>, today: Date, intervalMs: nat, failures: map<nat, string>,
                        calls0: seq<Step>): Batch
  {
    var began := Calls(OpenSteps(), |calls0|, failures);
    var start := Batch(calls0 + began.0, [], [], began.1);
    if began.1.Some? then start else Progress(Plans(items, today), |items|, intervalMs, failures, start)
  }

  /** A whole run: open the session, process every record, and close the
      browser whatever happened. The calls made, and the submitted and
      refused lists, or the error that escaped: a failure to close wins
      over an earlier one. */
  function Session(items: seq<Dict<Cell>>, today: Date, intervalMs: nat, failures: map<nat, string>, calls0: seq<Step>)
    : (seq<Step>, Result<(seq<string>, seq<(string, string)>)>)
  {
    var b := SessionBatch(items, today, intervalMs, failures, calls0);
    var closing := Answer(failures, |b.calls|);
    (b.calls + [Shutdown],
     if closing.Some? then Err(closing.value)
     else if b.abort.Some? then Err(b.abort.value)
     else Ok((b.done, b.failed)))
  }

  // ---------------------------------------------------------------------
  // properties of the batch
  // ---------------------------------------------------------------------

  /** `c'` is `c` followed by calls other than opening and closing the
      session. */
  predicate Extends(c: seq<Step>, c': seq<Step>) {
    |c| <= |c'| && c'[..|c|] == c && forall k :: |c| <= k < |c'| ==> Inner(c'[k])
  }

  lemma ExtendsAppend(c: seq<Step>, added: seq<Step>)
    requires forall k :: 0 <= k < |added| ==> Inner(added[k])
    ensures Extends(c, c + added)
  {
    assert forall k :: |c| <= k < |c + added| ==> (c + added)[k] == added[k - |c|];
  }

  lemma ExtendsTrans(a: seq<Step>, b: seq<Step>, c: seq<Step>)
    requires Extends(a, b) && Extends(b, c)
    ensures Extends(a, c)
  {
    assert c[..|a|] == c[..|b|][..|a|];
    forall k | |a| <= k < |b|
      ensures Inner(c[k])
    {
      assert c[k] == c[..|b|][k];
    }
  }

  /** `b'` is `b` after at most one more outcome, a non-empty I.E. that
      went through or a refusal reason of at most 80 characters, and after
      calls other than opening and closing the session. */
  ghost predicate Adds(b: Batch, b': Batch) {
    Extends(b.calls, b'.calls)
    && ((b'.done == b.done && b'.failed == b.failed)
        || (exists ie :: b'.done == b.done + [ie] && ie != [] && b'.failed == b.failed)
        || (b'.done == b.done && exists e :: b'.failed == b.failed + [e] && |e.1| <= MaxReasonLength))
  }

  /** The form only appends calls, none of which opens or closes the
      session. */
  lemma AttemptCalls(b: Batch, ie: string, f: Form, failures: map<nat, string>)
    ensures Extends(b.calls, Attempt(b, ie, f, failures).calls)
  {
    FormShape(f, |b.calls|, failures);
    var form := FormRun(f, |b.calls|, failures);
    if form.1.Some? {
      var added := form.0 + [Capture];
      assert b.calls + form.0 + [Capture] == b.calls + added;
      assert forall k :: 0 <= k < |added| ==> Inner(added[k]) by {
        forall k | 0 <= k < |added|
          ensures Inner(added[k])
        {
          if k < |form.0| {
            assert added[k] == form.0[k];
          }
        }
      }
      ExtendsAppend(b.calls, added);
    } else {
      ExtendsAppend(b.calls, form.0);
    }
  }

  /** The form adds at most one outcome for a non-empty I.E.: the I.E. when
      the form went through, a reason of at most 80 characters when it did
      not. */
  lemma AttemptAdds(b: Batch, ie: string, f: Form, failures: map<nat, string>)
    requires ie != []
    ensures Adds(b, Attempt(b, ie, f, failures))
  {
    var b' := Attempt(b, ie, f, failures);
    AttemptCalls(b, ie, f, failures);
    var form := FormRun(f, |b.calls|, failures);
    if form.1.Some? {
      if Answer(failures, |b.calls| + |form.0|).None? {
        var e := (ie, FailureReason(form.1.value));
        assert b'.failed == b.failed + [e] && |e.1| <= MaxReasonLength;
      }
    } else {
      assert b'.done == b.done + [ie];
    }
  }

  /** A submission only appends calls, none of which opens or closes the
      session, starting with those before the form. */
  lemma SubmissionCalls(b: Batch, ie: string, f: Form, index: nat, intervalMs: nat, failures: map<nat, string>)
    ensures var b' := Submission(b, ie, f, index, intervalMs, failures);
      var pre := Calls(PreSteps(index, intervalMs), |b.calls|, failures);
      Extends(b.calls + pre.0, b'.calls) && Extends(b.calls, b'.calls)
  {
    var pre := Calls(PreSteps(index, intervalMs), |b.calls|, failures);
    var b' := Submission(b, ie, f, index, intervalMs, failures);
    assert forall k :: 0 <= k < |pre.0| ==> Inner(pre.0[k]);
    ExtendsAppend(b.calls, pre.0);
    if pre.1.None? {
      AttemptCalls(b.(calls := b.calls + pre.0), ie, f, failures);
    } else {
      ExtendsAppend(b.calls + pre.0, []);
      assert b.calls + pre.0 + [] == b.calls + pre.0;
    }
    ExtendsTrans(b.calls, b.calls + pre.0, b'.calls);
  }

  /** A submission of a non-empty I.E. adds at most one outcome. */
  lemma SubmissionAdds(b: Batch, ie: string, f: Form, index: nat, intervalMs: nat, failures: map<nat, string>)
    requires ie != []
    ensures Adds(b, Submission(b, ie, f, index, intervalMs, failures))
  {
    var pre := Calls(PreSteps(index, intervalMs), |b.calls|, failures);
    SubmissionCalls(b, ie, f, index, intervalMs, failures);
    if pre.1.None? {
      AttemptAdds(b.(calls := b.calls + pre.0), ie, f, failures);
    }
  }

  /** A submission waits and reopens the portal first exactly when the
      record is not the first of the input; the first record starts right
      at the ICMS menu. */
  lemma SubmissionPauses(b: Batch, ie: string, f: Form, index: nat, intervalMs: nat, failures: map<nat, string>)
    ensures var c := Submission(b, ie, f, index, intervalMs, failures).calls;
      |c| > |b.calls|
      && (index > 0 ==> c[|b.calls|] == Pause(intervalMs))
      && (index == 0 ==> c[|b.calls|] == ClickIcmsMenu)
  {
    var pre := Calls(PreSteps(index, intervalMs), |b.calls|, failures);
    var c := Submission(b, ie, f, index, intervalMs, failures).calls;
    SubmissionCalls(b, ie, f, index, intervalMs, failures);
    if index > 0 {
      assert c[|b.calls|] == c[..|b.calls + pre.0|][|b.calls|] == pre.0[0];
    } else {
      assert pre.0 == [];
      assert b.calls + pre.0 == b.calls;
      FormShape(f, |b.calls|, failures);
    }
  }

  /** What one record adds to the batch: at most one outcome, a submitted
      I.E. that is not empty or a refusal reason of at most 80 characters,
      and only calls other than opening and closing the session, appended
      to those made before; a record that is not submitted makes no call at
      all, and a batch that has ended stays as it is. */
  lemma ProcessAdds(b: Batch, plan: Plan, index: nat, intervalMs: nat, failures: map<nat, string>)
    requires Sound(plan)
    ensures var b' := Process(b, plan, index, intervalMs, failures);
      Adds(b, b')
      && (!plan.Submit? ==> b'.calls == b.calls)
      && (b.abort.Some? ==> b' == b)
      && (plan.Skip? ==> b' == b)
      && (b.abort.None? && plan.Refuse? ==> b' == b.(failed := b.failed + [(plan.ie, plan.reason)]))
  {
    var b' := Process(b, plan, index, intervalMs, failures);
    if b.abort.None? && plan.Submit? {
      SubmissionAdds(b, plan.ie, plan.form, index, intervalMs, failures);
    } else {
      ExtendsAppend(b.calls, []);
      assert b.calls + [] == b.calls;
      if b.abort.None? && plan.Refuse? {
        assert b'.failed == b.failed + [(plan.ie, plan.reason)];
      }
    }
  }

  /** Once the batch has ended with an error, later records change nothing. */
  lemma {:induction false} AbortStays(plans: seq<Plan>, i: nat, j: nat, intervalMs: nat,
                                      failures: map<nat, string>, start: Batch)
    requires i <= j <= |plans| && Progress(plans, i, intervalMs, failures, start).abort.Some?
    ensures Progress(plans, j, intervalMs, failures, start) == Progress(plans, i, intervalMs, failures, start)
    decreases j - i
  {
    if i < j {
      AbortStays(plans, i, j - 1, intervalMs, failures, start);
    }
  }

  /** The I.E.s of the records among the first `i` whose plan is a
      submission, in input order. */
  function SubmittedIes(plans: seq<Plan>, i: nat): (ies: seq<string>)
    requires i <= |plans|
    ensures |ies| <= i
  {
    if i == 0 then []
    else SubmittedIes(plans, i - 1) + (if plans[i - 1].Submit? then [plans[i - 1].ie] else [])
  }

  /** The record with this plan, on top of the batch so far, is submitted
      and both the steps before its form and the whole form go through. */
  predicate Completes(b: Batch, plan: Plan, index: nat, intervalMs: nat, failures: map<nat, string>) {
    b.abort.None? && plan.Submit?
    && var pre := Calls(PreSteps(index, intervalMs), |b.calls|, failures);
       pre.1.None? && FormRun(plan.form, |b.calls| + |pre.0|, failures).1.None?
  }

  /** A record adds its I.E. to the successes exactly when it completes. */
  lemma ProcessDoneIff(b: Batch, plan: Plan, index: nat, intervalMs: nat, failures: map<nat, string>)
    ensures Process(b, plan, index, intervalMs, failures).done
            == if Completes(b, plan, index, intervalMs, failures) then b.done + [plan.ie] else b.done
  {
    if b.abort.None? && plan.Submit? {
      var pre := Calls(PreSteps(index, intervalMs), |b.calls|, failures);
      var b1 := b.(calls := b.calls + pre.0);
      if pre.1.None? {
        assert Process(b, plan, index, intervalMs, failures) == Attempt(b1, plan.ie, plan.form, failures);
        AttemptDone(b1, plan.ie, plan.form, failures);
      } else {
        assert Process(b, plan, index, intervalMs, failures).done == b.done;
      }
    }
  }

  /** The form adds its I.E. to the successes exactly when it goes through. */
  lemma AttemptDone(b: Batch, ie: string, f: Form, failures: map<nat, string>)
    ensures Attempt(b, ie, f, failures).done
            == if FormRun(f, |b.calls|, failures).1.None? then b.done + [ie] else b.done
  {
  }

  /** A record that completes adds nothing but its success; a submitted
      record that does not complete is refused under its I.E. or ends the
      batch. */
  lemma ProcessCompletes(b: Batch, plan: Plan, index: nat, intervalMs: nat, failures: map<nat, string>)
    ensures var b' := Process(b, plan, index, intervalMs, failures);
      Completes(b, plan, index, intervalMs, failures) ==> b'.failed == b.failed && b'.abort.None?
    ensures var b' := Process(b, plan, index, intervalMs, failures);
      b.abort.None? && plan.Submit? && !Completes(b, plan, index, intervalMs, failures) ==>
        b'.abort.Some? || (|b'.failed| == |b.failed| + 1 && b'.failed[|b.failed|].0 == plan.ie)
  {
  }

  /** `ProcessDoneIff` for a batch whose successes are `pre + before`. */
  lemma DoneAfter(b: Batch, plan: Plan, index: nat, intervalMs: nat, failures: map<nat, string>,
                  pre: seq<string>, before: seq<string>)
    requires b.done == pre + before
    ensures Process(b, plan, index, intervalMs, failures).done
            == pre + (before + if Completes(b, plan, index, intervalMs, failures) then [plan.ie] else [])
  {
    ProcessDoneIff(b, plan, index, intervalMs, failures);
  }

  /** The I.E.s of the records among the first `i` that complete, in input
      order. */
  function CompletedIes(plans: seq<Plan>, i: nat, intervalMs: nat, failures: map<nat, string>, start: Batch)
    : (ies: seq<string>)
    requires i <= |plans|
    ensures |ies| <= i
  {
    if i == 0 then []
    else
      var b := Progress(plans, i - 1, intervalMs, failures, start);
      CompletedIes(plans, i - 1, intervalMs, failures, start)
      + (if Completes(b, plans[i - 1], i - 1, intervalMs, failures) then [plans[i - 1].ie] else [])
  }

  /** The successes after the first `i` records are those of the start
      followed by the I.E.s of the records that completed, in input order. */
  lemma {:induction false} DoneCompleted(plans: seq<Plan>, i: nat, intervalMs: nat, failures: map<nat, string>,
                                         start: Batch)
    requires i <= |plans|
    ensures Progress(plans, i, intervalMs, failures, start).done
            == start.done + CompletedIes(plans, i, intervalMs, failures, start)
  {
    if i > 0 {
      var b := Progress(plans, i - 1, intervalMs, failures, start);
      var before := CompletedIes(plans, i - 1, intervalMs, failures, start);
      var added := if Completes(b, plans[i - 1], i - 1, intervalMs, failures) then [plans[i - 1].ie] else [];
      DoneCompleted(plans, i - 1, intervalMs, failures, start);
      DoneAfter(b, plans[i - 1], i - 1, intervalMs, failures, start.done, before);
      assert CompletedIes(plans, i, intervalMs, failures, start) == before + added;
    }
  }

  /** The records that complete are submitted ones: their I.E.s are a
      subsequence, in input order, of the submitted I.E.s. */
  lemma {:induction false} CompletedSubmitted(plans: seq<Plan>, i: nat, intervalMs: nat, failures: map<nat, string>,
                                              start: Batch)
    requires i <= |plans|
    ensures Subsequence(CompletedIes(plans, i, intervalMs, failures, start), SubmittedIes(plans, i))
  {
    if i > 0 {
      var done := CompletedIes(plans, i - 1, intervalMs, failures, start);
      var before := SubmittedIes(plans, i - 1);
      CompletedSubmitted(plans, i - 1, intervalMs, failures, start);
      var b := Progress(plans, i - 1, intervalMs, failures, start);
      var completes := Completes(b, plans[i - 1], i - 1, intervalMs, failures);
      assert CompletedIes(plans, i, intervalMs, failures, start) == done + (if completes then [plans[i - 1].ie] else []);
      if plans[i - 1].Submit? {
        assert SubmittedIes(plans, i) == before + [plans[i - 1].ie];
        SubsequenceAppend(done, before, plans[i - 1].ie);
        if !completes {
          assert done + [] == done;
        }
      } else {
        assert !completes;
        assert SubmittedIes(plans, i) == before + [];
        assert before + [] == before;
        assert done + [] == done;
      }
    }
  }

  /** Unless opening the session failed, the successes of a run are the
      I.E.s of the records that completed after the session opened. */
  lemma SessionBatchDone(items: seq<Dict<Cell>>, today: Date, intervalMs: nat, failures: map<nat, string>,
                         calls0: seq<Step>)
    ensures var b := SessionBatch(items, today, intervalMs, failures, calls0);
      b.abort.None? ==>
        b.done == CompletedIes(Plans(items, today), |items|, intervalMs, failures, Batch(calls0 + OpenSteps(), [], [], None))
  {
    var plans := Plans(items, today);
    var began := Calls(OpenSteps(), |calls0|, failures);
    var start := Batch(calls0 + began.0, [], [], began.1);
    if began.1.None? {
      DoneCompleted(plans, |items|, intervalMs, failures, start);
      assert start.done + CompletedIes(plans, |items|, intervalMs, failures, start)
             == CompletedIes(plans, |items|, intervalMs, failures, start);
    }
  }

  /** The I.E.s a whole run reports as done are exactly those of the records
      whose submission went through, in input order, and so a subsequence of
      the submitted I.E.s. */
  lemma SessionDone(items: seq<Dict<Cell>>, today: Date, intervalMs: nat, failures: map<nat, string>,
                    calls0: seq<Step>)
    ensures var r := Session(items, today, intervalMs, failures, calls0).1;
      var completed := CompletedIes(Plans(items, today), |items|, intervalMs, failures, Batch(calls0 + OpenSteps(), [], [], None));
      r.Ok? ==> r.value.0 == completed && Subsequence(completed, SubmittedIes(Plans(items, today), |items|))
  {
    SessionResult(items, today, intervalMs, failures, calls0);
    SessionBatchDone(items, today, intervalMs, failures, calls0);
    CompletedSubmitted(Plans(items, today), |items|, intervalMs, failures, Batch(calls0 + OpenSteps(), [], [], None));
  }

  /** A run succeeds only when neither opening, nor any record, nor closing
      the session failed, and then reports the batch's outcomes. */
  lemma SessionResult(items: seq<Dict<Cell>>, today: Date, intervalMs: nat, failures: map<nat, string>,
                      calls0: seq<Step>)
    ensures var r := Session(items, today, intervalMs, failures, calls0).1;
      var b := SessionBatch(items, today, intervalMs, failures, calls0);
      r.Ok? <==> b.abort.None? && Answer(failures, |b.calls|).None?
    ensures var r := Session(items, today, intervalMs, failures, calls0).1;
      var b := SessionBatch(items, today, intervalMs, failures, calls0);
      r.Ok? ==> r.value == (b.done, b.failed)
  {
  }

  /** The properties of `ProcessAdds`, over the first `i` records of an
      input processed from an empty batch. */
  predicate Bounded(b: Batch, i: nat, calls0: seq<Step>) {
    |b.done| + |b.failed| <= i
    && (forall k :: 0 <= k < |b.done| ==> b.done[k] != [])
    && (forall k :: 0 <= k < |b.failed| ==> |b.failed[k].1| <= MaxReasonLength)
    && Extends(calls0, b.calls)
  }

  lemma BoundedStep(b: Batch, b': Batch, i: nat, calls0: seq<Step>)
    requires Bounded(b, i, calls0) && Adds(b, b')
    ensures Bounded(b', i + 1, calls0)
  {
    ExtendsTrans(calls0, b.calls, b'.calls);
    if b'.done != b.done {
      var ie :| b'.done == b.done + [ie] && ie != [] && b'.failed == b.failed;
      assert forall k :: 0 <= k < |b'.done| ==> b'.done[k] == if k < |b.done| then b.done[k] else ie;
    }
    if b'.failed != b.failed {
      var e :| b'.failed == b.failed + [e] && |e.1| <= MaxReasonLength;
      assert forall k :: 0 <= k < |b'.failed| ==> b'.failed[k] == if k < |b.failed| then b.failed[k] else e;
    }
  }

  /** Over the whole input: each record yields at most one outcome, every
      refusal reason has at most 80 characters, every submitted I.E. is
      non-empty, and the calls are those made before followed by calls
      other than opening and closing the session. */
  lemma {:induction false} ProgressBounds(plans: seq<Plan>, i: nat, intervalMs: nat,
                                          failures: map<nat, string>, calls0: seq<Step>)
    requires i <= |plans| && forall k :: 0 <= k < |plans| ==> Sound(plans[k])
    ensures Bounded(Progress(plans, i, intervalMs, failures, Batch(calls0, [], [], None)), i, calls0)
  {
    var start := Batch(calls0, [], [], None);
    if i > 0 {
      var b := Progress(plans, i - 1, intervalMs, failures, start);
      ProgressBounds(plans, i - 1, intervalMs, failures, calls0);
      ProcessAdds(b, plans[i - 1], i - 1, intervalMs, failures);
      BoundedStep(b, Progress(plans, i, intervalMs, failures, start), i - 1, calls0);
    } else {
      ExtendsAppend(calls0, []);
      assert calls0 + [] == calls0;
    }
  }

  /** `ProgressBounds` over the whole input. */
  lemma InputBounded(items: seq<Dict<Cell>>, today: Date, intervalMs: nat, failures: map<nat, string>, calls0: seq<Step>)
    ensures var plans := Plans(items, today);
      Bounded(Progress(plans, |plans|, intervalMs, failures, Batch(calls0, [], [], None)), |items|, calls0)
  {
    PlansSound(items, today);
    ProgressBounds(Plans(items, today), |items|, intervalMs, failures, calls0);
  }

  lemma PlansSound(items: seq<Dict<Cell>>, today: Date)
    ensures forall k :: 0 <= k < |items| ==> Sound(Plans(items, today)[k])
  {
    forall k | 0 <= k < |items|
      ensures Sound(Plans(items, today)[k])
    {
      PlanSound(items[k], today);
    }
  }

  /** A run launches the browser once, first, and closes it once, last,
      with every other call in between; a run that finishes has no more
      outcomes than records, only non-empty submitted I.E.s and no refusal
      reason longer than 80 characters. */
  lemma SessionShape(items: seq<Dict<Cell>>, today: Date, intervalMs: nat, failures: map<nat, string>, calls0: seq<Step>)
    ensures var (calls, r) := Session(items, today, intervalMs, failures, calls0);
      |calls| >= |calls0| + 2 && calls[..|calls0|] == calls0
      && calls[|calls0|] == Launch && calls[|calls| - 1] == Shutdown
      && (forall k :: |calls0| < k < |calls| - 1 ==> Inner(calls[k]))
      && (r.Ok? ==> |r.value.0| + |r.value.1| <= |items|
                    && (forall k :: 0 <= k < |r.value.0| ==> r.value.0[k] != [])
                    && (forall k :: 0 <= k < |r.value.1| ==> |r.value.1[k].1| <= MaxReasonLength))
  {
    var began := Calls(OpenSteps(), |calls0|, failures);
    var b := SessionBatch(items, today, intervalMs, failures, calls0);
    SessionBatchBounded(items, today, intervalMs, failures, calls0);
    assert began.0[0] == Launch;
    assert forall k :: 1 <= k < |began.0| ==> Inner(began.0[k]);
    SessionCalls(calls0, began.0, b.calls);
  }

  lemma SessionBatchBounded(items: seq<Dict<Cell>>, today: Date, intervalMs: nat, failures: map<nat, string>,
                            calls0: seq<Step>)
    ensures Bounded(SessionBatch(items, today, intervalMs, failures, calls0), |items|,
                    calls0 + Calls(OpenSteps(), |calls0|, failures).0)
  {
    var began := Calls(OpenSteps(), |calls0|, failures);
    var c1 := calls0 + began.0;
    if began.1.None? {
      InputBounded(items, today, intervalMs, failures, c1);
    } else {
      ExtendsAppend(c1, []);
      assert c1 + [] == c1;
    }
  }

  lemma SessionCalls(calls0: seq<Step>, began: seq<Step>, c: seq<Step>)
    requires |began| >= 1 && began[0] == Launch && forall k :: 1 <= k < |began| ==> Inner(began[k])
    requires Extends(calls0 + began, c)
    ensures |c| >= |calls0| + 1 && c[..|calls0|] == calls0 && c[|calls0|] == Launch
    ensures forall k :: |calls0| < k < |c| ==> Inner(c[k])
  {
    var c1 := calls0 + began;
    assert c[|calls0|] == c[..|c1|][|calls0|] == c1[|calls0|];
    assert c[..|calls0|] == c[..|c1|][..|calls0|];
    forall k | |calls0| < k < |c|
      ensures Inner(c[k])
    {
      if k < |c1| {
        assert c[k] == c[..|c1|][k] == began[k - |calls0|];
      }
    }
  }

  // ---------------------------------------------------------------------
  // the automation
  // ---------------------------------------------------------------------

  /** The ICMS Normal automation: a driver, the pause between records, and
      whether a browser session is open. */
  class NormalAutomation {
    const driver: Driver
    const intervalMs: nat
    var sessionOpen: bool

    constructor(driver: Driver, intervalMs: nat)
      ensures this.driver == driver && this.intervalMs == intervalMs && !sessionOpen
    {
      this.driver := driver;
      this.intervalMs := intervalMs;
      sessionOpen := false;
    }

    /** The next step of a run of steps awaited from call number
      `|base|` on, unless an earlier one failed. */
    method Next(ghost base: seq<Step>, ghost steps: seq<Step>, error: Option<string>, step: Step)
      returns (e: Option<string>)
      requires driver.calls == base + Calls(steps, |base|, driver.failures).0
      requires error == Calls(steps, |base|, driver.failures).1
      modifies driver
      ensures driver.calls == base + Calls(steps + [step], |base|, driver.failures).0
      ensures e == Calls(steps + [step], |base|, driver.failures).1
    {
      CallsSnoc(steps, step, |base|, driver.failures);
      if error.Some? {
        return error;
      }
      e := driver.Perform(step);
    }

    /** Launches the browser and opens the portal. */
    method StartBrowser() returns (error: Option<string>)
      modifies this, driver
      ensures sessionOpen
      ensures var r := Calls(OpenSteps(), |old(driver.calls)|, driver.failures);
        driver.calls == old(driver.calls) + r.0 && error == r.1
    {
      ghost var base := driver.calls;
      error := Next(base, [], None, Launch);
      sessionOpen := true;
      error := Next(base, [Launch], error, OpenPortal);
    }

    /** Closes whatever part of the browser was opened. */
    method CloseBrowser() returns (error: Option<string>)
      modifies this, driver
      ensures !sessionOpen
      ensures driver.calls == old(driver.calls) + [Shutdown] && error == Answer(driver.failures, |old(driver.calls)|)
    {
      error := driver.Perform(Shutdown);
      sessionOpen := false;
    }

    /** Fills and submits the form for one record; the calls made and the
      failure, if any, are those of `FormRun`. */
    method FillForm(f: Form) returns (error: Option<string>)
      modifies driver
      ensures var r := FormRun(f, |old(driver.calls)|, driver.failures);
        driver.calls == old(driver.calls) + r.0 && error == r.1
    {
      ghost var base := driver.calls;
      ghost var steps: seq<Step> := [ClickIcmsMenu];
      error := Next(base, [], None, ClickIcmsMenu);
      error := Next(base, steps, error, SelectTaxCode);
      steps := steps + [SelectTaxCode];
      error := Next(base, steps, error, ClickAdvance);
      steps := steps + [ClickAdvance];
      error := Next(base, steps, error, FillIe(f.ieDigits));
      steps := steps + [FillIe(f.ieDigits)];
      error := Next(base, steps, error, SelectNoSubstitution);
      steps := steps + [SelectNoSubstitution];
      error := Next(base, steps, error, ClickAdvance);
      steps := steps + [ClickAdvance];
      error := Next(base, steps, error, FillPeriod(f.period));
      steps := steps + [FillPeriod(f.period)];
      error := Next(base, steps, error, FillDueDates(f.dueDates));
      steps := steps + [FillDueDates(f.dueDates)];
      assert steps == FormSteps(f);
      if error.Some? {
        return;
      }
      if f.amount.Err? {
        return Some(f.amount.message);
      }
      error := Next(base, steps, error, FillPrincipal(f.amount.value));
      steps := steps + [FillPrincipal(f.amount.value)];
      error := Next(base, steps, error, ClickCalculate);
    }

    /** The form, then on a failure the screenshot; the new lists and
      calls are those of `Attempt`. */
    method SubmitForm(ie: string, f: Form,
                   done: seq<string>, failed: seq<(string, string)>)
      returns (done': seq<string>, failed': seq<(string, string)>, abort: Option<string>)
      modifies driver
      ensures Batch(driver.calls, done', failed', abort)
              == Attempt(Batch(old(driver.calls), done, failed, None), ie, f, driver.failures)
    {
      done', failed', abort := done, failed, None;
      var error := FillForm(f);
      if error.Some? {
        var captureError := driver.Perform(Capture);
        if captureError.Some? {
          abort := captureError;
          return;
        }
        failed' := failed + [(ie, FailureReason(error.value))];
        return;
      }
      done' := done + [ie];
    }

    /** From the second record on, waits the configured interval and
      reopens the portal; the calls made and the failure, if any, are
      those of `PreSteps`. */
    method Prepare(index: nat) returns (error: Option<string>)
      modifies driver
      ensures var r := Calls(PreSteps(index, intervalMs), |old(driver.calls)|, driver.failures);
        driver.calls == old(driver.calls) + r.0 && error == r.1
    {
      ghost var base := driver.calls;
      if index > 0 {
        error := Next(base, [], None, Pause(intervalMs));
        error := Next(base, [Pause(intervalMs)], error, OpenPortal);
      } else {
        error := None;
        assert driver.calls == base + [];
      }
    }

    /** A submission: from the second record on, wait and reopen the
      portal, then the form; the new lists and calls are those of
      `Submission`. */
    method Submit(ie: string, f: Form, index: nat,
                  done: seq<string>, failed: seq<(string, string)>)
      returns (done': seq<string>, failed': seq<(string, string)>, abort: Option<string>)
      modifies driver
      ensures Batch(driver.calls, done', failed', abort)
              == Submission(Batch(old(driver.calls), done, failed, None), ie, f, index,
                            intervalMs, driver.failures)
    {
      var e := Prepare(index);
      if e.Some? {
        return done, failed, e;
      }
      done', failed', abort := SubmitForm(ie, f, done, failed);
    }

    /** One record of the batch: refused, skipped or submitted as its plan
      says; the new lists and calls are those of `Process`, and an error
      that ends the batch is returned in `abort`. */
    method ProcessItem(item: Dict<Cell>, index: nat, today: Date, done: seq<string>, failed: seq<(string, string)>)
      returns (done': seq<string>, failed': seq<(string, string)>, abort: Option<string>)
      modifies driver
      ensures Batch(driver.calls, done', failed', abort)
              == Process(Batch(old(driver.calls), done, failed, None), PlanOf(item, today), index, intervalMs, driver.failures)
    {
      match PlanOf(item, today)
      case Skip =>
        done', failed', abort := done, failed, None;
      case Refuse(ie, reason) =>
        done', failed', abort := done, failed + [(ie, reason)], None;
      case Submit(ie, form) =>
        done', failed', abort := Submit(ie, form, index, done, failed);
    }

    /** The whole batch: the submitted I.E.s and the refused ones with their
      reasons, or the error that escaped; the browser is closed in every
      case. */
    method Run(items: seq<Dict<Cell>>, today: Date) returns (r: Result<(seq<string>, seq<(string, string)>)>)
      modifies this, driver
      ensures !sessionOpen
      ensures (driver.calls, r) == Session(items, today, intervalMs, driver.failures, old(driver.calls))
    {
      var error := StartBrowser();
      var done: seq<string> := [];
      var failed: seq<(string, string)> := [];
      ghost var start := Batch(driver.calls, [], [], error);
      ghost var plans := Plans(items, today);
      if error.None? {
        var i := 0;
        while i < |items| && error.None?
          invariant 0 <= i <= |items|
          invariant Batch(driver.calls, done, failed, error) == Progress(plans, i, intervalMs, driver.failures, start)
        {
          done, failed, error := ProcessItem(items[i], i, today, done, failed);
          i := i + 1;
        }
        if i < |items| {
          AbortStays(plans, i, |items|, intervalMs, driver.failures, start);
        }
      }
      var closing := CloseBrowser();
      if closing.Some? {
        return Err(closing.value);
      }
      if error.Some? {
        return Err(error.value);
      }
      return Ok((done, failed));
    }
  }
}
