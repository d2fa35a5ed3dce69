/** The reference period (month, year) of a branch spreadsheet, read from the
    title area above the data: the reading of one title text, the reading of
    one cell and the scan of the title area. */
module Period {
  import opened Wrappers
  import opened Text
  import opened Values

  /** The title area: the first rows of the sheet and the first columns of
      each of them. */
  const PeriodSearchRows: nat := 12
  const PeriodSearchColumns: nat := 30

  /** Portuguese month abbreviations in the order they are tried; the month
      number is the position plus one. */
  const MonthAbbreviations: seq<string> :=
    ["jan", "fev", "mar", "abr", "mai", "jun", "jul", "ago", "set", "out", "nov", "dez"]

  const NoPeriodMessage: string :=
    "N\U{E3}o foi poss\U{ED}vel identificar o per\U{ED}odo de refer\U{EA}ncia na planilha."

  /** The message of the `ValueError` raised by `int()` on a text that is not
      a decimal number. */
  const IntLiteralError: string := "invalid literal for int() with base 10"

  /** The `MM/YYYY` text the ICMS Normal automation types into the period
      field: the month with at least two digits, then the year. */
  function PeriodText(month: nat, year: nat): string {
    TwoDigits(month) + "/" + NatText(year)
  }

  // ---------------------------------------------------------------------
  // reading a title text
  // ---------------------------------------------------------------------

  /** Accents stripped, then every backslash and every hyphen turned into a
      slash. */
  function PrepareText(texto: string): string {
    ReplaceChar(ReplaceChar(StripAccents(texto), '\\', '/'), '-', '/')
  }

  /** A year written with two digits is taken to be in the 2000s. */
  function FullYear(n: nat): nat {
    if n < 100 then n + 2000 else n
  }

  /** `\d{lo,hi}` matching a whole piece: `lo` to `hi` decimal digits. */
  predicate DigitRun(s: string, lo: nat, hi: nat) {
    lo <= |s| <= hi && AllDigits(s)
  }

  /** The number of decimal digits `s` starts with, counting at most `max`. */
  function LeadingDigitCount(s: string, max: nat): (n: nat)
    ensures n <= max && n <= |s|
    decreases max
  {
    if s == [] || max == 0 || !IsDigit(s[0]) then 0 else 1 + LeadingDigitCount(s[1..], max - 1)
  }

  /** The counted characters are digits, and the count stops at a non-digit
      unless it reached `max` or the end. */
  lemma {:induction false} LeadingDigitCountShape(s: string, max: nat)
    ensures AllDigits(s[..LeadingDigitCount(s, max)])
    ensures var n := LeadingDigitCount(s, max); n < max && n < |s| ==> !IsDigit(s[n])
    decreases max
  {
    if s != [] && max != 0 && IsDigit(s[0]) {
      LeadingDigitCountShape(s[1..], max - 1);
      var n := LeadingDigitCount(s[1..], max - 1);
      assert s[..n + 1] == [s[0]] + s[1..][..n];
    }
  }

  /** `re.findall(r"\d{2,4}", s)`: from left to right, each longest run of
      two to four digits, scanning on after it. */
  function DigitGroups(s: string): (groups: seq<string>)
    ensures forall i :: 0 <= i < |groups| ==> DigitRun(groups[i], 2, 4)
    decreases |s|
  {
    if s == [] then []
    else
      var n := LeadingDigitCount(s, 4);
      if n >= 2 then
        LeadingDigitCountShape(s, 4);
        [s[..n]] + DigitGroups(s[n..])
      else DigitGroups(s[1..])
  }

  /** The month of the first abbreviation from position `from` on that `t`
      contains, with the year taken from the last group of digits, as long as
      `t` has one. */
  function MonthByName(t: string, from: nat): Option<(nat, nat)>
    decreases |MonthAbbreviations| - from
  {
    if from >= |MonthAbbreviations| then None
    else
      var groups := DigitGroups(t);
      if Contains(t, MonthAbbreviations[from]) && groups != [] then
        Some((from + 1, FullYear(DigitsValue(groups[|groups| - 1]))))
      else MonthByName(t, from + 1)
  }

  /** The period in a prepared text: day/month/year, then month/year, then a
      month abbreviation with the last number as the year. */
  function ReadPeriodText(t: string): Option<(nat, nat)> {
    var parts := SplitOn(t, '/');
    if |parts| == 3 && DigitRun(parts[0], 1, 2) && DigitRun(parts[1], 1, 2) && DigitRun(parts[2], 2, 4) then
      Some((DigitsValue(parts[1]), FullYear(DigitsValue(parts[2]))))
    else if |parts| == 2 && DigitRun(parts[0], 1, 2) && DigitRun(parts[1], 2, 4) then
      Some((DigitsValue(parts[0]), FullYear(DigitsValue(parts[1]))))
    else MonthByName(t, 0)
  }

  /** The period a title text names, read with decimal-digit patterns. */
  function ParsePeriodText(texto: string): Option<(nat, nat)> {
    ReadPeriodText(PrepareText(texto))
  }

  // ---------------------------------------------------------------------
  // the patterns as written
  // ---------------------------------------------------------------------

  /** A piece of the raw-string pattern `\\d{lo,hi}`: one backslash followed
      by `lo` to `hi` letters `d`. */
  predicate BackslashDs(s: string, lo: nat, hi: nat) {
    lo + 1 <= |s| <= hi + 1 && s[0] == '\\' && forall i :: 1 <= i < |s| ==> s[i] == 'd'
  }

  predicate AsWrittenDate(t: string) {
    var parts := SplitOn(t, '/');
    |parts| == 3 && BackslashDs(parts[0], 1, 2) && BackslashDs(parts[1], 1, 2) && BackslashDs(parts[2], 2, 4)
  }

  predicate AsWrittenMonthYear(t: string) {
    var parts := SplitOn(t, '/');
    |parts| == 2 && BackslashDs(parts[0], 1, 2) && BackslashDs(parts[1], 2, 4)
  }

  /** `re.findall(r"\\d{2,4}", t)` finds something: a backslash followed by
      two letters `d` occurs in `t`. */
  predicate AsWrittenFindsNumber(t: string) {
    exists i :: 0 <= i && i + 2 < |t| && t[i] == '\\' && t[i + 1] == 'd' && t[i + 2] == 'd'
  }

  predicate NamesMonth(t: string) {
    exists k :: 0 <= k < |MonthAbbreviations| && Contains(t, MonthAbbreviations[k])
  }

  /** The title-text reading with the patterns as the source writes them:
      whenever one of them matched, `int()` would be handed a backslash and
      raise. */
  function ParsePeriodTextAsWritten(texto: string): Result<Option<(nat, nat)>> {
    var t := PrepareText(texto);
    if AsWrittenDate(t) || AsWrittenMonthYear(t) || (NamesMonth(t) && AsWrittenFindsNumber(t)) then
      Err(IntLiteralError)
    else Ok(None)
  }

  /** The prepared text holds no backslash. */
  lemma PreparedHasNoBackslash(texto: string)
    ensures '\\' !in PrepareText(texto)
  {
    var t := PrepareText(texto);
    forall i | 0 <= i < |t|
      ensures t[i] != '\\'
    {
    }
  }

  /** As written, no title text is ever read as a period: the backslashes the
      patterns ask for have all been replaced before matching. */
  lemma AsWrittenReadsNothing(texto: string)
    ensures ParsePeriodTextAsWritten(texto) == Ok(None)
  {
    var t := PrepareText(texto);
    PreparedHasNoBackslash(texto);
    SplitOnChars(t, '/');
    var parts := SplitOn(t, '/');
    forall i | 0 <= i < |parts| && parts[i] != []
      ensures parts[i][0] != '\\'
    {
      assert parts[i][0] in parts[i];
    }
    forall i | 0 <= i < |t|
      ensures t[i] != '\\'
    {
      assert t[i] in t;
    }
  }

  // ---------------------------------------------------------------------
  // reading the usual forms
  // ---------------------------------------------------------------------

  /** Characters that preparation leaves as they are. */
  predicate Plain(s: string) {
    forall i :: 0 <= i < |s| ==> s[i] < '\U{C0}' && s[i] != '\\' && s[i] != '-' && s[i] != '/'
  }

  predicate IsSeparator(sep: char) {
    sep == '/' || sep == '-' || sep == '\\'
  }

  /** Preparing text below the Latin-1 letters only turns separators into
      slashes. */
  lemma PrepareAscii(s: string)
    requires forall i :: 0 <= i < |s| ==> s[i] < '\U{C0}'
    ensures |PrepareText(s)| == |s|
    ensures forall i :: 0 <= i < |s| ==> PrepareText(s)[i] == if IsSeparator(s[i]) then '/' else s[i]
  {
    StripAccentsPlain(s);
  }

  /** Preparation works piece by piece. */
  lemma PrepareAppend(a: string, b: string)
    ensures PrepareText(a + b) == PrepareText(a) + PrepareText(b)
  {
    StripAccentsAppend(a, b);
    var x, y := StripAccents(a), StripAccents(b);
    ReplaceCharAppend(x, y, '\\', '/');
    ReplaceCharAppend(ReplaceChar(x, '\\', '/'), ReplaceChar(y, '\\', '/'), '-', '/');
  }

  lemma PreparePlain(a: string)
    requires Plain(a)
    ensures PrepareText(a) == a
  {
    PrepareAscii(a);
  }

  lemma PrepareSeparator(sep: char)
    requires IsSeparator(sep)
    ensures PrepareText([sep]) == "/"
  {
    PrepareAscii([sep]);
  }

  /** Two plain pieces around any separator prepare to the pieces around a
      slash, and split into the two pieces. */
  lemma PreparedPair(a: string, sep: char, b: string)
    requires Plain(a) && Plain(b) && IsSeparator(sep)
    ensures PrepareText(a + [sep] + b) == a + "/" + b
    ensures SplitOn(a + "/" + b, '/') == [a, b]
  {
    PrepareAppend(a + [sep], b);
    PrepareAppend(a, [sep]);
    PreparePlain(a);
    PreparePlain(b);
    PrepareSeparator(sep);
    SplitPair(a, b);
  }

  lemma SplitPair(a: string, b: string)
    requires Plain(a) && Plain(b)
    ensures SplitOn(a + "/" + b, '/') == [a, b]
  {
    assert JoinOn([a, b], '/') == a + "/" + b;
    JoinOnSplit([a, b], '/');
  }

  /** Three plain pieces around separators prepare to the pieces around
      slashes, and split into the three pieces. */
  lemma PreparedTriple(a: string, s1: char, b: string, s2: char, c: string)
    requires Plain(a) && Plain(b) && Plain(c) && IsSeparator(s1) && IsSeparator(s2)
    ensures PrepareText(a + [s1] + b + [s2] + c) == a + "/" + b + "/" + c
    ensures SplitOn(a + "/" + b + "/" + c, '/') == [a, b, c]
  {
    PrepareAppend(a + [s1] + b + [s2], c);
    PrepareAppend(a + [s1] + b, [s2]);
    PreparedPair(a, s1, b);
    PreparePlain(c);
    PrepareSeparator(s2);
    SplitTriple(a, b, c);
  }

  lemma SplitTriple(a: string, b: string, c: string)
    requires Plain(a) && Plain(b) && Plain(c)
    ensures SplitOn(a + "/" + b + "/" + c, '/') == [a, b, c]
  {
    var bc := JoinOn([b, c], '/');
    assert [b, c][1..] == [c];
    assert JoinOn([c], '/') == c;
    assert bc == b + "/" + c;
    assert [a, b, c][1..] == [b, c];
    assert JoinOn([a, b, c], '/') == a + "/" + bc;
    assert a + "/" + bc == a + "/" + b + "/" + c;
    JoinOnSplit([a, b, c], '/');
  }

  lemma DigitsArePlain(s: string)
    requires AllDigits(s)
    ensures Plain(s)
  {
  }

  /** `m/yy` and `m/yyyy`, with any of the three separators, name month `m`
      of the year. */
  lemma ReadsMonthYear(m: string, sep: char, y: string)
    requires DigitRun(m, 1, 2) && DigitRun(y, 2, 4) && IsSeparator(sep)
    ensures ParsePeriodText(m + [sep] + y) == Some((DigitsValue(m), FullYear(DigitsValue(y))))
  {
    PreparedPair(m, sep, y);
  }

  /** `d/m/yy` and `d/m/yyyy`, with any of the three separators, name month
      `m` of the year; the day is read and dropped. */
  lemma ReadsDate(d: string, s1: char, m: string, s2: char, y: string)
    requires DigitRun(d, 1, 2) && DigitRun(m, 1, 2) && DigitRun(y, 2, 4) && IsSeparator(s1) && IsSeparator(s2)
    ensures ParsePeriodText(d + [s1] + m + [s2] + y) == Some((DigitsValue(m), FullYear(DigitsValue(y))))
  {
    PreparedTriple(d, s1, m, s2, y);
  }

  // ---------------------------------------------------------------------
  // month abbreviations
  // ---------------------------------------------------------------------

  predicate IsLetter(c: char) {
    'a' <= c <= 'z'
  }

  /** Every abbreviation is three lower-case letters, and no two are equal. */
  lemma AbbreviationsShape()
    ensures forall k :: 0 <= k < |MonthAbbreviations| ==> |MonthAbbreviations[k]| == 3
    ensures forall k, i :: 0 <= k < |MonthAbbreviations| && 0 <= i < |MonthAbbreviations[k]| ==> IsLetter(MonthAbbreviations[k][i])
    ensures forall j, k :: 0 <= j < k < |MonthAbbreviations| ==> MonthAbbreviations[j] != MonthAbbreviations[k]
  {
    forall j, k | 0 <= j < k < |MonthAbbreviations|
      ensures MonthAbbreviations[j] != MonthAbbreviations[k]
    {
      assert MonthAbbreviations[j][0] != MonthAbbreviations[k][0] || MonthAbbreviations[j][1] != MonthAbbreviations[k][1]
        || MonthAbbreviations[j][2] != MonthAbbreviations[k][2];
    }
  }

  /** In an abbreviation followed by a slash and digits, the only
      abbreviation that occurs is that one. */
  lemma OnlyOwnAbbreviation(k: nat, y: string, j: nat)
    requires k < |MonthAbbreviations| && j < |MonthAbbreviations| && AllDigits(y)
    requires Contains(MonthAbbreviations[k] + "/" + y, MonthAbbreviations[j])
    ensures j == k
  {
    AbbreviationsShape();
    var t := MonthAbbreviations[k] + "/" + y;
    var a := MonthAbbreviations[j];
    var i := ContainsWitness(t, a);
    assert t[i + 2] == a[2] && IsLetter(a[2]);
    assert forall p :: 3 <= p < |t| ==> !IsLetter(t[p]) by {
      forall p | 3 <= p < |t|
        ensures !IsLetter(t[p])
      {
        assert t[p] == '/' || t[p] == y[p - 4];
      }
    }
    assert a == t[..3] == MonthAbbreviations[k];
  }

  /** The name reading takes the first abbreviation that occurs. */
  lemma {:induction false} MonthByNameFirst(t: string, from: nat, k: nat)
    requires from <= k < |MonthAbbreviations|
    requires forall j :: from <= j < k ==> !Contains(t, MonthAbbreviations[j])
    requires Contains(t, MonthAbbreviations[k]) && DigitGroups(t) != []
    ensures MonthByName(t, from) == Some((k + 1, FullYear(DigitsValue(DigitGroups(t)[|DigitGroups(t)| - 1]))))
    decreases k - from
  {
    if from < k {
      MonthByNameFirst(t, from + 1, k);
    }
  }

  /** A run of two to four digits is found as one group. */
  lemma DigitGroupsOfRun(y: string)
    requires DigitRun(y, 2, 4)
    ensures DigitGroups(y) == [y]
  {
    LeadingDigitsAll(y, 4);
    assert y[..|y|] == y;
    assert y[|y|..] == [];
  }

  lemma {:induction false} LeadingDigitsAll(s: string, max: nat)
    requires AllDigits(s) && |s| <= max
    ensures LeadingDigitCount(s, max) == |s|
    decreases max
  {
    if s != [] {
      LeadingDigitsAll(s[1..], max - 1);
    }
  }

  /** Characters that are not digits are skipped by the group search. */
  lemma {:induction false} DigitGroupsSkip(x: string, s: string)
    requires forall i :: 0 <= i < |x| ==> !IsDigit(x[i])
    ensures DigitGroups(x + s) == DigitGroups(s)
    decreases |x|
  {
    if x != [] {
      assert (x + s)[1..] == x[1..] + s;
      DigitGroupsSkip(x[1..], s);
    } else {
      assert x + s == s;
    }
  }

  /** A month abbreviation followed by a separator and a two- or four-digit
      year names that month of that year. */
  lemma ReadsMonthName(k: nat, sep: char, y: string)
    requires k < |MonthAbbreviations| && DigitRun(y, 2, 4) && (sep == '/' || sep == '-')
    ensures ParsePeriodText(MonthAbbreviations[k] + [sep] + y) == Some((k + 1, FullYear(DigitsValue(y))))
  {
    AbbreviationsShape();
    var a := MonthAbbreviations[k];
    var t := a + "/" + y;
    PreparedPair(a, sep, y);
    DigitGroupsSkip(a + "/", y);
    assert t == (a + "/") + y;
    DigitGroupsOfRun(y);
    ContainsAt(t, a, 0);
    forall j | 0 <= j < k
      ensures !Contains(t, MonthAbbreviations[j])
    {
      if Contains(t, MonthAbbreviations[j]) {
        OnlyOwnAbbreviation(k, y, j);
      }
    }
    MonthByNameFirst(t, 0, k);
  }

  // ---------------------------------------------------------------------
  // the title area
  // ---------------------------------------------------------------------

  /** The period one title-area cell gives: none for an empty or zero cell,
      the month and year of a date, none for any other number, and the
      reading of the stripped, lower-cased text otherwise. */
  function CellPeriod(c: Cell): Option<(nat, nat)> {
    if !Truthy(c) then None
    else if c.DateTime? then Some((c.t.month, c.t.year))
    else if IsNumber(c) then None
    else ParsePeriodText(Lower(Strip(CellText(c))))
  }

  /** Row `i`, column `k` is a cell of the title area that the sheet has. */
  predicate InTitleArea(sheet: Sheet, i: int, k: int) {
    0 <= i < PeriodSearchRows && i < |sheet| && 0 <= k < PeriodSearchColumns && k < |sheet[i]|
  }

  /** No title-area cell before row `i`, column `k`, row by row and left to
      right, gives a period. */
  ghost predicate NoPeriodBefore(sheet: Sheet, i: int, k: int, cellPeriod: Cell -> Option<(nat, nat)>) {
    forall i', k' :: InTitleArea(sheet, i', k') && (i' < i || (i' == i && k' < k)) ==> cellPeriod(sheet[i'][k']).None?
  }

  /** The title-area scan: the period of the first cell, row by row and left
      to right, that gives one, or the error the source raises when none
      does. The extraction passes `CellPeriod` as `cellPeriod`. */
  method FindPeriod(sheet: Sheet, cellPeriod: Cell -> Option<(nat, nat)>) returns (r: Result<(nat, nat)>)
    ensures r.Ok? ==> exists i, k :: InTitleArea(sheet, i, k) && NoPeriodBefore(sheet, i, k, cellPeriod)
                                    && cellPeriod(sheet[i][k]) == Some(r.value)
    ensures r.Err? ==> NoPeriodBefore(sheet, PeriodSearchRows, 0, cellPeriod) && r.message == NoPeriodMessage
  {
    var i := 0;
    while i < PeriodSearchRows && i < |sheet|
      invariant 0 <= i <= PeriodSearchRows
      invariant NoPeriodBefore(sheet, i, 0, cellPeriod)
    {
      var row := sheet[i];
      var k := 0;
      while k < PeriodSearchColumns && k < |row|
        invariant 0 <= k <= PeriodSearchColumns
        invariant NoPeriodBefore(sheet, i, k, cellPeriod)
      {
        var p := cellPeriod(row[k]);
        if p.Some? {
          assert InTitleArea(sheet, i, k);
          return Ok(p.value);
        }
        k := k + 1;
      }
      i := i + 1;
    }
    return Err(NoPeriodMessage);
  }

  // ---------------------------------------------------------------------
  // round trips and examples
  // ---------------------------------------------------------------------

  /** A cell holding the `MM/YYYY` text the ICMS Normal automation types is
      read back as the same month and year. */
  lemma CellReadsPeriodText(m: nat, y: nat)
    requires m < 100 && 100 <= y < 10000
    ensures CellPeriod(Str(PeriodText(m, y))) == Some((m, y))
  {
    var a, b := TwoDigits(m), NatText(y);
    TwoDigitsText(m);
    NatTextLength(y);
    NatTextRoundTrip(y);
    var s := PeriodText(m, y);
    assert s == a + "/" + b;
    assert NoUpper(s) && s[0] == a[0] && s[|s| - 1] == b[|b| - 1];
    StripNoop(s);
    LowerNoop(s);
    ReadsMonthYear(a, '/', b);
  }

  /** `jan/26` names January 2026. */
  lemma ReadsJanuaryShortYear(s: string)
    requires s == "jan/26"
    ensures ParsePeriodText(s) == Some((1, 2026))
  {
    NatTextRoundTrip(26);
    assert s == MonthAbbreviations[0] + ['/'] + NatText(26);
    ReadsMonthName(0, '/', NatText(26));
  }

  lemma YearText(y: string)
    requires y == NatText(2026)
    ensures y == "2026" && DigitRun(y, 2, 4) && DigitsValue(y) == 2026
  {
    NatTextRoundTrip(2026);
  }

  /** `jan-2026` names January 2026. */
  lemma ReadsJanuaryLongYear(s: string)
    requires s == "jan-2026"
    ensures ParsePeriodText(s) == Some((1, 2026))
  {
    var y := NatText(2026);
    YearText(y);
    assert s == MonthAbbreviations[0] + ['-'] + y;
    ReadsMonthName(0, '-', y);
  }

  /** `01/03/2026` names March 2026. */
  lemma ReadsFullDate(s: string)
    requires s == "01/03/2026"
    ensures ParsePeriodText(s) == Some((3, 2026))
  {
    var y := NatText(2026);
    YearText(y);
    TwoDigitsText(1);
    TwoDigitsText(3);
    assert s == TwoDigits(1) + ['/'] + TwoDigits(3) + ['/'] + y;
    ReadsDate(TwoDigits(1), '/', TwoDigits(3), '/', y);
  }
}
