/** The whole extraction of a sheet and the records the DAE automations
    consume: each row dictionary reduced to its I.E., its three amounts and
    the reference period, and the list of I.E.s a batch run goes through. */
module Records {
  import opened Wrappers
  import opened Text
  import opened Values
  import opened Header
  import opened Period
  import opened Rows
  import opened Amounts

  const NoHeaderMessage: string :=
    "N\U{E3}o foi poss\U{ED}vel encontrar a linha de cabe\U{E7}alho com I.E."

  const NoIeColumnMessage: string :=
    "N\U{E3}o foi poss\U{ED}vel encontrar a coluna de I.E. na planilha."

  /** What reading a sheet yields: the row dictionaries, the column map and
      the reference month and year. */
  datatype Extraction = Extraction(rows: seq<Dict<Cell>>, names: Dict<int>, month: nat, year: nat)

  /** The data one DAE is issued from: the normalised I.E. (twice, as the
      `ie` and `ie_digitos` entries), the ATC, NORMAL and DIF. ALIQUOTA
      amounts when the row has a readable one, the period, and the row's
      whole dictionary. */
  datatype DaeRecord = DaeRecord(
    ie: Cell, ieDigits: Cell,
    atc: Option<Decimal>, normal: Option<Decimal>, difal: Option<Decimal>,
    month: int, year: int, original: Dict<Cell>)

  // ---------------------------------------------------------------------
  // reading a sheet
  // ---------------------------------------------------------------------

  /** Row `h` is the header row: the first of the first 25 rows with a cell
      naming the I.E. column. */
  predicate IsHeaderRow(sheet: Sheet, h: nat) {
    h < HeaderSearchRows && h < |sheet| && RowHas(sheet[h], MatchesIeName)
    && forall j :: 0 <= j < h ==> !RowHas(sheet[j], MatchesIeName)
  }

  /** None of the first 25 rows has a cell naming the I.E. column. */
  predicate NoHeaderRow(sheet: Sheet) {
    forall j :: 0 <= j < |sheet| && j < HeaderSearchRows ==> !RowHas(sheet[j], MatchesIeName)
  }

  /** The I.E. column of a header row: the last cell naming it, or -1. */
  function IeColumn(row: Row): int {
    LastIeColumn(row, |row|, MatchesIeName)
  }

  /** `rows` are the dictionaries, under the column map `names` and the
      I.E. column `ieCol`, of the rows below row `h`, from the first one down
      to the end of the sheet or to the first row `isFooter` accepts; the
      extraction passes `IsFooter`. */
  predicate DataRows(sheet: Sheet, h: nat, names: Dict<int>, ieCol: int, isFooter: Row -> bool, rows: seq<Dict<Cell>>) {
    (h + 1 + |rows| <= |sheet| || rows == [])
    && (forall j :: 0 <= j < |rows| ==>
          !isFooter(sheet[h + 1 + j]) && rows[j] == RowRecord(sheet[h + 1 + j], names, ieCol))
    && (h + 1 + |rows| < |sheet| ==> isFooter(sheet[h + 1 + |rows|]))
  }

  lemma MessagesDiffer()
    ensures NoHeaderMessage != NoPeriodMessage
  {
    assert NoHeaderMessage[24] != NoPeriodMessage[24];
  }

  /** Reads the active sheet: finds the header row, maps its columns,
      turns the rows below it into dictionaries and reads the reference
      period from the title area. A sheet without a header row, or without
      a period, is an error with the source's message. */
  method ExtractAll(sheet: Sheet) returns (r: Result<Extraction>)
    ensures (r.Err? && r.message == NoHeaderMessage) <==> NoHeaderRow(sheet)
    ensures r.Err? && r.message != NoHeaderMessage ==>
              r.message == NoPeriodMessage && NoPeriodBefore(sheet, PeriodSearchRows, 0, CellPeriod)
    ensures !NoHeaderRow(sheet) && NoPeriodBefore(sheet, PeriodSearchRows, 0, CellPeriod) ==> r.Err?
    ensures r.Ok? ==> exists h: nat :: IsHeaderRow(sheet, h) && r.value.names == HeaderMap(sheet[h])
                                  && DataRows(sheet, h, r.value.names, IeColumn(sheet[h]), IsFooter, r.value.rows)
    ensures r.Ok? ==> exists i, k :: InTitleArea(sheet, i, k) && NoPeriodBefore(sheet, i, k, CellPeriod)
                                     && CellPeriod(sheet[i][k]) == Some((r.value.month, r.value.year))
  {
    MessagesDiffer();
    var header := FindHeaderRow(sheet, MatchesIeName);
    if header.None? {
      return Err(NoHeaderMessage);
    }
    var h := header.value;
    assert IsHeaderRow(sheet, h);
    var names, rows := ReadTable(sheet, h, IsFooter);
    var period := FindPeriod(sheet, CellPeriod);
    if period.Err? {
      return Err(period.message);
    }
    var (month, year) := period.value;
    return Ok(Extraction(rows, names, month, year));
  }

  /** The column map of header row `h` and the dictionaries of the rows
      below it. */
  method ReadTable(sheet: Sheet, h: nat, isFooter: Row -> bool) returns (names: Dict<int>, rows: seq<Dict<Cell>>)
    requires h < |sheet|
    ensures names == HeaderMap(sheet[h]) && DataRows(sheet, h, names, IeColumn(sheet[h]), isFooter, rows)
  {
    var ieCol;
    names, ieCol := MapHeader(sheet[h], MatchesIeName);
    rows := ExtractRows(sheet, h, names, ieCol, isFooter);
  }

  /** A sheet's header row always gives the column map an I.E. key, so the
      DAE records of an extracted sheet are never refused for lack of one. */
  lemma HeaderRowHasIeKey(sheet: Sheet, h: nat)
    requires IsHeaderRow(sheet, h)
    ensures FirstIeKey(HeaderMap(sheet[h]), MatchesIeName).Some?
  {
    var row := sheet[h];
    var k :| 0 <= k < |row| && MatchesIeName(row[k]);
    assert IeColumn(row) >= 0;
    IeColumnHasKey(row);
  }

  // ---------------------------------------------------------------------
  // the DAE records
  // ---------------------------------------------------------------------

  /** The first key of the column map naming the I.E. column. */
  method FindIeKey(names: Dict<int>, namesIe: Cell -> bool) returns (r: Option<string>)
    ensures r == FirstIeKey(names, namesIe)
  {
    var i := 0;
    while i < |names|
      invariant 0 <= i <= |names|
      invariant FirstIeKey(names[i..], namesIe) == FirstIeKey(names, namesIe)
    {
      var key := names[i].0;
      assert names[i..][1..] == names[i + 1..];
      if namesIe(Str(key)) {
        return Some(key);
      }
      i := i + 1;
    }
    return None;
  }

  /** The DAE record of one row dictionary. */
  function DaeOf(record: Dict<Cell>, month: int, year: int): DaeRecord {
    var ie := GetOr(record, IeNormKey, Str(""));
    DaeRecord(ie, ie, FirstAmount(record, IsAtcKey), FirstAmount(record, IsNormalKey),
              FirstAmount(record, IsDifalKey), month, year, record)
  }

  /** The records for the DAE automations, one per row dictionary and in
      the same order, or an error when the column map has no I.E. key. */
  method BuildRecords(rows: seq<Dict<Cell>>, names: Dict<int>, month: int, year: int)
    returns (r: Result<seq<DaeRecord>>)
    ensures r.Err? <==> FirstIeKey(names, MatchesIeName).None?
    ensures r.Err? ==> r.message == NoIeColumnMessage
    ensures r.Ok? ==> |r.value| == |rows| && forall j :: 0 <= j < |rows| ==> r.value[j] == DaeOf(rows[j], month, year)
  {
    var key := FindIeKey(names, MatchesIeName);
    if key.None? {
      return Err(NoIeColumnMessage);
    }
    var list := BuildDaes(rows, month, year);
    return Ok(list);
  }

  /** The DAE records of the row dictionaries, in order. */
  function DaesOf(rows: seq<Dict<Cell>>, month: int, year: int): (list: seq<DaeRecord>)
    ensures |list| == |rows| && forall j :: 0 <= j < |rows| ==> list[j] == DaeOf(rows[j], month, year)
  {
    if rows == [] then []
    else DaesOf(rows[..|rows| - 1], month, year) + [DaeOf(rows[|rows| - 1], month, year)]
  }

  method BuildDaes(rows: seq<Dict<Cell>>, month: int, year: int) returns (list: seq<DaeRecord>)
    ensures list == DaesOf(rows, month, year)
  {
    list := [];
    var i := 0;
    while i < |rows|
      invariant 0 <= i <= |rows| && list == DaesOf(rows[..i], month, year)
    {
      var dae := BuildDae(rows[i], month, year);
      assert rows[..i + 1][..i] == rows[..i];
      list := list + [dae];
      i := i + 1;
    }
    assert rows[..i] == rows;
  }

  /** The DAE record of one row dictionary: its I.E. entry (the empty text
      when it has none) and the first readable amount of each kind. */
  method BuildDae(record: Dict<Cell>, month: int, year: int) returns (dae: DaeRecord)
    ensures dae == DaeOf(record, month, year)
  {
    var ie := GetOr(record, IeNormKey, Str(""));
    var atc := FindAmount(record, IsAtcKey);
    var normal := FindAmount(record, IsNormalKey);
    var difal := FindAmount(record, IsDifalKey);
    dae := DaeRecord(ie, ie, atc, normal, difal, month, year, record);
  }

  /** No character of `s` is `c`, and `t` has one: `t` does not occur in
      `s`. */
  lemma {:induction false} AbsentChar(s: string, t: string, c: char)
    requires c in t && c !in s
    ensures !Contains(s, t)
    decreases |s|
  {
    if |t| <= |s| {
      var k :| 0 <= k < |t| && t[k] == c;
      assert s[..|t|][k] != t[k];
    }
    if s != [] {
      AbsentChar(s[1..], t, c);
    }
  }

  /** The `ie_normalizada` entry is never read as an amount: its key names
      none of the three amount columns. */
  lemma IeNormKeyIsNoAmount()
    ensures !IsAtcKey(IeNormKey) && !IsNormalKey(IeNormKey) && !IsDifalKey(IeNormKey)
  {
    IeNormKeyNotAtc();
    IeNormKeyNotNormal();
    IeNormKeyNotDifal();
  }

  lemma IeNormKeyNotAtc()
    ensures !IsAtcKey(IeNormKey)
  {
    IeNormKeyLower();
    AbsentChar(IeNormKey, "atc", 't');
  }

  lemma IeNormKeyNotNormal()
    ensures !IsNormalKey(IeNormKey)
  {
    IeNormKeyLower();
  }

  lemma IeNormKeyNotDifal()
    ensures !IsDifalKey(IeNormKey)
  {
    IeNormKeyLower();
    AbsentChar(IeNormKey, "aliquota", 'q');
  }

  lemma IeNormKeyLower()
    ensures Lower(IeNormKey) == IeNormKey && Strip(IeNormKey) == IeNormKey
  {
    var k := IeNormKey;
    assert NoUpper(k);
    LowerNoop(k);
    StripNoop(k);
  }

  /** Column headers as they appear in the sheets. */
  lemma AmountKeyExamples()
    ensures IsAtcKey("VALOR ATC") && IsNormalKey(" NORMAL ") && IsDifalKey("DIF. ALIQUOTA")
  {
    AtcKeyExample("VALOR ATC");
    NormalKeyExample(" NORMAL ");
    DifalKeyExample("DIF. ALIQUOTA");
  }

  lemma AtcKeyExample(k: string)
    requires k == "VALOR ATC"
    ensures IsAtcKey(k)
  {
    var l := Lower(k);
    assert l[6..9] == "atc";
    ContainsAt(l, "atc", 6);
  }

  lemma NormalKeyExample(k: string)
    requires k == " NORMAL "
    ensures IsNormalKey(k)
  {
    assert k[1..] == "NORMAL ";
    assert TrimStart(k) == "NORMAL ";
    assert "NORMAL "[..6] == "NORMAL";
  }

  lemma DifalKeyExample(k: string)
    requires k == "DIF. ALIQUOTA"
    ensures IsDifalKey(k)
  {
    var l := Lower(k);
    assert |l| == 13 && forall j :: 0 <= j < 13 ==> l[j] == LowerChar(k[j]);
    assert l[0] == 'd' && l[1] == 'i' && l[2] == 'f';
    assert l[5] == 'a' && l[6] == 'l' && l[7] == 'i' && l[8] == 'q';
    assert l[9] == 'u' && l[10] == 'o' && l[11] == 't' && l[12] == 'a';
    assert l[..3] == "dif";
    assert l[5..13] == "aliquota";
    ContainsAt(l, "dif", 0);
    ContainsAt(l, "aliquota", 5);
  }

  /** In the dictionary of a data row, the I.E. entry holds the row's
      normalised I.E.: nine or more digits, or empty. */
  lemma DaeIeOfRow(cells: Row, names: Dict<int>, ieCol: int, month: int, year: int)
    requires UniqueKeys(names)
    ensures DaeOf(RowRecord(cells, names, ieCol), month, year).ie == Str(RowIe(cells, ieCol))
    ensures RowIe(cells, ieCol) == [] || (AllDigits(RowIe(cells, ieCol)) && |RowIe(cells, ieCol)| >= IeDigitCount)
  {
    RowRecordGet(cells, names, ieCol, IeNormKey);
  }

  /** An amount found in a row's dictionary is the reading of the row's cell
      under some column of the map whose header the test accepts. */
  lemma AmountFromColumn(cells: Row, names: Dict<int>, ieCol: int, matches: string -> bool)
    requires UniqueKeys(names) && !matches(IeNormKey)
    requires FirstAmount(RowRecord(cells, names, ieCol), matches).Some?
    ensures exists k :: matches(k) && HasKey(names, k)
                        && AmountOf(CellAt(cells, Get(names, k).value)) == FirstAmount(RowRecord(cells, names, ieCol), matches)
  {
    var record := RowRecord(cells, names, ieCol);
    var i := FirstAmountWitness(record, matches);
    var k := record[i].0;
    RecordUnique(cells, names, ieCol);
    IndexOfFirst(record, k, i);
    RowRecordGet(cells, names, ieCol, k);
    assert matches(k) && HasKey(names, k);
  }

  /** No amount is found in a row's dictionary exactly when none of the
      row's cells under an accepted column reads as a number. */
  lemma AmountAbsent(cells: Row, names: Dict<int>, ieCol: int, matches: string -> bool)
    requires UniqueKeys(names) && !matches(IeNormKey)
    ensures FirstAmount(RowRecord(cells, names, ieCol), matches).None? <==>
            forall k :: matches(k) && HasKey(names, k) ==> AmountOf(CellAt(cells, Get(names, k).value)).None?
  {
    var record := RowRecord(cells, names, ieCol);
    FirstAmountNone(record, matches);
    if FirstAmount(record, matches).None? {
      forall k | matches(k) && HasKey(names, k)
        ensures AmountOf(CellAt(cells, Get(names, k).value)).None?
      {
        ColumnEntry(cells, names, ieCol, matches, k);
        var i :| 0 <= i < |record| && record[i] == (k, CellAt(cells, Get(names, k).value));
        assert !Readable(record, matches, i);
      }
    } else {
      AmountFromColumn(cells, names, ieCol, matches);
    }
  }

  /** A key of the map the test accepts has an entry in the row's
      dictionary holding the row's cell at that column. */
  lemma ColumnEntry(cells: Row, names: Dict<int>, ieCol: int, matches: string -> bool, k: string)
    requires UniqueKeys(names) && !matches(IeNormKey) && matches(k) && HasKey(names, k)
    ensures exists i :: 0 <= i < |RowRecord(cells, names, ieCol)| &&
              RowRecord(cells, names, ieCol)[i] == (k, CellAt(cells, Get(names, k).value))
  {
    RowRecordGet(cells, names, ieCol, k);
  }

  /** The keys of a row's dictionary are unique. */
  lemma RecordUnique(cells: Row, names: Dict<int>, ieCol: int)
    requires UniqueKeys(names)
    ensures UniqueKeys(RowRecord(cells, names, ieCol))
  {
    FillUnique(cells, names);
    SetProperties(FillRecord(cells, names), IeNormKey, Str(RowIe(cells, ieCol)));
  }

  lemma {:induction false} FillUnique(cells: Row, names: Dict<int>)
    ensures UniqueKeys(FillRecord(cells, names))
    decreases |names|
  {
    if names != [] {
      var pre, last := names[..|names| - 1], names[|names| - 1];
      FillUnique(cells, pre);
      SetProperties(FillRecord(cells, pre), last.0, CellAt(cells, last.1));
    }
  }

  // ---------------------------------------------------------------------
  // the I.E. list
  // ---------------------------------------------------------------------

  /** `str(item.get("ie", "")).strip()`. */
  function IeText(d: DaeRecord): string {
    Strip(CellText(d.ie))
  }

  /** The stripped text of each record's I.E., in order, leaving out the
      empty ones. */
  function IeTexts(list: seq<DaeRecord>): (ies: seq<string>)
    ensures |ies| <= |list|
    ensures forall i :: 0 <= i < |ies| ==> ies[i] != []
  {
    if list == [] then []
    else
      var ie := IeText(list[|list| - 1]);
      IeTexts(list[..|list| - 1]) + (if ie != [] then [ie] else [])
  }

  /** The I.E.s of a list of DAE records, for the batch runs. */
  method IesOf(list: seq<DaeRecord>) returns (ies: seq<string>)
    ensures ies == IeTexts(list)
  {
    ies := [];
    var i := 0;
    while i < |list|
      invariant 0 <= i <= |list|
      invariant ies == IeTexts(list[..i])
    {
      var ie := IeText(list[i]);
      assert list[..i + 1][..i] == list[..i];
      if ie != [] {
        ies := ies + [ie];
      }
      i := i + 1;
    }
    assert list[..i] == list;
  }

  /** Every listed I.E. is the stripped text of some record's I.E. */
  lemma {:induction false} IeTextsFrom(list: seq<DaeRecord>)
    ensures forall s :: s in IeTexts(list) ==> exists j :: 0 <= j < |list| && s == IeText(list[j])
  {
    if list != [] {
      var pre := list[..|list| - 1];
      IeTextsFrom(pre);
      forall s | s in IeTexts(list)
        ensures exists j :: 0 <= j < |list| && s == IeText(list[j])
      {
        if s in IeTexts(pre) {
          var j :| 0 <= j < |pre| && s == IeText(pre[j]);
          assert list[j] == pre[j];
        } else {
          assert s == IeText(list[|list| - 1]);
        }
      }
    }
  }

  /** The stripped text of every record's I.E., blank or not. */
  function StrippedIes(list: seq<DaeRecord>): (ts: seq<string>)
    ensures |ts| == |list|
  {
    seq(|list|, j requires 0 <= j < |list| => IeText(list[j]))
  }

  predicate NonBlank(s: string) {
    s != []
  }

  /** The I.E. list is the comprehension over the stripped I.E.s that keeps
      the non-blank ones: an in-order subsequence of them that holds every
      non-blank one and nothing blank. */
  lemma IeTextsMeaning(list: seq<DaeRecord>)
    ensures IeTexts(list) == Filter(StrippedIes(list), NonBlank)
    ensures Subsequence(IeTexts(list), StrippedIes(list))
    ensures forall j :: 0 <= j < |list| && StrippedIes(list)[j] != [] ==> StrippedIes(list)[j] in IeTexts(list)
  {
    IeTextsFilter(list);
    FilterMeaning(StrippedIes(list), NonBlank);
  }

  lemma {:induction false} IeTextsFilter(list: seq<DaeRecord>)
    ensures IeTexts(list) == Filter(StrippedIes(list), NonBlank)
  {
    if list != [] {
      var ts := StrippedIes(list);
      var pre := list[..|list| - 1];
      IeTextsFilter(pre);
      assert ts[..|ts| - 1] == StrippedIes(pre);
      assert ts[|ts| - 1] == IeText(list[|list| - 1]);
    }
  }

  /** When no record's I.E. is blank, every record contributes its I.E., in
      order. */
  lemma IeTextsAllKept(list: seq<DaeRecord>)
    requires forall j :: 0 <= j < |list| ==> IeText(list[j]) != []
    ensures |IeTexts(list)| == |list|
    ensures forall j :: 0 <= j < |list| ==> IeTexts(list)[j] == IeText(list[j])
  {
    var ts := StrippedIes(list);
    IeTextsFilter(list);
    assert forall j :: 0 <= j < |ts| ==> ts[j] == IeText(list[j]);
    FilterAll(ts, NonBlank);
  }

  /** An I.E. as it reaches the batch runs: nine or more digits, or empty. */
  predicate IeShape(t: string) {
    t == [] || (AllDigits(t) && |t| >= IeDigitCount)
  }

  /** The stripped I.E. text of a data row's DAE record has the shape of a
      normalised I.E. */
  lemma RowIeText(cells: Row, names: Dict<int>, ieCol: int, month: int, year: int)
    requires UniqueKeys(names)
    ensures IeShape(Strip(CellText(DaeOf(RowRecord(cells, names, ieCol), month, year).ie)))
  {
    DaeIeOfRow(cells, names, ieCol, month, year);
    var d := RowIe(cells, ieCol);
    if d != [] {
      assert NoSpace(d);
    }
    StripNoop(d);
  }

  /** When every record's I.E. has the shape of a normalised I.E., every
      listed one is nine or more digits. */
  lemma IeTextsDigits(list: seq<DaeRecord>)
    requires forall j :: 0 <= j < |list| ==> IeShape(IeText(list[j]))
    ensures forall s :: s in IeTexts(list) ==> AllDigits(s) && |s| >= IeDigitCount
  {
    IeTextsFrom(list);
  }

  /** The I.E.s listed for an extracted sheet are all digit strings of at
      least nine digits. */
  lemma ExtractedIes(sheet: Sheet, h: nat, isFooter: Row -> bool, rows: seq<Dict<Cell>>, list: seq<DaeRecord>, month: int, year: int)
    requires IsHeaderRow(sheet, h) && DataRows(sheet, h, HeaderMap(sheet[h]), IeColumn(sheet[h]), isFooter, rows)
    requires |list| == |rows| && forall j :: 0 <= j < |rows| ==> list[j] == DaeOf(rows[j], month, year)
    ensures forall s :: s in IeTexts(list) ==> AllDigits(s) && |s| >= IeDigitCount
  {
    RowsIeShape(sheet, h, isFooter, rows, list, month, year);
    IeTextsDigits(list);
  }

  lemma RowsIeShape(sheet: Sheet, h: nat, isFooter: Row -> bool, rows: seq<Dict<Cell>>, list: seq<DaeRecord>, month: int, year: int)
    requires h < |sheet| && DataRows(sheet, h, HeaderMap(sheet[h]), IeColumn(sheet[h]), isFooter, rows)
    requires |list| == |rows| && forall j :: 0 <= j < |rows| ==> list[j] == DaeOf(rows[j], month, year)
    ensures forall j :: 0 <= j < |list| ==> IeShape(IeText(list[j]))
  {
    var row := sheet[h];
    NameMapUnique(ColumnNames(row), |row|);
    forall j | 0 <= j < |list|
      ensures IeShape(IeText(list[j]))
    {
      RowIeText(sheet[h + 1 + j], HeaderMap(row), IeColumn(row), month, year);
    }
  }
}
