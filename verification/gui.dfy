/** The helpers of the desktop window: the process names and short labels,
    the I.E. as shown, the pause as shown, which records each automation
    runs, the per-process lists of a batch, and the fixed-width table of the
    extracted data. */
module Gui {
  import opened Wrappers
  import opened Text
  import opened Values
  import opened Rows
  import opened Records
  import opened Normal

  // ---------------------------------------------------------------------
  // dictionaries built from pairs
  // ---------------------------------------------------------------------

  /** `{k: v for k, v in pairs}`: every pair assigned in order, a later one
      replacing an earlier one with the same key. */
  function DictOf<V>(pairs: seq<(string, V)>): Dict<V> {
    if pairs == [] then [] else Set(DictOf(pairs[..|pairs| - 1]), pairs[|pairs| - 1].0, pairs[|pairs| - 1].1)
  }

  /** Without repeated keys, the dictionary holds the pairs as given. */
  lemma {:induction false} DictOfUnique<V>(pairs: seq<(string, V)>)
    requires UniqueKeys(pairs)
    ensures DictOf(pairs) == pairs
  {
    if pairs != [] {
      var init := pairs[..|pairs| - 1];
      var last := pairs[|pairs| - 1];
      assert UniqueKeys(init);
      DictOfUnique(init);
      assert forall i :: 0 <= i < |init| ==> init[i].0 != last.0 by {
        forall i | 0 <= i < |init|
          ensures init[i].0 != last.0
        {
          assert init[i] == pairs[i];
        }
      }
      assert init + [last] == pairs;
    }
  }

  /** The value a dictionary without repeated keys holds under the key of
      its `i`-th entry. */
  lemma GetEntry<V>(d: Dict<V>, i: nat)
    requires UniqueKeys(d) && i < |d|
    ensures Get(d, d[i].0) == Some(d[i].1)
  {
    IndexOfFirst(d, d[i].0, i);
  }

  /** The pairs of a dictionary of texts with key and value swapped. */
  function Swapped(d: Dict<string>): (r: seq<(string, string)>)
    ensures |r| == |d| && forall i :: 0 <= i < |d| ==> r[i] == (d[i].1, d[i].0)
  {
    seq(|d|, i requires 0 <= i < |d| => (d[i].1, d[i].0))
  }

  /** `{v: k for k, v in d.items()}` undoes `d` when neither keys nor
      values repeat: a key's value leads back to the key, and the other way
      round. */
  lemma InverseRoundTrip(d: Dict<string>)
    requires UniqueKeys(d) && UniqueKeys(Swapped(d))
    ensures forall i :: 0 <= i < |d| ==> Get(DictOf(Swapped(d)), d[i].1) == Some(d[i].0)
    ensures forall i :: 0 <= i < |d| ==> Get(d, Get(DictOf(Swapped(d)), d[i].1).value) == Some(d[i].1)
  {
    var inv := DictOf(Swapped(d));
    DictOfUnique(Swapped(d));
    forall i | 0 <= i < |d|
      ensures Get(inv, d[i].1) == Some(d[i].0)
      ensures Get(d, d[i].0) == Some(d[i].1)
    {
      GetEntry(inv, i);
      GetEntry(d, i);
    }
  }

  // ---------------------------------------------------------------------
  // process names and labels
  // ---------------------------------------------------------------------

  const Antecipado: string := "antecipado"
  const NormalId: string := "normal"
  const Difal: string := "difal"

  /** The three ICMS-PI processes, by id, with their display names. */
  const Processes: seq<(string, string)> :=
    [(Antecipado, "ICMS Antecipado PI"), (NormalId, "ICMS Normal PI"), (Difal, "ICMS Difal PI")]

  const ProcessById: Dict<string> := DictOf(Processes)

  /** The short labels of the list selector. */
  const ShortLabelById: Dict<string> := DictOf([(Antecipado, "ATC"), (NormalId, "Normal"), (Difal, "DIFAL")])

  const IdByShortLabel: Dict<string> := DictOf(Swapped(ShortLabelById))

  /** The id of every process is found from its short label, and its
      short label from the id found. */
  lemma ShortLabelsRoundTrip()
    ensures forall i :: 0 <= i < |ShortLabelById| ==>
      Get(IdByShortLabel, ShortLabelById[i].1) == Some(ShortLabelById[i].0)
    ensures forall i :: 0 <= i < |ShortLabelById| ==>
      Get(ShortLabelById, Get(IdByShortLabel, ShortLabelById[i].1).value) == Some(ShortLabelById[i].1)
    ensures Get(IdByShortLabel, "Normal") == Some(NormalId)
  {
    var pairs := [(Antecipado, "ATC"), (NormalId, "Normal"), (Difal, "DIFAL")];
    assert UniqueKeys(pairs);
    DictOfUnique(pairs);
    assert UniqueKeys(Swapped(pairs));
    InverseRoundTrip(pairs);
    assert ShortLabelById[1].1 == "Normal";
  }

  /** A process's display name, or the id itself for an unknown id. */
  function ReadableProcessName(id: string): (r: string)
    ensures (id == Antecipado || id == NormalId || id == Difal) <==> r != id
    ensures id == NormalId ==> r == "ICMS Normal PI"
  {
    assert UniqueKeys(Processes);
    DictOfUnique(Processes);
    GetEntry(Processes, 0);
    GetEntry(Processes, 1);
    GetEntry(Processes, 2);
    assert forall i :: 0 <= i < |Processes| ==> |Processes[i].0| < |Processes[i].1|;
    GetOr(ProcessById, id, id)
  }

  // ---------------------------------------------------------------------
  // the I.E. and the pause as shown
  // ---------------------------------------------------------------------

  /** `str(ie).strip()` with every `.`, `-` and `/` removed, and the empty
      text for no I.E. */
  function IeForDisplay(ie: Option<string>): (r: string)
    ensures ie.None? ==> r == []
    ensures '.' !in r && '-' !in r && '/' !in r
    ensures ie.Some? ==> forall c :: c in r <==> c in Strip(ie.value) && c != '.' && c != '-' && c != '/'
  {
    match ie
    case None => ""
    case Some(text) =>
      var s := Strip(text);
      var r1 := Without(s, {'.'});
      var r2 := Without(r1, {'-'});
      var r := Without(r2, {'/'});
      WithoutChars(s, {'.'});
      WithoutChars(r1, {'-'});
      WithoutChars(r2, {'/'});
      r
  }

  /** A text of digits only is shown as it is. */
  lemma DisplayDigits(s: string)
    requires AllDigits(s)
    ensures IeForDisplay(Some(s)) == s
  {
    StripNoop(s);
    WithoutNoop(s, {'.'});
    WithoutNoop(s, {'-'});
    WithoutNoop(s, {'/'});
  }

  /** The I.E. the extraction stores, digits only, is shown as it is. */
  lemma DisplayNormalizedIe(c: Cell)
    ensures IeForDisplay(Some(NormalizeIe(c))) == NormalizeIe(c)
  {
    DisplayDigits(NormalizeIe(c));
  }

  /** `_formato_intervalo_ms`: whole minutes from one minute on, whole
      seconds from one second on, milliseconds below. */
  function IntervalText(ms: int): string {
    if ms >= 60_000 then IntText(ms / 60_000) + " min"
    else if ms >= 1_000 then IntText(ms / 1_000) + " s"
    else IntText(ms) + " ms"
  }

  /** The number shown is the interval rounded down to the unit shown, and
      the unit is the largest one the interval reaches; the number reads
      back as itself. */
  lemma IntervalTextMeaning(ms: int)
    ensures exists n: int :: (ParseInt(IntText(n)) == Some(n) &&
      ((ms >= 60_000 && IntervalText(ms) == IntText(n) + " min" && n >= 1 && n * 60_000 <= ms < (n + 1) * 60_000)
       || (1_000 <= ms < 60_000 && IntervalText(ms) == IntText(n) + " s" && 1 <= n < 60
           && n * 1_000 <= ms < (n + 1) * 1_000)
       || (ms < 1_000 && IntervalText(ms) == IntText(n) + " ms" && n == ms)))
  {
    var n := if ms >= 60_000 then ms / 60_000 else if ms >= 1_000 then ms / 1_000 else ms;
    IntTextRoundTrip(n);
  }

  // ---------------------------------------------------------------------
  // which records a process runs
  // ---------------------------------------------------------------------

  /** The value a process submits: ATC for the advance payment, NORMAL,
      DIF. ALIQUOTA for DIFAL. The ATC and DIFAL checks belong to their own
      automations and are parameters here. */
  predicate Executable(item: Dict<Cell>, id: string, atcInvalid: Cell -> bool, difalInvalid: Cell -> bool) {
    if id == Antecipado then !atcInvalid(GetOr(item, "valor_atc", Empty))
    else if id == NormalId then !NormalValueInvalid(GetOr(item, "valor_normal", Empty))
    else if id == Difal then !difalInvalid(GetOr(item, "valor_difal", Empty))
    else false
  }

  /** An unknown process runs nothing. The GUI and the ICMS Normal batch
      agree: a record the GUI does not run for Normal is never submitted by
      the batch, and for a record with a readable period and an I.E. the GUI
      runs it exactly when the batch does not skip it. */
  lemma ExecutableForNormal(item: Dict<Cell>, id: string, atcInvalid: Cell -> bool, difalInvalid: Cell -> bool,
                            today: Date)
    ensures id != Antecipado && id != NormalId && id != Difal ==> !Executable(item, id, atcInvalid, difalInvalid)
    ensures !Executable(item, NormalId, atcInvalid, difalInvalid) ==> !PlanOf(item, today).Submit?
    ensures IntOf(GetOr(item, "mes_ref", Empty)).Some? && IntOf(GetOr(item, "ano_ref", Empty)).Some?
            && IeOf(item) != [] ==>
              (Executable(item, NormalId, atcInvalid, difalInvalid) <==> !PlanOf(item, today).Skip?)
  {
    PlanReasons(item, today);
  }

  /** Some of the processes runs the record. */
  predicate AnyExecutable(item: Dict<Cell>, ids: seq<string>, atcInvalid: Cell -> bool, difalInvalid: Cell -> bool) {
    exists k :: 0 <= k < |ids| && Executable(item, ids[k], atcInvalid, difalInvalid)
  }

  /** The test of a record against the chosen processes. */
  function Runs(ids: seq<string>, atcInvalid: Cell -> bool, difalInvalid: Cell -> bool): Dict<Cell> -> bool {
    item => AnyExecutable(item, ids, atcInvalid, difalInvalid)
  }

  /** The opposite test. */
  function Not<T>(keep: T -> bool): T -> bool {
    x => !keep(x)
  }

  /** `sum(1 for x in xs if keep(x))`. */
  function Count<T>(xs: seq<T>, keep: T -> bool): nat {
    if xs == [] then 0
    else Count(xs[..|xs| - 1], keep) + (if keep(xs[|xs| - 1]) then 1 else 0)
  }

  /** The filter has as many entries as the count, and what it keeps and
      what the opposite filter keeps together are all the entries. */
  lemma {:induction false} CountMeaning<T>(xs: seq<T>, keep: T -> bool)
    ensures |Filter(xs, keep)| == Count(xs, keep)
    ensures Count(xs, keep) + Count(xs, Not(keep)) == |xs|
  {
    if xs != [] {
      CountMeaning(xs[..|xs| - 1], keep);
    }
  }

  /** `_contar_executaveis_ignoradas`: the records some chosen process runs
      and the others, with the advance payment alone when no process is
      chosen. */
  function CountExecutableIgnored(items: seq<Dict<Cell>>, ids: seq<string>, atcInvalid: Cell -> bool,
                                  difalInvalid: Cell -> bool): (nat, int)
  {
    var chosen := if ids == [] then [Antecipado] else ids;
    var runnable := Count(items, Runs(chosen, atcInvalid, difalInvalid));
    (runnable, |items| - runnable)
  }

  /** Every record is counted once: the first count is the number of
      records some chosen process runs, the second the number of those no
      chosen process runs; no choice counts as the advance payment alone. */
  lemma CountExecutableIgnoredMeaning(items: seq<Dict<Cell>>, ids: seq<string>, atcInvalid: Cell -> bool,
                                      difalInvalid: Cell -> bool)
    ensures var r := CountExecutableIgnored(items, ids, atcInvalid, difalInvalid);
      var chosen := if ids == [] then [Antecipado] else ids;
      var runs := Runs(chosen, atcInvalid, difalInvalid);
      r.0 + r.1 == |items| && r.1 >= 0
      && r.0 == |Filter(items, runs)| && r.1 == Count(items, Not(runs))
    ensures CountExecutableIgnored(items, [], atcInvalid, difalInvalid)
            == CountExecutableIgnored(items, [Antecipado], atcInvalid, difalInvalid)
  {
    var chosen := if ids == [] then [Antecipado] else ids;
    CountMeaning(items, Runs(chosen, atcInvalid, difalInvalid));
  }

  // ---------------------------------------------------------------------
  // the per-process lists of a batch
  // ---------------------------------------------------------------------

  /** `[item for item in items if <the process's value is valid>]`. */
  function Selected(items: seq<Dict<Cell>>, id: string, atcInvalid: Cell -> bool, difalInvalid: Cell -> bool)
    : seq<Dict<Cell>>
  {
    Filter(items, item => Executable(item, id, atcInvalid, difalInvalid))
  }

  /** A process's list is the records that process runs, all of them, in
      the order of the input. */
  lemma SelectedIsFilter(items: seq<Dict<Cell>>, id: string, atcInvalid: Cell -> bool, difalInvalid: Cell -> bool)
    ensures var r := Selected(items, id, atcInvalid, difalInvalid);
      Subsequence(r, items)
      && (forall k :: 0 <= k < |r| ==> Executable(r[k], id, atcInvalid, difalInvalid))
      && (forall k :: 0 <= k < |items| && Executable(items[k], id, atcInvalid, difalInvalid) ==> items[k] in r)
  {
    FilterMeaning(items, item => Executable(item, id, atcInvalid, difalInvalid));
  }

  /** A process this batch knows. */
  predicate Known(id: string) {
    id == Antecipado || id == NormalId || id == Difal
  }

  /** `sum(len(lists.get(id, [])) for id in ids)`. */
  function SelectedTotal(items: seq<Dict<Cell>>, ids: seq<string>, atcInvalid: Cell -> bool, difalInvalid: Cell -> bool)
    : nat
  {
    if ids == [] then 0
    else SelectedTotal(items, ids[..|ids| - 1], atcInvalid, difalInvalid)
         + (if Known(ids[|ids| - 1]) then |Selected(items, ids[|ids| - 1], atcInvalid, difalInvalid)| else 0)
  }

  /** The total is at most the number of records for each process chosen. */
  lemma {:induction false} SelectedTotalBound(items: seq<Dict<Cell>>, ids: seq<string>, atcInvalid: Cell -> bool,
                                              difalInvalid: Cell -> bool)
    ensures SelectedTotal(items, ids, atcInvalid, difalInvalid) <= |ids| * |items|
  {
    if ids != [] {
      SelectedTotalBound(items, ids[..|ids| - 1], atcInvalid, difalInvalid);
      assert |ids| * |items| == (|ids| - 1) * |items| + |items|;
    }
  }

  /** The lists of the batch when none was given: for every known process
      chosen, the records it runs; and the number of records the batch
      goes through. With no process chosen, nothing is built. */
  method PerProcessLists(items: seq<Dict<Cell>>, ids: seq<string>, atcInvalid: Cell -> bool,
                         difalInvalid: Cell -> bool)
    returns (lists: Dict<seq<Dict<Cell>>>, total: nat)
    ensures forall id :: Get(lists, id)
                         == if id in ids && Known(id) then Some(Selected(items, id, atcInvalid, difalInvalid)) else None
    ensures total == SelectedTotal(items, ids, atcInvalid, difalInvalid)
  {
    lists, total := [], 0;
    if ids == [] {
      return;
    }
    for i := 0 to |ids|
      invariant forall id :: Get(lists, id)
                             == if id in ids[..i] && Known(id) then Some(Selected(items, id, atcInvalid, difalInvalid))
                                else None
    {
      var id := ids[i];
      assert ids[..i + 1] == ids[..i] + [id];
      if Known(id) {
        var list := Selected(items, id, atcInvalid, difalInvalid);
        SetProperties(lists, id, list);
        lists := Set(lists, id, list);
      }
    }
    assert ids[..|ids|] == ids;
    for i := 0 to |ids|
      invariant total == SelectedTotal(items, ids[..i], atcInvalid, difalInvalid)
    {
      assert ids[..i + 1][..i] == ids[..i];
      var list := GetOr(lists, ids[i], []);
      total := total + |list|;
    }
  }

  // ---------------------------------------------------------------------
  // the table of the extracted data
  // ---------------------------------------------------------------------

  /** Python's `s[:j]`, a negative `j` counting from the end. */
  function PrefixTo(s: string, j: int): (r: string)
    ensures 0 <= j <= |s| ==> r == s[..j]
    ensures |r| <= |s|
  {
    if j >= 0 then s[..if j <= |s| then j else |s|]
    else s[..if |s| + j >= 0 then |s| + j else 0]
  }

  /** `_cel`: the stripped text of a value cut to `w - 2` characters and
      `..` when longer than `w`, padded with spaces to `w` otherwise. */
  function Cel(value: Cell, w: int): (r: string)
    ensures var ss := if value.Empty? then "" else Strip(CellText(value));
      (w >= 2 ==> |r| == w)
      && (|ss| > w >= 2 ==> r == ss[..w - 2] + "..")
      && (|ss| <= w ==> |r| >= |ss| && r[..|ss|] == ss && forall k :: |ss| <= k < |r| ==> r[k] == ' ')
  {
    var ss := if value.Empty? then "" else Strip(CellText(value));
    if |ss| > w then PrefixTo(ss, w - 2) + ".." else LeftJustify(ss, w)
  }

  /** `len(str(row.get(col, "") or ""))`. */
  function CellWidth(row: Dict<Cell>, col: string): nat {
    |TruthyText(GetOr(row, col, Str("")))|
  }

  /** `max(ns, default=0)`. */
  function Largest(ns: seq<nat>): nat {
    if ns == [] then 0
    else
      var m := Largest(ns[..|ns| - 1]);
      if ns[|ns| - 1] > m then ns[|ns| - 1] else m
  }

  /** The largest number is at least every number, and is one of them when
      there are any. */
  lemma {:induction false} LargestMeaning(ns: seq<nat>)
    ensures forall k :: 0 <= k < |ns| ==> ns[k] <= Largest(ns)
    ensures ns != [] ==> Largest(ns) in ns
  {
    if ns != [] {
      var init := ns[..|ns| - 1];
      LargestMeaning(init);
      assert forall k :: 0 <= k < |init| ==> ns[k] == init[k];
    }
  }

  /** The widths of a column's values, row by row. */
  function CellWidths(rows: seq<Dict<Cell>>, col: string): seq<nat> {
    seq(|rows|, k requires 0 <= k < |rows| => CellWidth(rows[k], col))
  }

  /** `max((CellWidth(row, col) for row in rows), default=0)`. */
  function Widest(rows: seq<Dict<Cell>>, col: string): nat {
    Largest(CellWidths(rows, col))
  }

  function Max(a: int, b: int): int {
    if a >= b then a else b
  }

  function Min(a: int, b: int): int {
    if a <= b then a else b
  }

  /** The rows the widths are measured on: the first 100. */
  const MeasuredRows: nat := 100
  const MinWidth: nat := 4
  const MaxWidth: nat := 30

  /** The rows a column's width is measured on. */
  function Measured(rows: seq<Dict<Cell>>): (r: seq<Dict<Cell>>)
    ensures |r| <= |rows| && |r| <= MeasuredRows && (|rows| >= MeasuredRows ==> |r| == MeasuredRows)
    ensures forall k :: 0 <= k < |r| ==> r[k] == rows[k]
  {
    rows[..if |rows| <= MeasuredRows then |rows| else MeasuredRows]
  }

  /** A column's width: its name and the widest of its first 100 values,
      at least 4 and at most 30. */
  function ColumnWidth(col: string, rows: seq<Dict<Cell>>): int {
    Min(Max(Max(|col|, MinWidth), Widest(Measured(rows), col)), MaxWidth)
  }

  /** Every width lies between 4 and 30; within that cap, the name and
      every value of the first 100 rows fit, and a width above 4 is the
      length of the name or of one of those values. */
  lemma ColumnWidthMeaning(col: string, rows: seq<Dict<Cell>>)
    ensures MinWidth <= ColumnWidth(col, rows) <= MaxWidth
    ensures ColumnWidth(col, rows) == MaxWidth || |col| <= ColumnWidth(col, rows)
    ensures forall k :: 0 <= k < |rows| && k < MeasuredRows ==>
              ColumnWidth(col, rows) == MaxWidth || CellWidth(rows[k], col) <= ColumnWidth(col, rows)
    ensures ColumnWidth(col, rows) > MinWidth ==>
              ColumnWidth(col, rows) == MaxWidth || ColumnWidth(col, rows) == |col|
              || exists k :: 0 <= k < |rows| && k < MeasuredRows && CellWidth(rows[k], col) == ColumnWidth(col, rows)
  {
    var measured := Measured(rows);
    var ws := CellWidths(measured, col);
    LargestMeaning(ws);
    forall k | 0 <= k < |rows| && k < MeasuredRows
      ensures CellWidth(rows[k], col) <= Widest(measured, col)
    {
      assert ws[k] == CellWidth(measured[k], col) && measured[k] == rows[k];
    }
    if Widest(measured, col) > 0 {
      var k :| 0 <= k < |ws| && ws[k] == Widest(measured, col);
      assert ws[k] == CellWidth(rows[k], col) && measured[k] == rows[k];
    }
  }

  /** A header within the cap is shown whole. */
  lemma HeaderShownWhole(col: string, rows: seq<Dict<Cell>>)
    requires |col| <= MaxWidth
    ensures var w := ColumnWidth(col, rows);
      var ss := Strip(col);
      |Cel(Str(col), w)| == w && Cel(Str(col), w)[..|ss|] == ss
  {
    ColumnWidthMeaning(col, rows);
  }

  /** One column's width, from its name's length or 4. */
  method WidenColumn(widths: array<int>, i: nat, col: string, rows: seq<Dict<Cell>>)
    requires i < widths.Length && widths[i] == Max(|col|, MinWidth)
    modifies widths
    ensures widths[i] == ColumnWidth(col, rows)
    ensures forall j :: 0 <= j < widths.Length && j != i ==> widths[j] == old(widths[j])
  {
    var w := Max(widths[i], Widest(Measured(rows), col));
    widths[i] := Min(w, MaxWidth);
  }

  /** The widths of the table's columns, computed in place: the name's
      length but at least 4, then the widest value of the first 100 rows,
      then capped at 30. */
  method ColumnWidths(columns: seq<string>, rows: seq<Dict<Cell>>) returns (widths: array<int>)
    ensures fresh(widths) && widths.Length == |columns|
    ensures forall i :: 0 <= i < |columns| ==> widths[i] == ColumnWidth(columns[i], rows)
  {
    widths := new int[|columns|](i requires 0 <= i < |columns| => Max(|columns[i]|, MinWidth));
    for i := 0 to |columns|
      invariant forall j :: 0 <= j < i ==> widths[j] == ColumnWidth(columns[j], rows)
      invariant forall j :: i <= j < |columns| ==> widths[j] == Max(|columns[j]|, MinWidth)
    {
      WidenColumn(widths, i, columns[i], rows);
    }
  }

  // ---------------------------------------------------------------------
  // the records handed to the automations
  // ---------------------------------------------------------------------

  /** An amount as the record holds it: a float, or `None`. */
  function AmountCell(a: Option<Decimal>): Cell {
    match a
    case None => Empty
    case Some(d) => Float(d)
  }

  /** The dictionary of a DAE record as the automations receive it. The
      original row, kept under `dados_originais`, is not a cell and is left
      out. */
  function DaeItem(d: DaeRecord): (item: Dict<Cell>)
    ensures UniqueKeys(item)
  {
    [("ie", d.ie), ("ie_digitos", d.ieDigits), ("valor_atc", AmountCell(d.atc)),
     ("valor_normal", AmountCell(d.normal)), ("valor_difal", AmountCell(d.difal)),
     ("mes_ref", Int(d.month)), ("ano_ref", Int(d.year))]
  }

  /** A record from the extraction always has a readable period, so the
      ICMS Normal batch never refuses it for a missing one; with an I.E. it
      is skipped exactly when its NORMAL amount is missing or zero, which
      is also when the GUI leaves it out of the Normal list. */
  lemma DaeItemPlan(d: DaeRecord, today: Date, atcInvalid: Cell -> bool, difalInvalid: Cell -> bool)
    ensures var p := PlanOf(DaeItem(d), today);
      !(p.Refuse? && p.reason == MissingPeriodReason)
      && (CellText(d.ie) != [] ==> (p.Skip? <==> d.normal.None? || IsZero(d.normal.value)))
      && (Executable(DaeItem(d), NormalId, atcInvalid, difalInvalid) <==> !(d.normal.None? || IsZero(d.normal.value)))
  {
    var item := DaeItem(d);
    GetEntry(item, 0);
    GetEntry(item, 3);
    GetEntry(item, 5);
    GetEntry(item, 6);
    assert IntOf(GetOr(item, "mes_ref", Empty)) == Some(d.month);
    assert IntOf(GetOr(item, "ano_ref", Empty)) == Some(d.year);
    assert IeOf(item) == CellText(d.ie);
    PlanReasons(item, today);
  }
}
