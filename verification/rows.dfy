/** The data rows of a branch spreadsheet: the footer heuristic that ends
    them, the normalised state registration (I.E.) of a row, and the loop
    that turns each row below the header into a dictionary keyed by the
    column map. */
module Rows {
  import opened Wrappers
  import opened Text
  import opened Values

  /** Texts that mark a footer or total row once the row text is lower-cased;
      accents are not stripped, so both spellings are listed. */
  const FooterKeywords: seq<string> := [
    "total", "apresentacao ao fisco", "apresenta\U{E7}\U{E3}o ao fisco",
    "sumario", "sum\U{E1}rio", "fim", "piavai", "piaui"
  ]

  /** I.E.s of Piaui have nine digits. */
  const IeDigitCount: nat := 9

  /** The key under which each row dictionary holds its normalised I.E. */
  const IeNormKey: string := "ie_normalizada"

  // ---------------------------------------------------------------------
  // footer rows
  // ---------------------------------------------------------------------

  /** `" ".join(str(c or "") for c in cells)`. */
  function RowText(cells: Row): string {
    JoinOn(seq(|cells|, i requires 0 <= i < |cells| => TruthyText(cells[i])), ' ')
  }

  /** The footer heuristic: the row's text, stripped and lower-cased, is
      empty or contains one of the keywords. */
  predicate IsFooter(cells: Row) {
    var t := Lower(Strip(RowText(cells)));
    t == [] || exists k :: 0 <= k < |FooterKeywords| && Contains(t, FooterKeywords[k])
  }

  /** A row whose cells are all empty, zero or blank text is a footer: the
      data ends at the first such row. */
  lemma BlankRowIsFooter(cells: Row)
    requires forall i :: 0 <= i < |cells| ==> !Truthy(cells[i])
    ensures IsFooter(cells)
  {
    var parts := seq(|cells|, i requires 0 <= i < |cells| => TruthyText(cells[i]));
    assert forall i :: 0 <= i < |parts| ==> parts[i] == [];
    JoinOnAllSpace(parts, ' ');
    StripAllSpace(RowText(cells));
  }

  /** Every keyword starts and ends with a letter. */
  lemma KeywordEnds(k: nat)
    requires k < |FooterKeywords|
    ensures var p := FooterKeywords[k]; p != [] && !IsSpace(p[0]) && !IsSpace(p[|p| - 1])
  {
  }

  /** A text occurring in one piece of a text occurs, lower-cased, in the
      lower-cased whole. */
  lemma LowerOccurs(pre: string, w: string, post: string, p: string) returns (x: nat)
    requires Contains(Lower(w), p)
    ensures x + |p| <= |pre + w + post| && Lower(pre + w + post)[x..x + |p|] == p
  {
    var q := ContainsWitness(Lower(w), p);
    LowerAppend(pre + w, post);
    LowerAppend(pre, w);
    x := |pre| + q;
    assert Lower(pre + w + post)[x..x + |p|] == Lower(w)[q..q + |p|];
  }

  /** An occurrence inside a window of a text is an occurrence in the
      window. */
  lemma WindowOccurs(t: string, w: string, lead: nat, p: string, x: nat)
    requires lead + |w| <= |t| && w == t[lead..lead + |w|]
    requires lead <= x && x + |p| <= lead + |w| && Lower(t)[x..x + |p|] == p
    ensures Contains(Lower(w), p)
  {
    LowerSlice(t, lead, lead + |w|);
    assert Lower(w)[x - lead..x - lead + |p|] == p;
    ContainsAt(Lower(w), p, x - lead);
  }

  /** An occurrence that starts and ends with non-whitespace survives
      stripping. */
  lemma StrippedOccurs(t: string, p: string, x: nat)
    requires p != [] && !IsSpace(p[0]) && !IsSpace(p[|p| - 1])
    requires x + |p| <= |t| && Lower(t)[x..x + |p|] == p
    ensures Contains(Lower(Strip(t)), p)
  {
    var y := x + |p| - 1;
    assert LowerChar(t[x]) == p[0] && LowerChar(t[y]) == p[|p| - 1];
    var lead := StripBounds(t);
    var s := Strip(t);
    assert lead <= x && y < lead + |s|;
    WindowOccurs(t, s, lead, p, x);
  }

  /** A row with a text cell whose lower-cased text contains a footer
      keyword is a footer, whatever the other cells hold. */
  lemma KeywordRowIsFooter(cells: Row, i: nat, k: nat)
    requires i < |cells| && cells[i].Str? && k < |FooterKeywords|
    requires Contains(Lower(cells[i].s), FooterKeywords[k])
    ensures IsFooter(cells)
  {
    var p := FooterKeywords[k];
    KeywordEnds(k);
    var w := cells[i].s;
    var parts := seq(|cells|, i requires 0 <= i < |cells| => TruthyText(cells[i]));
    assert parts[i] == w;
    var pre, post := JoinOnPiece(parts, i, ' ');
    var x := LowerOccurs(pre, w, post, p);
    StrippedOccurs(RowText(cells), p, x);
  }

  // ---------------------------------------------------------------------
  // the I.E. of a row
  // ---------------------------------------------------------------------

  /** `"".join(ch for ch in s if ch.isdigit())`. */
  function DigitsOf(s: string): (r: string)
    ensures AllDigits(r) && |r| <= |s|
  {
    if s == [] then []
    else (if IsDigit(s[0]) then [s[0]] else []) + DigitsOf(s[1..])
  }

  lemma {:induction false} DigitsOfNoop(s: string)
    requires AllDigits(s)
    ensures DigitsOf(s) == s
  {
    if s != [] {
      DigitsOfNoop(s[1..]);
    }
  }

  lemma {:induction false} DigitsOfAppend(a: string, b: string)
    ensures DigitsOf(a + b) == DigitsOf(a) + DigitsOf(b)
  {
    if a == [] {
      assert a + b == b;
    } else {
      assert (a + b)[1..] == a[1..] + b;
      DigitsOfAppend(a[1..], b);
    }
  }

  /** The digits of the I.E. cell's stripped text, left-padded with zeros to
      nine digits, or the empty text for a missing cell or one without
      digits. */
  function NormalizeIe(c: Cell): (r: string)
    ensures r == [] || (AllDigits(r) && |r| >= IeDigitCount)
  {
    if c.Empty? then ""
    else
      var d := DigitsOf(Strip(CellText(c)));
      if d == [] then "" else ZFill(d, IeDigitCount)
  }

  /** The normalised I.E. is the cell's digits, in order, after as many
      zeros as it takes to reach nine digits. */
  lemma NormalizeIePads(c: Cell)
    requires !c.Empty? && DigitsOf(Strip(CellText(c))) != []
    ensures var d, r := DigitsOf(Strip(CellText(c))), NormalizeIe(c);
      |r| == (if |d| < IeDigitCount then IeDigitCount else |d|)
      && r[|r| - |d|..] == d && forall i :: 0 <= i < |r| - |d| ==> r[i] == '0'
  {
  }

  /** Normalising a normalised I.E. changes nothing. */
  lemma NormalizeIeIdempotent(c: Cell)
    ensures NormalizeIe(Str(NormalizeIe(c))) == NormalizeIe(c)
  {
    var r := NormalizeIe(c);
    if r != [] {
      assert NoSpace(r);
      StripNoop(r);
      DigitsOfNoop(r);
    }
  }

  /** A positive whole-number I.E. cell normalises to digits that read back
      as the number. */
  lemma NormalizeIeOfNumber(n: nat)
    requires n > 0
    ensures DigitsValue(NormalizeIe(Int(n))) == n
  {
    var t := NatText(n);
    assert CellText(Int(n)) == t;
    assert NoSpace(t);
    StripNoop(t);
    DigitsOfNoop(t);
    NatTextRoundTrip(n);
    if |t| < IeDigitCount {
      DigitsValueLeadingZeros(IeDigitCount - |t|, t);
    }
  }

  /** Digits separated by a non-digit lose the separator. */
  lemma DigitsOfSeparated(a: string, sep: char, b: string)
    requires !IsDigit(sep)
    ensures DigitsOf(a + [sep] + b) == DigitsOf(a) + DigitsOf(b)
  {
    assert DigitsOf([sep]) == [] by {
      assert [sep][1..] == [];
    }
    DigitsOfAppend(a, [sep]);
    DigitsOfAppend(a + [sep], b);
  }

  lemma DigitsOfExample(s: string)
    requires s == "123.456-7"
    ensures DigitsOf(s) == "1234567"
  {
    var a, b, c := "123", "456", "7";
    DigitsOfSeparated(a, '.', b);
    DigitsOfSeparated(a + ['.'] + b, '-', c);
    DigitsOfNoop(a);
    DigitsOfNoop(b);
    DigitsOfNoop(c);
    assert s == a + ['.'] + b + ['-'] + c;
    assert a + b + c == "1234567";
  }

  /** `123.456-7` normalises to `001234567`. */
  lemma NormalizeIeExample(s: string)
    requires s == "123.456-7"
    ensures NormalizeIe(Str(s)) == "001234567"
  {
    StripNoop(s);
    DigitsOfExample(s);
  }

  // ---------------------------------------------------------------------
  // row dictionaries
  // ---------------------------------------------------------------------

  /** The cell at a column index, or None past the end of the row. */
  function CellAt(cells: Row, index: int): Cell {
    if 0 <= index < |cells| then cells[index] else Empty
  }

  /** The row's dictionary built from the entries of the column map in
      order: each column name holds the row's cell at its index. */
  function FillRecord(cells: Row, names: Dict<int>): Dict<Cell> {
    if names == [] then []
    else
      var last := names[|names| - 1];
      Set(FillRecord(cells, names[..|names| - 1]), last.0, CellAt(cells, last.1))
  }

  /** The normalised I.E. of a row, or the empty text when there is no I.E.
      column or the row is too short for it. */
  function RowIe(cells: Row, ieCol: int): string {
    if 0 <= ieCol < |cells| then NormalizeIe(cells[ieCol]) else ""
  }

  /** The dictionary one data row becomes. */
  function RowRecord(cells: Row, names: Dict<int>, ieCol: int): Dict<Cell> {
    Set(FillRecord(cells, names), IeNormKey, Str(RowIe(cells, ieCol)))
  }

  /** A map with unique keys is its first entries with the last one
      assigned. */
  lemma UniqueLast(names: Dict<int>)
    requires names != [] && UniqueKeys(names)
    ensures var pre, last := names[..|names| - 1], names[|names| - 1];
      UniqueKeys(pre) && !HasKey(pre, last.0) && names == Set(pre, last.0, last.1)
  {
  }

  lemma {:induction false} FillRecordGet(cells: Row, names: Dict<int>, k: string)
    requires UniqueKeys(names)
    ensures Get(FillRecord(cells, names), k) ==
      if HasKey(names, k) then Some(CellAt(cells, Get(names, k).value)) else None
    decreases |names|
  {
    if names != [] {
      var pre, last := names[..|names| - 1], names[|names| - 1];
      UniqueLast(names);
      FillRecordGet(cells, pre, k);
      SetGet(FillRecord(cells, pre), last.0, CellAt(cells, last.1), k);
      SetGet(pre, last.0, last.1, k);
    }
  }

  /** Looking up a key in a row's dictionary: the normalised I.E. under
      `ie_normalizada`, the row's cell at the column's index (None past the
      end of the row) under every other key of the column map, and nothing
      under any other key. */
  lemma RowRecordGet(cells: Row, names: Dict<int>, ieCol: int, k: string)
    requires UniqueKeys(names)
    ensures Get(RowRecord(cells, names, ieCol), k) ==
      if k == IeNormKey then Some(Str(RowIe(cells, ieCol)))
      else if HasKey(names, k) then Some(CellAt(cells, Get(names, k).value))
      else None
  {
    FillRecordGet(cells, names, k);
    SetGet(FillRecord(cells, names), IeNormKey, Str(RowIe(cells, ieCol)), k);
  }

  /** Builds the dictionary of one data row: each column of the map in
      turn, then the normalised I.E. */
  method BuildRecord(cells: Row, names: Dict<int>, ieCol: int) returns (record: Dict<Cell>)
    ensures record == RowRecord(cells, names, ieCol)
  {
    record := [];
    var n := 0;
    while n < |names|
      invariant 0 <= n <= |names|
      invariant record == FillRecord(cells, names[..n])
    {
      var (name, index) := names[n];
      if 0 <= index < |cells| {
        record := Set(record, name, cells[index]);
      } else {
        record := Set(record, name, Empty);
      }
      assert names[..n + 1][..n] == names[..n];
      n := n + 1;
    }
    assert names[..n] == names;
    if 0 <= ieCol < |cells| {
      record := Set(record, IeNormKey, Str(NormalizeIe(cells[ieCol])));
    } else {
      record := Set(record, IeNormKey, Str(""));
    }
  }

  /** Walks the rows below the header, turning each into its dictionary,
      and stops at the end of the sheet or at the first footer row. The
      footer test is a parameter; the extraction passes `IsFooter`. */
  method ExtractRows(sheet: Sheet, header: nat, names: Dict<int>, ieCol: int, isFooter: Row -> bool)
    returns (rows: seq<Dict<Cell>>)
    ensures header + 1 + |rows| <= |sheet| || rows == []
    ensures forall j :: 0 <= j < |rows| ==>
      !isFooter(sheet[header + 1 + j]) && rows[j] == RowRecord(sheet[header + 1 + j], names, ieCol)
    ensures header + 1 + |rows| < |sheet| ==> isFooter(sheet[header + 1 + |rows|])
  {
    rows := [];
    var i := header + 1;
    while i < |sheet|
      invariant i == header + 1 + |rows|
      invariant i <= |sheet| || rows == []
      invariant forall k :: header + 1 <= k < i ==>
        !isFooter(sheet[k]) && rows[k - header - 1] == RowRecord(sheet[k], names, ieCol)
      decreases |sheet| - i
    {
      var cells := sheet[i];
      if isFooter(cells) {
        break;
      }
      var record := BuildRecord(cells, names, ieCol);
      rows := rows + [record];
      i := i + 1;
    }
    forall j | 0 <= j < |rows|
      ensures !isFooter(sheet[header + 1 + j]) && rows[j] == RowRecord(sheet[header + 1 + j], names, ieCol)
    {
      assert header + 1 <= header + 1 + j < i;
    }
  }
}
