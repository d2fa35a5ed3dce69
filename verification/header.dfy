/** Locating the state-registration (I.E.) column of a branch spreadsheet:
    header-text normalisation, the fuzzy I.E. name match, the header-row scan
    and the column-name map. A sheet is its rows, top to bottom, each row the
    cells of its columns, left to right. */
module Header {
  import opened Wrappers
  import opened Text
  import opened Values

  /** Header texts accepted for the I.E. column. */
  const IeSynonyms: seq<string> := [
    "INSC.ESTADUAL", "INSC. ESTADUAL", "i.e.", "ie", "i..e.",
    "inscri\U{E7}\U{E3}o estadual", "inscricao estadual"
  ]

  /** Only the first rows of a sheet are searched for the header. */
  const HeaderSearchRows: nat := 25

  // ---------------------------------------------------------------------
  // normalisation
  // ---------------------------------------------------------------------

  /** The character-by-character steps of header normalisation: lower case,
      accents stripped, dots dropped. */
  function Canon(s: string): string {
    Without(StripAccents(Lower(s)), {'.'})
  }

  /** Header text in lower case, without accents, without dots and with
      whitespace collapsed to single spaces between words. */
  function NormalizeText(s: string): string {
    CollapseSpaces(Canon(Strip(s)))
  }

  /** The normalised text has no upper-case letter, no dot, no whitespace at
      its ends and no run of whitespace. */
  lemma NormalizeTextShape(s: string)
    ensures NoUpper(NormalizeText(s)) && '.' !in NormalizeText(s) && SingleSpaced(NormalizeText(s))
  {
    var t := Canon(Strip(s));
    CanonChars(Strip(s));
    CollapseShape(t);
    var r := NormalizeText(s);
    assert forall i :: 0 <= i < |r| ==> r[i] in r;
  }

  /** The normalised header text of a cell; a missing cell gives "". */
  function NormalizeHeader(c: Cell): (r: string)
    ensures c.Empty? ==> r == []
  {
    if c.Empty? then [] else NormalizeText(CellText(c))
  }

  /** Whether a cell names the I.E. column, as the source decides it: its
      normalised text is not empty and equals the normalised form of one of
      the accepted header texts, or one of two further spellings. */
  predicate MatchesIeNameBySynonyms(c: Cell) {
    var n := NormalizeHeader(c);
    n != [] && (NormalizesToSynonym(IeSynonyms, n) || n == "inscestadual" || n == "insc estadual")
  }

  /** Whether one of `names` normalises to `n`. */
  predicate NormalizesToSynonym(names: seq<string>, n: string) {
    exists i :: 0 <= i < |names| && NormalizeText(names[i]) == n
  }

  /** The normalised texts that name the I.E. column. */
  const IeForms: set<string> := {"inscestadual", "insc estadual", "ie", "inscricao estadual"}

  /** Whether a cell names the I.E. column, stated by the four forms it
      accepts (`MatchesIeNameExactly` shows this is the source's test). */
  predicate MatchesIeName(c: Cell) {
    NormalizeHeader(c) in IeForms
  }

  lemma CanonChars(s: string)
    ensures forall c :: c in Canon(s) ==> !IsUpper(c) && c != '.'
  {
    var l := Lower(s);
    var d := DropMarks(l);
    var a := StripAccents(l);
    WithoutChars(a, {'.'});
    DropMarksChars(l);
    forall c | c in Canon(s)
      ensures !IsUpper(c) && c != '.'
    {
      var i :| 0 <= i < |a| && a[i] == c;
      assert d[i] in l;
      var j :| 0 <= j < |l| && l[j] == d[i];
    }
  }

  lemma {:induction false} CanonAppend(a: string, b: string)
    ensures Canon(a + b) == Canon(a) + Canon(b)
  {
    assert Lower(a + b) == Lower(a) + Lower(b);
    DropMarksAppend(Lower(a), Lower(b));
    assert StripAccents(Lower(a + b)) == StripAccents(Lower(a)) + StripAccents(Lower(b));
    WithoutAppend(StripAccents(Lower(a)), StripAccents(Lower(b)), {'.'});
  }

  lemma CanonKeepsSpace(s: string)
    requires AllSpace(s)
    ensures AllSpace(Canon(s))
  {
    var l := Lower(s);
    var d := DropMarks(l);
    var a := StripAccents(l);
    var r := Canon(s);
    WithoutChars(a, {'.'});
    DropMarksChars(l);
    forall k | 0 <= k < |r|
      ensures IsSpace(r[k])
    {
      assert r[k] in r;
      var i :| 0 <= i < |a| && a[i] == r[k];
      assert d[i] in l;
      var j :| 0 <= j < |l| && l[j] == d[i];
    }
  }

  /** Surrounding whitespace does not matter: normalising is collapsing the
      canonical text of the unstripped input. */
  lemma NormalizeUnstripped(s: string)
    ensures NormalizeText(s) == CollapseSpaces(Canon(s))
  {
    var lead, trail := StripParts(s);
    var m := Strip(s);
    CanonAppend(lead + m, trail);
    CanonAppend(lead, m);
    CanonKeepsSpace(lead);
    CanonKeepsSpace(trail);
    WordsIgnoreOuterSpaces(Canon(lead), Canon(m), Canon(trail));
  }

  /** Strings equal up to letter case normalise alike. */
  lemma NormalizeIgnoresCase(s: string, t: string)
    requires Lower(s) == Lower(t)
    ensures NormalizeText(s) == NormalizeText(t)
  {
    NormalizeUnstripped(s);
    NormalizeUnstripped(t);
  }

  /** Inserting a dot anywhere does not change the normalised text. */
  lemma NormalizeIgnoresDot(a: string, b: string)
    ensures NormalizeText(a + "." + b) == NormalizeText(a + b)
  {
    CanonDotJoined(a, b);
    CanonAppend(a, b);
    NormalizeUnstripped(a + "." + b);
    NormalizeUnstripped(a + b);
  }

  /** Stripping first changes nothing. */
  lemma NormalizeStripped(s: string)
    ensures NormalizeText(Strip(s)) == NormalizeText(s)
  {
    StripEnds(s);
    StripNoop(Strip(s));
  }

  // ---------------------------------------------------------------------
  // the I.E. names
  // ---------------------------------------------------------------------

  /** `Canon` of a Latin-1 text without dots, character by character. */
  lemma CanonWord(s: string)
    requires forall i :: 0 <= i < |s| ==> s[i] < '\U{100}' && s[i] != '.'
    ensures Canon(s) == seq(|s|, i requires 0 <= i < |s| => BaseLetter(LowerChar(s[i])))
  {
    DropMarksNoop(Lower(s));
    WithoutNoop(StripAccents(Lower(s)), {'.'});
  }

  lemma CanonDot()
    ensures Canon(".") == []
  {
    assert Lower(".") == ".";
    DropMarksNoop(".");
    assert StripAccents(".") == ".";
  }

  lemma CanonSpace()
    ensures Canon(" ") == " "
  {
    assert Lower(" ") == " ";
    DropMarksNoop(" ");
    assert StripAccents(" ") == " ";
    WithoutNoop(" ", {'.'});
  }

  /** A text without whitespace keeps none through `Canon`. */
  lemma CanonNoSpace(s: string)
    requires NoSpace(s)
    ensures NoSpace(Canon(s))
  {
    var l := Lower(s);
    var d := DropMarks(l);
    var a := StripAccents(l);
    var r := Canon(s);
    WithoutChars(a, {'.'});
    DropMarksChars(l);
    forall k | 0 <= k < |r|
      ensures !IsSpace(r[k])
    {
      assert r[k] in r;
      var i :| 0 <= i < |a| && a[i] == r[k];
      assert d[i] in l;
      var j :| 0 <= j < |l| && l[j] == d[i];
    }
  }

  /** A single word normalises to its canonical text. */
  lemma NormalizeOneWord(a: string)
    requires NoSpace(a)
    ensures NormalizeText(a) == Canon(a)
  {
    CanonNoSpace(a);
    NormalizeUnstripped(a);
    CollapseNoop(Canon(a));
  }

  /** Two words separated by one space normalise to their canonical texts
      separated by one space. */
  lemma NormalizeTwoWords(a: string, b: string)
    requires NoSpace(a) && NoSpace(b) && Canon(a) != [] && Canon(b) != []
    ensures NormalizeText(a + " " + b) == Canon(a) + " " + Canon(b)
  {
    CanonAppend(a + " ", b);
    CanonAppend(a, " ");
    CanonSpace();
    CanonNoSpace(a);
    CanonNoSpace(b);
    var x, y := Canon(a), Canon(b);
    var t := x + " " + y;
    forall i | 0 <= i < |t|
      ensures IsSpace(t[i]) ==> t[i] == ' ' && 0 < i < |t| - 1 && !IsSpace(t[i + 1])
    {
      if i < |x| {
        assert t[i] == x[i];
      } else if i > |x| {
        assert t[i] == y[i - |x| - 1];
      } else {
        assert t[i + 1] == y[0];
      }
    }
    NormalizeUnstripped(a + " " + b);
    CollapseNoop(t);
  }

  lemma CanonDotJoined(a: string, b: string)
    ensures Canon(a + "." + b) == Canon(a) + Canon(b)
  {
    CanonAppend(a + ".", b);
    CanonAppend(a, ".");
    CanonDot();
  }

  /** Two words joined by a dot normalise to their canonical texts run
      together. */
  lemma NormalizeDotJoined(a: string, b: string)
    requires NoSpace(a) && NoSpace(b)
    ensures NormalizeText(a + "." + b) == Canon(a) + Canon(b)
  {
    NoSpaceJoined(a, b);
    NormalizeOneWord(a + "." + b);
    CanonDotJoined(a, b);
  }

  lemma NoSpaceJoined(a: string, b: string)
    requires NoSpace(a) && NoSpace(b)
    ensures NoSpace(a + "." + b)
  {
    var t := a + "." + b;
    forall i | 0 <= i < |t|
      ensures !IsSpace(t[i])
    {
      if i < |a| {
        assert t[i] == a[i];
      } else if i > |a| {
        assert t[i] == b[i - |a| - 1];
      }
    }
  }

  /** A dot is dropped from the end of a word. */
  lemma CanonDropsFinalDot(a: string)
    ensures Canon(a + ".") == Canon(a)
  {
    CanonAppend(a, ".");
    CanonDot();
  }

  lemma CanonInsc(a: string)
    requires a == "INSC"
    ensures Canon(a) == "insc" && NoSpace(a)
  {
    CanonWord(a);
  }

  lemma CanonEstadualUpper(b: string)
    requires b == "ESTADUAL"
    ensures Canon(b) == "estadual" && NoSpace(b)
  {
    CanonWord(b);
  }

  lemma CanonEstadual(b: string)
    requires b == "estadual"
    ensures Canon(b) == "estadual" && NoSpace(b)
  {
    CanonWord(b);
  }

  lemma CanonInscricaoAccented(a: string)
    requires a == "inscri\U{E7}\U{E3}o"
    ensures Canon(a) == "inscricao" && NoSpace(a)
  {
    CanonWord(a);
  }

  lemma CanonInscricao(a: string)
    requires a == "inscricao"
    ensures Canon(a) == "inscricao" && NoSpace(a)
  {
    CanonWord(a);
  }

  lemma CanonLetter(a: string, c: char)
    requires a == [c] && 'a' <= c <= 'z'
    ensures Canon(a) == a && NoSpace(a)
  {
    CanonWord(a);
  }

  lemma NormalizedInscDotEstadual(s: string)
    requires s == "INSC.ESTADUAL"
    ensures NormalizeText(s) == "inscestadual"
  {
    var a, b := s[..4], s[5..];
    assert a == "INSC" && b == "ESTADUAL" && s == a + "." + b;
    CanonInsc(a);
    CanonEstadualUpper(b);
    NormalizeDotJoined(a, b);
  }

  lemma NormalizedInscDotSpaceEstadual(s: string)
    requires s == "INSC. ESTADUAL"
    ensures NormalizeText(s) == "insc estadual"
  {
    var a, b := s[..5], s[6..];
    assert a == "INSC" + "." && b == "ESTADUAL" && s == a + " " + b;
    CanonInsc(a[..4]);
    CanonDropsFinalDot(a[..4]);
    CanonEstadualUpper(b);
    assert NoSpace(a);
    NormalizeTwoWords(a, b);
  }

  lemma NormalizedIDotEDot(s: string)
    requires s == "i.e."
    ensures NormalizeText(s) == "ie"
  {
    var a, b := s[..1], s[2..];
    assert a == "i" && b == "e" + "." && s == a + "." + b;
    CanonLetter(a, 'i');
    CanonLetter(b[..1], 'e');
    CanonDropsFinalDot(b[..1]);
    NormalizeDotJoined(a, b);
  }

  lemma NormalizedIe(s: string)
    requires s == "ie"
    ensures NormalizeText(s) == "ie"
  {
    CanonWord(s);
    NormalizeOneWord(s);
  }

  lemma CanonDotEDot(b: string)
    requires b == ".e."
    ensures Canon(b) == "e" && NoSpace(b)
  {
    var e := b[1..2];
    assert b == "." + e + ".";
    CanonLetter(e, 'e');
    CanonDropsFinalDot("." + e);
    CanonAppend(".", e);
    CanonDot();
  }

  lemma NormalizedIDotDotEDot(s: string)
    requires s == "i..e."
    ensures NormalizeText(s) == "ie"
  {
    var a, b := s[..1], s[2..];
    assert a == "i" && b == ".e." && s == a + "." + b;
    CanonLetter(a, 'i');
    CanonDotEDot(b);
    NormalizeDotJoined(a, b);
  }

  lemma NormalizedInscricaoAccented(s: string)
    requires s == "inscri\U{E7}\U{E3}o estadual"
    ensures NormalizeText(s) == "inscricao estadual"
  {
    var a, b := s[..9], s[10..];
    assert s == a + " " + b;
    CanonInscricaoAccented(a);
    CanonEstadual(b);
    NormalizeTwoWords(a, b);
  }

  lemma NormalizedInscricao(s: string)
    requires s == "inscricao estadual"
    ensures NormalizeText(s) == "inscricao estadual"
  {
    var a, b := s[..9], s[10..];
    assert s == a + " " + b;
    CanonInscricao(a);
    CanonEstadual(b);
    NormalizeTwoWords(a, b);
  }

  /** When `names[i]` normalises to `forms[i]` for every `i`, a text is the
      normal form of one of `names` exactly when it is one of `forms`. */
  lemma NormalizesToListed(names: seq<string>, forms: seq<string>, n: string)
    requires |names| == |forms| && forall i :: 0 <= i < |names| ==> NormalizeText(names[i]) == forms[i]
    ensures NormalizesToSynonym(names, n) <==> n in forms
  {
    if n in forms {
      var i :| 0 <= i < |forms| && forms[i] == n;
      assert NormalizeText(names[i]) == n;
    }
  }

  /** What the accepted header texts normalise to. */
  lemma SynonymForms(names: seq<string>) returns (forms: seq<string>)
    requires names == IeSynonyms
    ensures forms == ["inscestadual", "insc estadual", "ie", "ie", "ie", "inscricao estadual", "inscricao estadual"]
    ensures forall i :: 0 <= i < |names| ==> NormalizeText(names[i]) == forms[i]
  {
    forms := ["inscestadual", "insc estadual", "ie", "ie", "ie", "inscricao estadual", "inscricao estadual"];
    forall i | 0 <= i < |names|
      ensures NormalizeText(names[i]) == forms[i]
    {
      if i == 0 {
        NormalizedInscDotEstadual(names[i]);
      } else if i == 1 {
        NormalizedInscDotSpaceEstadual(names[i]);
      } else if i == 2 {
        NormalizedIDotEDot(names[i]);
      } else if i == 3 {
        NormalizedIe(names[i]);
      } else if i == 4 {
        NormalizedIDotDotEDot(names[i]);
      } else if i == 5 {
        NormalizedInscricaoAccented(names[i]);
      } else {
        NormalizedInscricao(names[i]);
      }
    }
  }

  /** The source's test is the four-form test, and every accepted header
      text is itself a match; an empty normalised text never matches. */
  lemma MatchesIeNameExactly(c: Cell)
    ensures MatchesIeNameBySynonyms(c) <==> MatchesIeName(c)
    ensures forall i :: 0 <= i < |IeSynonyms| ==> MatchesIeName(Str(IeSynonyms[i]))
    ensures NormalizeHeader(c) == [] ==> !MatchesIeName(c)
  {
    var forms := SynonymForms(IeSynonyms);
    var n := NormalizeHeader(c);
    NormalizesToListed(IeSynonyms, forms, n);
    assert n in forms <==> n in IeForms;
    forall i | 0 <= i < |IeSynonyms|
      ensures MatchesIeName(Str(IeSynonyms[i]))
    {
      assert NormalizeText(IeSynonyms[i]) in IeForms by {
        assert forms[i] in IeForms;
      }
    }
  }

  /** The match ignores letter case and dots. */
  lemma MatchIgnoresCaseAndDots(s: string, t: string, a: string, b: string)
    ensures Lower(s) == Lower(t) ==> (MatchesIeName(Str(s)) <==> MatchesIeName(Str(t)))
    ensures MatchesIeName(Str(a + "." + b)) <==> MatchesIeName(Str(a + b))
  {
    if Lower(s) == Lower(t) {
      NormalizeIgnoresCase(s, t);
    }
    NormalizeIgnoresDot(a, b);
  }

  // ---------------------------------------------------------------------
  // the header row
  // ---------------------------------------------------------------------

  // The scans below take the test of whether a cell names the I.E. column
  // as a parameter; the extraction passes `MatchesIeName`.

  predicate RowHas(row: Row, namesIe: Cell -> bool) {
    exists k :: 0 <= k < |row| && namesIe(row[k])
  }

  /** The index of the first of the first 25 rows that has a cell naming
      the I.E. column. */
  method FindHeaderRow(sheet: Sheet, namesIe: Cell -> bool) returns (r: Option<nat>)
    ensures r.Some? ==> r.value < HeaderSearchRows && r.value < |sheet| && RowHas(sheet[r.value], namesIe)
    ensures r.Some? ==> forall j :: 0 <= j < r.value ==> !RowHas(sheet[j], namesIe)
    ensures r.None? ==> forall j :: 0 <= j < |sheet| && j < HeaderSearchRows ==> !RowHas(sheet[j], namesIe)
  {
    var i := 0;
    while i < HeaderSearchRows
      invariant 0 <= i <= HeaderSearchRows
      invariant forall j :: 0 <= j < i && j < |sheet| ==> !RowHas(sheet[j], namesIe)
    {
      if i < |sheet| {
        var row := sheet[i];
        var k := 0;
        while k < |row|
          invariant 0 <= k <= |row|
          invariant forall m :: 0 <= m < k ==> !namesIe(row[m])
        {
          if namesIe(row[k]) {
            return Some(i);
          }
          k := k + 1;
        }
      }
      i := i + 1;
    }
    return None;
  }

  // ---------------------------------------------------------------------
  // the column map
  // ---------------------------------------------------------------------

  /** A header cell's name before de-duplication: `col_i` for a missing or
      blank cell, otherwise its stripped text. */
  function ColumnName(c: Cell, i: nat): (r: string)
    ensures !c.Empty? && !(c.Str? && Strip(c.s) == []) ==> r == Strip(CellText(c))
  {
    if c.Empty? || (c.Str? && Strip(c.s) == []) then "col_" + NatText(i)
    else Strip(CellText(c))
  }

  /** A non-blank header cell is named by its stripped text; a missing or
      blank one by `col_` and digits that read back as its column index. */
  lemma ColumnNameMeaning(c: Cell, i: nat)
    ensures var r := ColumnName(c, i);
      (!c.Empty? && !(c.Str? && Strip(c.s) == []) ==> r == Strip(CellText(c)))
      && (c.Empty? || (c.Str? && Strip(c.s) == []) ==>
            |r| > 4 && r[..4] == "col_" && AllDigits(r[4..]) && DigitsValue(r[4..]) == i)
  {
    if c.Empty? || (c.Str? && Strip(c.s) == []) {
      NatTextRoundTrip(i);
      assert ("col_" + NatText(i))[4..] == NatText(i);
    }
  }

  /** The names of the header cells, column by column. */
  function ColumnNames(row: Row): (names: seq<string>)
    ensures |names| == |row| && forall i :: 0 <= i < |row| ==> names[i] == ColumnName(row[i], i)
  {
    seq(|row|, i requires 0 <= i < |row| => ColumnName(row[i], i))
  }

  /** The key column `i` is stored under: its name, or its name suffixed with
      `_i` when the name is already a key. */
  function ChosenKey(names: seq<string>, i: nat): string
    requires i < |names|
    decreases i, 1
  {
    if HasKey(NameMap(names, i), names[i]) then names[i] + "_" + NatText(i) else names[i]
  }

  /** The column map after the first `n` columns: each column in turn stores
      its index under its chosen key, overwriting an equal key. */
  function NameMap(names: seq<string>, n: nat): Dict<int>
    requires n <= |names|
    decreases n, 0
  {
    if n == 0 then [] else Set(NameMap(names, n - 1), ChosenKey(names, n - 1), n - 1)
  }

  /** The column map of a header row. */
  function HeaderMap(row: Row): Dict<int> {
    NameMap(ColumnNames(row), |row|)
  }

  /** The index of the last of the first `n` cells naming the I.E. column, or -1. */
  function LastIeColumn(row: Row, n: nat, namesIe: Cell -> bool): (r: int)
    requires n <= |row|
    ensures -1 <= r < n
    ensures r == -1 <==> forall k :: 0 <= k < n ==> !namesIe(row[k])
    ensures r >= 0 ==> namesIe(row[r]) && forall k :: r < k < n ==> !namesIe(row[k])
  {
    if n == 0 then -1
    else if namesIe(row[n - 1]) then n - 1
    else LastIeColumn(row, n - 1, namesIe)
  }

  /** Builds the column-name map of the header row and finds the I.E. column. */
  method MapHeader(row: Row, namesIe: Cell -> bool) returns (names: Dict<int>, ieCol: int)
    ensures names == HeaderMap(row)
    ensures ieCol == LastIeColumn(row, |row|, namesIe)
  {
    ghost var columns := ColumnNames(row);
    names := [];
    ieCol := -1;
    var i := 0;
    while i < |row|
      invariant 0 <= i <= |row|
      invariant names == NameMap(columns, i)
      invariant ieCol == LastIeColumn(row, i, namesIe)
    {
      var name := ColumnName(row[i], i);
      if HasKey(names, name) {
        name := name + "_" + NatText(i);
      }
      names := Set(names, name, i);
      if namesIe(row[i]) {
        ieCol := i;
      }
      i := i + 1;
    }
  }

  /** The map's keys are unique and its values are indices of the columns
      seen so far. */
  lemma {:induction false} NameMapUnique(names: seq<string>, n: nat)
    requires n <= |names|
    ensures UniqueKeys(NameMap(names, n)) && |NameMap(names, n)| <= n
    ensures forall j :: 0 <= j < |NameMap(names, n)| ==> 0 <= NameMap(names, n)[j].1 < n
  {
    if n > 0 {
      NameMapUnique(names, n - 1);
      SetProperties(NameMap(names, n - 1), ChosenKey(names, n - 1), n - 1);
    }
  }

  /** Each entry's key is the key its column chose: the column's name, or
      that name suffixed with `_` and the column index. */
  lemma {:induction false} NameMapEntries(names: seq<string>, n: nat)
    requires n <= |names|
    ensures forall j :: 0 <= j < |NameMap(names, n)| ==>
              0 <= NameMap(names, n)[j].1 < |names| && NameMap(names, n)[j].0 == ChosenKey(names, NameMap(names, n)[j].1)
  {
    if n > 0 {
      var m := NameMap(names, n - 1);
      var key := ChosenKey(names, n - 1);
      NameMapEntries(names, n - 1);
      if HasKey(m, key) {
        var i := IndexOf(m, key);
        assert NameMap(names, n) == m[i := (key, n - 1)];
      } else {
        assert NameMap(names, n) == m + [(key, n - 1)];
      }
    }
  }

  /** Column `j` is the last of the first `n` columns that chose key `k`. */
  predicate LastChoice(names: seq<string>, n: nat, k: string, j: int)
    requires n <= |names|
  {
    0 <= j < n && ChosenKey(names, j) == k && forall j' :: j < j' < n ==> ChosenKey(names, j') != k
  }

  /** The column a key holds chose that key, and no later column did. */
  lemma {:induction false} NameMapValue(names: seq<string>, n: nat, k: string)
    requires n <= |names| && Get(NameMap(names, n), k).Some?
    ensures LastChoice(names, n, k, Get(NameMap(names, n), k).value)
  {
    var key := ChosenKey(names, n - 1);
    SetGet(NameMap(names, n - 1), key, n - 1, k);
    if k != key {
      NameMapValue(names, n - 1, k);
      LastChoiceExtend(names, n, k, Get(NameMap(names, n - 1), k).value);
    }
  }

  lemma LastChoiceExtend(names: seq<string>, n: nat, k: string, j: int)
    requires 0 < n <= |names| && LastChoice(names, n - 1, k, j) && ChosenKey(names, n - 1) != k
    ensures LastChoice(names, n, k, j)
  {
  }

  /** A key holds the last column that chose it. */
  lemma NameMapLookup(names: seq<string>, n: nat, j: nat)
    requires j < n <= |names|
    ensures Get(NameMap(names, n), ChosenKey(names, j)).Some?
    ensures LastChoice(names, n, ChosenKey(names, j), Get(NameMap(names, n), ChosenKey(names, j)).value)
    ensures j <= Get(NameMap(names, n), ChosenKey(names, j)).value
  {
    var k := ChosenKey(names, j);
    SetProperties(NameMap(names, j), k, j);
    assert Get(NameMap(names, j + 1), k).Some?;
    KeyPersists(names, j + 1, n, k);
    NameMapValue(names, n, k);
  }

  /** A key, once present, stays present. */
  lemma {:induction false} KeyPersists(names: seq<string>, i: nat, n: nat, k: string)
    requires i <= n <= |names| && HasKey(NameMap(names, i), k)
    ensures HasKey(NameMap(names, n), k)
    decreases n - i
  {
    if i < n {
      SetProperties(NameMap(names, i), ChosenKey(names, i), i);
      assert Get(NameMap(names, i + 1), k).Some?;
      KeyPersists(names, i + 1, n, k);
    }
  }

  /** Every column's name, as computed before de-duplication, ends up a key. */
  lemma NameIsKey(names: seq<string>, i: nat)
    requires i < |names|
    ensures HasKey(NameMap(names, |names|), names[i])
  {
    var name := names[i];
    if !HasKey(NameMap(names, i), name) {
      SetProperties(NameMap(names, i), name, i);
      assert Get(NameMap(names, i + 1), name).Some?;
    } else {
      KeyPersists(names, i, i + 1, name);
    }
    KeyPersists(names, i + 1, |names|, name);
  }

  /** A header row `a_2 | a | a` loses column 0: the third column's
      de-duplicated key `a_2` overwrites it. */
  lemma HeaderMapDropsColumn(names: seq<string>)
    requires names == ["a_2", "a", "a"]
    ensures NameMap(names, 3) == [("a_2", 2), ("a", 1)]
    ensures forall j :: 0 <= j < |NameMap(names, 3)| ==> NameMap(names, 3)[j].1 != 0
  {
    var m1 := NameMap(names, 1);
    assert m1 == [("a_2", 0)];
    assert !HasKey(m1, "a");
    var m2 := NameMap(names, 2);
    assert m2 == [("a_2", 0), ("a", 1)];
    assert m2[1].0 == "a";
    assert HasKey(m2, "a");
    assert NatText(2) == "2";
    assert ChosenKey(names, 2) == "a_2";
    IndexOfFirst(m2, "a_2", 0);
  }

  // ---------------------------------------------------------------------
  // the I.E. key
  // ---------------------------------------------------------------------

  /** The first key of the column map that names the I.E. column. */
  function FirstIeKey(names: Dict<int>, namesIe: Cell -> bool): (r: Option<string>)
    ensures r.None? <==> forall j :: 0 <= j < |names| ==> !namesIe(Str(names[j].0))
    ensures r.Some? ==> exists j :: 0 <= j < |names| && names[j].0 == r.value && namesIe(Str(r.value))
                          && forall j' :: 0 <= j' < j ==> !namesIe(Str(names[j'].0))
  {
    if names == [] then None
    else if namesIe(Str(names[0].0)) then Some(names[0].0)
    else
      var r := FirstIeKey(names[1..], namesIe);
      assert forall j :: 0 < j < |names| ==> names[j] == names[1..][j - 1];
      r
  }

  /** A cell naming the I.E. column is not blank, and its column name, its
      stripped text, names the I.E. column too. */
  lemma IeCellName(c: Cell, i: nat)
    requires MatchesIeName(c)
    ensures ColumnName(c, i) == Strip(CellText(c)) && MatchesIeName(Str(ColumnName(c, i)))
  {
    assert !c.Empty?;
    if c.Str? && Strip(c.s) == [] {
      NormalizeStripped(c.s);
      assert false;
    }
    NormalizeStripped(CellText(c));
  }

  /** When the header row has an I.E. cell, the column map has an I.E. key. */
  lemma IeColumnHasKey(row: Row)
    requires LastIeColumn(row, |row|, MatchesIeName) >= 0
    ensures FirstIeKey(HeaderMap(row), MatchesIeName).Some?
  {
    var c := LastIeColumn(row, |row|, MatchesIeName);
    var names := ColumnNames(row);
    IeCellName(row[c], c);
    NameIsKey(names, c);
    var d := HeaderMap(row);
    var j :| 0 <= j < |d| && d[j].0 == names[c];
    assert MatchesIeName(Str(d[j].0));
  }
}
