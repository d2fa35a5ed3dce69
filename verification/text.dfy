/** Python `str` operations used by the extraction engine, the batch flow and
    the desktop helpers: character classes, strip, lower, accent stripping,
    split/join on whitespace, integer rendering and parsing. */
module Text {
  import opened Wrappers

  // ---------------------------------------------------------------------
  // Character classes
  // ---------------------------------------------------------------------

  /** Python's `str.isspace` for one character. */
  predicate IsSpace(c: char) {
    c == ' ' || '\t' <= c <= '\r' || '\U{1C}' <= c <= '\U{1F}' || c == '\U{85}' || c == '\U{A0}'
    || c == '\U{1680}' || '\U{2000}' <= c <= '\U{200A}' || c == '\U{2028}' || c == '\U{2029}'
    || c == '\U{202F}' || c == '\U{205F}' || c == '\U{3000}'
  }

  /** ASCII decimal digit (Python's `str.isdigit` restricted to ASCII). */
  predicate IsDigit(c: char) {
    '0' <= c <= '9'
  }

  /** Upper-case ASCII and Latin-1 letters, the ones `LowerChar` changes. */
  predicate IsUpper(c: char) {
    'A' <= c <= 'Z' || ('\U{C0}' <= c <= '\U{DE}' && c != '\U{D7}')
  }

  /** Combining diacritical marks (Unicode category Mn, block U+0300..U+036F). */
  predicate IsCombiningMark(c: char) {
    '\U{300}' <= c <= '\U{36F}'
  }

  predicate AllSpace(s: string) {
    forall i :: 0 <= i < |s| ==> IsSpace(s[i])
  }

  predicate NoSpace(s: string) {
    forall i :: 0 <= i < |s| ==> !IsSpace(s[i])
  }

  predicate AllDigits(s: string) {
    forall i :: 0 <= i < |s| ==> IsDigit(s[i])
  }

  predicate NoUpper(s: string) {
    forall i :: 0 <= i < |s| ==> !IsUpper(s[i])
  }

  /** No whitespace other than single ' ' characters between two non-space
      characters: what `" ".join(s.split())` produces. */
  predicate SingleSpaced(s: string) {
    forall i :: 0 <= i < |s| && IsSpace(s[i]) ==> s[i] == ' ' && 0 < i < |s| - 1 && !IsSpace(s[i + 1])
  }

  // ---------------------------------------------------------------------
  // strip
  // ---------------------------------------------------------------------

  /** Python's `str.lstrip()`. */
  function TrimStart(s: string): (r: string)
    ensures |r| <= |s|
  {
    if s != [] && IsSpace(s[0]) then TrimStart(s[1..]) else s
  }

  lemma {:induction false} TrimStartShape(s: string)
    ensures TrimStart(s) == s[|s| - |TrimStart(s)|..]
    ensures AllSpace(s[..|s| - |TrimStart(s)|])
    ensures TrimStart(s) == [] || !IsSpace(TrimStart(s)[0])
  {
    if s != [] && IsSpace(s[0]) {
      TrimStartShape(s[1..]);
      var r := TrimStart(s);
      assert s[..|s| - |r|] == [s[0]] + s[1..][..|s| - 1 - |r|];
    }
  }

  /** Python's `str.rstrip()`. */
  function TrimEnd(s: string): (r: string)
    ensures |r| <= |s|
  {
    if s != [] && IsSpace(s[|s| - 1]) then TrimEnd(s[..|s| - 1]) else s
  }

  lemma {:induction false} TrimEndShape(s: string)
    ensures TrimEnd(s) == s[..|TrimEnd(s)|]
    ensures AllSpace(s[|TrimEnd(s)|..])
    ensures TrimEnd(s) == [] || !IsSpace(TrimEnd(s)[|TrimEnd(s)| - 1])
  {
    if s != [] && IsSpace(s[|s| - 1]) {
      TrimEndShape(s[..|s| - 1]);
      var r := TrimEnd(s);
      assert s[|r|..] == s[..|s| - 1][|r|..] + [s[|s| - 1]];
    }
  }

  /** Python's `str.strip()`. */
  function Strip(s: string): (r: string)
    ensures |r| <= |s|
  {
    TrimEnd(TrimStart(s))
  }

  /** The stripped text neither starts nor ends with whitespace. */
  lemma StripEnds(s: string)
    ensures var r := Strip(s); r == [] || (!IsSpace(r[0]) && !IsSpace(r[|r| - 1]))
  {
    var t := TrimStart(s);
    TrimStartShape(s);
    TrimEndShape(t);
    var r := TrimEnd(t);
    if r != [] {
      assert r[0] == t[0];
    }
  }

  /** `Strip` removes only whitespace, from both ends. */
  lemma StripParts(s: string) returns (lead: string, trail: string)
    ensures s == lead + Strip(s) + trail && AllSpace(lead) && AllSpace(trail)
  {
    var t := TrimStart(s);
    lead := LeadingSpace(s);
    trail := TrailingSpace(t);
    assert s == lead + (Strip(s) + trail);
  }

  lemma LeadingSpace(s: string) returns (lead: string)
    ensures s == lead + TrimStart(s) && AllSpace(lead)
  {
    TrimStartShape(s);
    lead := s[..|s| - |TrimStart(s)|];
  }

  lemma TrailingSpace(s: string) returns (trail: string)
    ensures s == TrimEnd(s) + trail && AllSpace(trail)
  {
    TrimEndShape(s);
    trail := s[|TrimEnd(s)|..];
  }

  lemma {:induction false} TrimStartAllSpace(s: string)
    requires AllSpace(s)
    ensures TrimStart(s) == []
  {
    if s != [] {
      assert forall i :: 0 <= i < |s[1..]| ==> s[1..][i] == s[i + 1];
      TrimStartAllSpace(s[1..]);
    }
  }

  /** Text of whitespace only strips to the empty text. */
  lemma StripAllSpace(s: string)
    requires AllSpace(s)
    ensures Strip(s) == []
  {
    TrimStartAllSpace(s);
  }

  /** The stripped text is the slice of the text between its leading and
      trailing whitespace. */
  lemma StripBounds(s: string) returns (lead: nat)
    ensures lead + |Strip(s)| <= |s| && Strip(s) == s[lead..lead + |Strip(s)|]
    ensures forall z :: 0 <= z < lead ==> IsSpace(s[z])
    ensures forall z :: lead + |Strip(s)| <= z < |s| ==> IsSpace(s[z])
  {
    var l, trail := StripParts(s);
    lead := |l|;
    var r := Strip(s);
    assert forall z :: 0 <= z < lead ==> s[z] == l[z];
    assert forall z :: lead + |r| <= z < |s| ==> s[z] == trail[z - lead - |r|];
  }

  /** A string without whitespace at either end is its own strip. */
  lemma StripNoop(s: string)
    requires s == [] || (!IsSpace(s[0]) && !IsSpace(s[|s| - 1]))
    ensures Strip(s) == s
  {
  }

  // ---------------------------------------------------------------------
  // lower, accents, filters
  // ---------------------------------------------------------------------

  function LowerChar(c: char): (r: char)
    ensures !IsUpper(r)
    ensures IsSpace(r) <==> IsSpace(c)
    ensures r == '.' <==> c == '.'
  {
    if IsUpper(c) then (c as int + 32) as char else c
  }

  /** Python's `str.lower`, for ASCII and Latin-1 letters. */
  function Lower(s: string): string {
    seq(|s|, i requires 0 <= i < |s| => LowerChar(s[i]))
  }

  /** The first character of the canonical (NFD) decomposition of a Latin-1
      letter: the letter without its accent. */
  function BaseLetter(c: char): (r: char)
    ensures IsSpace(r) <==> IsSpace(c)
    ensures r == '.' <==> c == '.'
    ensures IsUpper(r) ==> IsUpper(c)
  {
    if '\U{C0}' <= c <= '\U{C5}' then 'A'
    else if c == '\U{C7}' then 'C'
    else if '\U{C8}' <= c <= '\U{CB}' then 'E'
    else if '\U{CC}' <= c <= '\U{CF}' then 'I'
    else if c == '\U{D1}' then 'N'
    else if '\U{D2}' <= c <= '\U{D6}' then 'O'
    else if '\U{D9}' <= c <= '\U{DC}' then 'U'
    else if c == '\U{DD}' then 'Y'
    else if '\U{E0}' <= c <= '\U{E5}' then 'a'
    else if c == '\U{E7}' then 'c'
    else if '\U{E8}' <= c <= '\U{EB}' then 'e'
    else if '\U{EC}' <= c <= '\U{EF}' then 'i'
    else if c == '\U{F1}' then 'n'
    else if '\U{F2}' <= c <= '\U{F6}' then 'o'
    else if '\U{F9}' <= c <= '\U{FC}' then 'u'
    else if c == '\U{FD}' || c == '\U{FF}' then 'y'
    else c
  }

  /** Drops the characters of Unicode category Mn. */
  function DropMarks(s: string): (r: string)
    ensures |r| <= |s|
  {
    if s == [] then [] else (if IsCombiningMark(s[0]) then [] else [s[0]]) + DropMarks(s[1..])
  }

  /** `DropMarks` keeps exactly the characters that are not combining marks. */
  lemma {:induction false} DropMarksChars(s: string)
    ensures forall c :: c in DropMarks(s) <==> c in s && !IsCombiningMark(c)
  {
    if s != [] {
      DropMarksChars(s[1..]);
      assert forall c :: c in s <==> c == s[0] || c in s[1..];
    }
  }

  /** `unicodedata.normalize("NFD", s)` followed by dropping category Mn:
      every accented letter becomes its base letter. */
  function StripAccents(s: string): string {
    var t := DropMarks(s);
    seq(|t|, i requires 0 <= i < |t| => BaseLetter(t[i]))
  }

  /** `"".join(c for c in s if c not in cs)`. */
  function Without(s: string, cs: set<char>): (r: string)
    ensures |r| <= |s|
  {
    if s == [] then [] else (if s[0] in cs then [] else [s[0]]) + Without(s[1..], cs)
  }

  /** `Without` keeps exactly the characters outside `cs`. */
  lemma {:induction false} WithoutChars(s: string, cs: set<char>)
    ensures forall c :: c in Without(s, cs) <==> c in s && c !in cs
  {
    if s != [] {
      WithoutChars(s[1..], cs);
      assert forall c :: c in s <==> c == s[0] || c in s[1..];
    }
  }

  /** Python's `str.replace(old, new)` for single characters. */
  function ReplaceChar(s: string, from: char, to: char): string {
    seq(|s|, i requires 0 <= i < |s| => if s[i] == from then to else s[i])
  }

  lemma {:induction false} DropMarksAppend(a: string, b: string)
    ensures DropMarks(a + b) == DropMarks(a) + DropMarks(b)
  {
    if a != [] {
      DropMarksAppend(a[1..], b);
      var h := if IsCombiningMark(a[0]) then [] else [a[0]];
      assert (a + b)[0] == a[0];
      assert (a + b)[1..] == a[1..] + b;
      calc {
        DropMarks(a + b);
        h + DropMarks(a[1..] + b);
        h + (DropMarks(a[1..]) + DropMarks(b));
        (h + DropMarks(a[1..])) + DropMarks(b);
      }
    } else {
      assert a + b == b;
    }
  }

  lemma {:induction false} WithoutAppend(a: string, b: string, cs: set<char>)
    ensures Without(a + b, cs) == Without(a, cs) + Without(b, cs)
  {
    if a != [] {
      WithoutAppend(a[1..], b, cs);
      var h := if a[0] in cs then [] else [a[0]];
      assert (a + b)[0] == a[0];
      assert (a + b)[1..] == a[1..] + b;
      calc {
        Without(a + b, cs);
        h + Without(a[1..] + b, cs);
        h + (Without(a[1..], cs) + Without(b, cs));
        (h + Without(a[1..], cs)) + Without(b, cs);
      }
    } else {
      assert a + b == b;
    }
  }

  lemma {:induction false} WithoutNoop(s: string, cs: set<char>)
    requires forall i :: 0 <= i < |s| ==> s[i] !in cs
    ensures Without(s, cs) == s
  {
    if s != [] {
      WithoutNoop(s[1..], cs);
    }
  }

  lemma {:induction false} DropMarksNoop(s: string)
    requires forall i :: 0 <= i < |s| ==> !IsCombiningMark(s[i])
    ensures DropMarks(s) == s
  {
    if s != [] {
      DropMarksNoop(s[1..]);
    }
  }

  lemma StripAccentsAppend(a: string, b: string)
    ensures StripAccents(a + b) == StripAccents(a) + StripAccents(b)
  {
    DropMarksAppend(a, b);
  }

  lemma ReplaceCharAppend(a: string, b: string, from: char, to: char)
    ensures ReplaceChar(a + b, from, to) == ReplaceChar(a, from, to) + ReplaceChar(b, from, to)
  {
  }

  /** Text below the Latin-1 letters has no accent to strip. */
  lemma StripAccentsPlain(s: string)
    requires forall i :: 0 <= i < |s| ==> s[i] < '\U{C0}'
    ensures StripAccents(s) == s
  {
    DropMarksNoop(s);
  }

  lemma LowerAppend(a: string, b: string)
    ensures Lower(a + b) == Lower(a) + Lower(b)
  {
  }

  lemma LowerSlice(s: string, a: nat, b: nat)
    requires a <= b <= |s|
    ensures Lower(s[a..b]) == Lower(s)[a..b]
  {
  }

  lemma LowerNoop(s: string)
    requires NoUpper(s)
    ensures Lower(s) == s
  {
  }

  // ---------------------------------------------------------------------
  // split and join on whitespace
  // ---------------------------------------------------------------------

  /** The words of `s` after the partial word `word`. */
  function WordsFrom(s: string, word: string): seq<string>
    decreases |s|
  {
    if s == [] then (if word == [] then [] else [word])
    else if IsSpace(s[0]) then (if word == [] then [] else [word]) + WordsFrom(s[1..], [])
    else WordsFrom(s[1..], word + [s[0]])
  }

  /** Every word is non-empty and holds no whitespace. */
  lemma {:induction false} WordsFromShape(s: string, word: string)
    requires NoSpace(word)
    ensures forall i :: 0 <= i < |WordsFrom(s, word)| ==> WordsFrom(s, word)[i] != [] && NoSpace(WordsFrom(s, word)[i])
    decreases |s|
  {
    if s != [] {
      if IsSpace(s[0]) {
        WordsFromShape(s[1..], []);
      } else {
        WordsFromShape(s[1..], word + [s[0]]);
      }
    }
  }

  /** Python's `s.split()`: the maximal runs of non-whitespace characters. */
  function Words(s: string): seq<string> {
    WordsFrom(s, [])
  }

  /** Python's `" ".join(parts)`. */
  function JoinSpaced(parts: seq<string>): string {
    if parts == [] then []
    else if |parts| == 1 then parts[0]
    else parts[0] + " " + JoinSpaced(parts[1..])
  }

  /** Python's `" ".join(s.split())`. */
  function CollapseSpaces(s: string): string {
    JoinSpaced(Words(s))
  }

  /** The collapsed text is single-spaced and holds only spaces and
      characters of the input. */
  lemma CollapseShape(s: string)
    ensures SingleSpaced(CollapseSpaces(s))
    ensures forall c :: c in CollapseSpaces(s) ==> c == ' ' || c in s
  {
    var ws := Words(s);
    WordsFromShape(s, []);
    JoinWordsShape(ws);
    WordsFromChars(s, []);
    JoinChars(ws);
  }

  lemma {:induction false} JoinWordsShape(ws: seq<string>)
    requires forall i :: 0 <= i < |ws| ==> ws[i] != [] && NoSpace(ws[i])
    ensures SingleSpaced(JoinSpaced(ws))
    ensures ws != [] ==> JoinSpaced(ws) != [] && !IsSpace(JoinSpaced(ws)[0])
                         && !IsSpace(JoinSpaced(ws)[|JoinSpaced(ws)| - 1])
  {
    if |ws| >= 2 {
      var w, t := ws[0], JoinSpaced(ws[1..]);
      JoinWordsShape(ws[1..]);
      var r := JoinSpaced(ws);
      assert r == w + " " + t;
      assert forall i :: 0 <= i < |w| ==> r[i] == w[i];
      forall i | 0 <= i < |r| && IsSpace(r[i])
        ensures r[i] == ' ' && 0 < i < |r| - 1 && !IsSpace(r[i + 1])
      {
        if i > |w| {
          var j := i - |w| - 1;
          assert r[i] == t[j];
          if j + 1 < |t| {
            assert r[i + 1] == t[j + 1];
          }
        } else if i == |w| {
          assert r[i + 1] == t[0];
        }
      }
      assert r[0] == w[0];
      assert r[|r| - 1] == t[|t| - 1];
    }
  }

  lemma {:induction false} WordsFromChars(s: string, word: string)
    requires NoSpace(word)
    ensures forall k, c :: 0 <= k < |WordsFrom(s, word)| && c in WordsFrom(s, word)[k] ==> c in word || c in s
    decreases |s|
  {
    if s != [] {
      if IsSpace(s[0]) {
        WordsFromChars(s[1..], []);
        var ws, rest := WordsFrom(s, word), WordsFrom(s[1..], []);
        var head := if word == [] then [] else [word];
        assert ws == head + rest;
        forall k, c | 0 <= k < |ws| && c in ws[k]
          ensures c in word || c in s
        {
          if k >= |head| {
            assert ws[k] == rest[k - |head|];
            assert c in s[1..];
          }
        }
      } else {
        WordsFromChars(s[1..], word + [s[0]]);
        var ws := WordsFrom(s, word);
        assert ws == WordsFrom(s[1..], word + [s[0]]);
        forall k, c | 0 <= k < |ws| && c in ws[k]
          ensures c in word || c in s
        {
          assert c in word + [s[0]] || c in s[1..];
        }
      }
    }
  }

  lemma {:induction false} JoinChars(parts: seq<string>)
    ensures forall c :: c in JoinSpaced(parts) ==> c == ' ' || exists k :: 0 <= k < |parts| && c in parts[k]
  {
    if |parts| >= 2 {
      JoinChars(parts[1..]);
      forall c | c in JoinSpaced(parts) && c != ' '
        ensures exists k :: 0 <= k < |parts| && c in parts[k]
      {
        if c in parts[0] {
          assert 0 < |parts|;
        } else {
          assert c in JoinSpaced(parts[1..]);
          var k :| 0 <= k < |parts[1..]| && c in parts[1..][k];
          assert c in parts[k + 1];
        }
      }
    }
  }

  /** Leading whitespace produces no word. */
  lemma {:induction false} WordsSkipLeadingSpaces(a: string, m: string)
    requires AllSpace(a)
    ensures WordsFrom(a + m, []) == WordsFrom(m, [])
  {
    if a != [] {
      assert (a + m)[0] == a[0];
      assert (a + m)[1..] == a[1..] + m;
      WordsSkipLeadingSpaces(a[1..], m);
      calc {
        WordsFrom(a + m, []);
        [] + WordsFrom(a[1..] + m, []);
        WordsFrom(a[1..] + m, []);
      }
    } else {
      assert a + m == m;
    }
  }

  /** Trailing whitespace produces no word. */
  lemma {:induction false} WordsSkipTrailingSpaces(m: string, b: string, word: string)
    requires AllSpace(b) && NoSpace(word)
    ensures WordsFrom(m + b, word) == WordsFrom(m, word)
    decreases |m|
  {
    if m == [] {
      assert m + b == b;
      if b != [] {
        WordsSkipLeadingSpaces(b[1..], []);
        assert b[1..] == b[1..] + [];
      }
    } else {
      assert (m + b)[0] == m[0];
      assert (m + b)[1..] == m[1..] + b;
      if IsSpace(m[0]) {
        WordsSkipTrailingSpaces(m[1..], b, []);
      } else {
        WordsSkipTrailingSpaces(m[1..], b, word + [m[0]]);
      }
    }
  }

  /** Whitespace around a string does not change its words. */
  lemma WordsIgnoreOuterSpaces(a: string, m: string, b: string)
    requires AllSpace(a) && AllSpace(b)
    ensures Words(a + m + b) == Words(m)
  {
    assert a + m + b == a + (m + b);
    WordsSkipLeadingSpaces(a, m + b);
    WordsSkipTrailingSpaces(m, b, []);
  }

  /** Collapsing leaves a string that is already single-spaced unchanged. */
  lemma {:induction false} JoinWordsFromSingleSpaced(s: string, word: string)
    requires NoSpace(word) && SingleSpaced(word + s)
    requires s != [] ==> (word != [] || !IsSpace(s[0]))
    ensures JoinSpaced(WordsFrom(s, word)) == word + s
    decreases |s|
  {
    if s == [] {
      assert word + s == word;
    } else if IsSpace(s[0]) {
      var whole := word + s;
      assert whole[|word|] == s[0];
      assert whole[|word| + 1] == s[1];
      var rest := s[1..];
      forall i | 0 <= i < |rest| && IsSpace(rest[i])
        ensures rest[i] == ' ' && 0 < i < |rest| - 1 && !IsSpace(rest[i + 1])
      {
        assert rest[i] == whole[|word| + 1 + i];
        if i + 1 < |rest| {
          assert rest[i + 1] == whole[|word| + 2 + i];
        }
      }
      assert [] + rest == rest;
      JoinWordsFromSingleSpaced(rest, []);
      var ws := WordsFrom(rest, []);
      assert JoinSpaced(ws) == rest && rest != [];
      assert ws != [];
      assert WordsFrom(s, word) == [word] + ws;
      assert ([word] + ws)[1..] == ws;
      assert whole == word + " " + rest;
    } else {
      assert word + s == (word + [s[0]]) + s[1..];
      JoinWordsFromSingleSpaced(s[1..], word + [s[0]]);
    }
  }

  lemma CollapseNoop(s: string)
    requires SingleSpaced(s)
    ensures CollapseSpaces(s) == s
  {
    assert [] + s == s;
    JoinWordsFromSingleSpaced(s, []);
  }

  // ---------------------------------------------------------------------
  // substrings
  // ---------------------------------------------------------------------

  predicate StartsWith(s: string, prefix: string) {
    |prefix| <= |s| && s[..|prefix|] == prefix
  }

  /** Python's `t in s` for two strings. */
  predicate Contains(s: string, t: string)
    decreases |s|
  {
    StartsWith(s, t) || (s != [] && Contains(s[1..], t))
  }

  lemma {:induction false} ContainsAt(s: string, t: string, i: nat)
    requires i + |t| <= |s| && s[i..i + |t|] == t
    ensures Contains(s, t)
    decreases i
  {
    if i > 0 {
      assert s[1..][i - 1..i - 1 + |t|] == s[i..i + |t|];
      ContainsAt(s[1..], t, i - 1);
    }
  }

  /** An occurrence of one text in another starts at some position. */
  lemma {:induction false} ContainsWitness(s: string, t: string) returns (i: nat)
    requires Contains(s, t)
    ensures i + |t| <= |s| && s[i..i + |t|] == t
    decreases |s|
  {
    if StartsWith(s, t) {
      i := 0;
    } else {
      var j := ContainsWitness(s[1..], t);
      i := j + 1;
      assert s[i..i + |t|] == s[1..][j..j + |t|];
    }
  }

  /** `s.split("\n")[0]`: the text before the first line break. */
  function FirstLine(s: string): (r: string)
    ensures '\n' !in r && StartsWith(s, r)
    ensures |r| < |s| ==> s[|r|] == '\n'
  {
    if s == [] || s[0] == '\n' then [] else [s[0]] + FirstLine(s[1..])
  }

  /** A text without a line break is its own first line. */
  lemma {:induction false} FirstLineWhole(s: string)
    requires '\n' !in s
    ensures FirstLine(s) == s
  {
    if s != [] {
      FirstLineWhole(s[1..]);
      assert s == [s[0]] + s[1..];
    }
  }

  // ---------------------------------------------------------------------
  // repr
  // ---------------------------------------------------------------------

  /** A lower-case hexadecimal digit. */
  function HexDigit(d: nat): (c: char)
    requires d < 16
  {
    if d < 10 then DigitChar(d) else ('a' as int + d - 10) as char
  }

  /** Characters below U+0100 that Python's `str.isprintable` rejects. */
  predicate Unprintable(c: char) {
    c < ' ' || ('\U{7F}' <= c <= '\U{A0}') || c == '\U{AD}'
  }

  /** How `repr` shows one character inside quotes `quote`. */
  function ReprChar(c: char, quote: char): (r: string)
    requires quote == '\'' || quote == '"'
    ensures '\n' !in r && '\r' !in r
  {
    if c == quote || c == '\\' then ['\\', c]
    else if c == '\n' then "\\n"
    else if c == '\r' then "\\r"
    else if c == '\t' then "\\t"
    else if Unprintable(c) then "\\x" + [HexDigit(c as int / 16), HexDigit(c as int % 16)]
    else [c]
  }

  function ReprBody(s: string, quote: char): (r: string)
    requires quote == '\'' || quote == '"'
    ensures '\n' !in r && '\r' !in r
  {
    if s == [] then [] else ReprBody(s[..|s| - 1], quote) + ReprChar(s[|s| - 1], quote)
  }

  /** Python's `repr(s)` for a string: single quotes, or double quotes when
      the text holds a single quote and no double quote; backslashes, the
      quote in use and line breaks are escaped. */
  function Repr(s: string): (r: string)
    ensures |r| >= 2 && r[0] == r[|r| - 1] && (r[0] == '\'' || r[0] == '"')
    ensures '\n' !in r && '\r' !in r
  {
    var quote := if '\'' in s && '"' !in s then '"' else '\'';
    [quote] + ReprBody(s, quote) + [quote]
  }

  /** Text of printable characters other than quotes and backslashes is
      shown as it is, between single quotes. */
  lemma {:induction false} ReprPlain(s: string)
    requires forall i :: 0 <= i < |s| ==> !Unprintable(s[i]) && s[i] !in "'\"\\"
    ensures Repr(s) == "'" + s + "'"
  {
    ReprBodyPlain(s);
  }

  lemma {:induction false} ReprBodyPlain(s: string)
    requires forall i :: 0 <= i < |s| ==> !Unprintable(s[i]) && s[i] !in "'\"\\"
    ensures ReprBody(s, '\'') == s
  {
    if s != [] {
      ReprBodyPlain(s[..|s| - 1]);
      assert s == s[..|s| - 1] + [s[|s| - 1]];
    }
  }

  /** Python's `sep.join(parts)` for a one-character separator. */
  function JoinOn(parts: seq<string>, sep: char): string {
    if parts == [] then []
    else if |parts| == 1 then parts[0]
    else parts[0] + [sep] + JoinOn(parts[1..], sep)
  }

  /** Python's `s.split(sep)` for a one-character separator: the pieces
      between separators, empty ones included. */
  function SplitOn(s: string, sep: char): (parts: seq<string>)
    ensures |parts| >= 1
    decreases |s|
  {
    if s == [] then [[]]
    else
      var rest := SplitOn(s[1..], sep);
      if s[0] == sep then [[]] + rest else [[s[0]] + rest[0]] + rest[1..]
  }

  /** Joining the pieces again gives the text back, and no piece holds the
      separator. */
  lemma {:induction false} SplitOnJoin(s: string, sep: char)
    ensures JoinOn(SplitOn(s, sep), sep) == s
    ensures forall i :: 0 <= i < |SplitOn(s, sep)| ==> sep !in SplitOn(s, sep)[i]
    decreases |s|
  {
    if s != [] {
      var rest := SplitOn(s[1..], sep);
      SplitOnJoin(s[1..], sep);
      if s[0] == sep {
        assert SplitOn(s, sep)[1..] == rest;
      } else {
        var parts := SplitOn(s, sep);
        assert parts[1..] == rest[1..];
        if |rest| > 1 {
          assert rest == [rest[0]] + rest[1..];
        }
        forall i | 0 <= i < |parts|
          ensures sep !in parts[i]
        {
          if i > 0 {
            assert parts[i] == rest[i];
          }
        }
      }
    }
  }

  /** Every character of a piece comes from the text. */
  lemma {:induction false} SplitOnChars(s: string, sep: char)
    ensures forall i, c :: 0 <= i < |SplitOn(s, sep)| && c in SplitOn(s, sep)[i] ==> c in s
    decreases |s|
  {
    if s != [] {
      var rest := SplitOn(s[1..], sep);
      SplitOnChars(s[1..], sep);
      var parts := SplitOn(s, sep);
      forall i, c | 0 <= i < |parts| && c in parts[i]
        ensures c in s
      {
        assert forall c' :: c' in s[1..] ==> c' in s;
        if s[0] != sep && i > 0 {
          assert parts[i] == rest[i];
        } else if s[0] == sep {
          assert i > 0 && parts[i] == rest[i - 1];
        }
      }
    }
  }

  /** Each piece occurs in the joined text, between what comes before and
      after it. */
  lemma {:induction false} JoinOnPiece(parts: seq<string>, i: nat, sep: char) returns (pre: string, post: string)
    requires i < |parts|
    ensures JoinOn(parts, sep) == pre + parts[i] + post
    decreases i
  {
    if |parts| == 1 {
      pre, post := [], [];
    } else if i == 0 {
      pre, post := [], [sep] + JoinOn(parts[1..], sep);
    } else {
      var p, q := JoinOnPiece(parts[1..], i - 1, sep);
      pre, post := parts[0] + [sep] + p, q;
    }
  }

  /** Whitespace pieces joined by whitespace are whitespace. */
  lemma {:induction false} JoinOnAllSpace(parts: seq<string>, sep: char)
    requires IsSpace(sep) && forall i :: 0 <= i < |parts| ==> AllSpace(parts[i])
    ensures AllSpace(JoinOn(parts, sep))
    decreases |parts|
  {
    if |parts| > 1 {
      JoinOnAllSpace(parts[1..], sep);
      var t := JoinOn(parts[1..], sep);
      assert AllSpace(parts[0]) && AllSpace([sep]);
      assert forall i :: 0 <= i < |parts[0] + [sep] + t| ==>
        (parts[0] + [sep] + t)[i] in parts[0] || (parts[0] + [sep] + t)[i] == sep || (parts[0] + [sep] + t)[i] in t;
    }
  }

  /** Splitting text that starts with a piece without the separator. */
  lemma {:induction false} SplitOnPrefix(a: string, rest: string, sep: char)
    requires sep !in a
    ensures SplitOn(a + rest, sep) == [a + SplitOn(rest, sep)[0]] + SplitOn(rest, sep)[1..]
    decreases |a|
  {
    if a != [] {
      assert (a + rest)[1..] == a[1..] + rest;
      SplitOnPrefix(a[1..], rest, sep);
      assert [a[0]] + (a[1..] + SplitOn(rest, sep)[0]) == a + SplitOn(rest, sep)[0];
    } else {
      assert a + rest == rest;
      var parts := SplitOn(rest, sep);
      assert a + parts[0] == parts[0];
      assert parts == [parts[0]] + parts[1..];
    }
  }

  /** Splitting joined pieces that hold no separator gives the pieces back. */
  lemma {:induction false} JoinOnSplit(parts: seq<string>, sep: char)
    requires parts != [] && forall i :: 0 <= i < |parts| ==> sep !in parts[i]
    ensures SplitOn(JoinOn(parts, sep), sep) == parts
    decreases |parts|
  {
    if |parts| == 1 {
      SplitOnPrefix(parts[0], [], sep);
      assert parts[0] + [] == parts[0];
    } else {
      var tail := JoinOn(parts[1..], sep);
      JoinOnSplit(parts[1..], sep);
      assert ([sep] + tail)[1..] == tail;
      assert SplitOn([sep] + tail, sep) == [[]] + parts[1..];
      assert JoinOn(parts, sep) == parts[0] + ([sep] + tail);
      SplitOnPrefix(parts[0], [sep] + tail, sep);
      assert parts[0] + [] == parts[0];
      assert parts == [parts[0]] + parts[1..];
    }
  }

  // ---------------------------------------------------------------------
  // integers as text
  // ---------------------------------------------------------------------

  function DigitChar(d: nat): (c: char)
    requires d < 10
    ensures IsDigit(c)
  {
    ('0' as int + d) as char
  }

  function DigitValue(c: char): (d: nat)
    requires IsDigit(c)
    ensures d < 10
  {
    c as int - '0' as int
  }

  /** Python's `str(n)` for a non-negative integer. */
  function NatText(n: nat): (r: string)
    ensures r != [] && AllDigits(r)
    decreases n
  {
    if n < 10 then [DigitChar(n)] else NatText(n / 10) + [DigitChar(n % 10)]
  }

  /** The number a string of decimal digits denotes (leading zeros allowed,
      as Python's `int` allows them). */
  function DigitsValue(s: string): nat
    requires AllDigits(s)
    decreases |s|
  {
    if s == [] then 0 else DigitsValue(s[..|s| - 1]) * 10 + DigitValue(s[|s| - 1])
  }

  lemma {:induction false} NatTextRoundTrip(n: nat)
    ensures DigitsValue(NatText(n)) == n
    decreases n
  {
    if n >= 10 {
      NatTextRoundTrip(n / 10);
      var t := NatText(n);
      assert t[..|t| - 1] == NatText(n / 10);
    }
  }

  /** Leading zeros do not change the value of a digit string. */
  lemma {:induction false} DigitsValueLeadingZeros(k: nat, s: string)
    requires AllDigits(s)
    ensures AllDigits(Repeat('0', k) + s) && DigitsValue(Repeat('0', k) + s) == DigitsValue(s)
    decreases |s|
  {
    var z := Repeat('0', k);
    if s == [] {
      assert z + s == z;
      ZerosValue(k);
    } else {
      var t := z + s;
      assert t[..|t| - 1] == z + s[..|s| - 1];
      DigitsValueLeadingZeros(k, s[..|s| - 1]);
    }
  }

  lemma {:induction false} ZerosValue(k: nat)
    ensures DigitsValue(Repeat('0', k)) == 0
  {
    if k > 0 {
      assert Repeat('0', k)[..k - 1] == Repeat('0', k - 1);
      ZerosValue(k - 1);
    }
  }

  /** How many digits a number prints with, for numbers below 10000. */
  lemma {:induction false} NatTextLength(n: nat)
    ensures n < 10 ==> |NatText(n)| == 1
    ensures 10 <= n < 100 ==> |NatText(n)| == 2
    ensures 100 <= n < 1000 ==> |NatText(n)| == 3
    ensures 1000 <= n < 10000 ==> |NatText(n)| == 4
    decreases n
  {
    if n >= 10 {
      NatTextLength(n / 10);
    }
  }

  /** A number below 100 prints with `{:02d}` as two digits that read back
      as the number. */
  lemma TwoDigitsText(i: int)
    requires 0 <= i < 100
    ensures |TwoDigits(i)| == 2 && AllDigits(TwoDigits(i)) && DigitsValue(TwoDigits(i)) == i
  {
    NatTextRoundTrip(i);
    NatTextLength(i);
    if i < 10 {
      assert TwoDigits(i) == Repeat('0', 1) + NatText(i);
      DigitsValueLeadingZeros(1, NatText(i));
    }
  }

  /** Python's `str(i)`. */
  function IntText(i: int): (r: string)
    ensures r != [] && NoSpace(r)
  {
    if i < 0 then "-" + NatText(-i) else NatText(i)
  }

  /** Python's `int(s)` for a string, with ASCII digits only: surrounding
      whitespace, an optional sign and at least one digit, the digits
      possibly grouped by single underscores. */
  function ParseInt(s: string): Option<int> {
    ParseSignedDigits(Strip(s))
  }

  /** Digits with single underscores allowed between two of them, as
      Python's integer literals group them. */
  predicate GroupedDigits(t: string) {
    t != [] && IsDigit(t[0]) && IsDigit(t[|t| - 1])
    && (forall i :: 0 <= i < |t| ==> IsDigit(t[i]) || t[i] == '_')
    && (forall i :: 0 <= i < |t| - 1 && t[i] == '_' ==> IsDigit(t[i + 1]))
  }

  /** The number grouped digits denote: the digits with the underscores
      left out. */
  function GroupedValue(t: string): nat
    requires GroupedDigits(t)
  {
    var d := Without(t, {'_'});
    WithoutChars(t, {'_'});
    assert forall i :: 0 <= i < |d| ==> d[i] in d;
    DigitsValue(d)
  }

  /** An optional sign followed by grouped digits, and nothing else. */
  function ParseSignedDigits(t: string): Option<int> {
    if t == [] then None
    else if t[0] == '-' || t[0] == '+' then
      var d := t[1..];
      if GroupedDigits(d) then
        Some(if t[0] == '-' then -(GroupedValue(d) as int) else GroupedValue(d) as int)
      else None
    else if GroupedDigits(t) then Some(GroupedValue(t) as int)
    else None
  }

  /** Plain digits are grouped digits with the value they have. */
  lemma DigitsGrouped(s: string)
    requires s != [] && AllDigits(s)
    ensures GroupedDigits(s) && GroupedValue(s) == DigitsValue(s)
  {
    WithoutNoop(s, {'_'});
  }

  /** An underscore between two digit runs does not change the number read. */
  lemma IntIgnoresUnderscore(a: string, b: string)
    requires a != [] && b != [] && AllDigits(a) && AllDigits(b)
    ensures ParseSignedDigits(a + "_" + b) == ParseSignedDigits(a + b) == Some(DigitsValue(a + b) as int)
  {
    var t := a + "_" + b;
    UnderscoreJoined(a, b);
    DigitsGrouped(a + b);
    assert t[0] == a[0] && (a + b)[0] == a[0];
  }

  lemma UnderscoreJoined(a: string, b: string)
    requires a != [] && b != [] && AllDigits(a) && AllDigits(b)
    ensures GroupedDigits(a + "_" + b) && Without(a + "_" + b, {'_'}) == a + b
  {
    JoinedGrouped(a, b);
    WithoutUnderscore(a);
    WithoutAppend(a + "_", b, {'_'});
    WithoutNoop(b, {'_'});
  }

  lemma WithoutUnderscore(a: string)
    requires AllDigits(a)
    ensures Without(a + "_", {'_'}) == a
  {
    WithoutAppend(a, "_", {'_'});
    WithoutNoop(a, {'_'});
    assert Without("_", {'_'}) == [];
    assert a + [] == a;
  }

  lemma JoinedGrouped(a: string, b: string)
    requires a != [] && b != [] && AllDigits(a) && AllDigits(b)
    ensures GroupedDigits(a + "_" + b)
  {
    var t := a + "_" + b;
    forall i | 0 <= i < |t|
      ensures IsDigit(t[i]) || t[i] == '_'
      ensures t[i] == '_' ==> i == |a|
    {
      if i < |a| {
        assert t[i] == a[i];
      } else if i > |a| {
        assert t[i] == b[i - |a| - 1];
      }
    }
    assert t[|a| + 1] == b[0];
    assert t[|t| - 1] == b[|b| - 1];
    assert t[0] == a[0];
  }

  /** `int(str(i)) == i`. */
  lemma IntTextRoundTrip(i: int)
    ensures ParseInt(IntText(i)) == Some(i)
  {
    var r := IntText(i);
    ParseIntUnpadded(r);
    NatTextRoundTrip(if i < 0 then -i else i);
    if i < 0 {
      assert r[1..] == NatText(-i);
      SignedDigitsNegative(r);
    } else {
      SignedDigitsUnsigned(r);
    }
  }

  /** Text without surrounding whitespace is parsed as it stands. */
  lemma ParseIntUnpadded(r: string)
    requires r != [] && !IsSpace(r[0]) && !IsSpace(r[|r| - 1])
    ensures ParseInt(r) == ParseSignedDigits(r)
  {
    StripNoop(r);
  }

  lemma SignedDigitsNegative(r: string)
    requires |r| > 1 && r[0] == '-' && AllDigits(r[1..])
    ensures ParseSignedDigits(r) == Some(-(DigitsValue(r[1..]) as int))
  {
    DigitsGrouped(r[1..]);
  }

  lemma SignedDigitsUnsigned(r: string)
    requires r != [] && AllDigits(r)
    ensures ParseSignedDigits(r) == Some(DigitsValue(r) as int)
  {
    DigitsGrouped(r);
  }

  // ---------------------------------------------------------------------
  // padding
  // ---------------------------------------------------------------------

  function Repeat(c: char, n: nat): (r: string)
    ensures |r| == n && forall i :: 0 <= i < n ==> r[i] == c
  {
    seq(n, _ => c)
  }

  /** Python's `str.zfill(width)` for a string without a sign. */
  function ZFill(s: string, width: int): string {
    if |s| >= width then s else Repeat('0', width - |s|) + s
  }

  /** Python's `str.ljust(width)`. */
  function LeftJustify(s: string, width: int): string {
    if |s| >= width then s else s + Repeat(' ', width - |s|)
  }

  /** Python's `f"{i:02d}"`. */
  function TwoDigits(i: int): string {
    if 0 <= i < 10 then "0" + NatText(i) else IntText(i)
  }
}
