/** The values a spreadsheet cell can hold once a workbook is read with
    computed values only, their Python text (`str(v)`) and truthiness, and
    the insertion-ordered dictionaries the extraction code builds. */
module Values {
  import opened Wrappers
  import opened Text

  /** An exact decimal `units / 10^scale`; spreadsheet floats are taken to be
      the decimal they display. */
  datatype Decimal = Decimal(units: int, scale: nat)

  function Pow10(n: nat): (r: nat)
    ensures r >= 1
  {
    if n == 0 then 1 else 10 * Pow10(n - 1)
  }

  /** Two decimals denote the same number. */
  predicate SameValue(a: Decimal, b: Decimal) {
    a.units * Pow10(b.scale) == b.units * Pow10(a.scale)
  }

  /** A `datetime` read from a date-formatted cell. */
  datatype Stamp = Stamp(year: nat, month: nat, day: nat, hour: nat, minute: nat, second: nat)

  /** A cell read from the sheet: None, int, float, datetime or str. */
  datatype Cell = Empty | Int(i: int) | Float(d: Decimal) | DateTime(t: Stamp) | Str(s: string)

  /** A row of a sheet: the cells of its columns, left to right. */
  type Row = seq<Cell>

  /** A sheet: its rows, top to bottom. */
  type Sheet = seq<Row>

  predicate IsZero(d: Decimal) {
    d.units == 0
  }

  /** Python's truth value of a cell (`if valor:` / `c or ""`). */
  predicate Truthy(c: Cell) {
    match c
    case Empty => false
    case Int(i) => i != 0
    case Float(d) => !IsZero(d)
    case DateTime(_) => true
    case Str(s) => s != []
  }

  /** `isinstance(c, (int, float))`. */
  predicate IsNumber(c: Cell) {
    c.Int? || c.Float?
  }

  /** Fractional digits without trailing zeros, keeping at least one digit,
      as Python prints a float. */
  function TrimFraction(f: string): (r: string)
    ensures r != [] && |r| <= |f| + 1
  {
    if f == [] then "0"
    else if |f| > 1 && f[|f| - 1] == '0' then TrimFraction(f[..|f| - 1])
    else f
  }

  /** Python's `str(x)` for a float holding this decimal, in positional
      notation: the digits of `|units|` padded to more than `scale` digits
      and split `scale` digits from the right. */
  function DecimalText(d: Decimal): (r: string)
    ensures r != []
  {
    var a: nat := if d.units < 0 then -d.units else d.units;
    var t := ZFill(NatText(a), d.scale + 1);
    var k := |t| - d.scale;
    var body := t[..k] + "." + TrimFraction(t[k..]);
    if d.units < 0 then "-" + body else body
  }

  function StampText(t: Stamp): (r: string)
    ensures |r| >= 19
  {
    ZFill(NatText(t.year), 4) + "-" + ZFill(NatText(t.month), 2) + "-" + ZFill(NatText(t.day), 2)
    + " " + ZFill(NatText(t.hour), 2) + ":" + ZFill(NatText(t.minute), 2) + ":" + ZFill(NatText(t.second), 2)
  }

  /** Python's `str(c)`. */
  function CellText(c: Cell): (r: string)
    ensures c.Str? ==> r == c.s
    ensures !c.Str? ==> r != []
  {
    match c
    case Empty => "None"
    case Int(i) => IntText(i)
    case Float(d) => DecimalText(d)
    case DateTime(t) => StampText(t)
    case Str(s) => s
  }

  /** Python's `str(c or "")`: the empty text for a falsy cell. */
  function TruthyText(c: Cell): (r: string)
    ensures r == [] <==> !Truthy(c)
  {
    if Truthy(c) then CellText(c) else ""
  }

  // ---------------------------------------------------------------------
  // dictionaries with insertion order
  // ---------------------------------------------------------------------

  /** A Python `dict` with string keys: its entries in insertion order. */
  type Dict<V> = seq<(string, V)>

  function Keys<V>(d: Dict<V>): (ks: seq<string>)
    ensures |ks| == |d| && forall i :: 0 <= i < |d| ==> ks[i] == d[i].0
  {
    seq(|d|, i requires 0 <= i < |d| => d[i].0)
  }

  predicate UniqueKeys<V>(d: Dict<V>) {
    forall i, j :: 0 <= i < j < |d| ==> d[i].0 != d[j].0
  }

  predicate HasKey<V>(d: Dict<V>, k: string) {
    exists i :: 0 <= i < |d| && d[i].0 == k
  }

  /** The position of the first entry with key `k`. */
  function IndexOf<V>(d: Dict<V>, k: string): (i: nat)
    requires HasKey(d, k)
    ensures i < |d| && d[i].0 == k && forall j :: 0 <= j < i ==> d[j].0 != k
  {
    if d[0].0 == k then 0
    else
      assert HasKey(d[1..], k) by {
        var i :| 0 <= i < |d| && d[i].0 == k;
        assert d[1..][i - 1].0 == k;
      }
      var j := IndexOf(d[1..], k);
      assert d[j + 1] == d[1..][j];
      j + 1
  }

  /** The first position holding a key is the one `IndexOf` finds. */
  lemma IndexOfFirst<V>(d: Dict<V>, k: string, i: nat)
    requires i < |d| && d[i].0 == k && forall j :: 0 <= j < i ==> d[j].0 != k
    ensures HasKey(d, k) && IndexOf(d, k) == i
  {
  }

  /** Python's `d.get(k)`: the value stored under `k`, if any. */
  function Get<V>(d: Dict<V>, k: string): (r: Option<V>)
    ensures r.None? <==> !HasKey(d, k)
    ensures r.Some? ==> exists i :: 0 <= i < |d| && d[i] == (k, r.value)
  {
    if HasKey(d, k) then Some(d[IndexOf(d, k)].1) else None
  }

  /** Python's `d.get(k, default)`. */
  function GetOr<V>(d: Dict<V>, k: string, default: V): V {
    match Get(d, k)
    case Some(v) => v
    case None => default
  }

  /** Python's `d[k] = v`: an existing key keeps its position and takes the
      new value; a new key is appended. */
  function Set<V>(d: Dict<V>, k: string, v: V): Dict<V> {
    if HasKey(d, k) then d[IndexOf(d, k) := (k, v)] else d + [(k, v)]
  }

  /** Looking up one key after an assignment. */
  lemma SetGet<V>(d: Dict<V>, k: string, v: V, k': string)
    ensures Get(Set(d, k, v), k') == if k' == k then Some(v) else Get(d, k')
  {
    SetProperties(d, k, v);
  }

  /** Assigning a key makes that key map to the new value, leaves every other
      key's value and the order of the keys as they were, and keeps the keys
      unique. */
  lemma SetProperties<V>(d: Dict<V>, k: string, v: V)
    ensures Get(Set(d, k, v), k) == Some(v)
    ensures forall k' :: k' != k ==> Get(Set(d, k, v), k') == Get(d, k')
    ensures HasKey(d, k) ==> Keys(Set(d, k, v)) == Keys(d)
    ensures !HasKey(d, k) ==> Keys(Set(d, k, v)) == Keys(d) + [k]
    ensures UniqueKeys(d) ==> UniqueKeys(Set(d, k, v))
  {
    var r := Set(d, k, v);
    if HasKey(d, k) {
      IndexOfFirst(r, k, IndexOf(d, k));
    } else {
      IndexOfFirst(r, k, |d|);
    }
    forall k' | k' != k
      ensures Get(r, k') == Get(d, k')
    {
      if HasKey(d, k') {
        var i := IndexOf(d, k');
        assert r[i] == d[i];
        IndexOfFirst(r, k', i);
      }
    }
  }

  // ---------------------------------------------------------------------
  // subsequences
  // ---------------------------------------------------------------------

  /** `a` is `b` with some entries left out, the others in the same order. */
  predicate Subsequence<T(==)>(a: seq<T>, b: seq<T>)
    decreases |b|
  {
    if b == [] then a == []
    else (a != [] && a[|a| - 1] == b[|b| - 1] && Subsequence(a[..|a| - 1], b[..|b| - 1]))
         || Subsequence(a, b[..|b| - 1])
  }

  /** Appending an entry to `b` only, or to both, keeps `a` a subsequence. */
  lemma SubsequenceAppend<T>(a: seq<T>, b: seq<T>, x: T)
    requires Subsequence(a, b)
    ensures Subsequence(a, b + [x]) && Subsequence(a + [x], b + [x])
  {
    assert (b + [x])[..|b|] == b;
    assert (a + [x])[..|a|] == a;
  }

  // ---------------------------------------------------------------------
  // filtering
  // ---------------------------------------------------------------------

  /** `[x for x in xs if keep(x)]`. */
  function Filter<T>(xs: seq<T>, keep: T -> bool): (r: seq<T>)
    ensures |r| <= |xs|
  {
    if xs == [] then []
    else Filter(xs[..|xs| - 1], keep) + (if keep(xs[|xs| - 1]) then [xs[|xs| - 1]] else [])
  }

  /** The filter keeps exactly the entries `keep` accepts, in their order. */
  lemma {:induction false} FilterMeaning<T>(xs: seq<T>, keep: T -> bool)
    ensures var r := Filter(xs, keep);
      Subsequence(r, xs)
      && (forall k :: 0 <= k < |r| ==> keep(r[k]))
      && (forall k :: 0 <= k < |xs| && keep(xs[k]) ==> xs[k] in r)
  {
    if xs != [] {
      var init := xs[..|xs| - 1];
      var last := xs[|xs| - 1];
      FilterMeaning(init, keep);
      var r0 := Filter(init, keep);
      var r := Filter(xs, keep);
      var added := if keep(last) then [last] else [];
      assert r == r0 + added;
      if keep(last) {
        assert r[..|r| - 1] == r0;
      } else {
        assert r == r0;
      }
      forall k | 0 <= k < |xs| && keep(xs[k])
        ensures xs[k] in r
      {
        if k < |init| {
          assert xs[k] == init[k] && init[k] in r0;
        } else {
          assert xs[k] == last && r[|r| - 1] == last;
        }
      }
    }
  }

  /** A filter that keeps every entry keeps the whole list. */
  lemma {:induction false} FilterAll<T>(xs: seq<T>, keep: T -> bool)
    requires forall k :: 0 <= k < |xs| ==> keep(xs[k])
    ensures Filter(xs, keep) == xs
  {
    if xs != [] {
      FilterAll(xs[..|xs| - 1], keep);
    }
  }
}
