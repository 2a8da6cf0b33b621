/**
 * `MarketAnalyzer`: ranking the rows of a quotes table by their coerced change
 * (top gainers and top decliners) and stacking several tables into one.
 */
module Analyzer {
  import opened Wrappers
  import opened Frames
  import opened Numeric

  /** One row of a ranking: the row's position in the input table (pandas keeps
      the index label), its symbol cell and its coerced change. */
  datatype Mover = Mover(row: nat, symbol: Cell, change: real)

  /** What `get_top_movers` returns: the two projected tables. */
  datatype Movers = Movers(gainers: seq<Mover>, decliners: seq<Mover>)

  /** The exceptions the analyser's pandas calls raise: a `KeyError` for an
      absent column or table name, a `ValueError` for nothing to concatenate. */
  datatype AnalysisError = MissingColumn(name: string) | MissingKey(key: string) | NothingToCombine

  /** `nlargest` ranks by descending change, `nsmallest` by ascending change. */
  datatype Order = Largest | Smallest

  /** `a` is ranked before `b`: a better change, or an equal change and an
      earlier row (`keep='first'`). */
  predicate Ahead(o: Order, a: Mover, b: Mover) {
    if a.change == b.change then a.row < b.row
    else if o == Largest then a.change > b.change
    else a.change < b.change
  }

  /** Every mover is ahead of every mover after it. */
  predicate Ranked(o: Order, s: seq<Mover>) {
    forall i, j :: 0 <= i < j < |s| ==> Ahead(o, s[i], s[j])
  }

  predicate DistinctRows(s: seq<Mover>) {
    forall i, j :: 0 <= i < j < |s| ==> s[i].row != s[j].row
  }

  lemma AheadTransitive(o: Order, a: Mover, b: Mover, c: Mover)
    requires Ahead(o, a, b) && Ahead(o, b, c)
    ensures Ahead(o, a, c)
  {
  }

  /** Put `m` into its place in a ranked sequence. */
  function Insert(o: Order, m: Mover, s: seq<Mover>): (r: seq<Mover>)
    requires Ranked(o, s)
    requires forall x :: x in s ==> x.row != m.row
    ensures Ranked(o, r)
    ensures multiset(r) == multiset(s) + multiset{m}
  {
    if s == [] then [m]
    else if Ahead(o, m, s[0]) then
      forall j | 0 <= j < |s| ensures Ahead(o, m, s[j]) {
        if j > 0 { AheadTransitive(o, m, s[0], s[j]); }
      }
      [m] + s
    else
      var t := Insert(o, m, s[1..]);
      assert s[0].row != m.row;
      forall x | x in t ensures Ahead(o, s[0], x) {
        assert x in multiset(s[1..]) + multiset{m};
        if x != m {
          assert x in s[1..];
        }
      }
      assert s == [s[0]] + s[1..];
      [s[0]] + t
  }

  /** A stable sort of candidates with distinct rows into ranking order. */
  function Rank(o: Order, s: seq<Mover>): (r: seq<Mover>)
    requires DistinctRows(s)
    ensures Ranked(o, r)
    ensures multiset(r) == multiset(s)
  {
    if s == [] then []
    else
      var n := |s| - 1;
      var t := Rank(o, s[..n]);
      LastRowIsNew(s, t);
      assert s == s[..n] + [s[n]];
      Insert(o, s[n], t)
  }

  /** The last mover's row is not among those of a permutation of the others. */
  lemma LastRowIsNew(s: seq<Mover>, t: seq<Mover>)
    requires DistinctRows(s) && s != [] && multiset(t) == multiset(s[..|s| - 1])
    ensures forall x :: x in t ==> x.row != s[|s| - 1].row
  {
    var n := |s| - 1;
    forall x | x in t ensures x.row != s[n].row {
      assert x in multiset(s[..n]);
      var i :| 0 <= i < n && s[..n][i] == x;
    }
  }

  function Min(a: nat, b: nat): nat {
    if a <= b then a else b
  }

  /** The change column after coercion (`df_copy[pct_change_col] = ...`). */
  function Coerced(d: Dataset, ci: nat): (vs: seq<Option<real>>)
    requires WellFormed(d) && ci < |d.columns|
    ensures |vs| == |d.rows|
    ensures forall i :: 0 <= i < |d.rows| ==> vs[i] == Coerce(d.rows[i][ci])
  {
    seq(|d.rows|, i requires 0 <= i < |d.rows| => Coerce(Column(d, ci)[i]))
  }

  /** Reference count: the entries of a coerced column that are numbers. */
  function DefinedCount(vals: seq<Option<real>>): (c: nat)
    ensures c <= |vals|
  {
    if vals == [] then 0
    else DefinedCount(vals[..|vals| - 1]) + (if vals[|vals| - 1].Some? then 1 else 0)
  }

  /** `m` is row `m.row`, projected to its symbol and its coerced change. */
  predicate FromRow(syms: seq<Cell>, vals: seq<Option<real>>, m: Mover) {
    m.row < |syms| && m.row < |vals| && vals[m.row] == Some(m.change) && m.symbol == syms[m.row]
  }

  /** The rows whose change coerces to a number, in row order, projected to
      (row, symbol, change); the others have no place in either ranking. */
  function Candidates(syms: seq<Cell>, vals: seq<Option<real>>): (r: seq<Mover>)
    requires |syms| == |vals|
    ensures |r| == DefinedCount(vals)
    ensures forall k :: 0 <= k < |r| ==> FromRow(syms, vals, r[k])
    ensures forall i :: 0 <= i < |vals| && vals[i].Some? ==> Mover(i, syms[i], vals[i].value) in r
    ensures forall a, b :: 0 <= a < b < |r| ==> r[a].row < r[b].row
  {
    if vals == [] then []
    else
      var n := |vals| - 1;
      var t := Candidates(syms[..n], vals[..n]);
      assert forall k :: 0 <= k < |t| ==> FromRow(syms, vals, t[k]) by {
        forall k | 0 <= k < |t| ensures FromRow(syms, vals, t[k]) {
          assert FromRow(syms[..n], vals[..n], t[k]);
        }
      }
      match vals[n]
      case None => t
      case Some(v) => t + [Mover(n, syms[n], v)]
  }

  /** `nlargest(n)` (Largest) or `nsmallest(n)` (Smallest) with `keep='first'`
      over the candidates: the first `n` of them in ranking order. */
  function Top(o: Order, cands: seq<Mover>, n: nat): (r: seq<Mover>)
    requires DistinctRows(cands)
    ensures |r| == Min(n, |cands|)
    ensures Ranked(o, r)
    ensures forall x :: x in r ==> x in cands
    ensures forall x :: x in cands && x !in r ==> forall y :: y in r ==> Ahead(o, y, x)
  {
    var s := Rank(o, cands);
    assert |s| == |multiset(s)| == |cands|;
    var r := s[..Min(n, |s|)];
    forall x | x in r ensures x in cands {
      assert x in multiset(s);
    }
    forall x, y | x in cands && x !in r && y in r ensures Ahead(o, y, x) {
      assert x in multiset(s);
      var j :| 0 <= j < |s| && s[j] == x;
      var i :| 0 <= i < |r| && r[i] == y;
      assert j >= |r|;
    }
    r
  }

  /** `s` is what ranking the table in order `o` and keeping `n` must give:
      `min(n, defined)` movers, in ranking order, each a row with a defined
      change projected to (symbol, change), and no defined row left out that
      ranks ahead of one kept. */
  predicate Selects(o: Order, syms: seq<Cell>, vals: seq<Option<real>>, n: nat, s: seq<Mover>) {
    && |s| == Min(n, DefinedCount(vals))
    && Ranked(o, s)
    && (forall k :: 0 <= k < |s| ==> FromRow(syms, vals, s[k]))
    && (forall i :: 0 <= i < |vals| && i < |syms| && vals[i].Some? && Mover(i, syms[i], vals[i].value) !in s ==>
          forall y :: y in s ==> Ahead(o, y, Mover(i, syms[i], vals[i].value)))
  }

  /** Ranking the candidates and keeping the first `n` selects exactly what
      `Selects` asks for. */
  lemma TopSelects(o: Order, syms: seq<Cell>, vals: seq<Option<real>>, n: nat)
    requires |syms| == |vals|
    ensures Selects(o, syms, vals, n, Top(o, Candidates(syms, vals), n))
  {
    var cands := Candidates(syms, vals);
    var s := Top(o, cands, n);
    assert |s| == Min(n, DefinedCount(vals));
    forall k | 0 <= k < |s| ensures FromRow(syms, vals, s[k]) {
      assert s[k] in cands;
      var j :| 0 <= j < |cands| && cands[j] == s[k];
    }
    forall i | 0 <= i < |vals| && i < |syms| && vals[i].Some? && Mover(i, syms[i], vals[i].value) !in s
      ensures forall y :: y in s ==> Ahead(o, y, Mover(i, syms[i], vals[i].value))
    {
      assert Mover(i, syms[i], vals[i].value) in cands;
    }
  }

  /** A coerced change as the cell the copy holds: a number, or NaN. */
  function AsCell(v: Option<real>): (c: Cell)
    ensures c.Num? <==> v.Some?
    ensures v.Some? ==> c.value == v.value
  {
    match v
    case Some(x) => Num(x)
    case None => Missing
  }

  /** The symbol column as the projection `df_copy[[symbol_col, ...]]` reads
      it: the copy's column, which is the coerced change column itself when
      both labels name the same column. */
  function SymbolCells(d: Dataset, si: nat, ci: nat): (syms: seq<Cell>)
    requires WellFormed(d) && si < |d.columns| && ci < |d.columns|
    ensures |syms| == |d.rows|
    ensures si != ci ==> forall i :: 0 <= i < |d.rows| ==> syms[i] == d.rows[i][si]
    ensures si == ci ==> forall i :: 0 <= i < |d.rows| ==> syms[i] == AsCell(Coerce(d.rows[i][ci]))
  {
    if si == ci then
      var vals := Coerced(d, ci);
      seq(|d.rows|, i requires 0 <= i < |d.rows| => AsCell(vals[i]))
    else Column(d, si)
  }

  /** `MarketAnalyzer.get_top_movers`: coerce the change column of a copy of
      the table, then take the `n` largest (gainers) and `n` smallest
      (decliners) changes, each projected to (symbol, change). A missing change
      or symbol column raises `KeyError`; unparsable changes do not. */
  function GetTopMovers(d: Dataset, symbolCol: string, changeCol: string, n: nat): (r: Result<Movers, AnalysisError>)
    requires WellFormed(d)
    ensures Name(changeCol) !in d.columns ==> r == Failure(MissingColumn(changeCol))
    ensures Name(changeCol) in d.columns && Name(symbolCol) !in d.columns ==> r == Failure(MissingColumn(symbolCol))
    ensures r.Success? <==> Name(changeCol) in d.columns && Name(symbolCol) in d.columns
    ensures r.Success? ==>
              var si, ci := IndexOf(d.columns, Name(symbolCol)).value, IndexOf(d.columns, Name(changeCol)).value;
              && Selects(Largest, SymbolCells(d, si, ci), Coerced(d, ci), n, r.value.gainers)
              && Selects(Smallest, SymbolCells(d, si, ci), Coerced(d, ci), n, r.value.decliners)
  {
    match IndexOf(d.columns, Name(changeCol))
    case None => Failure(MissingColumn(changeCol))
    case Some(ci) =>
      match IndexOf(d.columns, Name(symbolCol))
      case None => Failure(MissingColumn(symbolCol))
      case Some(si) =>
        var syms, vals := SymbolCells(d, si, ci), Coerced(d, ci);
        var cands := Candidates(syms, vals);
        TopSelects(Largest, syms, vals, n);
        TopSelects(Smallest, syms, vals, n);
        Success(Movers(Top(Largest, cands, n), Top(Smallest, cands, n)))
  }

  /** A row whose change does not coerce to a number is neither a gainer nor a
      decliner, whatever `n` is. */
  lemma UndefinedChangeExcluded(d: Dataset, symbolCol: string, changeCol: string, n: nat, i: nat)
    requires WellFormed(d) && GetTopMovers(d, symbolCol, changeCol, n).Success?
    requires i < |d.rows| && Coerce(d.rows[i][IndexOf(d.columns, Name(changeCol)).value]) == None
    ensures forall m :: m in GetTopMovers(d, symbolCol, changeCol, n).value.gainers ==> m.row != i
    ensures forall m :: m in GetTopMovers(d, symbolCol, changeCol, n).value.decliners ==> m.row != i
  {
    var r := GetTopMovers(d, symbolCol, changeCol, n).value;
    var si, ci := IndexOf(d.columns, Name(symbolCol)).value, IndexOf(d.columns, Name(changeCol)).value;
    forall m | m in r.gainers ensures m.row != i {
      var k :| 0 <= k < |r.gainers| && r.gainers[k] == m;
      assert FromRow(SymbolCells(d, si, ci), Coerced(d, ci), m);
    }
    forall m | m in r.decliners ensures m.row != i {
      var k :| 0 <= k < |r.decliners| && r.decliners[k] == m;
      assert FromRow(SymbolCells(d, si, ci), Coerced(d, ci), m);
    }
  }

  /** Naming one column as both symbol and change projects the coerced
      change twice: every mover's symbol is its change as a number. */
  lemma SharedColumnSymbols(d: Dataset, col: string, n: nat)
    requires WellFormed(d) && GetTopMovers(d, col, col, n).Success?
    ensures forall m :: m in GetTopMovers(d, col, col, n).value.gainers ==> m.symbol == Num(m.change)
    ensures forall m :: m in GetTopMovers(d, col, col, n).value.decliners ==> m.symbol == Num(m.change)
  {
    var r := GetTopMovers(d, col, col, n).value;
    var ci := IndexOf(d.columns, Name(col)).value;
    forall m | m in r.gainers ensures m.symbol == Num(m.change) {
      var k :| 0 <= k < |r.gainers| && r.gainers[k] == m;
      assert FromRow(SymbolCells(d, ci, ci), Coerced(d, ci), m);
    }
    forall m | m in r.decliners ensures m.symbol == Num(m.change) {
      var k :| 0 <= k < |r.decliners| && r.decliners[k] == m;
      assert FromRow(SymbolCells(d, ci, ci), Coerced(d, ci), m);
    }
  }

  /** The rows whose change is undefined, each once, in row order. */
  function UndefinedRows(vals: seq<Option<real>>): (r: seq<nat>)
    ensures |r| + DefinedCount(vals) == |vals|
    ensures forall k :: 0 <= k < |r| ==> r[k] < |vals| && vals[r[k]].None?
    ensures forall a, b :: 0 <= a < b < |r| ==> r[a] < r[b]
    ensures forall i :: 0 <= i < |vals| && vals[i].None? ==> i in r
  {
    if vals == [] then []
    else
      var n := |vals| - 1;
      var t := UndefinedRows(vals[..n]);
      assert forall k :: 0 <= k < |t| ==> t[k] < n && vals[t[k]] == vals[..n][t[k]];
      assert forall i :: 0 <= i < n ==> vals[i] == vals[..n][i];
      if vals[n].None? then t + [n] else t
  }

  /** The row positions of a ranking. */
  function RowsOf(ms: seq<Mover>): (r: seq<nat>)
    ensures |r| == |ms| && forall k :: 0 <= k < |ms| ==> r[k] == ms[k].row
  {
    seq(|ms|, k requires 0 <= k < |ms| => ms[k].row)
  }

  /** Ranking the candidates keeps them all and invents none. */
  lemma RankedCandidates(o: Order, syms: seq<Cell>, vals: seq<Option<real>>)
    requires |syms| == |vals|
    ensures |Rank(o, Candidates(syms, vals))| == DefinedCount(vals)
    ensures forall k :: 0 <= k < DefinedCount(vals) ==> FromRow(syms, vals, Rank(o, Candidates(syms, vals))[k])
  {
    var cands := Candidates(syms, vals);
    PermutedRows(syms, vals, Rank(o, cands), cands);
  }

  /** A permutation of projected rows has as many movers, all projected rows. */
  lemma PermutedRows(syms: seq<Cell>, vals: seq<Option<real>>, a: seq<Mover>, b: seq<Mover>)
    requires multiset(a) == multiset(b)
    requires forall k :: 0 <= k < |b| ==> FromRow(syms, vals, b[k])
    ensures |a| == |b|
    ensures forall k :: 0 <= k < |a| ==> FromRow(syms, vals, a[k])
  {
    assert |a| == |multiset(a)| == |b|;
    forall k | 0 <= k < |a| ensures FromRow(syms, vals, a[k]) {
      assert a[k] in multiset(b);
      var j :| 0 <= j < |b| && b[j] == a[k];
    }
  }

  /** Every row with a defined change has its place in the ranking. */
  lemma DefinedRowsRanked(o: Order, syms: seq<Cell>, vals: seq<Option<real>>)
    requires |syms| == |vals|
    ensures forall i :: 0 <= i < |vals| && vals[i].Some? ==> i in RowsOf(Rank(o, Candidates(syms, vals)))
  {
    var ranked := Rank(o, Candidates(syms, vals));
    forall i | 0 <= i < |vals| && vals[i].Some? ensures i in RowsOf(ranked) {
      var m := Mover(i, syms[i], vals[i].value);
      assert m in multiset(ranked);
      var k :| 0 <= k < |ranked| && ranked[k] == m;
      assert RowsOf(ranked)[k] == i;
    }
  }

  /** In a ranking of projected rows no row comes twice: two movers from the
      same row carry the same change, and then neither is ahead of the other. */
  lemma RankedRowsDistinct(o: Order, syms: seq<Cell>, vals: seq<Option<real>>, s: seq<Mover>)
    requires Ranked(o, s) && forall k :: 0 <= k < |s| ==> FromRow(syms, vals, s[k])
    ensures forall a, b :: 0 <= a < b < |s| ==> s[a].row != s[b].row
  {
    forall a, b | 0 <= a < b < |s| ensures s[a].row != s[b].row {
      assert FromRow(syms, vals, s[a]) && FromRow(syms, vals, s[b]) && Ahead(o, s[a], s[b]);
    }
  }

  /** The order pandas lays every row out in for `nlargest` / `nsmallest`:
      the defined changes in ranking order, then the rows whose change is NaN,
      in row order (row positions only). Every row comes exactly once. */
  function RowOrderAsWritten(o: Order, syms: seq<Cell>, vals: seq<Option<real>>): (all: seq<nat>)
    requires |syms| == |vals|
    ensures |all| == |vals|
    ensures forall k :: 0 <= k < |all| ==> all[k] < |vals| && (vals[all[k]].Some? <==> k < DefinedCount(vals))
    ensures all[..DefinedCount(vals)] == RowsOf(Rank(o, Candidates(syms, vals)))
    ensures all[DefinedCount(vals)..] == UndefinedRows(vals)
    ensures forall a, b :: 0 <= a < b < |all| ==> all[a] != all[b]
    ensures forall i :: 0 <= i < |vals| ==> i in all
  {
    var ranked := Rank(o, Candidates(syms, vals));
    RankedCandidates(o, syms, vals);
    DefinedRowsRanked(o, syms, vals);
    var front, back := RowsOf(ranked), UndefinedRows(vals);
    forall k | 0 <= k < |front| ensures front[k] < |vals| && vals[front[k]].Some? {
      assert FromRow(syms, vals, ranked[k]);
    }
    RankedRowsDistinct(o, syms, vals, ranked);
    AppendRows(front, back, vals);
    assert (front + back)[..|front|] == front && (front + back)[|front|..] == back;
    front + back
  }

  /** Defined rows, then undefined ones: the split falls at the front's end,
      and rows distinct on each side stay distinct together. */
  lemma AppendRows(front: seq<nat>, back: seq<nat>, vals: seq<Option<real>>)
    requires forall k :: 0 <= k < |front| ==> front[k] < |vals| && vals[front[k]].Some?
    requires forall k :: 0 <= k < |back| ==> back[k] < |vals| && vals[back[k]].None?
    requires forall a, b :: 0 <= a < b < |front| ==> front[a] != front[b]
    requires forall a, b :: 0 <= a < b < |back| ==> back[a] < back[b]
    ensures forall k :: 0 <= k < |front + back| ==>
              (front + back)[k] < |vals| && (vals[(front + back)[k]].Some? <==> k < |front|)
    ensures forall a, b :: 0 <= a < b < |front + back| ==> (front + back)[a] != (front + back)[b]
  {
    var all := front + back;
    forall k | 0 <= k < |all| ensures all[k] < |vals| && (vals[all[k]].Some? <==> k < |front|) {
      if k >= |front| {
        assert all[k] == back[k - |front|];
      }
    }
    forall a, b | 0 <= a < b < |all| ensures all[a] != all[b] {
      if b < |front| {
      } else if a >= |front| {
        assert all[a] == back[a - |front|] && all[b] == back[b - |front|];
      } else {
        assert vals[all[a]].Some? && vals[all[b]].None?;
      }
    }
  }

  /** `nlargest(n)` / `nsmallest(n)` as pandas runs them: the first `n` rows of
      that order. Up to `min(n, defined)` they are the rows of the corrected
      ranking `Top`; after that NaN rows, in row order, fill the ranking up. */
  function TopRowsAsWritten(o: Order, syms: seq<Cell>, vals: seq<Option<real>>, n: nat): (r: seq<nat>)
    requires |syms| == |vals|
    ensures |r| == Min(n, |vals|)
    ensures forall k :: 0 <= k < |r| ==> r[k] < |vals| && (vals[r[k]].Some? <==> k < DefinedCount(vals))
    ensures r[..Min(n, DefinedCount(vals))] == RowsOf(Top(o, Candidates(syms, vals), n))
    ensures r[Min(n, DefinedCount(vals))..] == UndefinedRows(vals)[..|r| - Min(n, DefinedCount(vals))]
  {
    var all := RowOrderAsWritten(o, syms, vals);
    CutSplit(all, DefinedCount(vals), vals, n);
    TopRowsPrefix(o, syms, vals, n);
    all[..Min(n, |all|)]
  }

  /** The defined rows the cut keeps are the rows of the corrected ranking. */
  lemma TopRowsPrefix(o: Order, syms: seq<Cell>, vals: seq<Option<real>>, n: nat)
    requires |syms| == |vals|
    ensures var d := DefinedCount(vals);
            RowOrderAsWritten(o, syms, vals)[..d][..Min(n, d)] == RowsOf(Top(o, Candidates(syms, vals), n))
  {
    var cands := Candidates(syms, vals);
    TopIsRankPrefix(o, cands, n);
    RowsOfPrefix(Rank(o, cands), Min(n, |cands|));
  }

  /** Cutting a layout of rows, defined ones first, after `n` entries. */
  lemma CutSplit(all: seq<nat>, d: nat, vals: seq<Option<real>>, n: nat)
    requires d <= |all| == |vals|
    requires forall k :: 0 <= k < |all| ==> all[k] < |vals| && (vals[all[k]].Some? <==> k < d)
    ensures var m := Min(n, |all|);
            && m == Min(n, |vals|)
            && (forall k :: 0 <= k < m ==> all[..m][k] < |vals| && (vals[all[..m][k]].Some? <==> k < d))
            && all[..m][..Min(n, d)] == all[..d][..Min(n, d)]
            && all[..m][Min(n, d)..] == all[d..][..m - Min(n, d)]
  {
    var m := Min(n, |all|);
    forall k | 0 <= k < m ensures all[..m][k] == all[k] { }
    CutAt(all, d, m);
  }

  /** The top `n` are the first `n` of the full ranking. */
  lemma TopIsRankPrefix(o: Order, cands: seq<Mover>, n: nat)
    requires DistinctRows(cands)
    ensures |Rank(o, cands)| == |cands|
    ensures Top(o, cands, n) == Rank(o, cands)[..Min(n, |cands|)]
  {
    var s := Rank(o, cands);
    assert |s| == |multiset(s)| == |cands|;
  }

  /** Cutting a sequence at `m` and splitting the cut at `min(m, d)`. */
  lemma CutAt(all: seq<nat>, d: nat, m: nat)
    requires d <= |all| && m <= |all|
    ensures all[..m][..Min(m, d)] == all[..d][..Min(m, d)]
    ensures all[..m][Min(m, d)..] == all[d..][..m - Min(m, d)]
  {
  }

  lemma RowsOfPrefix(ms: seq<Mover>, p: nat)
    requires p <= |ms|
    ensures RowsOf(ms[..p]) == RowsOf(ms)[..p]
  {
  }

  /** As written, asking for more movers than there are defined changes pads
      the ranking with rows whose change is undefined: changes ["1.00%", "n/a"]
      and n = 2, for one, give both rows as gainers. */
  lemma UndefinedRowsPadAsWritten(o: Order, syms: seq<Cell>, vals: seq<Option<real>>, n: nat)
    requires |syms| == |vals|
    requires DefinedCount(vals) < n && DefinedCount(vals) < |vals|
    ensures var r := TopRowsAsWritten(o, syms, vals, n);
            DefinedCount(vals) < |r| && vals[r[DefinedCount(vals)]].None?
  {
  }

  /** The rankings pandas returns begin with exactly the corrected gainers and
      decliners; whatever follows them is padding. */
  lemma AsWrittenExtendsCorrected(d: Dataset, symbolCol: string, changeCol: string, n: nat)
    requires WellFormed(d) && GetTopMovers(d, symbolCol, changeCol, n).Success?
    ensures var si, ci := IndexOf(d.columns, Name(symbolCol)).value, IndexOf(d.columns, Name(changeCol)).value;
            var r := GetTopMovers(d, symbolCol, changeCol, n).value;
            && RowsOf(r.gainers) <= TopRowsAsWritten(Largest, SymbolCells(d, si, ci), Coerced(d, ci), n)
            && RowsOf(r.decliners) <= TopRowsAsWritten(Smallest, SymbolCells(d, si, ci), Coerced(d, ci), n)
  {
    var si, ci := IndexOf(d.columns, Name(symbolCol)).value, IndexOf(d.columns, Name(changeCol)).value;
    var syms, vals := SymbolCells(d, si, ci), Coerced(d, ci);
    var p := Min(n, DefinedCount(vals));
    var g := TopRowsAsWritten(Largest, syms, vals, n);
    var l := TopRowsAsWritten(Smallest, syms, vals, n);
    assert g[..p] == RowsOf(Top(Largest, Candidates(syms, vals), n));
    assert l[..p] == RowsOf(Top(Smallest, Candidates(syms, vals), n));
  }

  /** The names `combine_tables` stacks when the caller names none: the
      ordinary and the preference share quotes. */
  const DefaultKeys: seq<string> := ["Table 3", "Table 5"]

  /** `[tables[key] for key in table_keys]`: the named tables in key order; an
      absent name raises `KeyError`. */
  function Lookup(tables: map<string, Dataset>, keys: seq<string>): (r: Result<seq<Dataset>, AnalysisError>)
    ensures r.Success? <==> forall k :: k in keys ==> k in tables
    ensures r.Success? ==> |r.value| == |keys| && forall i :: 0 <= i < |keys| ==> r.value[i] == tables[keys[i]]
    ensures r.Success? ==> r.value == Named(tables, keys)
    ensures r.Failure? ==> r.error.MissingKey? && r.error.key in keys && r.error.key !in tables
  {
    if keys == [] then Success([])
    else if keys[0] !in tables then Failure(MissingKey(keys[0]))
    else match Lookup(tables, keys[1..])
      case Failure(e) => Failure(e)
      case Success(ds) => Success([tables[keys[0]]] + ds)
  }

  /** The tables `keys` name, in key order. */
  function Named(tables: map<string, Dataset>, keys: seq<string>): seq<Dataset>
    requires forall k :: k in keys ==> k in tables
  {
    seq(|keys|, i requires 0 <= i < |keys| => tables[keys[i]])
  }

  predicate AllWellFormed(ds: seq<Dataset>) {
    forall i :: 0 <= i < |ds| ==> WellFormed(ds[i])
  }

  /** Every table carries the same labels in the same order. */
  predicate SameColumns(ds: seq<Dataset>) {
    forall i :: 0 <= i < |ds| ==> ds[i].columns == ds[0].columns
  }

  /** Reference sum: the number of rows of all the tables together. */
  function RowCount(ds: seq<Dataset>): nat {
    if ds == [] then 0 else RowCount(ds[..|ds| - 1]) + |ds[|ds| - 1].rows|
  }

  /** The rows of all the tables, table after table. */
  function AllRows(ds: seq<Dataset>): (rows: seq<Row>)
    ensures |rows| == RowCount(ds)
  {
    if ds == [] then [] else AllRows(ds[..|ds| - 1]) + ds[|ds| - 1].rows
  }

  /** No label occurs twice. */
  predicate NoDups(s: seq<Label>) {
    forall i, j :: 0 <= i < j < |s| ==> s[i] != s[j]
  }

  /** `acc` followed by the labels of `cols` not seen yet, in their order. */
  function AddNew(acc: seq<Label>, cols: seq<Label>): (r: seq<Label>)
    ensures |r| >= |acc| && r[..|acc|] == acc
    ensures forall l :: l in r <==> l in acc || l in cols
    decreases |cols|
  {
    if cols == [] then acc
    else if cols[0] in acc then AddNew(acc, cols[1..])
    else
      var r := AddNew(acc + [cols[0]], cols[1..]);
      assert r[..|acc|] == (r[..|acc| + 1])[..|acc|];
      r
  }

  /** The labels `AddNew` appends are new, each comes once, and they keep the
      order of their first occurrence in `cols`. */
  lemma {:induction false} AddNewOrder(acc: seq<Label>, cols: seq<Label>)
    ensures forall i :: |acc| <= i < |AddNew(acc, cols)| ==> AddNew(acc, cols)[i] in cols && AddNew(acc, cols)[i] !in acc
    ensures forall i, j :: |acc| <= i < j < |AddNew(acc, cols)| ==>
              IndexOf(cols, AddNew(acc, cols)[i]).value < IndexOf(cols, AddNew(acc, cols)[j]).value
    ensures NoDups(acc) ==> NoDups(AddNew(acc, cols))
    decreases |cols|
  {
    if cols == [] {
    } else if cols[0] in acc {
      AddNewOrder(acc, cols[1..]);
      SkipSeen(acc, cols, AddNew(acc, cols[1..]));
    } else {
      var acc' := acc + [cols[0]];
      AddNewOrder(acc', cols[1..]);
      TakeNew(acc, cols, AddNew(acc', cols[1..]));
    }
  }

  /** The order step when the head of `cols` was seen already. */
  lemma SkipSeen(acc: seq<Label>, cols: seq<Label>, r: seq<Label>)
    requires cols != [] && cols[0] in acc
    requires forall i :: |acc| <= i < |r| ==> r[i] in cols[1..] && r[i] !in acc
    requires forall i, j :: |acc| <= i < j < |r| ==> IndexOf(cols[1..], r[i]).value < IndexOf(cols[1..], r[j]).value
    ensures forall i :: |acc| <= i < |r| ==> r[i] in cols && r[i] !in acc
    ensures forall i, j :: |acc| <= i < j < |r| ==> IndexOf(cols, r[i]).value < IndexOf(cols, r[j]).value
  {
    forall i | |acc| <= i < |r| ensures r[i] in cols && r[i] != cols[0] {
      TailIndex(cols, r[i]);
    }
    forall i, j | |acc| <= i < j < |r|
      ensures IndexOf(cols, r[i]).value < IndexOf(cols, r[j]).value
    {
      TailIndex(cols, r[i]);
      TailIndex(cols, r[j]);
    }
  }

  /** The order step when the head of `cols` is new: it comes first. */
  lemma TakeNew(acc: seq<Label>, cols: seq<Label>, r: seq<Label>)
    requires cols != [] && cols[0] !in acc
    requires |r| > |acc| && r[..|acc| + 1] == acc + [cols[0]]
    requires forall i :: |acc| + 1 <= i < |r| ==> r[i] in cols[1..] && r[i] !in acc + [cols[0]]
    requires forall i, j :: |acc| + 1 <= i < j < |r| ==> IndexOf(cols[1..], r[i]).value < IndexOf(cols[1..], r[j]).value
    requires NoDups(acc + [cols[0]]) ==> NoDups(r)
    ensures forall i :: |acc| <= i < |r| ==> r[i] in cols && r[i] !in acc
    ensures forall i, j :: |acc| <= i < j < |r| ==> IndexOf(cols, r[i]).value < IndexOf(cols, r[j]).value
    ensures NoDups(acc) ==> NoDups(r)
  {
    TakeNewMembers(acc, cols, r);
    TakeNewOrder(acc, cols, r);
    assert NoDups(acc) ==> NoDups(acc + [cols[0]]);
  }

  lemma TakeNewMembers(acc: seq<Label>, cols: seq<Label>, r: seq<Label>)
    requires cols != [] && cols[0] !in acc
    requires |r| > |acc| && r[..|acc| + 1] == acc + [cols[0]]
    requires forall i :: |acc| + 1 <= i < |r| ==> r[i] in cols[1..] && r[i] !in acc + [cols[0]]
    ensures r[|acc|] == cols[0]
    ensures forall i :: |acc| < i < |r| ==> r[i] in cols[1..] && r[i] != cols[0]
    ensures forall i :: |acc| <= i < |r| ==> r[i] in cols && r[i] !in acc
  {
    assert r[|acc|] == (acc + [cols[0]])[|acc|];
    forall i | |acc| < i < |r| ensures r[i] in cols && r[i] != cols[0] && r[i] !in acc {
      TailIndex(cols, r[i]);
    }
  }

  lemma TakeNewOrder(acc: seq<Label>, cols: seq<Label>, r: seq<Label>)
    requires cols != [] && |r| > |acc| && r[|acc|] == cols[0]
    requires forall i :: |acc| < i < |r| ==> r[i] in cols[1..] && r[i] != cols[0]
    requires forall i, j :: |acc| + 1 <= i < j < |r| ==> IndexOf(cols[1..], r[i]).value < IndexOf(cols[1..], r[j]).value
    ensures forall i :: |acc| <= i < |r| ==> r[i] in cols
    ensures forall i, j :: |acc| <= i < j < |r| ==> IndexOf(cols, r[i]).value < IndexOf(cols, r[j]).value
  {
    assert IndexOf(cols, cols[0]) == Some(0);
    forall i | |acc| < i < |r| ensures r[i] in cols && IndexOf(cols, r[i]).value == IndexOf(cols[1..], r[i]).value + 1 {
      TailIndex(cols, r[i]);
    }
  }

  /** A label after the head of `cols` sits one further on than in the tail. */
  lemma TailIndex(cols: seq<Label>, x: Label)
    requires cols != [] && x in cols[1..] && x != cols[0]
    ensures x in cols && IndexOf(cols, x).value == IndexOf(cols[1..], x).value + 1
  {
  }

  /** The first table carrying label `l`; `|ds|` when none does. */
  function FirstTable(ds: seq<Dataset>, l: Label): (t: nat)
    ensures t <= |ds|
    ensures t < |ds| ==> l in ds[t].columns
    ensures forall i :: 0 <= i < t ==> l !in ds[i].columns
  {
    if ds == [] then 0
    else if l in ds[0].columns then 0
    else
      var t := FirstTable(ds[1..], l);
      assert forall i :: 0 < i <= t ==> ds[i] == ds[1..][i - 1];
      1 + t
  }

  /** `a` is met before `b` reading the tables' labels table after table. */
  predicate FirstSeenBefore(ds: seq<Dataset>, a: Label, b: Label) {
    var ta, tb := FirstTable(ds, a), FirstTable(ds, b);
    ta < tb || (ta == tb < |ds| && IndexOf(ds[ta].columns, a).value < IndexOf(ds[ta].columns, b).value)
  }

  /** The union of the tables' labels in order of first appearance, as
      `pd.concat` builds it when the tables' labels differ. */
  function UnionLabels(ds: seq<Dataset>): (r: seq<Label>)
    ensures forall l :: l in r <==> exists i :: 0 <= i < |ds| && l in ds[i].columns
  {
    if ds == [] then []
    else
      var n := |ds| - 1;
      var acc := UnionLabels(ds[..n]);
      var r := AddNew(acc, ds[n].columns);
      forall l ensures l in r <==> exists i :: 0 <= i < |ds| && l in ds[i].columns {
        if l in acc {
          var i :| 0 <= i < n && l in ds[..n][i].columns;
          assert l in ds[i].columns;
        }
        if exists i :: 0 <= i < |ds| && l in ds[i].columns {
          var i :| 0 <= i < |ds| && l in ds[i].columns;
          if i < n { assert l in ds[..n][i].columns; }
        }
      }
      r
  }

  /** Every united label comes once, and the labels are ordered by where they
      are first met, table after table and column after column. */
  lemma {:induction false} UnionLabelsOrder(ds: seq<Dataset>)
    ensures NoDups(UnionLabels(ds))
    ensures forall i, j :: 0 <= i < j < |UnionLabels(ds)| ==> FirstSeenBefore(ds, UnionLabels(ds)[i], UnionLabels(ds)[j])
  {
    if ds != [] {
      var n := |ds| - 1;
      var acc := UnionLabels(ds[..n]);
      UnionLabelsOrder(ds[..n]);
      AddNewOrder(acc, ds[n].columns);
      forall l | l in acc ensures FirstTable(ds[..n], l) < n {
        var i :| 0 <= i < n && l in ds[..n][i].columns;
      }
      forall l, i | 0 <= i < n && l in ds[i].columns ensures l in acc {
        assert l in ds[..n][i].columns;
      }
      UnionOrder(ds, acc, UnionLabels(ds));
    }
  }

  /** The step of `UnionLabels`: labels already seen keep their first table
      and order; the new ones come from the last table, after them. */
  lemma UnionOrder(ds: seq<Dataset>, acc: seq<Label>, r: seq<Label>)
    requires ds != [] && |r| >= |acc| && r[..|acc|] == acc
    requires forall l :: l in acc ==> FirstTable(ds[..|ds| - 1], l) < |ds| - 1
    requires forall l, i :: 0 <= i < |ds| - 1 && l in ds[i].columns ==> l in acc
    requires forall i, j :: 0 <= i < j < |acc| ==> FirstSeenBefore(ds[..|ds| - 1], acc[i], acc[j])
    requires forall i :: |acc| <= i < |r| ==> r[i] in ds[|ds| - 1].columns && r[i] !in acc
    requires forall i, j :: |acc| <= i < j < |r| ==>
               IndexOf(ds[|ds| - 1].columns, r[i]).value < IndexOf(ds[|ds| - 1].columns, r[j]).value
    ensures forall i, j :: 0 <= i < j < |r| ==> FirstSeenBefore(ds, r[i], r[j])
  {
    forall i, j | 0 <= i < j < |r| ensures FirstSeenBefore(ds, r[i], r[j]) {
      if j < |acc| {
        assert r[i] == acc[i] && r[j] == acc[j] && acc[i] in acc && acc[j] in acc;
        OldLabelFirstTable(ds, acc[i]);
        OldLabelFirstTable(ds, acc[j]);
      } else if i < |acc| {
        assert r[i] == acc[i] && acc[i] in acc;
        OldLabelFirstTable(ds, acc[i]);
        NewLabelFirstTable(ds, acc, r[j]);
      } else {
        NewLabelFirstTable(ds, acc, r[i]);
        NewLabelFirstTable(ds, acc, r[j]);
      }
    }
  }

  /** A label some earlier table carries is first met where it was before. */
  lemma OldLabelFirstTable(ds: seq<Dataset>, l: Label)
    requires ds != [] && FirstTable(ds[..|ds| - 1], l) < |ds| - 1
    ensures FirstTable(ds, l) == FirstTable(ds[..|ds| - 1], l)
    ensures ds[FirstTable(ds, l)] == ds[..|ds| - 1][FirstTable(ds, l)]
  {
    var n := |ds| - 1;
    var t := FirstTable(ds[..n], l);
    assert ds[..n][t] == ds[t];
    forall i | 0 <= i < t ensures l !in ds[i].columns {
      assert ds[..n][i] == ds[i];
    }
  }

  /** A label of the last table that no earlier table carries is first met there. */
  lemma NewLabelFirstTable(ds: seq<Dataset>, acc: seq<Label>, l: Label)
    requires ds != [] && l in ds[|ds| - 1].columns && l !in acc
    requires forall x, i :: 0 <= i < |ds| - 1 && x in ds[i].columns ==> x in acc
    ensures FirstTable(ds, l) == |ds| - 1
  {
  }

  /** A row of a table labelled `from`, laid out under the labels `to`: the
      cell of each label the table has, `Missing` under any other. */
  function Realign(row: Row, from: seq<Label>, to: seq<Label>): (r: Row)
    requires |row| == |from|
    ensures |r| == |to|
    ensures forall k :: 0 <= k < |to| && to[k] !in from ==> r[k] == Missing
    ensures forall k :: 0 <= k < |to| && to[k] in from ==> r[k] == row[IndexOf(from, to[k]).value]
  {
    seq(|to|, k requires 0 <= k < |to| =>
      match IndexOf(from, to[k])
      case None => Missing
      case Some(j) => row[j])
  }

  /** The rows of one table, each laid out under `cols`. */
  function Realigned(d: Dataset, cols: seq<Label>): (rows: seq<Row>)
    requires WellFormed(d)
    ensures |rows| == |d.rows|
    ensures forall i :: 0 <= i < |d.rows| ==> rows[i] == Realign(d.rows[i], d.columns, cols)
  {
    seq(|d.rows|, i requires 0 <= i < |d.rows| => assert d.rows[i] in d.rows; Realign(d.rows[i], d.columns, cols))
  }

  /** Each table with its rows laid out under `cols`. */
  function RealignAll(ds: seq<Dataset>, cols: seq<Label>): (rs: seq<Dataset>)
    requires AllWellFormed(ds)
    ensures |rs| == |ds| && AllWellFormed(rs) && SameColumns(rs)
    ensures forall j :: 0 <= j < |ds| ==> rs[j] == Dataset(cols, Realigned(ds[j], cols))
  {
    seq(|ds|, j requires 0 <= j < |ds| => Dataset(cols, Realigned(ds[j], cols)))
  }

  /** Tables with row counts pairwise equal have the same total. */
  lemma {:induction false} SameRowCounts(a: seq<Dataset>, b: seq<Dataset>)
    requires |a| == |b| && forall j :: 0 <= j < |a| ==> |a[j].rows| == |b[j].rows|
    ensures RowCount(a) == RowCount(b)
  {
    if a != [] {
      var n := |a| - 1;
      SameRowCounts(a[..n], b[..n]);
    }
  }

  /** The rows of all the tables, table after table, each laid out under `cols`. */
  function StackedRows(ds: seq<Dataset>, cols: seq<Label>): (rows: seq<Row>)
    requires AllWellFormed(ds)
    ensures |rows| == RowCount(ds)
    ensures forall r :: r in rows ==> |r| == |cols|
  {
    var rs := RealignAll(ds, cols);
    SameRowCounts(rs, ds);
    if ds == [] then []
    else
      SameColumnsRows(rs);
      AllRows(rs)
  }

  /** `pd.concat(..., ignore_index=True)`: nothing to stack raises
      `ValueError`; tables with the same labels are stacked as they are;
      otherwise the labels are united and each row laid out under them. */
  function Concat(ds: seq<Dataset>): (r: Result<Dataset, AnalysisError>)
    requires AllWellFormed(ds)
    ensures r.Failure? <==> ds == []
    ensures r.Failure? ==> r.error == NothingToCombine
    ensures r.Success? ==> WellFormed(r.value) && |r.value.rows| == RowCount(ds)
    ensures r.Success? && SameColumns(ds) ==> r.value == Dataset(ds[0].columns, AllRows(ds))
    ensures r.Success? && !SameColumns(ds) ==> r.value.columns == UnionLabels(ds)
  {
    if ds == [] then Failure(NothingToCombine)
    else if SameColumns(ds) then
      SameColumnsRows(ds);
      Success(Dataset(ds[0].columns, AllRows(ds)))
    else
      var cols := UnionLabels(ds);
      Success(Dataset(cols, StackedRows(ds, cols)))
  }

  /** Stacked tables with one set of labels give rows of that width. */
  lemma {:induction false} SameColumnsRows(ds: seq<Dataset>)
    requires ds != [] && AllWellFormed(ds) && SameColumns(ds)
    ensures forall r :: r in AllRows(ds) ==> |r| == |ds[0].columns|
  {
    var n := |ds| - 1;
    assert WellFormed(ds[n]);
    if n > 0 {
      SameColumnsRows(ds[..n]);
    }
  }

  /** `MarketAnalyzer.combine_tables`: the named tables stacked in key order. */
  function CombineTables(tables: map<string, Dataset>, keys: seq<string>): (r: Result<Dataset, AnalysisError>)
    requires forall k :: k in tables ==> WellFormed(tables[k])
    ensures r.Failure? <==> keys == [] || exists k :: k in keys && k !in tables
    ensures r.Failure? ==> r.error == NothingToCombine || (r.error.MissingKey? && r.error.key in keys && r.error.key !in tables)
    ensures r.Success? ==> WellFormed(r.value) && |r.value.rows| == RowCount(Named(tables, keys))
    ensures r.Success? && SameColumns(Named(tables, keys)) ==> r.value.rows == AllRows(Named(tables, keys))
  {
    match Lookup(tables, keys)
    case Failure(e) => Failure(e)
    case Success(ds) => Concat(ds)
  }

  /** Row `i` of table `t` sits at row `RowCount(ds[..t]) + i` of the stack. */
  lemma StackedRowAt(ds: seq<Dataset>, cols: seq<Label>, t: nat, i: nat)
    requires AllWellFormed(ds) && t < |ds| && i < |ds[t].rows|
    ensures WellFormed(ds[t])
    ensures RowCount(ds[..t]) + i < RowCount(ds)
    ensures StackedRows(ds, cols)[RowCount(ds[..t]) + i] == Realigned(ds[t], cols)[i]
  {
    assert WellFormed(ds[t]);
    var rs := RealignAll(ds, cols);
    AllRowsAt(rs, t, i);
    SameRowCounts(rs, ds);
    SameRowCounts(rs[..t], ds[..t]);
  }

  /** The same placement for tables stacked as they are. */
  lemma {:induction false} AllRowsAt(ds: seq<Dataset>, t: nat, i: nat)
    requires t < |ds| && i < |ds[t].rows|
    ensures RowCount(ds[..t]) + i < RowCount(ds)
    ensures AllRows(ds)[RowCount(ds[..t]) + i] == ds[t].rows[i]
  {
    var n := |ds| - 1;
    if t < n {
      AllRowsAt(ds[..n], t, i);
      assert ds[..n][..t] == ds[..t];
    } else {
      assert ds[..t] == ds[..n];
    }
  }

  /** Stacking loses no cell and invents none: row `i` of table `t` becomes row
      `RowCount(ds[..t]) + i` of the result, holding under each of the table's
      labels the table's cell, and `Missing` under any label the table lacks. */
  lemma ConcatPlacesCells(ds: seq<Dataset>, t: nat, i: nat, l: Label)
    requires AllWellFormed(ds) && t < |ds| && i < |ds[t].rows|
    requires l in Concat(ds).value.columns
    ensures var c := Concat(ds).value; var row := RowCount(ds[..t]) + i;
            && row < |c.rows|
            && c.rows[row][IndexOf(c.columns, l).value] ==
                 if l in ds[t].columns then ds[t].rows[i][IndexOf(ds[t].columns, l).value] else Missing
  {
    var c := Concat(ds).value;
    assert WellFormed(ds[t]) && ds[t].rows[i] in ds[t].rows;
    if SameColumns(ds) {
      AllRowsAt(ds, t, i);
    } else {
      StackedRowAt(ds, c.columns, t, i);
    }
  }

  /** Combining two named tables: all rows of both, the first table's rows
      first when the two share their labels. */
  lemma CombineTwoTables(tables: map<string, Dataset>, k1: string, k2: string)
    requires forall k :: k in tables ==> WellFormed(tables[k])
    requires k1 in tables && k2 in tables
    ensures var c := CombineTables(tables, [k1, k2]);
            && c.Success?
            && |c.value.rows| == |tables[k1].rows| + |tables[k2].rows|
            && (tables[k1].columns == tables[k2].columns ==> c.value.rows == tables[k1].rows + tables[k2].rows)
  {
    var a, b := tables[k1], tables[k2];
    var ds := Named(tables, [k1, k2]);
    assert ds == [a, b];
    AllRowsOfTwo(a, b);
    if a.columns == b.columns {
      assert SameColumns(ds);
    }
  }

  /** Two stacked tables: the first one's rows, then the second one's. */
  lemma AllRowsOfTwo(a: Dataset, b: Dataset)
    ensures RowCount([a, b]) == |a.rows| + |b.rows|
    ensures AllRows([a, b]) == a.rows + b.rows
  {
    assert [a, b][..1] == [a] && [a][..0] == [];
    assert AllRows([a]) == a.rows;
  }
}
