/**
 * The part of a pandas DataFrame the market watch relies on: an ordered list of
 * column labels and an ordered list of rows, each row holding one cell per
 * column, plus the column clean-up the scraper applies to parsed quote tables.
 */
module Frames {
  import opened Wrappers

  /** A column label. Parsed HTML headers give strings; a label that is not a
      string (an integer position, for one) is `Other`. */
  datatype Label = Name(text: string) | Other(id: int)

  /** One cell of a table: a number, a piece of text, or nothing (NaN / None). */
  datatype Cell = Num(value: real) | Text(text: string) | Missing

  type Row = seq<Cell>

  datatype Dataset = Dataset(columns: seq<Label>, rows: seq<Row>)

  /** Every row has exactly one cell per column, as in any DataFrame. */
  predicate WellFormed(d: Dataset) {
    forall r :: r in d.rows ==> |r| == |d.columns|
  }

  /** Position of the first column carrying label `l`, as `df[l]` finds it. */
  function IndexOf(cols: seq<Label>, l: Label): (r: Option<nat>)
    ensures r.None? <==> l !in cols
    ensures r.Some? ==> r.value < |cols| && cols[r.value] == l
    ensures r.Some? ==> forall k :: 0 <= k < r.value ==> cols[k] != l
  {
    if cols == [] then None
    else if cols[0] == l then Some(0)
    else match IndexOf(cols[1..], l)
      case None => None
      case Some(k) => Some(k + 1)
  }

  /** The marker the HTML table parser gives a column whose header cell is empty. */
  const UnnamedMarker: string := "Unnamed"

  /** The test `columns.str.contains('^Unnamed', na=False)`: a string label that
      begins with the marker. A label that is not a string yields NaN, which
      `na=False` reads as "no match". */
  predicate IsUnnamed(l: Label) {
    l.Name? && UnnamedMarker <= l.text
  }

  /** The positions at which `mask` is true, in increasing order: what
      `df.loc[:, mask]` keeps. */
  function Selected(mask: seq<bool>): (ks: seq<nat>)
    ensures forall k :: 0 <= k < |ks| ==> ks[k] < |mask| && mask[ks[k]]
    ensures forall i :: 0 <= i < |mask| && mask[i] ==> i in ks
    ensures forall a, b :: 0 <= a < b < |ks| ==> ks[a] < ks[b]
  {
    if mask == [] then []
    else
      var ks := Selected(mask[..|mask| - 1]);
      if mask[|mask| - 1] then ks + [|mask| - 1] else ks
  }

  /** The mask `~columns.str.contains('^Unnamed', na=False)`. */
  function KeepMask(cols: seq<Label>): (m: seq<bool>)
    ensures |m| == |cols|
    ensures forall i :: 0 <= i < |cols| ==> (m[i] <==> !IsUnnamed(cols[i]))
  {
    seq(|cols|, i requires 0 <= i < |cols| => !IsUnnamed(cols[i]))
  }

  /** The labels at positions `ks`. */
  function LabelsAt(cols: seq<Label>, ks: seq<nat>): seq<Label>
    requires forall k :: 0 <= k < |ks| ==> ks[k] < |cols|
  {
    seq(|ks|, k requires 0 <= k < |ks| => cols[ks[k]])
  }

  /** The cells of column `j`, top to bottom. */
  function Column(d: Dataset, j: nat): seq<Cell>
    requires WellFormed(d) && j < |d.columns|
  {
    seq(|d.rows|, i requires 0 <= i < |d.rows| => d.rows[i][j])
  }

  /** The columns of `d` at positions `ks`, in that order, labels and cells. */
  function Loc(d: Dataset, ks: seq<nat>): (r: Dataset)
    requires WellFormed(d)
    requires forall k :: 0 <= k < |ks| ==> ks[k] < |d.columns|
    ensures WellFormed(r) && |r.columns| == |ks| && |r.rows| == |d.rows|
    ensures forall k :: 0 <= k < |ks| ==> r.columns[k] == d.columns[ks[k]] && Column(r, k) == Column(d, ks[k])
  {
    Dataset(LabelsAt(d.columns, ks),
            seq(|d.rows|, i requires 0 <= i < |d.rows| =>
              seq(|ks|, k requires 0 <= k < |ks| => d.rows[i][ks[k]])))
  }

  /** Reference definition: the labels of `cols` that are not "Unnamed", in order. */
  function Surviving(cols: seq<Label>): seq<Label> {
    if cols == [] then []
    else if IsUnnamed(cols[|cols| - 1]) then Surviving(cols[..|cols| - 1])
    else Surviving(cols[..|cols| - 1]) + [cols[|cols| - 1]]
  }

  /** The positional selection and the reference filter agree. */
  lemma {:induction false} SelectedLabelsSurvive(cols: seq<Label>)
    ensures LabelsAt(cols, Selected(KeepMask(cols))) == Surviving(cols)
  {
    if cols != [] {
      var n := |cols| - 1;
      var init := cols[..n];
      assert KeepMask(init) == KeepMask(cols)[..n];
      var ks := Selected(KeepMask(init));
      SelectedLabelsSurvive(init);
      assert LabelsAt(cols, ks) == LabelsAt(init, ks);
      if !IsUnnamed(cols[n]) {
        assert LabelsAt(cols, ks + [n]) == LabelsAt(cols, ks) + [cols[n]];
      }
    }
  }

  /** A label survives exactly when it occurs and is not "Unnamed". */
  lemma {:induction false} SurvivingMembers(cols: seq<Label>, l: Label)
    ensures l in Surviving(cols) <==> l in cols && !IsUnnamed(l)
  {
    if cols != [] {
      var n := |cols| - 1;
      SurvivingMembers(cols[..n], l);
      assert cols == cols[..n] + [cols[n]];
    }
  }

  /** `JSEScraper._clean_table`: drop every column whose label begins with
      "Unnamed", keeping the other columns, with their cells, in their order.
      The k-th column left is the input column at `KeptPositions(d.columns)[k]`. */
  function Clean(d: Dataset): (r: Dataset)
    requires WellFormed(d)
    ensures WellFormed(r) && |r.rows| == |d.rows|
    ensures r.columns == Surviving(d.columns)
    ensures |r.columns| == |KeptPositions(d.columns)|
    ensures forall k :: 0 <= k < |r.columns| ==>
              KeptPositions(d.columns)[k] < |d.columns| && Column(r, k) == Column(d, KeptPositions(d.columns)[k])
  {
    var ks := KeptPositions(d.columns);
    var r := Loc(d, ks);
    SelectedLabelsSurvive(d.columns);
    r
  }

  /** The positions of the columns cleaning keeps: exactly those whose label is
      not "Unnamed", in increasing order. */
  function KeptPositions(cols: seq<Label>): (ks: seq<nat>)
    ensures forall k :: 0 <= k < |ks| ==> ks[k] < |cols| && !IsUnnamed(cols[ks[k]])
    ensures forall i :: 0 <= i < |cols| && !IsUnnamed(cols[i]) ==> i in ks
    ensures forall a, b :: 0 <= a < b < |ks| ==> ks[a] < ks[b]
  {
    Selected(KeepMask(cols))
  }

  /** Cleaning removes exactly the "Unnamed" columns: a label is left iff it was
      there and does not begin with the marker; labels that are not strings stay. */
  lemma CleanRemovesExactlyUnnamed(d: Dataset, l: Label)
    requires WellFormed(d)
    ensures l in Clean(d).columns <==> l in d.columns && !IsUnnamed(l)
    ensures l.Other? ==> (l in Clean(d).columns <==> l in d.columns)
  {
    SurvivingMembers(d.columns, l);
  }

  /** With nothing masked out, every position is kept. */
  lemma {:induction false} SelectedAll(mask: seq<bool>)
    requires forall i :: 0 <= i < |mask| ==> mask[i]
    ensures Selected(mask) == seq(|mask|, i => i)
  {
    if mask != [] {
      SelectedAll(mask[..|mask| - 1]);
    }
  }

  /** Selecting every column, in order, gives the table back. */
  lemma LocAll(d: Dataset)
    requires WellFormed(d)
    ensures Loc(d, seq(|d.columns|, i => i)) == d
  {
    var ks: seq<nat> := seq(|d.columns|, i => i);
    var r := Loc(d, ks);
    assert r.columns == d.columns;
    forall i | 0 <= i < |d.rows| ensures r.rows[i] == d.rows[i] {
      assert d.rows[i] in d.rows;
    }
  }

  /** Cleaning a clean table changes nothing, so cleaning twice is cleaning once. */
  lemma CleanIdempotent(d: Dataset)
    requires WellFormed(d)
    ensures Clean(Clean(d)) == Clean(d)
  {
    var c := Clean(d);
    forall i | 0 <= i < |c.columns| ensures !IsUnnamed(c.columns[i]) {
      CleanRemovesExactlyUnnamed(d, c.columns[i]);
    }
    SelectedAll(KeepMask(c.columns));
    LocAll(c);
  }
}
