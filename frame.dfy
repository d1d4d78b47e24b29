/**
 * The slice of pandas' DataFrame the report relies on: labelled columns over positional rows,
 * `df[c]` to read a column, `df[c] = values` to overwrite or append one, `rename` and
 * `df[labels]` to select columns by label, a label held by several columns selecting all of them.
 */
module Frames {
  import opened Cells
  import opened Columns

  /** A data frame: column labels and rows of cells, by position. */
  datatype Frame = Frame(columns: seq<string>, rows: seq<seq<Cell>>)

  /** Every row has one cell per column. */
  predicate Rectangular(f: Frame)
  {
    forall i :: 0 <= i < |f.rows| ==> |f.rows[i]| == |f.columns|
  }

  /** `df[name]` for a label held by one column: its cells, row by row. */
  function Column(f: Frame, name: string): (c: seq<Cell>)
    requires Rectangular(f) && name in f.columns
    ensures |c| == |f.rows|
  {
    var k := IndexOf(f.columns, name);
    seq(|f.rows|, i requires 0 <= i < |f.rows| => f.rows[i][k])
  }

  /**
   * `df[name] = values`: a column already labelled `name` is overwritten where it stands,
   * otherwise the column is appended at the right. Every other column keeps its cells.
   */
  function SetColumn(f: Frame, name: string, values: seq<Cell>): (r: Frame)
    requires Rectangular(f) && |values| == |f.rows|
    ensures Rectangular(r) && |r.rows| == |f.rows|
    ensures name in f.columns ==> r.columns == f.columns
    ensures name !in f.columns ==> r.columns == f.columns + [name]
  {
    if name in f.columns then
      var k := IndexOf(f.columns, name);
      Frame(f.columns, seq(|f.rows|, i requires 0 <= i < |f.rows| => f.rows[i][k := values[i]]))
    else
      Frame(f.columns + [name], seq(|f.rows|, i requires 0 <= i < |f.rows| => f.rows[i] + [values[i]]))
  }

  /** After `df[name] = values` the column holds the values, and every other column is unchanged. */
  lemma SetColumnSpec(f: Frame, name: string, values: seq<Cell>)
    requires Rectangular(f) && |values| == |f.rows|
    ensures name in SetColumn(f, name, values).columns
    ensures Column(SetColumn(f, name, values), name) == values
    ensures forall c :: c in f.columns && c != name ==> Column(SetColumn(f, name, values), c) == Column(f, c)
    ensures forall c :: c in SetColumn(f, name, values).columns <==> c in f.columns || c == name
    ensures Distinct(f.columns) ==> Distinct(SetColumn(f, name, values).columns)
  {
    var r := SetColumn(f, name, values);
    if name !in f.columns {
      IndexOfLast(f.columns, name);
      forall c | c in f.columns && c != name ensures Column(r, c) == Column(f, c) {
        IndexOfPrefix(f.columns, name, c);
      }
    }
  }

  /** Two label lists, each distinct and sharing no label, are distinct together. */
  lemma DistinctConcat(a: seq<string>, b: seq<string>)
    requires Distinct(a) && Distinct(b) && forall c :: c in b ==> c !in a
    ensures Distinct(a + b)
  {
    forall i, j | 0 <= i < j < |a + b| ensures (a + b)[i] != (a + b)[j] {
      if j < |a| {
        assert (a + b)[i] == a[i] && (a + b)[j] == a[j];
      } else if |a| <= i {
        assert (a + b)[i] == b[i - |a|] && (a + b)[j] == b[j - |a|];
      } else {
        assert (a + b)[i] == a[i] && (a + b)[j] == b[j - |a|];
        assert b[j - |a|] in b;
      }
    }
  }

  /** `df.rename(columns=...)` as the rename loop leaves it: new labels, the same cells. */
  function Relabel(f: Frame, cols: seq<string>): (r: Frame)
    requires |cols| == |f.columns|
    ensures Rectangular(f) ==> Rectangular(r)
  {
    Frame(cols, f.rows)
  }

  /**
   * Relabelling keeps the cells: when the new labels carry `to` exactly where the old ones
   * carried `from`, the column read under `to` is the column that was under `from`.
   */
  lemma RelabelColumn(f: Frame, cols: seq<string>, from: string, to: string)
    requires Rectangular(f) && |cols| == |f.columns| && from in f.columns
    requires forall i :: 0 <= i < |cols| ==> (f.columns[i] == from <==> cols[i] == to)
    ensures to in cols && Column(Relabel(f, cols), to) == Column(f, from)
  {
    IndexOfAgree(f.columns, cols, from, to);
  }

  /** Renaming one label leaves every other column where it was. */
  lemma RenameKeepsColumn(f: Frame, from: string, to: string, name: string)
    requires Rectangular(f) && name in f.columns && name != from && name != to
    ensures name in RenameLabel(f.columns, from, to)
    ensures Column(Relabel(f, RenameLabel(f.columns, from, to)), name) == Column(f, name)
  {
    RelabelColumn(f, RenameLabel(f.columns, from, to), name, name);
  }

  /** The positions of the columns labelled `name`, left to right. */
  function PositionsOf(cols: seq<string>, name: string): (ps: seq<nat>)
    ensures forall k :: 0 <= k < |ps| ==> ps[k] < |cols| && cols[ps[k]] == name
  {
    if cols == [] then []
    else PositionsOf(cols[..|cols| - 1], name) + (if cols[|cols| - 1] == name then [|cols| - 1] else [])
  }

  /** The positions `df[labels]` picks: for each label in turn, every column that carries it. */
  function Positions(cols: seq<string>, labels: seq<string>): (ps: seq<nat>)
    ensures forall k :: 0 <= k < |ps| ==> ps[k] < |cols| && cols[ps[k]] in labels
  {
    if labels == [] then []
    else Positions(cols, labels[..|labels| - 1]) + PositionsOf(cols, labels[|labels| - 1])
  }

  /** `df[labels]`: the columns carrying those labels, label by label. */
  function Select(f: Frame, labels: seq<string>): (r: Frame)
    requires Rectangular(f)
    ensures Rectangular(r) && |r.rows| == |f.rows|
  {
    var ps := Positions(f.columns, labels);
    Frame(LabelsAt(f.columns, ps),
          seq(|f.rows|, i requires 0 <= i < |f.rows| => seq(|ps|, k requires 0 <= k < |ps| => f.rows[i][ps[k]])))
  }

  /** The labels at a list of positions. */
  function LabelsAt(cols: seq<string>, ps: seq<nat>): (r: seq<string>)
    requires forall k :: 0 <= k < |ps| ==> ps[k] < |cols|
    ensures |r| == |ps| && forall k :: 0 <= k < |ps| ==> r[k] == cols[ps[k]]
  {
    seq(|ps|, k requires 0 <= k < |ps| => cols[ps[k]])
  }

  /** With distinct labels, a label the columns hold sits at exactly one position. */
  lemma {:induction false} PositionsOfDistinct(cols: seq<string>, name: string)
    requires Distinct(cols)
    ensures name in cols ==> PositionsOf(cols, name) == [IndexOf(cols, name)]
    ensures name !in cols ==> PositionsOf(cols, name) == []
  {
    if cols != [] {
      var front, last := cols[..|cols| - 1], cols[|cols| - 1];
      assert cols == front + [last];
      assert Distinct(front);
      PositionsOfDistinct(front, name);
      if name in front {
        IndexOfPrefix(front, last, name);
      } else if name == last {
        IndexOfLast(front, last);
      }
    }
  }

  /**
   * With distinct labels, selecting labels that the frame all holds yields exactly those
   * labels, in the order asked for.
   */
  lemma {:induction false} SelectDistinct(cols: seq<string>, labels: seq<string>)
    requires Distinct(cols) && forall c :: c in labels ==> c in cols
    ensures LabelsAt(cols, Positions(cols, labels)) == labels
  {
    if labels != [] {
      var front, last := labels[..|labels| - 1], labels[|labels| - 1];
      assert labels == front + [last];
      SelectDistinct(cols, front);
      PositionsOfDistinct(cols, last);
    }
  }

  /** No column carrying a label is missed. */
  lemma {:induction false} PositionsOfComplete(cols: seq<string>, name: string, p: nat)
    requires p < |cols| && cols[p] == name
    ensures p in PositionsOf(cols, name)
  {
    if p < |cols| - 1 {
      PositionsOfComplete(cols[..|cols| - 1], name, p);
    }
  }

  /** No column carrying one of the labels is missed. */
  lemma {:induction false} PositionsComplete(cols: seq<string>, labels: seq<string>, p: nat)
    requires p < |cols| && cols[p] in labels
    ensures p in Positions(cols, labels)
  {
    var front := labels[..|labels| - 1];
    if cols[p] == labels[|labels| - 1] {
      PositionsOfComplete(cols, cols[p], p);
    } else {
      assert labels == front + [labels[|labels| - 1]];
      PositionsComplete(cols, front, p);
    }
  }

  /** A selection holds exactly the selected labels that some column carries. */
  lemma SelectColumns(f: Frame, labels: seq<string>)
    requires Rectangular(f)
    ensures forall c :: c in Select(f, labels).columns <==> c in labels && c in f.columns
  {
    var r := Select(f, labels);
    forall c | c in labels && c in f.columns ensures c in r.columns {
      var p := IndexOf(f.columns, c);
      PositionsComplete(f.columns, labels, p);
      var ps := Positions(f.columns, labels);
      var k :| 0 <= k < |ps| && ps[k] == p;
      assert r.columns[k] == c;
    }
  }

  /** A selected label carried by two columns appears twice in the selection. */
  lemma SelectRepeats(f: Frame, labels: seq<string>, p: nat, q: nat)
    requires Rectangular(f) && p < q < |f.columns|
    requires f.columns[p] == f.columns[q] && f.columns[p] in labels
    ensures !Distinct(Select(f, labels).columns)
  {
    var ps := Positions(f.columns, labels);
    PositionsComplete(f.columns, labels, p);
    PositionsComplete(f.columns, labels, q);
    var kp :| 0 <= kp < |ps| && ps[kp] == p;
    var kq :| 0 <= kq < |ps| && ps[kq] == q;
    var lo, hi := if kp < kq then kp else kq, if kp < kq then kq else kp;
    assert lo < hi && Select(f, labels).columns[lo] == Select(f, labels).columns[hi];
  }

  /**
   * A selected label carried by exactly one column, at position `p`, selects that column's
   * cells.
   */
  lemma SelectSingleColumn(f: Frame, labels: seq<string>, name: string, p: nat)
    requires Rectangular(f) && name in labels
    requires p < |f.columns| && f.columns[p] == name
    requires forall q :: 0 <= q < |f.columns| && f.columns[q] == name ==> q == p
    ensures name in Select(f, labels).columns
    ensures Column(Select(f, labels), name) == seq(|f.rows|, i requires 0 <= i < |f.rows| => f.rows[i][p])
  {
    SelectColumns(f, labels);
    var r := Select(f, labels);
    var ps := Positions(f.columns, labels);
    var k := IndexOf(r.columns, name);
    assert f.columns[ps[k]] == name;
  }
}
