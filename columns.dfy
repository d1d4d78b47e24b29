/**
 * The final column handling of the report (app.py:229-272): the `column_mapping` dictionary,
 * its adjustment when the master's 'Fecha' was not suffixed (lines 245-246), the rename loop
 * (lines 251-259) and the `desired_order` filter (lines 263-271). Columns are their labels,
 * in frame order; the cells follow in the report module.
 */
module Columns {

  /** The label the master's own date is meant to end up under. */
  const DatetimeCompensacion: string := "Datetime Compensación"

  /** `column_mapping` (lines 230-242): source label to report label, in the order of the literal. */
  const ColumnMapping: seq<(string, string)> := [
    ("Fecha_x", DatetimeCompensacion),
    ("Dirección de correo electrónico", "Dirección de correo electrónico"),
    ("Numero", "Numero"),
    ("Correo registrado en Cabify para realizar la carga", "Correo registrado en Cabify para realizar la carga"),
    ("Total Compensación", "Monto a compensar"),
    ("Motivo compensación", "Motivo compensación"),
    ("id_reserva", "id_reserva"),
    ("Clasificación", "Compensación Aeropuerto"),
    ("Tm_start_local_at", "Tm_start_local_at"),
    ("Fecha", "Fecha"),
    ("Hora", "Hora")
  ]

  /** `desired_order` (lines 263-268). */
  const DesiredOrder: seq<string> := [
    DatetimeCompensacion, "Dirección de correo electrónico", "Numero",
    "Correo registrado en Cabify para realizar la carga", "Monto a compensar",
    "Motivo compensación", "id_reserva", "Compensación Aeropuerto",
    "Tm_start_local_at", "Fecha", "Hora"
  ]

  predicate Distinct<T(==)>(s: seq<T>)
  {
    forall i, j :: 0 <= i < j < |s| ==> s[i] != s[j]
  }

  function Keys(m: seq<(string, string)>): (ks: seq<string>)
    ensures |ks| == |m| && forall i :: 0 <= i < |m| ==> ks[i] == m[i].0
  {
    seq(|m|, i requires 0 <= i < |m| => m[i].0)
  }

  /** `mapping[key] = value` on a dictionary that has the key: the entry keeps its place. */
  function SetValue(m: seq<(string, string)>, key: string, value: string): (r: seq<(string, string)>)
    ensures |r| == |m| && Keys(r) == Keys(m)
    ensures forall i :: 0 <= i < |m| ==> r[i] == (if m[i].0 == key then (key, value) else m[i])
  {
    seq(|m|, i requires 0 <= i < |m| => if m[i].0 == key then (key, value) else m[i])
  }

  /** The test of line 245: the columns show 'Fecha' and no 'Fecha_x'. */
  predicate RedirectsDate(cols: seq<string>)
  {
    "Fecha" in cols && "Fecha_x" !in cols
  }

  /**
   * Lines 245-246: when the columns pass the test of line 245, the 'Fecha' entry is
   * redirected to 'Datetime Compensación'; otherwise the mapping is left as it is. Either
   * way 'Fecha_x' goes to 'Datetime Compensación', and 'Fecha' keeps its label exactly when
   * the test fails.
   */
  function AdjustMapping(cols: seq<string>): (m: seq<(string, string)>)
    ensures Keys(m) == Keys(ColumnMapping)
    ensures Lookup(m, "Fecha") == DatetimeCompensacion <==> RedirectsDate(cols)
    ensures Lookup(m, "Fecha") == "Fecha" <==> !RedirectsDate(cols)
    ensures Lookup(m, "Fecha_x") == DatetimeCompensacion
    ensures RedirectsDate(cols) ==> m == SetValue(ColumnMapping, "Fecha", DatetimeCompensacion)
    ensures !RedirectsDate(cols) ==> m == ColumnMapping
  {
    ReportLabelSources("Fecha");
    ReportLabelSources("Fecha_x");
    if RedirectsDate(cols) then SetValue(ColumnMapping, "Fecha", DatetimeCompensacion)
    else ColumnMapping
  }

  /**
   * `rename(columns={from: to})`: every column labelled `from` is relabelled `to`, and no
   * other. Afterwards `from` is gone (unless it is `to`), `to` is there if `from` was, and
   * no label other than `to` appears that was not there before.
   */
  function RenameLabel(cols: seq<string>, from: string, to: string): (r: seq<string>)
    ensures |r| == |cols|
    ensures forall i :: 0 <= i < |cols| ==> r[i] == (if cols[i] == from then to else cols[i])
    ensures from != to ==> from !in r
    ensures from in cols ==> to in r
    ensures forall c :: c in r && c != to ==> c in cols
  {
    var r := seq(|cols|, i requires 0 <= i < |cols| => if cols[i] == from then to else cols[i]);
    assert from in cols ==> r[IndexOf(cols, from)] == to;
    r
  }

  /** The state of the rename loop: the frame's labels and `final_cols`. */
  datatype Renaming = Renaming(cols: seq<string>, finalCols: seq<string>)

  /** One pass of the loop body (lines 253-259) for the entry `origin -> dest`. */
  function RenameStep(st: Renaming, origin: string, dest: string): Renaming
  {
    if origin in st.cols then Renaming(RenameLabel(st.cols, origin, dest), st.finalCols + [dest])
    else if origin == "Fecha_x" && "Fecha_x" !in st.cols && "Fecha_y" in st.cols then
      Renaming(RenameLabel(st.cols, "Fecha_x", DatetimeCompensacion), st.finalCols)
    else st
  }

  /** The loop over the mapping entries, in order. */
  function RenameAll(m: seq<(string, string)>, st: Renaming): Renaming
  {
    if m == [] then st
    else
      var last := m[|m| - 1];
      RenameStep(RenameAll(m[..|m| - 1], st), last.0, last.1)
  }

  /**
   * The loop of lines 251-259, renaming in place and collecting `final_cols`. The branch of
   * lines 257-259 renames a label the columns do not hold, so it changes nothing.
   */
  method RenameColumns(m: seq<(string, string)>, cols: seq<string>) returns (newCols: seq<string>, finalCols: seq<string>)
    ensures Renaming(newCols, finalCols) == RenameAll(m, Renaming(cols, []))
  {
    newCols, finalCols := cols, [];
    for k := 0 to |m|
      invariant Renaming(newCols, finalCols) == RenameAll(m[..k], Renaming(cols, []))
    {
      assert m[..k + 1][..k] == m[..k];
      var (origin, dest) := m[k];
      if origin in newCols {
        newCols := RenameLabel(newCols, origin, dest);
        finalCols := finalCols + [dest];
      } else if origin == "Fecha_x" && "Fecha_x" !in newCols && "Fecha_y" in newCols {
        newCols := RenameLabel(newCols, "Fecha_x", DatetimeCompensacion);
      }
    }
    assert m[..|m|] == m;
  }

  /** The branch of lines 257-259 never changes the labels: it renames a label that is absent. */
  lemma RareBranchChangesNothing(cols: seq<string>)
    requires "Fecha_x" !in cols
    ensures RenameLabel(cols, "Fecha_x", DatetimeCompensacion) == cols
  {
  }

  /** Where a single label ends up after the loop: each entry whose origin it carries at that point relabels it. */
  function Follow(m: seq<(string, string)>, name: string): string
  {
    if m == [] then name
    else
      var l := Follow(m[..|m| - 1], name);
      if l == m[|m| - 1].0 then m[|m| - 1].1 else l
  }

  /** The loop relabels each column on its own: the new labels are the old ones followed through the mapping. */
  lemma {:induction false} RenameAllPointwise(m: seq<(string, string)>, cols: seq<string>)
    ensures |RenameAll(m, Renaming(cols, [])).cols| == |cols|
    ensures forall i :: 0 <= i < |cols| ==> RenameAll(m, Renaming(cols, [])).cols[i] == Follow(m, cols[i])
  {
    if m != [] {
      var front := m[..|m| - 1];
      RenameAllPointwise(front, cols);
    }
  }

  /** No entry's report label is the source label of a later entry, so renames never chain. */
  predicate NonCascading(m: seq<(string, string)>)
  {
    forall i, j :: 0 <= i < j < |m| ==> m[i].1 != m[j].0
  }

  /** The dictionary lookup `mapping.get(name, name)`: the first entry with that key, else the label itself. */
  function Lookup(m: seq<(string, string)>, name: string): string
  {
    if m == [] then name
    else if m[0].0 == name then m[0].1
    else Lookup(m[1..], name)
  }

  /** For a dictionary whose renames never chain, following the loop is a single lookup. */
  lemma {:induction false} FollowIsLookup(m: seq<(string, string)>, name: string)
    requires Distinct(Keys(m)) && NonCascading(m)
    ensures Follow(m, name) == Lookup(m, name)
  {
    if m != [] {
      var front, last := m[..|m| - 1], m[|m| - 1];
      assert m == front + [last];
      assert Distinct(Keys(front)) && NonCascading(front);
      FollowIsLookup(front, name);
      LookupSnoc(front, last, name);
      LookupSource(front, name);
      forall i | 0 <= i < |front| ensures front[i].1 != last.0 && front[i].0 != last.0 {
        assert m[i] == front[i];
        assert Keys(m)[i] != Keys(m)[|m| - 1];
      }
      if name !in Keys(front) {
        LookupAbsent(front, name);
      }
    }
  }

  /** Looking up in a dictionary with one more entry at the end. */
  lemma {:induction false} LookupSnoc(front: seq<(string, string)>, last: (string, string), name: string)
    ensures Lookup(front + [last], name) ==
      if name in Keys(front) then Lookup(front, name) else if name == last.0 then last.1 else name
  {
    if front != [] {
      assert (front + [last])[1..] == front[1..] + [last];
      assert Keys(front) == [front[0].0] + Keys(front[1..]);
      LookupSnoc(front[1..], last, name);
    }
  }

  /** A label that is not a key is looked up as itself. */
  lemma {:induction false} LookupAbsent(m: seq<(string, string)>, name: string)
    requires name !in Keys(m)
    ensures Lookup(m, name) == name
  {
    if m != [] {
      assert Keys(m) == [m[0].0] + Keys(m[1..]);
      LookupAbsent(m[1..], name);
    }
  }

  /** A lookup answers either the label itself (no entry) or the report label of the entry for it. */
  lemma {:induction false} LookupSource(m: seq<(string, string)>, name: string)
    ensures Lookup(m, name) == name || exists i :: 0 <= i < |m| && m[i].0 == name && m[i].1 == Lookup(m, name)
  {
    if m != [] && m[0].0 != name {
      LookupSource(m[1..], name);
      if Lookup(m, name) != name {
        var i :| 0 <= i < |m[1..]| && m[1..][i].0 == name && m[1..][i].1 == Lookup(m, name);
        assert m[i + 1].0 == name;
      }
    }
  }

  /** `[c for c in desired if c in cols]` (line 271). */
  function ValidCols(desired: seq<string>, cols: seq<string>): seq<string>
  {
    if desired == [] then []
    else
      var last := desired[|desired| - 1];
      ValidCols(desired[..|desired| - 1], cols) + (if last in cols then [last] else [])
  }

  /** Line 271 as the comprehension runs it: one pass over `desired_order`, keeping the labels the frame holds. */
  method FilterDesired(desired: seq<string>, cols: seq<string>) returns (valid: seq<string>)
    ensures valid == ValidCols(desired, cols)
  {
    valid := [];
    for i := 0 to |desired|
      invariant valid == ValidCols(desired[..i], cols)
    {
      assert desired[..i + 1][..i] == desired[..i];
      if desired[i] in cols {
        valid := valid + [desired[i]];
      }
    }
    assert desired[..|desired|] == desired;
  }

  /** The index of a label in a list that holds it. */
  function IndexOf(s: seq<string>, x: string): (k: nat)
    requires x in s
    ensures k < |s| && s[k] == x && x !in s[..k]
  {
    if s[0] == x then 0 else 1 + IndexOf(s[1..], x)
  }

  /**
   * The selected labels are the desired labels the frame holds, each once, in the desired
   * order.
   */
  lemma {:induction false} ValidColsSpec(desired: seq<string>, cols: seq<string>)
    requires Distinct(desired)
    ensures forall c :: c in ValidCols(desired, cols) <==> c in desired && c in cols
    ensures Distinct(ValidCols(desired, cols))
    ensures forall i, j :: 0 <= i < j < |ValidCols(desired, cols)| ==>
      IndexOf(desired, ValidCols(desired, cols)[i]) < IndexOf(desired, ValidCols(desired, cols)[j])
  {
    if desired != [] {
      var front, last := desired[..|desired| - 1], desired[|desired| - 1];
      assert desired == front + [last];
      assert Distinct(front);
      ValidColsSpec(front, cols);
      var v := ValidCols(front, cols);
      var r := ValidCols(desired, cols);
      assert last !in front;
      forall c | c in front ensures IndexOf(desired, c) == IndexOf(front, c) {
        IndexOfPrefix(front, last, c);
      }
      assert IndexOf(desired, last) == |front| by {
        IndexOfLast(front, last);
      }
      forall i, j | 0 <= i < j < |r| ensures IndexOf(desired, r[i]) < IndexOf(desired, r[j]) {
        assert r[i] in v;
        if j < |v| {
          assert r[j] in v;
        } else {
          assert r[j] == last;
        }
      }
    }
  }

  lemma {:induction false} IndexOfPrefix(front: seq<string>, last: string, c: string)
    requires c in front
    ensures c in front + [last] && IndexOf(front + [last], c) == IndexOf(front, c)
  {
    if front[0] != c {
      assert (front + [last])[1..] == front[1..] + [last];
      IndexOfPrefix(front[1..], last, c);
    }
  }

  lemma {:induction false} IndexOfLast(front: seq<string>, last: string)
    requires last !in front
    ensures IndexOf(front + [last], last) == |front|
  {
    if front != [] {
      assert (front + [last])[1..] == front[1..] + [last];
      IndexOfLast(front[1..], last);
    }
  }

  /** Two lists of the same length that hold `x` and `y` at the same places find them at the same index. */
  lemma {:induction false} IndexOfAgree(s: seq<string>, t: seq<string>, x: string, y: string)
    requires |s| == |t| && x in s
    requires forall i :: 0 <= i < |s| ==> (s[i] == x <==> t[i] == y)
    ensures y in t && IndexOf(t, y) == IndexOf(s, x)
  {
    assert t[IndexOf(s, x)] == y;
    if s[0] != x {
      assert forall i :: 0 <= i < |s[1..]| ==> s[1..][i] == s[i + 1] && t[1..][i] == t[i + 1];
      IndexOfAgree(s[1..], t[1..], x, y);
    }
  }

  /** A label that is a key is looked up as the report label of one of its entries. */
  lemma {:induction false} LookupFound(m: seq<(string, string)>, name: string)
    requires name in Keys(m)
    ensures exists i :: 0 <= i < |m| && m[i].0 == name && m[i].1 == Lookup(m, name)
  {
    if m[0].0 != name {
      assert Keys(m) == [m[0].0] + Keys(m[1..]);
      LookupFound(m[1..], name);
      var i :| 0 <= i < |m[1..]| && m[1..][i].0 == name && m[1..][i].1 == Lookup(m, name);
      assert m[i + 1] == m[1..][i];
    } else {
      assert m[0].1 == Lookup(m, name);
    }
  }

  /** With distinct keys, a lookup gives `v` exactly when the label's entry says `v`, or the label is no key and is `v`. */
  lemma LookupIs(m: seq<(string, string)>, name: string, v: string)
    requires Distinct(Keys(m))
    ensures Lookup(m, name) == v <==>
      (name !in Keys(m) && name == v) || exists i :: 0 <= i < |m| && m[i].0 == name && m[i].1 == v
  {
    if name in Keys(m) {
      LookupFound(m, name);
      var i0 :| 0 <= i0 < |m| && m[i0].0 == name && m[i0].1 == Lookup(m, name);
      forall i | 0 <= i < |m| && m[i].0 == name ensures i == i0 {
        assert Keys(m)[i] == Keys(m)[i0];
      }
    } else {
      LookupAbsent(m, name);
    }
  }

  /** The values of the two mappings, by report label. */
  lemma MappingTargets()
    ensures forall i :: 0 <= i < |ColumnMapping| ==>
      (ColumnMapping[i].1 == DatetimeCompensacion <==> ColumnMapping[i].0 == "Fecha_x")
      && (ColumnMapping[i].1 == "Fecha" <==> ColumnMapping[i].0 == "Fecha")
      && (ColumnMapping[i].1 == "Hora" <==> ColumnMapping[i].0 == "Hora")
      && (ColumnMapping[i].1 == "Tm_start_local_at" <==> ColumnMapping[i].0 == "Tm_start_local_at")
    ensures ColumnMapping[0] == ("Fecha_x", DatetimeCompensacion) && ColumnMapping[9] == ("Fecha", "Fecha")
    ensures ColumnMapping[8] == ("Tm_start_local_at", "Tm_start_local_at") && ColumnMapping[10] == ("Hora", "Hora")
    ensures DatetimeCompensacion !in Keys(ColumnMapping)
  {
  }

  /** 'Total Compensación' is reported as 'Monto a compensar', a label no entry has as its key. */
  lemma MappingTotals()
    ensures ColumnMapping[4] == ("Total Compensación", "Monto a compensar")
    ensures "Monto a compensar" !in Keys(ColumnMapping) && "Monto a compensar" in DesiredOrder
  {
  }

  /**
   * Where each report label the model follows can come from, under either mapping:
   * 'Hora' and 'Tm_start_local_at' only from themselves; 'Datetime Compensación' from
   * 'Fecha_x' (and, once the mapping is adjusted, from 'Fecha') or from a column already so
   * named; 'Fecha' only from itself, and from nothing once the mapping is adjusted.
   */
  lemma ReportLabelSources(name: string)
    ensures Lookup(ColumnMapping, name) == "Hora" <==> name == "Hora"
    ensures Lookup(ColumnMapping, name) == "Tm_start_local_at" <==> name == "Tm_start_local_at"
    ensures Lookup(ColumnMapping, name) == "Fecha" <==> name == "Fecha"
    ensures Lookup(ColumnMapping, name) == DatetimeCompensacion <==> name == "Fecha_x" || name == DatetimeCompensacion
    ensures var m := SetValue(ColumnMapping, "Fecha", DatetimeCompensacion);
      && (Lookup(m, name) == "Hora" <==> name == "Hora")
      && (Lookup(m, name) == "Tm_start_local_at" <==> name == "Tm_start_local_at")
      && Lookup(m, name) != "Fecha"
      && (Lookup(m, name) == DatetimeCompensacion <==> name == "Fecha_x" || name == "Fecha" || name == DatetimeCompensacion)
  {
    var m := SetValue(ColumnMapping, "Fecha", DatetimeCompensacion);
    MappingsNeverChain();
    MappingTargets();
    LookupIs(ColumnMapping, name, "Hora");
    LookupIs(ColumnMapping, name, "Tm_start_local_at");
    LookupIs(ColumnMapping, name, "Fecha");
    LookupIs(ColumnMapping, name, DatetimeCompensacion);
    LookupIs(m, name, "Hora");
    LookupIs(m, name, "Tm_start_local_at");
    LookupIs(m, name, "Fecha");
    LookupIs(m, name, DatetimeCompensacion);
    assert m[0] == ColumnMapping[0] && m[8] == ColumnMapping[8] && m[10] == ColumnMapping[10];
    assert m[9] == ("Fecha", DatetimeCompensacion);
  }

  /** Renaming a label to one the list does not hold keeps the labels distinct. */
  lemma RenameLabelDistinct(cols: seq<string>, from: string, to: string)
    requires Distinct(cols) && to !in cols
    ensures Distinct(RenameLabel(cols, from, to))
  {
    var r := RenameLabel(cols, from, to);
    forall i, j | 0 <= i < j < |cols| ensures r[i] != r[j] {
      if cols[i] == from {
        assert r[j] == cols[j];
      } else if cols[j] == from {
        assert r[i] == cols[i];
      }
    }
  }

  /** `desired_order` names each report label once, the computed date and time among them. */
  lemma DesiredOrderFacts()
    ensures Distinct(DesiredOrder)
    ensures DatetimeCompensacion in DesiredOrder && "Fecha" in DesiredOrder
    ensures "Hora" in DesiredOrder && "Tm_start_local_at" in DesiredOrder
  {
  }

  /** The mapping as written, and as lines 245-246 adjust it, both have distinct keys and never chain. */
  lemma MappingsNeverChain()
    ensures Distinct(Keys(ColumnMapping)) && NonCascading(ColumnMapping)
    ensures Distinct(Keys(SetValue(ColumnMapping, "Fecha", DatetimeCompensacion)))
    ensures NonCascading(SetValue(ColumnMapping, "Fecha", DatetimeCompensacion))
  {
  }
}
