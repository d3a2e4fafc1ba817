/** Narrowing the rows of the fast-path table (`build` of `scripts/kaizen_fastpath_proposal.py`). */
module FastPathTable {
  import opened Common
  import opened CellEditor
  import CellExact

  /** A row: its change class and its gates cell. */
  type Row = (string, string)

  const CLUSTER := "pre-MR gate cluster"

  /** A gate to narrow: whether the cluster runs it too, and which change classes are covered. */
  datatype Gate = Gate(name: string, clustered: bool, covers: string -> bool)

  /** The row runs the gate, by name or through the cluster that the gate belongs to. */
  predicate Runs(row: Row, gate: Gate) {
    Contains(row.1, "`" + gate.name + "`") || (gate.clustered && Contains(row.1, CLUSTER))
  }

  /** The new cell of a row that is narrowed. */
  function NewCell(row: Row, gate: Gate): Option<string> {
    if gate.covers(row.0) && Removal(row.1, gate.name).Ok? then Removal(row.1, gate.name).value else None
  }

  /** The rows before `n` that would be narrowed, with their new cells. */
  function Planned(rows: seq<Row>, gate: Gate, n: nat): map<nat, string>
    requires n <= |rows|
  {
    if n == 0 then map[]
    else
      var before := Planned(rows, gate, n - 1);
      match NewCell(rows[n - 1], gate)
      case None => before
      case Some(cell) => before[n - 1 := cell]
  }

  lemma {:induction false} PlannedAre(rows: seq<Row>, gate: Gate, n: nat)
    requires n <= |rows|
    ensures forall i: nat :: i in Planned(rows, gate, n) <==> i < n && NewCell(rows[i], gate).Some?
    ensures forall i: nat | i in Planned(rows, gate, n) :: NewCell(rows[i], gate) == Some(Planned(rows, gate, n)[i])
    decreases n
  {
    hide NewCell;
    if n > 0 {
      PlannedAre(rows, gate, n - 1);
    }
  }

  /** Narrowing these rows would leave no row that runs the gate. */
  predicate Deletes(rows: seq<Row>, gate: Gate, planned: map<nat, string>) {
    planned != map[] && forall i: nat | i < |rows| && Runs(rows[i], gate) :: i in planned
  }

  /** The table after one candidate: its rows narrowed unless that would delete the gate. */
  ghost predicate Narrowed(rows: seq<Row>, gate: Gate, table: seq<Row>) {
    var planned := Planned(rows, gate, |rows|);
    if Deletes(rows, gate, planned) then table == rows
    else
      && |table| == |rows|
      && forall i: nat | i < |rows| :: table[i] == if i in planned then (rows[i].0, planned[i]) else rows[i]
  }

  method Narrow(rows: seq<Row>, gate: Gate) returns (table: seq<Row>)
    ensures Narrowed(rows, gate, table)
  {
    hide NewCell, Runs;
    var planned: map<nat, string> := map[];
    for i := 0 to |rows|
      invariant planned == Planned(rows, gate, i)
    {
      var cell := NewCellOf(rows[i], gate);
      if cell.Some? {
        planned := planned[i := cell.value];
      }
    }
    if Deletes(rows, gate, planned) {
      return rows;
    }
    table := rows;
    for i := 0 to |rows|
      invariant |table| == |rows|
      invariant forall j: nat | j < i :: table[j] == if j in planned then (rows[j].0, planned[j]) else rows[j]
      invariant forall j: nat | i <= j < |rows| :: table[j] == rows[j]
    {
      if i in planned {
        table := table[i := (rows[i].0, planned[i])];
      }
    }
  }

  method NewCellOf(row: Row, gate: Gate) returns (cell: Option<string>)
    ensures cell == NewCell(row, gate)
  {
    hide Removal;
    if !gate.covers(row.0) {
      return None;
    }
    var narrowed := RemoveGate(row.1, gate.name);
    return if narrowed.Ok? then narrowed.value else None;
  }

  /** Narrowing never deletes a gate: if some row ran it, some row still runs it. Only covered rows
      change, and each changed cell is the old one without the gate. */
  lemma NarrowedNotDeleted(rows: seq<Row>, gate: Gate, table: seq<Row>)
    requires Narrowed(rows, gate, table)
    ensures |table| == |rows|
    ensures forall i: nat | i < |rows| && table[i] != rows[i] ::
              gate.covers(rows[i].0) && table[i].0 == rows[i].0 && Removal(rows[i].1, gate.name) == Ok(Some(table[i].1))
    ensures (exists i: nat :: i < |rows| && Runs(rows[i], gate)) ==>
      exists i: nat :: i < |table| && Runs(table[i], gate)
  {
    hide Removal, Runs;
    var planned := Planned(rows, gate, |rows|);
    PlannedAre(rows, gate, |rows|);
    if i: nat :| i < |rows| && Runs(rows[i], gate) {
      if Deletes(rows, gate, planned) || planned == map[] {
        assert table[i] == rows[i];
      } else {
        var kept: nat :| kept < |rows| && Runs(rows[kept], gate) && kept !in planned;
        assert table[kept] == rows[kept];
      }
    }
  }

  // ----- the table from its rows

  /** The row runs the gate: it is in the cell in backticks, or the cluster that runs it is. */
  ghost predicate RunsGate(row: Row, gate: Gate) {
    || CellExact.Occurs(row.1, ['`'] + gate.name + ['`'])
    || (gate.clustered && CellExact.Occurs(row.1, "pre-MR gate cluster"))
  }

  lemma RunsExact(row: Row, gate: Gate)
    ensures Runs(row, gate) <==> RunsGate(row, gate)
  {
    assert "`" + gate.name + "`" == ['`'] + gate.name + ['`'];
    CellExact.ContainsExact(row.1, "`" + gate.name + "`");
    CellExact.ContainsExact(row.1, CLUSTER);
  }

  /** The row is of a covered class and its cell can be rid of the gate. */
  ghost predicate CanNarrow(row: Row, gate: Gate) {
    gate.covers(row.0) && Removal(row.1, gate.name).Ok? && Removal(row.1, gate.name).value.Some?
  }

  /** Taking the gate out wherever that can be done would leave no row that runs it. */
  ghost predicate WouldDelete(rows: seq<Row>, gate: Gate) {
    && (exists i: nat :: i < |rows| && CanNarrow(rows[i], gate))
    && forall i: nat | i < |rows| && RunsGate(rows[i], gate) :: CanNarrow(rows[i], gate)
  }

  /** The table keeps every row but those that can be narrowed, which lose just the gate; and it is
      left as it is exactly if that would delete the gate from it, or there is nothing to narrow. */
  lemma TableExact(rows: seq<Row>, gate: Gate, table: seq<Row>)
    ensures Narrowed(rows, gate, table) <==>
      if WouldDelete(rows, gate) then table == rows
      else
        && |table| == |rows|
        && forall i: nat | i < |rows| :: table[i] ==
             if CanNarrow(rows[i], gate) then (rows[i].0, Removal(rows[i].1, gate.name).value.value) else rows[i]
  {
    hide Removal, Runs, RunsGate;
    var planned := Planned(rows, gate, |rows|);
    PlannedAre(rows, gate, |rows|);
    forall i: nat | i < |rows|
      ensures i in planned <==> CanNarrow(rows[i], gate)
      ensures i in planned ==> planned[i] == Removal(rows[i].1, gate.name).value.value
      ensures Runs(rows[i], gate) <==> RunsGate(rows[i], gate)
    {
      RunsExact(rows[i], gate);
    }
    assert planned != map[] <==> exists i: nat :: i < |rows| && CanNarrow(rows[i], gate) by {
      if planned != map[] {
        var i :| i in planned;
      }
    }
  }
}
