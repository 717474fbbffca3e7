/** The execution API of a table. The base API (column lookup, visibility,
    bulk reading and writing of values, exchange with dataframes, the list of
    columns excluded from automatic updates and the dependency counter) and
    its formula extension (binding column variables in the namespace,
    creating and deleting columns, reconciling the namespace with the
    columns) share one state, so they are one class here. */
module ExecutionApi {
  import opened Values
  import opened Tables
  import opened ApiSpec

  class Api {
    const table: Table
    /** Names of columns whose values user code manages itself. */
    var excluded: seq<string>
    /** Operations since the last reset that may add dependency-graph nodes. */
    var dependencyCounter: nat

    /** `APIFormulas(table)`. */
    constructor (table: Table)
      ensures this.table == table && excluded == [] && dependencyCounter == 0
    {
      this.table := table;
      excluded := [];
      dependencyCounter := 0;
    }

    /** The names are appended; earlier entries stay, nothing is removed or
        merged. */
    method ExcludeColumnUpdate(names: seq<string>)
      modifies this
      ensures excluded == old(excluded) + names
      ensures dependencyCounter == old(dependencyCounter)
    {
      excluded := excluded + names;
    }

    /** `columnFromIndex` for a position, `columnFromName` for a name; any
        other id resolves to nothing. */
    function Locate(id: ColumnId): (r: Option<nat>)
      reads table
      ensures r.Some? ==> Designates(table.columns, id, r.value)
      ensures r.None? ==> forall k: nat :: !Designates(table.columns, id, k)
    {
      match id
      case ByIndex(i) => if 1 <= i <= |table.columns| then Some(i - 1) else None
      case ByName(n) =>
        FindNameFirst(table.columns, n);
        FindName(table.columns, n)
      case OtherId => None
    }

    function GetColumn(id: ColumnId, validate: bool): (r: Result<Option<Column>>)
      reads table
      ensures r.Err? <==> validate && forall k: nat :: !Designates(table.columns, id, k)
      ensures r.Err? ==> r.error == NotFound(id)
      ensures r == Ok(None) <==> !validate && forall k: nat :: !Designates(table.columns, id, k)
      ensures r.Ok? && r.value.Some? ==> exists k: nat :: Designates(table.columns, id, k) && r.value.value == table.columns[k]
    {
      match Locate(id)
      case Some(k) => Ok(Some(table.columns[k]))
      case None => if validate then Err(NotFound(id)) else Ok(None)
    }

    function GetColumnNames(): (r: seq<string>)
      reads table
      ensures |r| == |table.columns| && forall i :: 0 <= i < |r| ==> r[i] == table.columns[i].name
      ensures forall n :: n in r <==> table.IsColumnPresent(n)
    {
      FindIffPresent(table.columns);
      Names(table.columns)
    }

    /** The named column's cells, coerced by its data class. */
    function GetColumnValues(name: string): (r: Result<seq<Value>>)
      reads table
      ensures forall k: nat :: Designates(table.columns, ByName(name), k) ==> r == Coerce(table.columns[k], table.columns[k].cells)
      ensures r.Ok? ==> exists k: nat :: Designates(table.columns, ByName(name), k) && r == Coerce(table.columns[k], table.columns[k].cells)
      ensures r.Err? <==> forall k: nat :: Designates(table.columns, ByName(name), k) ==> Coerce(table.columns[k], table.columns[k].cells).Err?
      ensures r.Err? ==> r.error == if table.IsColumnPresent(name) then CoercionFailed(name) else UnknownColumn(name)
    {
      var c := GetColumn(ByName(name), true);
      if c.Err? then Err(c.error) else Coerce(c.value.value, c.value.value.cells)
    }

    /** The values coerced by the named column's data class. */
    function CoerceValues(name: string, values: seq<Value>): (r: Result<seq<Value>>)
      reads table
      ensures forall k: nat :: Designates(table.columns, ByName(name), k) ==> r == Coerce(table.columns[k], values)
      ensures r.Ok? ==> table.IsColumnPresent(name) && exists k: nat :: Designates(table.columns, ByName(name), k) && r == Coerce(table.columns[k], values)
      ensures r.Err? <==> forall k: nat :: Designates(table.columns, ByName(name), k) ==> Coerce(table.columns[k], values).Err?
      ensures r.Err? ==> r.error == if table.IsColumnPresent(name) then CoercionFailed(name) else UnknownColumn(name)
    {
      var c := GetColumn(ByName(name), true);
      if c.Err? then Err(c.error) else Coerce(c.value.value, values)
    }

    function GetDependencyCounter(): nat
      reads this
    {
      dependencyCounter
    }

    method SetDependencyCounter()
      modifies this
      ensures dependencyCounter == 0 && excluded == old(excluded)
    {
      dependencyCounter := 0;
    }

    /** The names an operation applies to: the given ones, or every column's. */
    function Targets(names: Option<seq<string>>): seq<string>
      reads table
    {
      if names.Some? then names.value else Names(table.columns)
    }

    /** The positions of the named columns, or the first name that has no
        column. */
    method ResolveNames(names: seq<string>) returns (r: Result<seq<nat>>)
      ensures r.Ok? <==> forall j :: 0 <= j < |names| ==> table.IsColumnPresent(names[j])
      ensures r.Ok? ==> (|r.value| == |names| &&
        forall j :: 0 <= j < |names| ==> r.value[j] < |table.columns| && table.columns[r.value[j]].name == names[j])
      ensures r.Err? ==> exists j :: (0 <= j < |names| && r.error == UnknownColumn(names[j]) &&
        !table.IsColumnPresent(names[j]) && forall m :: 0 <= m < j ==> table.IsColumnPresent(names[m]))
    {
      var found: seq<nat> := [];
      var j := 0;
      while j < |names|
        invariant 0 <= j <= |names| && |found| == j
        invariant forall m :: 0 <= m < j ==> table.IsColumnPresent(names[m])
        invariant forall m :: 0 <= m < j ==> found[m] < |table.columns| && table.columns[found[m]].name == names[m]
      {
        var k := FindName(table.columns, names[j]);
        if k.None? {
          return Err(UnknownColumn(names[j]));
        }
        found := found + [k.value];
        j := j + 1;
      }
      return Ok(found);
    }

    /** Every name is checked before any column is hidden or unhidden, so an
        unknown name changes nothing. */
    method SetColumnVisibility(names: Option<seq<string>>, isVisible: bool) returns (r: Outcome)
      requires table.Valid()
      modifies table
      ensures table.Valid() && table.namespace == old(table.namespace)
      ensures var targets := old(Targets(names));
        r.Fail? <==> exists j :: 0 <= j < |targets| && !old(table.IsColumnPresent(targets[j]))
      ensures var targets := old(Targets(names));
        r.Fail? ==> (table.columns == old(table.columns) &&
          exists j :: 0 <= j < |targets| && r.error == UnknownColumn(targets[j]) &&
            !old(table.IsColumnPresent(targets[j])) && forall m :: 0 <= m < j ==> old(table.IsColumnPresent(targets[m])))
      ensures var targets := old(Targets(names));
        r.Pass? ==> (|table.columns| == |old(table.columns)| &&
          forall i :: 0 <= i < |table.columns| ==>
            table.columns[i] == if old(table.columns)[i].name in targets then old(table.columns)[i].(visible := isVisible) else old(table.columns)[i])
    {
      var targets := Targets(names);
      var positions := ResolveNames(targets);
      if positions.Err? {
        return Fail(positions.error);
      }
      ghost var cols := table.columns;
      forall i | 0 <= i < |cols| ensures i in positions.value <==> cols[i].name in targets {
        if cols[i].name in targets {
          var j :| 0 <= j < |targets| && targets[j] == cols[i].name;
          assert cols[positions.value[j]].name == cols[i].name;
        }
      }
      table.SetVisibility(positions.value, isVisible);
      return Pass;
    }

    /** Nothing happens for a name excluded from updates or one that no
        column carries; otherwise only that column's cells change. */
    method SetColumnValues(name: string, values: seq<Value>)
      requires table.Valid()
      modifies table
      ensures table.Valid() && table.namespace == old(table.namespace)
      ensures name in excluded || !old(table.IsColumnPresent(name)) ==> table.columns == old(table.columns)
      ensures name !in excluded && old(table.IsColumnPresent(name)) ==>
        var k := FindName(old(table.columns), name).value;
        table.columns == old(table.columns)[k := old(table.columns)[k].(cells := values)]
    {
      if name in excluded {
        return;
      }
      if !table.IsColumnPresent(name) {
        return;
      }
      // columnFromName finds every column the table reports present, so
      // `setColumnValues`' 'Column name not found' raise cannot happen here.
      var k := FindName(table.columns, name);
      table.UpdateColumn(k.value, values);
    }

    /** The dataframe holding the named columns' cells (by default every
        column's), or the first name that has no column. */
    method TableToDataframe(names: Option<seq<string>>) returns (r: Result<Frame>)
      ensures r == ExportFrame(table.columns, Targets(names), |Targets(names)|)
    {
      var targets := Targets(names);
      var frame := Frame([], map[]);
      var i := 0;
      while i < |targets|
        invariant 0 <= i <= |targets|
        invariant ExportFrame(table.columns, targets, i) == Ok(frame)
      {
        var n := targets[i];
        var k := FindName(table.columns, n);
        if k.None? {
          ExportFrozen(table.columns, targets, i + 1, |targets|);
          return Err(UnknownColumn(n));
        }
        frame := Frame(if n in frame.data then frame.labels else frame.labels + [n], frame.data[n := table.columns[k.value].cells]);
        i := i + 1;
      }
      return Ok(frame);
    }

    /** Where imported columns start: after the last column, or at the
        position of the anchor column. */
    function AnchorIndex(position: Option<string>): Result<nat>
      reads table
    {
      match position
      case None => Ok(|table.columns|)
      case Some(p) =>
        match FindName(table.columns, p)
        case Some(k) => Ok(k)
        case None => Err(UnknownColumn(p))
    }

    /** One turn of the loop of `AddColumnsToTableFromDataframe`. */
    method ImportColumn(frame: Frame, name: string, index: nat) returns (next: nat, error: Option<Failure>)
      requires table.Valid()
      modifies table
      ensures table.Valid() && table.namespace == old(table.namespace)
      ensures ImportState(table.columns, next, error) == ImportStep(ImportState(old(table.columns), index, None), frame, name)
    {
      next := index;
      error := if name in frame.data then None else Some(MissingFrameColumn(name));
      var k := FindName(table.columns, name);
      if k.Some? {
        if error.None? {
          table.UpdateColumn(k.value, frame.data[name]);
        }
      } else {
        var p := InsertPosition(table.columns, Some(index));
        ghost var before := table.columns;
        var refused := table.AddColumn(NewColumn(name, false), Some(index));
        next := index + 1;
        if refused.None? && error.None? {
          table.UpdateColumn(p, frame.data[name]);
          assert table.columns == InsertAt(before, p, FrameColumn(frame, name)) by {
            assert |table.columns| == |before| + 1;
            forall j | 0 <= j < |table.columns| ensures table.columns[j] == InsertAt(before, p, FrameColumn(frame, name))[j] {
            }
          }
        }
      }
    }

    /** The loop of `AddColumnsToTableFromDataframe`, from index `start`. */
    method ImportColumns(frame: Frame, targets: seq<string>, start: nat) returns (error: Option<Failure>)
      requires table.Valid()
      modifies table
      ensures table.Valid() && table.namespace == old(table.namespace)
      ensures var s := Import(old(table.columns), frame, targets, start, |targets|);
        table.columns == s.columns && error == s.error
    {
      ghost var cols := table.columns;
      var index := start;
      var i := 0;
      while i < |targets|
        invariant 0 <= i <= |targets|
        invariant table.Valid() && table.namespace == old(table.namespace)
        invariant Import(cols, frame, targets, start, i) == ImportState(table.columns, index, None)
      {
        index, error := ImportColumn(frame, targets[i], index);
        if error.Some? {
          ImportFrozen(cols, frame, targets, start, i + 1, |targets|);
          return;
        }
        i := i + 1;
      }
      return None;
    }

    /** Existing columns get the dataframe's values; new ones are inserted
        one after another from the anchor position. */
    method AddColumnsToTableFromDataframe(frame: Frame, names: Option<seq<string>>, position: Option<string>) returns (r: Result<seq<string>>)
      requires table.Valid()
      modifies table
      ensures table.Valid() && table.namespace == old(table.namespace)
      ensures old(AnchorIndex(position)).Err? ==> r == Err(old(AnchorIndex(position)).error) && table.columns == old(table.columns)
      ensures old(AnchorIndex(position)).Ok? ==>
        var targets := if names.Some? then names.value else frame.labels;
        var s := Import(old(table.columns), frame, targets, old(AnchorIndex(position)).value, |targets|);
        table.columns == s.columns && (r.Ok? <==> s.error.None?) &&
        (r.Ok? ==> r.value == targets) && (r.Err? ==> s.error == Some(r.error))
    {
      var targets := if names.Some? then names.value else frame.labels;
      var anchor := AnchorIndex(position);
      if anchor.Err? {
        return Err(anchor.error);
      }
      var error := ImportColumns(frame, targets, anchor.value);
      r := if error.Some? then Err(error.value) else Ok(targets);
    }

    /** A new table holding one column per name (by default every label of
        the dataframe), in order. */
    method DataframeToTable(tableName: string, frame: Frame, names: Option<seq<string>>) returns (r: Result<Table>)
      ensures var targets := if names.Some? then names.value else frame.labels;
        var b := Build(frame, targets, |targets|);
        (r.Ok? <==> b.Ok?) && (r.Err? ==> b == Err(r.error)) &&
        (r.Ok? ==> fresh(r.value) && r.value.name == tableName && r.value.columns == b.value &&
                   r.value.namespace == map[] && r.value.Valid())
    {
      var targets := if names.Some? then names.value else frame.labels;
      var t := new Table(tableName);
      var i := 0;
      while i < |targets|
        invariant 0 <= i <= |targets|
        invariant fresh(t) && t.Valid() && t.name == tableName && t.namespace == map[]
        invariant Build(frame, targets, i) == Ok(t.columns)
      {
        var name := targets[i];
        ghost var before := t.columns;
        assert Build(frame, targets, i + 1) == BuildStep(Ok(before), frame, name);
        if name !in frame.data {
          BuildFrozen(frame, targets, i + 1, |targets|);
          return Err(MissingFrameColumn(name));
        }
        AppendColumn(t, frame, name);
        i := i + 1;
      }
      return Ok(t);
    }

    /** One turn of the loop of `DataframeToTable`: the dataframe's values
        under the label go into a new column at the end of the table, which
        the table may refuse. */
    static method AppendColumn(t: Table, frame: Frame, name: string)
      requires t.Valid() && name in frame.data
      modifies t
      ensures t.Valid() && t.namespace == old(t.namespace)
      ensures BuildStep(Ok(old(t.columns)), frame, name) == Ok(t.columns)
    {
      var column := NewColumn(name, false).(cells := frame.data[name]);
      ghost var before := t.columns;
      var ignored := t.AddColumn(column, None);
      assert InsertAt(before, |before|, column) == before + [column];
    }

    /** `_createColumn`, which `createColumn` calls with the same arguments.
        The counter goes up on every call; an existing column is returned as
        it is. */
    method CreateColumn(name: string, index: Option<nat>, asis: bool) returns (r: Result<Column>)
      requires table.Valid()
      modifies this, table
      ensures table.Valid() && table.namespace == old(table.namespace) && excluded == old(excluded)
      ensures dependencyCounter == old(dependencyCounter) + 1
      ensures old(table.IsColumnPresent(name)) ==>
        table.columns == old(table.columns) && r == Ok(old(table.columns)[FindName(old(table.columns), name).value])
      ensures !old(table.IsColumnPresent(name)) && ValidName(name) ==>
        r == Ok(NewColumn(name, asis)) &&
        table.columns == InsertAt(old(table.columns), InsertPosition(old(table.columns), index), NewColumn(name, asis))
      ensures !old(table.IsColumnPresent(name)) && !ValidName(name) ==>
        r.Err? && r.error.AddColumnFailed? && table.columns == old(table.columns)
      ensures r.Ok? ==> r.value.name == name && table.IsColumnPresent(name)
    {
      dependencyCounter := dependencyCounter + 1;
      if table.IsColumnPresent(name) {
        return Ok(table.columns[FindName(table.columns, name).value]);
      }
      var column := NewColumn(name, asis);
      var error := table.AddColumn(column, index);
      if error.Some? {
        return Err(AddColumnFailed(error.value));
      }
      assert table.columns[InsertPosition(old(table.columns), index)] == column;
      FindNoneIffAbsent(table.columns, name);
      assert Names(table.columns)[InsertPosition(old(table.columns), index)] == name;
      return Ok(column);
    }

    /** A column the id does not designate is no error: nothing changes. A
        deletion bumps the counter. */
    method DeleteColumn(id: ColumnId)
      requires table.Valid()
      modifies this, table
      ensures table.Valid() && table.namespace == old(table.namespace) && excluded == old(excluded)
      ensures (forall k: nat :: !Designates(old(table.columns), id, k)) ==>
        table.columns == old(table.columns) && dependencyCounter == old(dependencyCounter)
      ensures forall k: nat :: Designates(old(table.columns), id, k) ==>
        table.columns == old(table.columns[..k] + table.columns[k + 1..]) && dependencyCounter == old(dependencyCounter) + 1
      ensures id.ByName? ==> !table.IsColumnPresent(id.name)
    {
      var column := GetColumn(id, false);
      if column.value.Some? {
        var k := Locate(id).value;
        ghost var before := table.columns;
        table.DeleteColumn(k);
        if id.ByName? {
          forall i | 0 <= i < |table.columns| ensures table.columns[i].name != id.name {
            if i < k {
              assert table.columns[i] == before[i];
            } else {
              assert table.columns[i] == before[i + 1];
            }
          }
        }
        dependencyCounter := dependencyCounter + 1;
      }
    }

    /** Binds the named column's coerced cells under its name. */
    method AssignColumnVariable(name: string) returns (r: Outcome)
      modifies table
      ensures table.columns == old(table.columns)
      ensures old(GetColumnValues(name)).Ok? ==> r.Pass? && table.namespace == old(table.namespace)[name := old(GetColumnValues(name)).value]
      ensures old(GetColumnValues(name)).Err? ==> r == Fail(old(GetColumnValues(name)).error) && table.namespace == old(table.namespace)
    {
      var values := GetColumnValues(name);
      if values.Err? {
        return Fail(values.error);
      }
      table.namespace := table.namespace[name := values.value];
      return Pass;
    }

    /** Binds every column that is not skipped, in table order, stopping at
        the first column whose cells cannot be coerced. */
    method AssignColumnVariables(excludes: seq<string>) returns (r: Outcome)
      requires table.Valid()
      modifies table
      ensures table.columns == old(table.columns)
      ensures var s := Bind(old(table.columns), old(table.namespace), excludes, |old(table.columns)|);
        table.namespace == s.namespace && (r.Pass? <==> s.error.None?) && (r.Fail? ==> s.error == Some(r.error))
    {
      var cols := table.columns;
      ghost var ns := table.namespace;
      var i := 0;
      while i < |cols|
        invariant 0 <= i <= |cols|
        invariant table.columns == cols
        invariant Bind(cols, ns, excludes, i) == BindState(table.namespace, None)
      {
        var name := cols[i].name;
        if name !in excludes {
          FindDistinct(cols, i);
          r := AssignColumnVariable(name);
          if r.Fail? {
            BindFrozen(cols, ns, excludes, i + 1, |cols|);
            return;
          }
        }
        i := i + 1;
      }
      return Pass;
    }

    /** One turn of the loop of `UpdateTableCellsAndColumnVariables`, on the
        column at position k. */
    method SyncColumn(k: nat, excludes: seq<string>) returns (error: Option<Failure>)
      requires table.Valid() && k < |table.columns|
      modifies table
      ensures table.Valid()
      ensures SyncState(table.columns, table.namespace, error) ==
        SyncStep(SyncState(old(table.columns), old(table.namespace), None), k, excludes, excluded)
    {
      var name := table.columns[k].name;
      FindDistinct(table.columns, k);
      error := None;
      if name !in excludes {
        if name in table.namespace {
          SetColumnValues(name, table.namespace[name]);
        } else {
          var values := GetColumnValues(name);
          if values.Err? {
            return Some(values.error);
          }
          table.namespace := table.namespace[name := values.value];
        }
      }
    }

    /** The reconciliation step: in table order, each column that is not
        skipped has its namespace value written back into it (subject to
        `SetColumnValues`), or, when its name is unbound, has its coerced
        cells bound in the namespace. */
    method UpdateTableCellsAndColumnVariables(excludes: seq<string>) returns (r: Outcome)
      requires table.Valid()
      modifies table
      ensures table.Valid()
      ensures var s := Sync(old(table.columns), old(table.namespace), excludes, excluded, |old(table.columns)|);
        table.columns == s.columns && table.namespace == s.namespace &&
        (r.Pass? <==> s.error.None?) && (r.Fail? ==> s.error == Some(r.error))
    {
      ghost var cols := table.columns;
      ghost var ns := table.namespace;
      var i := 0;
      while i < |table.columns|
        invariant 0 <= i <= |cols| == |table.columns|
        invariant table.Valid()
        invariant Sync(cols, ns, excludes, excluded, i) == SyncState(table.columns, table.namespace, None)
      {
        ghost var s := SyncState(table.columns, table.namespace, None);
        var error := SyncColumn(i, excludes);
        assert Sync(cols, ns, excludes, excluded, i + 1) == SyncStep(s, i, excludes, excluded);
        if error.Some? {
          SyncFrozen(cols, ns, excludes, excluded, i + 1, |cols|);
          return Fail(error.value);
        }
        i := i + 1;
      }
      return Pass;
    }
  }
}
