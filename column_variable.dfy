/** The snapshot a column keeps across recalculation passes. A column
    variable wraps one column of a table; its current value is the
    namespace binding of the column's name, which formulas and user code
    write. Two snapshots are compared with it: the baseline captured when the
    variable was made, and the value at the start of the current iteration. */
module ColumnVariables {
  import opened Values
  import opened Tables

  /** A value counts as changed from a snapshot unless the snapshot was
      taken and holds exactly that value. */
  predicate ChangedFrom(snapshot: Option<seq<Value>>, current: seq<Value>)
  {
    snapshot != Some(current)
  }

  class ColumnVariable {
    const table: Table
    /** The wrapped column, which a valid table identifies by its name. */
    const name: string
    var baselineValue: seq<Value>
    /** None until `SetIterationStartValue` is first called. */
    var iterationStartValue: Option<seq<Value>>

    /** The wrapped column is still in the table. */
    ghost predicate Valid()
      reads this, table
    {
      table.Valid() && table.IsColumnPresent(name)
    }

    constructor (table: Table, column: Column)
      requires table.Valid() && column in table.columns
      ensures this.table == table && name == column.name
      ensures Valid() && ColumnValue() == column.cells
      ensures baselineValue == column.cells && iterationStartValue == None
      ensures name in table.namespace && table.namespace[name] == column.cells ==> IsChangedFromBaselineValue() == Some(false)
    {
      this.table := table;
      name := column.name;
      baselineValue := column.cells;
      iterationStartValue := None;
      new;
      var k :| 0 <= k < |table.columns| && table.columns[k] == column;
      FindDistinct(table.columns, k);
    }

    /** The cells of the wrapped column. */
    function ColumnValue(): (r: seq<Value>)
      requires Valid()
      reads this, table
      ensures exists k :: 0 <= k < |table.columns| && table.columns[k].name == name && r == table.columns[k].cells
    {
      table.columns[FindName(table.columns, name).value].cells
    }

    /** The namespace binding of the column's name, if there is one. */
    function NamespaceValue(): (r: Option<seq<Value>>)
      reads this, table
      ensures r.Some? <==> name in table.namespace
      ensures r.Some? ==> r.value == table.namespace[name]
    {
      if name in table.namespace then Some(table.namespace[name]) else None
    }

    /** Whether the current value differs from the baseline; None while the
        name is unbound. */
    function IsChangedFromBaselineValue(): (r: Option<bool>)
      reads this, table
      ensures r.None? <==> name !in table.namespace
      ensures r == Some(false) <==> name in table.namespace && table.namespace[name] == baselineValue
    {
      match NamespaceValue()
      case None => None
      case Some(v) => Some(ChangedFrom(Some(baselineValue), v))
    }

    /** Whether the current value differs from the iteration-start snapshot;
        None while the name is unbound. Before any snapshot the value counts
        as changed. */
    function IsChangedFromIterationStartValue(): (r: Option<bool>)
      reads this, table
      ensures r.None? <==> name !in table.namespace
      ensures r == Some(false) <==> name in table.namespace && iterationStartValue == Some(table.namespace[name])
    {
      match NamespaceValue()
      case None => None
      case Some(v) => Some(ChangedFrom(iterationStartValue, v))
    }

    /** Writes the namespace binding into the column's cells; other columns,
        the namespace and the snapshots stay as they are. */
    method SetColumnValue() returns (ok: bool)
      requires Valid()
      modifies table
      ensures Valid() && table.namespace == old(table.namespace)
      ensures ok <==> name in table.namespace
      ensures ok ==> ColumnValue() == table.namespace[name]
      ensures ok ==> var k := FindName(old(table.columns), name).value;
        table.columns == old(table.columns)[k := old(table.columns)[k].(cells := table.namespace[name])]
      ensures |table.columns| == |old(table.columns)|
      ensures forall j :: 0 <= j < |table.columns| && table.columns[j].name != name ==> table.columns[j] == old(table.columns[j])
      ensures !ok ==> table.columns == old(table.columns)
    {
      ok := name in table.namespace;
      if ok {
        var k := FindName(table.columns, name).value;
        table.UpdateColumn(k, table.namespace[name]);
        FindDistinct(table.columns, k);
      }
    }

    /** Takes the current value as the iteration-start snapshot. */
    method SetIterationStartValue()
      modifies this
      ensures iterationStartValue == old(NamespaceValue())
      ensures baselineValue == old(baselineValue)
      ensures name in table.namespace ==> IsChangedFromIterationStartValue() == Some(false)
      ensures IsChangedFromBaselineValue() == old(IsChangedFromBaselineValue())
    {
      iterationStartValue := NamespaceValue();
    }
  }

  /** A new value is written into the namespace, the iteration is started,
      the column takes the value and the baseline is moved to the column's
      value: the variable reports unchanged, changed, then unchanged again.
      Starting the iteration does not reset the baseline. */
  method BaselineScenario(cv: ColumnVariable, newValue: seq<Value>) returns (atStart: Option<bool>, afterWrite: Option<bool>, afterReset: Option<bool>)
    requires cv.Valid() && cv.name in cv.table.namespace
    requires cv.table.namespace[cv.name] == cv.baselineValue && newValue != cv.baselineValue
    modifies cv, cv.table
    ensures atStart == Some(false) && afterWrite == Some(true) && afterReset == Some(false)
    ensures cv.Valid() && cv.ColumnValue() == newValue && cv.baselineValue == newValue
  {
    atStart := cv.IsChangedFromBaselineValue();
    cv.table.namespace := cv.table.namespace[cv.name := newValue];
    cv.SetIterationStartValue();
    afterWrite := cv.IsChangedFromBaselineValue();
    var ok := cv.SetColumnValue();
    cv.baselineValue := cv.ColumnValue();
    afterReset := cv.IsChangedFromBaselineValue();
  }

  /** The iteration is started, a new value is written into the namespace and
      the iteration is started again: the variable reports unchanged, changed,
      then unchanged again. */
  method IterationScenario(cv: ColumnVariable, newValue: seq<Value>) returns (atStart: Option<bool>, afterWrite: Option<bool>, afterRestart: Option<bool>)
    requires cv.name in cv.table.namespace && newValue != cv.table.namespace[cv.name]
    modifies cv, cv.table
    ensures atStart == Some(false) && afterWrite == Some(true) && afterRestart == Some(false)
    ensures cv.iterationStartValue == Some(newValue)
  {
    cv.SetIterationStartValue();
    atStart := cv.IsChangedFromIterationStartValue();
    cv.table.namespace := cv.table.namespace[cv.name := newValue];
    afterWrite := cv.IsChangedFromIterationStartValue();
    cv.SetIterationStartValue();
    afterRestart := cv.IsChangedFromIterationStartValue();
  }

  /** Whatever was bound, after the namespace entry is set and the column
      takes it, the column holds the new value. */
  method ColumnValueScenario(cv: ColumnVariable, newValue: seq<Value>) returns (observed: seq<Value>)
    requires cv.Valid()
    modifies cv.table
    ensures observed == newValue && cv.Valid()
    ensures cv.table.namespace == old(cv.table.namespace)[cv.name := newValue]
  {
    cv.table.namespace := cv.table.namespace[cv.name := newValue];
    var ok := cv.SetColumnValue();
    observed := cv.ColumnValue();
  }
}
