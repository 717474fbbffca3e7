/** The table the execution API works on. The table itself is an outside
    collaborator of the API; this module keeps only what the API relies on:
    an ordered sequence of uniquely named columns and the evaluation
    namespace that formulas read and write. */
module Tables {
  import opened Values

  /** Where `Table.addColumn` puts a new column: at the requested position,
      or at the end when no position is given or it lies past the end. */
  function InsertPosition(cols: seq<Column>, index: Option<nat>): (p: nat)
    ensures p <= |cols|
  {
    if index.Some? && index.value <= |cols| then index.value else |cols|
  }

  /** The error `Table.addColumn` reports, if any: a name that cannot be a
      namespace variable, or one that a column already carries. */
  function AddColumnError(cols: seq<Column>, name: string): Option<string>
  {
    if !ValidName(name) then Some("invalid column name")
    else if FindName(cols, name).Some? then Some("duplicate column name")
    else None
  }

  /** The columns after the ones at `positions` are hidden or unhidden. */
  function WithVisibility(cols: seq<Column>, positions: seq<nat>, visible: bool): seq<Column>
  {
    seq(|cols|, i requires 0 <= i < |cols| => if i in positions then cols[i].(visible := visible) else cols[i])
  }

  class Table {
    const name: string
    var columns: seq<Column>
    var namespace: map<string, seq<Value>>

    ghost predicate Valid()
      reads this
    {
      DistinctNames(columns)
    }

    constructor (name: string)
      ensures this.name == name && columns == [] && namespace == map[] && Valid()
    {
      this.name := name;
      columns := [];
      namespace := map[];
    }

    predicate IsColumnPresent(n: string)
      reads this
    {
      FindName(columns, n).Some?
    }

    method AddColumn(c: Column, index: Option<nat>) returns (error: Option<string>)
      requires Valid()
      modifies this
      ensures Valid() && namespace == old(namespace)
      ensures error == AddColumnError(old(columns), c.name)
      ensures columns == if error.None? then InsertAt(old(columns), InsertPosition(old(columns), index), c) else old(columns)
    {
      error := AddColumnError(columns, c.name);
      if error.None? {
        FindNameFirst(columns, c.name);
        InsertKeepsDistinct(columns, InsertPosition(columns, index), c);
        columns := InsertAt(columns, InsertPosition(columns, index), c);
      }
    }

    method DeleteColumn(k: nat)
      requires Valid() && k < |columns|
      modifies this
      ensures Valid() && namespace == old(namespace)
      ensures columns == old(columns[..k] + columns[k + 1..])
    {
      columns := columns[..k] + columns[k + 1..];
      forall i, j | 0 <= i < j < |columns| ensures columns[i].name != columns[j].name {
        var i' := if i < k then i else i + 1;
        var j' := if j < k then j else j + 1;
        assert columns[i] == old(columns[i']) && columns[j] == old(columns[j']);
      }
    }

    method UpdateColumn(k: nat, values: seq<Value>)
      requires Valid() && k < |columns|
      modifies this
      ensures Valid() && namespace == old(namespace)
      ensures columns == old(columns[k := columns[k].(cells := values)])
    {
      columns := columns[k := columns[k].(cells := values)];
    }

    /** `hideColumns` / `unhideColumns` on the columns at `positions`. */
    method SetVisibility(positions: seq<nat>, visible: bool)
      requires Valid()
      modifies this
      ensures Valid() && namespace == old(namespace)
      ensures columns == WithVisibility(old(columns), positions, visible)
    {
      columns := WithVisibility(columns, positions, visible);
    }
  }
}
