/** Cell values, columns, failures and the data-class coercion shared by the
    execution API and the column-variable snapshot. */
module Values {

  datatype Option<+T> = None | Some(value: T)

  /** Why an operation of the execution API stopped (the ValueError and
      KeyError raised by the API). */
  datatype Failure =
    | UnknownColumn(name: string)          // no column of the table carries this name
    | UnknownColumnIndex(index: int)       // no column sits at this 1-based position
    | UnusableColumnId                     // a column id that is neither a name nor a position
    | CoercionFailed(column: string)       // the column's data class refused the values
    | AddColumnFailed(reason: string)      // the table refused a new column
    | MissingFrameColumn(frameLabel: string)    // a dataframe has no column with this label

  datatype Result<+T> = Ok(value: T) | Err(error: Failure)

  datatype Outcome = Pass | Fail(error: Failure)

  /** A cell: a number, a piece of text or an empty cell. */
  datatype Value = Num(n: int) | Text(s: string) | Blank

  /** The data class a column declares for its cells. */
  datatype DataClass = AnyValues | Numbers

  /** A column of the table. `asis` switches coercion off for the column. */
  datatype Column = Column(name: string, cells: seq<Value>, dataClass: DataClass, asis: bool, visible: bool)

  /** `Column(name, asis=asis)`: no cells yet, visible, accepting any value. */
  function NewColumn(name: string, asis: bool): Column
  {
    Column(name, [], AnyValues, asis, true)
  }

  predicate IsNumeric(v: Value)
  {
    v.Num? || v.Blank?
  }

  predicate AllNumeric(values: seq<Value>)
  {
    forall i :: 0 <= i < |values| ==> IsNumeric(values[i])
  }

  /** `column.getDataClass().cons(values)`: converts values to the column's
      element type or refuses them. The data classes themselves are not part
      of this model; this stand-in leaves accepted values as they are. */
  function Coerce(c: Column, values: seq<Value>): (r: Result<seq<Value>>)
    ensures r.Ok? ==> r.value == values
    ensures r.Err? <==> !c.asis && c.dataClass.Numbers? && !AllNumeric(values)
    ensures r.Err? ==> r.error == CoercionFailed(c.name)
  {
    if c.asis || c.dataClass.AnyValues? || AllNumeric(values) then Ok(values)
    else Err(CoercionFailed(c.name))
  }

  /** The position of the first column named `name`, if any. */
  function FindName(cols: seq<Column>, name: string): (r: Option<nat>)
    ensures r.Some? ==> r.value < |cols| && cols[r.value].name == name
  {
    FindFrom(cols, name, 0)
  }

  /** The position of the first column from position i on named `name`. */
  function FindFrom(cols: seq<Column>, name: string, i: nat): (r: Option<nat>)
    requires i <= |cols|
    ensures r.Some? ==> i <= r.value < |cols| && cols[r.value].name == name
    decreases |cols| - i
  {
    if i == |cols| then None
    else if cols[i].name == name then Some(i)
    else FindFrom(cols, name, i + 1)
  }

  /** No two columns share a name. */
  predicate DistinctNames(cols: seq<Column>)
  {
    forall i, j :: 0 <= i < j < |cols| ==> cols[i].name != cols[j].name
  }

  predicate Distinct(s: seq<string>)
  {
    forall i, j :: 0 <= i < j < |s| ==> s[i] != s[j]
  }

  lemma DistinctAppend(s: seq<string>, x: string)
    requires Distinct(s) && x !in s
    ensures Distinct(s + [x])
  {
    var t := s + [x];
    forall i, j | 0 <= i < j < |t| ensures t[i] != t[j] {
      assert t[i] == s[i];
      if j < |s| {
        assert t[j] == s[j];
      }
    }
  }

  lemma DistinctSnoc(s: seq<string>, x: string)
    requires Distinct(s + [x])
    ensures Distinct(s) && x !in s
  {
    var t := s + [x];
    forall i, j | 0 <= i < j < |s| ensures s[i] != s[j] {
      assert s[i] == t[i] && s[j] == t[j];
    }
    forall i | 0 <= i < |s| ensures s[i] != x {
      assert s[i] == t[i] && x == t[|s|];
    }
  }

  function Names(cols: seq<Column>): seq<string>
  {
    seq(|cols|, i requires 0 <= i < |cols| => cols[i].name)
  }

  /** `FindName` gives the first column carrying the name, and finds nothing
      only when no column carries it. */
  lemma FindNameFirst(cols: seq<Column>, name: string)
    ensures FindName(cols, name).Some? ==> forall j :: 0 <= j < FindName(cols, name).value ==> cols[j].name != name
    ensures FindName(cols, name).None? ==> forall j :: 0 <= j < |cols| ==> cols[j].name != name
  {
    FindFromFirst(cols, name, 0);
  }

  lemma {:induction false} FindFromFirst(cols: seq<Column>, name: string, i: nat)
    requires i <= |cols|
    ensures FindFrom(cols, name, i).Some? ==> forall j :: i <= j < FindFrom(cols, name, i).value ==> cols[j].name != name
    ensures FindFrom(cols, name, i).None? ==> forall j :: i <= j < |cols| ==> cols[j].name != name
    decreases |cols| - i
  {
    if i < |cols| && cols[i].name != name {
      FindFromFirst(cols, name, i + 1);
    }
  }

  /** `FindName` finds nothing exactly when no column carries the name. */
  lemma FindNoneIffAbsent(cols: seq<Column>, name: string)
    ensures FindName(cols, name).None? <==> name !in Names(cols)
  {
    var r := FindName(cols, name);
    if r.Some? {
      assert Names(cols)[r.value] == name;
    } else {
      FindNameFirst(cols, name);
      forall i | 0 <= i < |cols| ensures Names(cols)[i] != name {
        assert Names(cols)[i] == cols[i].name;
      }
    }
  }

  /** A name is found exactly when it is one of the column names. */
  lemma FindIffPresent(cols: seq<Column>)
    ensures forall n :: FindName(cols, n).Some? <==> n in Names(cols)
  {
    forall n ensures FindName(cols, n).Some? <==> n in Names(cols) {
      FindNoneIffAbsent(cols, n);
    }
  }

  lemma FindDistinct(cols: seq<Column>, k: nat)
    requires DistinctNames(cols) && k < |cols|
    ensures FindName(cols, cols[k].name) == Some(k)
  {
    FindNameFirst(cols, cols[k].name);
  }

  predicate IsLetter(ch: char)
  {
    'a' <= ch <= 'z' || 'A' <= ch <= 'Z' || ch == '_'
  }

  predicate IsDigit(ch: char)
  {
    '0' <= ch <= '9'
  }

  /** A name the table accepts for a column: it must be usable as a variable
      of the namespace, so it has the shape of an identifier. */
  predicate ValidName(n: string)
  {
    |n| > 0 && IsLetter(n[0]) && forall k :: 0 <= k < |n| ==> IsLetter(n[k]) || IsDigit(n[k])
  }

  function InsertAt(cols: seq<Column>, p: nat, c: Column): (r: seq<Column>)
    requires p <= |cols|
  {
    cols[..p] + [c] + cols[p..]
  }

  lemma InsertKeepsDistinct(cols: seq<Column>, p: nat, c: Column)
    requires DistinctNames(cols) && p <= |cols|
    requires forall j :: 0 <= j < |cols| ==> cols[j].name != c.name
    ensures DistinctNames(InsertAt(cols, p, c))
  {
    var r := InsertAt(cols, p, c);
    forall i, j | 0 <= i < j < |r| ensures r[i].name != r[j].name {
      var i' := if i < p then i else i - 1;
      var j' := if j < p then j else j - 1;
      assert i < p ==> r[i] == cols[i'];
      assert i > p ==> r[i] == cols[i'];
      assert j < p ==> r[j] == cols[j'];
      assert j > p ==> r[j] == cols[j'];
    }
  }
}
