/** Generalizing quasi-identifier cells along declared hierarchies. */
module Hierarchies {
  import opened Results
  import opened EquivalenceClasses

  type Hierarchy = map<string, seq<string>>
  type Levels = seq<nat>

  datatype Table = Table(fields: set<string>, rows: seq<Row>) {
    predicate Valid() {
      forall r :: r in rows ==> r.Keys == fields
    }
  }

  datatype RecodingError = InvalidBounds | MissingColumns | NoRecords | HierarchyUncovered(column: string)
                         | DepthNotUniform(column: string) | NotSatisfiable | AuditRefused

  /** What both recoders work on once the input checks have passed: for every column, each value
      that occurs has exactly `depths` generalizations. */
  datatype Task = Task(rows: seq<Row>, columns: seq<string>, hierarchies: map<string, Hierarchy>, depths: Levels, k: nat) {

    ghost predicate Valid() {
      && |depths| == |columns|
      && (forall j :: 0 <= j < |columns| ==> columns[j] in hierarchies)
      && (forall i, j :: 0 <= i < |rows| && 0 <= j < |columns| ==> CellOk(i, j))
    }

    ghost predicate CellOk(i: nat, j: nat)
      requires i < |rows| && j < |columns| && |depths| == |columns| && columns[j] in hierarchies
    {
      && columns[j] in rows[i] && rows[i][columns[j]] in hierarchies[columns[j]]
      && |hierarchies[columns[j]][rows[i][columns[j]]]| == depths[j]
    }

    ghost predicate LevelsOk(levels: Levels) {
      |levels| == |columns| == |depths| && forall j :: 0 <= j < |columns| ==> levels[j] <= depths[j]
    }

    /** Row `i` with the first `n` columns generalized; a repeated column takes the last level set. */
    function Generalized(i: nat, levels: Levels, n: nat): Row
      requires Valid() && i < |rows| && LevelsOk(levels) && n <= |columns|
    {
      if n == 0 then rows[i]
      else
        var item, j := Generalized(i, levels, n - 1), n - 1;
        assert CellOk(i, j);
        if levels[j] == 0 then item
        else item[columns[j] := hierarchies[columns[j]][rows[i][columns[j]]][levels[j] - 1]]
    }

    lemma GeneralizedKeys(i: nat, levels: Levels, n: nat)
      requires Valid() && i < |rows| && LevelsOk(levels) && n <= |columns|
      ensures Generalized(i, levels, n).Keys == rows[i].Keys
    {
      if n > 0 {
        assert CellOk(i, n - 1);
        GeneralizedKeys(i, levels, n - 1);
      }
    }

    function Item(i: nat, levels: Levels): (item: Row)
      requires Valid() && i < |rows| && LevelsOk(levels)
      ensures item.Keys == rows[i].Keys
    {
      GeneralizedKeys(i, levels, |columns|);
      Generalized(i, levels, |columns|)
    }

    lemma ItemHasColumns(i: nat, levels: Levels)
      requires Valid() && i < |rows| && LevelsOk(levels)
      ensures forall j :: 0 <= j < |columns| ==> columns[j] in Item(i, levels)
    {
      forall j | 0 <= j < |columns| ensures columns[j] in Item(i, levels) {
        assert CellOk(i, j);
      }
    }

    /** The quasi-identifier tuple of record `i` once generalized. */
    function KeyOf(i: nat, levels: Levels): Key
      requires Valid() && i < |rows| && LevelsOk(levels)
    {
      seq(|columns|, j requires 0 <= j < |columns| => assert CellOk(i, j); Item(i, levels)[columns[j]])
    }
  }

  // ---------- What a level does to a cell ----------

  /** The source value itself, or the last of its first `level` generalizations. */
  ghost predicate CellAt(hierarchy: Hierarchy, source: string, level: nat, cell: string) {
    if level == 0 then cell == source
    else source in hierarchy && exists prefix: seq<string> :: |prefix| == level - 1 && prefix + [cell] <= hierarchy[source]
  }

  /** `item` is the source row with its quasi-identifiers at these levels, and nothing else changed. */
  ghost predicate IsGeneralization(columns: seq<string>, hierarchies: map<string, Hierarchy>, levels: Levels, source: Row, item: Row) {
    && |levels| == |columns| && item.Keys == source.Keys
    && (forall c :: c in source && c !in columns ==> item[c] == source[c])
    && forall j :: 0 <= j < |columns| ==>
         columns[j] in source && columns[j] in hierarchies
         && CellAt(hierarchies[columns[j]], source[columns[j]], levels[j], item[columns[j]])
  }

  lemma {:induction false} GeneralizedCells(t: Task, i: nat, levels: Levels, n: nat, c: string)
    requires t.Valid() && i < |t.rows| && t.LevelsOk(levels) && n <= |t.columns| && DistinctColumns(t.columns) && c in t.rows[i]
    ensures c in t.Generalized(i, levels, n)
    ensures c !in t.columns[..n] ==> t.Generalized(i, levels, n)[c] == t.rows[i][c]
    ensures forall j :: 0 <= j < n && t.columns[j] == c ==>
      c in t.hierarchies && CellAt(t.hierarchies[c], t.rows[i][c], levels[j], t.Generalized(i, levels, n)[c])
  {
    hide CellAt;
    t.GeneralizedKeys(i, levels, n);
    if n > 0 {
      var j := n - 1;
      GeneralizedCells(t, i, levels, j, c);
      assert t.columns[..n] == t.columns[..j] + [t.columns[j]];
      assert t.CellOk(i, j);
      if t.columns[j] == c {
        assert c !in t.columns[..j];
        CellRead(t.hierarchies[c], t.rows[i][c], levels[j]);
      }
    }
  }

  lemma CellRead(hierarchy: Hierarchy, source: string, level: nat)
    requires source in hierarchy && level <= |hierarchy[source]|
    ensures CellAt(hierarchy, source, level, if level == 0 then source else hierarchy[source][level - 1])
  {
    if level > 0 {
      assert hierarchy[source][..level - 1] + [hierarchy[source][level - 1]] == hierarchy[source][..level];
    }
  }

  lemma ItemIsGeneralization(t: Task, i: nat, levels: Levels)
    requires t.Valid() && i < |t.rows| && t.LevelsOk(levels) && DistinctColumns(t.columns)
    ensures IsGeneralization(t.columns, t.hierarchies, levels, t.rows[i], t.Item(i, levels))
  {
    hide CellAt, Task.Generalized;
    var n := |t.columns|;
    assert t.columns[..n] == t.columns;
    forall c | c in t.rows[i] && c !in t.columns ensures t.Item(i, levels)[c] == t.rows[i][c] {
      GeneralizedCells(t, i, levels, n, c);
    }
    forall j | 0 <= j < n
      ensures t.columns[j] in t.rows[i] && t.columns[j] in t.hierarchies
      ensures CellAt(t.hierarchies[t.columns[j]], t.rows[i][t.columns[j]], levels[j], t.Item(i, levels)[t.columns[j]])
    {
      assert t.CellOk(i, j);
      GeneralizedCells(t, i, levels, n, t.columns[j]);
    }
  }

  /** Covers every value of the column, with generalizations of one common depth. */
  method CheckColumn(rows: seq<Row>, column: string, hierarchies: map<string, Hierarchy>) returns (r: Result<nat, RecodingError>)
    requires rows != [] && forall x :: x in rows ==> column in x
    ensures r == ColumnDepth(rows, column, hierarchies)
  {
    if column !in hierarchies || hierarchies[column] == map[] {
      return Err(HierarchyUncovered(column));
    }
    var mapping := hierarchies[column];
    for i := 0 to |rows|
      invariant forall x :: x in rows[..i] ==> x[column] in mapping
    {
      if rows[i][column] !in mapping {
        assert rows[i] in rows;
        return Err(HierarchyUncovered(column));
      }
    }
    assert rows[..|rows|] == rows;
    var depth := |mapping[rows[0][column]]|;
    for i := 0 to |rows|
      invariant forall x :: x in rows[..i] ==> |mapping[x[column]]| == depth
    {
      if |mapping[rows[i][column]]| != depth {
        assert rows[i] in rows && rows[0] in rows;
        return Err(DepthNotUniform(column));
      }
    }
    assert rows[..|rows|] == rows;
    return Ok(depth);
  }

  function ColumnDepth(rows: seq<Row>, column: string, hierarchies: map<string, Hierarchy>): Result<nat, RecodingError>
    requires rows != [] && forall x :: x in rows ==> column in x
  {
    if column !in hierarchies || hierarchies[column] == map[] || exists x :: x in rows && x[column] !in hierarchies[column]
    then Err(HierarchyUncovered(column))
    else if forall x :: x in rows ==> |hierarchies[column][x[column]]| == |hierarchies[column][rows[0][column]]|
    then Ok(|hierarchies[column][rows[0][column]]|)
    else Err(DepthNotUniform(column))
  }

  /** The first of the first `n` columns whose hierarchy fails, if any. */
  function FirstColumnError(rows: seq<Row>, columns: seq<string>, hierarchies: map<string, Hierarchy>, n: nat): Option<RecodingError>
    requires rows != [] && n <= |columns| && forall x, j :: x in rows && 0 <= j < |columns| ==> columns[j] in x
  {
    if n == 0 then None
    else
      var earlier := FirstColumnError(rows, columns, hierarchies, n - 1);
      if earlier.Some? then earlier
      else match ColumnDepth(rows, columns[n - 1], hierarchies) case Err(e) => Some(e) case Ok(_) => None
  }

  lemma {:induction false} ColumnErrorPersists(rows: seq<Row>, columns: seq<string>, hierarchies: map<string, Hierarchy>, m: nat, n: nat)
    requires rows != [] && m <= n <= |columns| && forall x, j :: x in rows && 0 <= j < |columns| ==> columns[j] in x
    requires FirstColumnError(rows, columns, hierarchies, m).Some?
    ensures FirstColumnError(rows, columns, hierarchies, n) == FirstColumnError(rows, columns, hierarchies, m)
  {
    hide ColumnDepth;
    if m < n {
      ColumnErrorPersists(rows, columns, hierarchies, m, n - 1);
    }
  }

  /** Why an input is refused: the first check that fails, in their order. */
  ghost function InputRefusal(table: Table, columns: seq<string>, sensitive: string, hierarchies: map<string, Hierarchy>)
    : Option<RecodingError>
    requires table.Valid()
  {
    if sensitive !in table.fields || exists j :: 0 <= j < |columns| && columns[j] !in table.fields then Some(MissingColumns)
    else if table.rows == [] then Some(NoRecords)
    else FirstColumnError(table.rows, columns, hierarchies, |columns|)
  }

  /** What each error says about the input. */
  ghost predicate InputBlamed(e: RecodingError, table: Table, columns: seq<string>, sensitive: string,
                              hierarchies: map<string, Hierarchy>, k: nat) {
    match e
    case InvalidBounds => k < 2
    case MissingColumns => sensitive !in table.fields || exists c :: c in columns && c !in table.fields
    case NoRecords => table.rows == []
    case HierarchyUncovered(c) =>
      c in columns && (c !in hierarchies || exists x :: x in table.rows && c in x && x[c] !in hierarchies[c])
    case DepthNotUniform(c) =>
      c in columns && c in hierarchies && exists x, y ::
        x in table.rows && y in table.rows && c in x && c in y && x[c] in hierarchies[c] && y[c] in hierarchies[c]
        && |hierarchies[c][x[c]]| != |hierarchies[c][y[c]]|
    case AuditRefused => columns == [] || !DistinctColumns(columns)
    case NotSatisfiable => true
  }

  lemma {:induction false} ColumnIsBlamed(table: Table, columns: seq<string>, sensitive: string,
                                          hierarchies: map<string, Hierarchy>, k: nat, n: nat)
    requires table.rows != [] && n <= |columns| && forall x, j :: x in table.rows && 0 <= j < |columns| ==> columns[j] in x
    requires FirstColumnError(table.rows, columns, hierarchies, n).Some?
    ensures InputBlamed(FirstColumnError(table.rows, columns, hierarchies, n).value, table, columns, sensitive, hierarchies, k)
  {
    hide ColumnDepth, InputBlamed;
    if FirstColumnError(table.rows, columns, hierarchies, n - 1).Some? {
      ColumnIsBlamed(table, columns, sensitive, hierarchies, k, n - 1);
    } else {
      DepthIsBlamed(table, columns, sensitive, hierarchies, k, n - 1);
    }
  }

  lemma DepthIsBlamed(table: Table, columns: seq<string>, sensitive: string, hierarchies: map<string, Hierarchy>, k: nat, j: nat)
    requires table.rows != [] && j < |columns| && forall x :: x in table.rows ==> columns[j] in x
    requires ColumnDepth(table.rows, columns[j], hierarchies).Err?
    ensures InputBlamed(ColumnDepth(table.rows, columns[j], hierarchies).error, table, columns, sensitive, hierarchies, k)
  {
    var x := table.rows[0];
    assert x in table.rows && columns[j] in x && columns[j] in columns;
  }

  lemma RefusalIsBlamed(table: Table, columns: seq<string>, sensitive: string, hierarchies: map<string, Hierarchy>, k: nat)
    requires table.Valid() && InputRefusal(table, columns, sensitive, hierarchies).Some?
    ensures InputBlamed(InputRefusal(table, columns, sensitive, hierarchies).value, table, columns, sensitive, hierarchies, k)
  {
    hide FirstColumnError;
    if sensitive in table.fields && (forall j :: 0 <= j < |columns| ==> columns[j] in table.fields) && table.rows != [] {
      ColumnIsBlamed(table, columns, sensitive, hierarchies, k, |columns|);
    }
  }

  /** What an accepted input asks for: its hierarchies, with the depth of every column. */
  ghost predicate IsTaskOf(t: Task, table: Table, columns: seq<string>, hierarchies: map<string, Hierarchy>, k: nat) {
    && t.Valid() && t.rows == table.rows != [] && t.columns == columns && t.hierarchies == hierarchies && t.k == k
  }

  /** The rows fix the depths, so there is one such task. */
  lemma TaskIsUnique(t: Task, t': Task, table: Table, columns: seq<string>, hierarchies: map<string, Hierarchy>, k: nat)
    requires IsTaskOf(t, table, columns, hierarchies, k) && IsTaskOf(t', table, columns, hierarchies, k)
    ensures t == t'
  {
    forall j | 0 <= j < |columns| ensures t.depths[j] == t'.depths[j] {
      assert t.CellOk(0, j) && t'.CellOk(0, j);
    }
  }

  /** The input checks shared by both recoders. */
  method Prepare(table: Table, columns: seq<string>, sensitive: string, hierarchies: map<string, Hierarchy>, k: nat)
    returns (r: Result<Task, RecodingError>)
    requires table.Valid()
    ensures match InputRefusal(table, columns, sensitive, hierarchies)
      case Some(e) => r == Err(e)
      case None => r.Ok? && IsTaskOf(r.value, table, columns, hierarchies, k)
    ensures r.Ok? ==> sensitive in table.fields
    ensures r.Err? ==> InputBlamed(r.error, table, columns, sensitive, hierarchies, k)
  {
    hide ColumnDepth;
    if sensitive !in table.fields || exists j :: 0 <= j < |columns| && columns[j] !in table.fields {
      return Err(MissingColumns);
    }
    if table.rows == [] {
      return Err(NoRecords);
    }
    var depths: Levels := [];
    for j := 0 to |columns|
      invariant |depths| == j && FirstColumnError(table.rows, columns, hierarchies, j) == None
      invariant forall c :: 0 <= c < j ==> ColumnDepth(table.rows, columns[c], hierarchies) == Ok(depths[c])
    {
      var depth := CheckColumn(table.rows, columns[j], hierarchies);
      if depth.Err? {
        ColumnErrorPersists(table.rows, columns, hierarchies, j + 1, |columns|);
        RefusalIsBlamed(table, columns, sensitive, hierarchies, k);
        return Err(depth.error);
      }
      depths := depths + [depth.value];
    }
    r := Ok(Task(table.rows, columns, hierarchies, depths, k));
    DepthsFit(r.value);
  }

  lemma DepthsFit(t: Task)
    requires t.rows != [] && |t.depths| == |t.columns|
    requires forall x, j :: x in t.rows && 0 <= j < |t.columns| ==> t.columns[j] in x
    requires forall j :: 0 <= j < |t.columns| ==> ColumnDepth(t.rows, t.columns[j], t.hierarchies) == Ok(t.depths[j])
    ensures t.Valid()
  {
    forall i, j | 0 <= i < |t.rows| && 0 <= j < |t.columns| ensures t.columns[j] in t.hierarchies && t.CellOk(i, j) {
      assert t.rows[i] in t.rows;
    }
    forall j | 0 <= j < |t.columns| ensures t.columns[j] in t.hierarchies {
      assert t.rows[0] in t.rows;
    }
  }
}
