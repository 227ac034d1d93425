/**
 * The legacy SELECT planner.  It shares the select-list, GROUP BY and aggregate-split
 * logic of the newer one with three differences: names are used as written (no
 * `to_internal_col`), GROUP BY has no positional entries and `count(*)` is not
 * rewritten.  It reads a single table reference, ignores WHERE, HAVING, LIMIT, OFFSET
 * and the set quantifier, sorts only by names and always sorts descending.
 */
module Query {
  import opened Wrappers
  import opened Ast
  import opened Columns
  import opened SplitResults
  import opened Planner
  import opened Backend

  // ---------------------------------------------------------------------------
  // FROM

  /** A FROM entry: only a table reference has a rule. */
  function EvaluateTable(t: TableExpr): Res<Table> {
    if t.TableRef? then Ok(Source(RefName(t.schema, t.name), t.alias)) else Err(NoHandler)
  }

  /** Every FROM entry evaluated, in order; the first failure wins. */
  function EvaluateAll(tables: seq<TableExpr>): (r: Res<seq<Table>>)
    ensures r.Ok? ==> |r.value| == |tables|
    ensures r.Ok? ==> forall i :: 0 <= i < |tables| ==> EvaluateTable(tables[i]) == Ok(r.value[i])
    ensures r.Err? <==> exists i :: 0 <= i < |tables| && !tables[i].TableRef?
  {
    if tables == [] then Ok([])
    else
      var first :- EvaluateTable(tables[0]);
      var rest :- EvaluateAll(tables[1..]);
      assert forall i :: 0 < i < |tables| ==> tables[i] == tables[1..][i - 1];
      Ok([first] + rest)
  }

  /** `execute_ast_from_clause`: all entries evaluated, then exactly one is required. */
  function ExecuteFromClause(tables: seq<TableExpr>): Res<Table> {
    var ts :- EvaluateAll(tables);
    if |ts| == 0 then Err(NotImplemented)
    else if |ts| > 1 then Err(NotImplemented)
    else Ok(ts[0])
  }

  /** The legacy FROM clause accepts exactly one table reference, and reads that table. */
  lemma FromClauseSingle(tables: seq<TableExpr>)
    ensures ExecuteFromClause(tables).Ok? <==> |tables| == 1 && tables[0].TableRef?
    ensures ExecuteFromClause(tables).Ok? ==>
              ExecuteFromClause(tables).value == Source(RefName(tables[0].schema, tables[0].name), tables[0].alias)
  {
    if |tables| == 1 && tables[0].TableRef? {
      assert EvaluateAll(tables).Ok?;
    }
  }

  // ---------------------------------------------------------------------------
  // ORDER BY

  /** The ORDER BY keys the legacy `sort` accepts: a name, ascending or descending. */
  predicate SortableKey(o: OrderBy) {
    o.value.Name? && (o.order == "desc" || o.order == "asc")
  }

  /** The column a name key resolves to. */
  function SortName(columns: seq<string>, o: OrderBy): Res<string> {
    if o.value.Name? && o.value.name.Str? then
      var c :- NormalizeColRef(o.value.name.s, columns, false);
      if c.Some? then Ok(c.value) else Err(ColumnNotFound)
    else Err(NotAString)
  }

  function SortNames(columns: seq<string>, values: seq<OrderBy>): (r: Res<seq<string>>)
    ensures r.Ok? ==> |r.value| == |values|
    ensures r.Ok? ==> forall i :: 0 <= i < |values| ==> SortName(columns, values[i]) == Ok(r.value[i])
    ensures r.Err? <==> exists i :: 0 <= i < |values| && SortName(columns, values[i]).Err?
    decreases |values|
  {
    if values == [] then Ok([])
    else
      var name :- SortName(columns, values[0]);
      var rest :- SortNames(columns, values[1..]);
      assert forall i :: 1 <= i < |values| ==> values[i] == values[1..][i - 1];
      Ok([name] + rest)
  }

  /**
   * The legacy `sort`, as a value: the directions are collected but never passed on;
   * every sort is descending.
   */
  function SortSpec(env: Env, t: Table, values: seq<OrderBy>): Res<Table> {
    if exists i :: 0 <= i < |values| && !SortableKey(values[i]) then Err(CannotSort)
    else
      var names :- SortNames(env.columnsOf(t), values);
      Ok(SortValues(t, names, Uniform(false)))
  }

  /** Two ORDER BY lists that differ at most in their directions. */
  predicate SameKeys(a: seq<OrderBy>, b: seq<OrderBy>) {
    |a| == |b| && forall i :: 0 <= i < |a| ==> a[i].value == b[i].value
  }

  /**
   * The legacy sort resolves one name per key and sorts descending whatever the keys
   * say: changing `asc` to `desc` or back does not change the result.  A positional key
   * is refused.
   */
  lemma SortIgnoresDirection(env: Env, t: Table, a: seq<OrderBy>, b: seq<OrderBy>)
    requires SameKeys(a, b)
    requires forall i :: 0 <= i < |a| ==> (a[i].order == "asc" || a[i].order == "desc") && (b[i].order == "asc" || b[i].order == "desc")
    ensures SortSpec(env, t, a) == SortSpec(env, t, b)
    ensures SortSpec(env, t, a).Ok? ==>
              && SortSpec(env, t, a).value.ascending == Uniform(false)
              && |SortSpec(env, t, a).value.names| == |a|
              && forall i :: 0 <= i < |a| ==>
                   a[i].value.name.Str? &&
                   NormalizeColRef(a[i].value.name.s, env.columnsOf(t), false) == Ok(Some(SortSpec(env, t, a).value.names[i]))
    ensures (exists i :: 0 <= i < |a| && a[i].value.Integer?) ==> SortSpec(env, t, a) == Err(CannotSort)
  {
    assert forall i :: 0 <= i < |a| ==> SortableKey(a[i]) == SortableKey(b[i]);
    assert forall i :: 0 <= i < |a| ==> SortName(env.columnsOf(t), a[i]) == SortName(env.columnsOf(t), b[i]);
    SortNamesSameKeys(env.columnsOf(t), a, b);
  }

  lemma {:induction false} SortNamesSameKeys(columns: seq<string>, a: seq<OrderBy>, b: seq<OrderBy>)
    requires SameKeys(a, b)
    ensures SortNames(columns, a) == SortNames(columns, b)
    decreases |a|
  {
    if a != [] {
      assert SortName(columns, a[0]) == SortName(columns, b[0]);
      SortNamesSameKeys(columns, a[1..], b[1..]);
    }
  }

  /** Names already collected, in front of the names of the remaining keys. */
  function Prefix(names: seq<string>, rest: Res<seq<string>>): Res<seq<string>> {
    match rest
    case Ok(more) => Ok(names + more)
    case Err(e) => Err(e)
  }

  /** One resolved name taken off the front of the remaining keys. */
  lemma SortNamesStep(columns: seq<string>, values: seq<OrderBy>, i: nat, names: seq<string>, name: string)
    requires i < |values| && SortName(columns, values[i]) == Ok(name)
    ensures Prefix(names, SortNames(columns, values[i..])) == Prefix(names + [name], SortNames(columns, values[i + 1..]))
  {
    assert values[i..][0] == values[i] && values[i..][1..] == values[i + 1..];
    var tail := SortNames(columns, values[i + 1..]);
    if tail.Ok? {
      assert names + ([name] + tail.value) == (names + [name]) + tail.value;
    }
  }

  /** The legacy `sort`: the keys checked, then the names collected key by key. */
  method Sort(env: Env, t: Table, values: seq<OrderBy>) returns (r: Res<Table>)
    ensures r == SortSpec(env, t, values)
  {
    if exists i :: 0 <= i < |values| && !SortableKey(values[i]) {
      return Err(CannotSort);
    }
    var columns := env.columnsOf(t);
    var names: seq<string> := [];
    var ascending: seq<bool> := [];
    assert values[0..] == values;
    ghost var whole := SortNames(columns, values);
    if whole.Ok? {
      assert [] + whole.value == whole.value;
    }
    for i := 0 to |values|
      invariant whole == Prefix(names, SortNames(columns, values[i..]))
    {
      var name := SortName(columns, values[i]);
      if name.Err? {
        assert values[i..][0] == values[i];
        return Err(name.error);
      }
      SortNamesStep(columns, values, i, names, name.value);
      names := names + [name.value];
      ascending := ascending + [values[i].order == "asc"];
    }
    assert values[|values|..] == [];
    assert names + [] == names;
    return Ok(SortValues(t, names, Uniform(false)));
  }

  // ---------------------------------------------------------------------------
  // SELECT

  /**
   * The legacy grouped projection: GROUP BY normalised without positions, every column
   * split without the `count(*)` rewrite, then the three stages over the split lists
   * as they come, without normalising them again.
   */
  function Grouped(env: Env, t: Table, columns: seq<Expr>, groupBy: seq<Expr>, next: nat): Res<(Table, nat)> {
    var (keys, n1) :- NormalizeGroupBySpec(env.columnsOf(t), columns, Some(groupBy), next, Raw, false);
    var (split, n2) :- SplitAll(columns, keys, n1, Raw, false);
    var levels :- ByLevelsSpec(split, 2);
    var pre := Transform(t, levels[2] + GroupColumns(keys));
    var agg := Aggregate(pre, levels[1], GroupColumns(keys));
    Ok((Transform(agg, levels[0]), n2))
  }

  /** The legacy `execute_ast_select`, as a value. */
  function SelectSpec(env: Env, node: Select, next: nat): Res<(Table, nat)> {
    var table :- if node.fromClause.None? then Ok(Dual) else ExecuteFromClause(node.fromClause.value);
    var (columns, n1) :- NormalizeColumnsSpec(env.columnsOf(table), node.columns, next, Raw);
    var (projected, n2) :- if node.groupBy.Some? then Grouped(env, table, columns, node.groupBy.value, n1)
                           else Ok((Transform(table, columns), n1));
    var sorted :- if node.orderBy.Some? then SortSpec(env, projected, node.orderBy.value) else Ok(projected);
    Ok((sorted, n2))
  }

  /** The clauses the legacy planner reads. */
  function Read(node: Select): Select {
    node.(whereClause := None, having := None, limit := None, offset := None, quantifier := None)
  }

  /** WHERE, HAVING, LIMIT, OFFSET and the set quantifier make no difference to the legacy plan. */
  lemma SelectIgnoresClauses(env: Env, node: Select, other: Select, next: nat)
    requires Read(node) == Read(other)
    ensures SelectSpec(env, node, next) == SelectSpec(env, other, next)
  {
    assert node.fromClause == other.fromClause && node.columns == other.columns;
    assert node.groupBy == other.groupBy && node.orderBy == other.orderBy;
  }

  /**
   * Without GROUP BY the legacy plan is one transform of the normalised select list,
   * aggregates or not: there is no implicit grouping.
   */
  lemma SelectWithoutGroupBy(env: Env, node: Select, next: nat)
    requires node.groupBy.None? && node.orderBy.None?
    requires SelectSpec(env, node, next).Ok?
    ensures var table := if node.fromClause.None? then Dual else ExecuteFromClause(node.fromClause.value).value;
            var (columns, n1) := NormalizeColumnsSpec(env.columnsOf(table), node.columns, next, Raw).value;
            SelectSpec(env, node, next) == Ok((Transform(table, columns), n1))
  {
  }

  /**
   * A legacy GROUP BY entry that is a number is an expression like any other: it is
   * grouped under a fresh handle, not read as a select-list position.
   */
  lemma GroupByNumberIsExpression(tableColumns: seq<string>, columns: seq<Expr>, n: nat, next: nat)
    requires AliasMap(columns).Ok?
    ensures NormalizeGroupBySpec(tableColumns, columns, Some([Integer(n)]), next, Raw, false) ==
            Ok(([GroupKey(Integer(n), Uniq(next))], next + 1))
  {
    var aliases := AliasMap(columns).value;
    assert [Integer(n)][1..] == [];
    assert MatchGroup(tableColumns, aliases, Integer(n), next, Raw) == Ok((GroupKey(Integer(n), Uniq(next)), next + 1));
    assert MatchAll(tableColumns, aliases, [], next + 1, Raw) == Ok(([], next + 1));
    assert [GroupKey(Integer(n), Uniq(next))] + [] == [GroupKey(Integer(n), Uniq(next))];
  }

  /** The legacy `execute_ast_select`: the table reassigned stage by stage. */
  method ExecuteSelect(env: Env, node: Select, next: nat) returns (r: Res<(Table, nat)>)
    ensures r == SelectSpec(env, node, next)
  {
    var table: Table;
    if node.fromClause.None? {
      table := Dual;
    } else {
      var from := ExecuteFromClause(node.fromClause.value);
      if from.Err? {
        return Err(from.error);
      }
      table := from.value;
    }
    var normalized := NormalizeColumns(env.columnsOf(table), node.columns, next, Raw);
    if normalized.Err? {
      return Err(normalized.error);
    }
    var columns := normalized.value.0;
    var n := normalized.value.1;
    if node.groupBy.Some? {
      var keysR := NormalizeGroupBy(env.columnsOf(table), columns, node.groupBy, n, Raw, false);
      if keysR.Err? {
        return Err(keysR.error);
      }
      var (keys, n1) := keysR.value;
      var splitR := SplitAll(columns, keys, n1, Raw, false);
      if splitR.Err? {
        return Err(splitR.error);
      }
      var levelsR := ByLevels(splitR.value.0, 2);
      if levelsR.Err? {
        return Err(levelsR.error);
      }
      var levels := levelsR.value;
      table := Transform(table, levels[2] + GroupColumns(keys));
      table := Aggregate(table, levels[1], GroupColumns(keys));
      table := Transform(table, levels[0]);
      n := splitR.value.1;
    } else {
      table := Transform(table, columns);
    }
    if node.orderBy.Some? {
      var sorted := Sort(env, table, node.orderBy.value);
      if sorted.Err? {
        return Err(sorted.error);
      }
      table := sorted.value;
    }
    return Ok((table, n));
  }

  // ---------------------------------------------------------------------------
  // SHOW

  /** The legacy `execute_show`: a fresh one-row frame holding the option's value. */
  function ExecuteShow(args: seq<string>): (r: Res<Table>)
    ensures r.Ok? <==> args == ["transaction", "isolation", "level"] || args == ["standard_conforming_strings"]
    ensures r.Ok? ==> r.value == Frame("value", ShowValue(args).value)
  {
    var value :- ShowValue(args);
    Ok(Frame("value", value))
  }
}
