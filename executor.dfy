/**
 * The newer SELECT executor: the FROM clause folded left to right into joins, then the
 * select list normalised, rows filtered, grouped or projected, sorted, limited and
 * de-duplicated, each stage recorded as a backend operation; SHOW, and DROP TABLE and
 * CREATE TABLE AS on the table scope.
 */
module Executor {
  import opened Wrappers
  import opened Ast
  import opened Text
  import opened Columns
  import opened SplitResults
  import opened Planner
  import opened Backend

  // ---------------------------------------------------------------------------
  // FROM

  /**
   * A FROM entry on its own: a table reference is looked up by name, a table function is
   * evaluated, an explicit join joins its two sides; there is no rule for a lateral
   * entry in this position.
   */
  function ExecuteTable(t: TableExpr): (r: Res<Table>)
    decreases t
  {
    match t
    case TableRef(schema, name, alias) => Ok(Source(RefName(schema, name), alias))
    case TableFunction(func, args, _) => Ok(TableValued(func, args))
    case JoinExpr(left, right, on, how) =>
      var l :- ExecuteTable(left);
      var r :- ExecuteTable(right);
      Ok(Join(l, r, on, how))
    case Lateral(_) => Err(NoHandler)
  }

  /** The condition a FROM entry is joined on: the WHERE conjuncts for it, or `1 = 1`. */
  function JoinOn(env: Env, whereClause: Option<Expr>, left: Table, right: Table): Expr {
    if whereClause.Some? then env.joinCondition(whereClause.value, env.columnsOf(left), env.columnsOf(right))
    else BinaryOp("=", Integer(1), Integer(1))
  }

  /**
   * One further FROM entry applied to the tables so far: a lateral table function is
   * applied row-wise under its alias or a fresh handle; anything else is inner-joined.
   * A lateral entry over something other than a table function fails while its error
   * message is being formatted, on an attribute the statement does not have.
   */
  function FromStep(env: Env, current: Table, other: TableExpr, whereClause: Option<Expr>, next: nat)
    : (r: Res<(Table, nat)>)
  {
    if other.Lateral? then
      if !other.table.TableFunction? then Err(MissingAttribute)
      else
        var f := other.table;
        var (alias, n) := if f.falias.None? then (Uniq(next), next + 1) else (f.falias.value, next);
        Ok((LateralJoin(current, f.func, f.args, alias), n))
    else
      var right :- ExecuteTable(other);
      Ok((Join(current, right, JoinOn(env, whereClause, current, right), "inner"), next))
  }

  /** The remaining FROM entries applied in order. */
  function FoldFrom(env: Env, current: Table, rest: seq<TableExpr>, whereClause: Option<Expr>, next: nat)
    : (r: Res<(Table, nat)>)
    decreases |rest|
  {
    if rest == [] then Ok((current, next))
    else
      var (t, n) :- FromStep(env, current, rest[0], whereClause, next);
      FoldFrom(env, t, rest[1..], whereClause, n)
  }

  /** `execute_from`, as a value; an empty FROM list has no first entry. */
  function ExecuteFromSpec(env: Env, tables: seq<TableExpr>, whereClause: Option<Expr>, next: nat)
    : (r: Res<(Table, nat)>)
  {
    if tables == [] then Err(IndexOutOfRange)
    else
      var first :- ExecuteTable(tables[0]);
      FoldFrom(env, first, tables[1..], whereClause, next)
  }

  /** `execute_from`: the first entry, then each further entry folded into the result. */
  method ExecuteFrom(env: Env, tables: seq<TableExpr>, whereClause: Option<Expr>, next: nat)
    returns (r: Res<(Table, nat)>)
    ensures r == ExecuteFromSpec(env, tables, whereClause, next)
  {
    if |tables| == 0 {
      return Err(IndexOutOfRange);
    }
    var first := ExecuteTable(tables[0]);
    if first.Err? {
      return Err(first.error);
    }
    var current := first.value;
    var n := next;
    var rest := tables[1..];
    assert rest[0..] == rest;
    for i := 0 to |rest|
      invariant ExecuteFromSpec(env, tables, whereClause, next) == FoldFrom(env, current, rest[i..], whereClause, n)
    {
      assert rest[i..][0] == rest[i] && rest[i..][1..] == rest[i + 1..];
      var other := rest[i];
      if other.Lateral? {
        if !other.table.TableFunction? {
          return Err(MissingAttribute);
        }
        var alias: Ident;
        if other.table.falias.None? {
          alias := Uniq(n);
          n := n + 1;
        } else {
          alias := other.table.falias.value;
        }
        current := LateralJoin(current, other.table.func, other.table.args, alias);
      } else {
        var right := ExecuteTable(other);
        if right.Err? {
          return Err(right.error);
        }
        current := Join(current, right.value, JoinOn(env, whereClause, current, right.value), "inner");
      }
    }
    assert rest[|rest|..] == [];
    return Ok((current, n));
  }

  /** A plain table reference. */
  predicate IsRef(t: TableExpr) {
    t.TableRef?
  }

  /**
   * The left-deep inner join of table references, each joined on the WHERE conjuncts
   * that concern it: the first reference, joined with the second, that joined with the
   * third, and so on.
   */
  function LeftDeep(env: Env, refs: seq<TableExpr>, whereClause: Option<Expr>): Table
    requires |refs| >= 1 && forall i :: 0 <= i < |refs| ==> IsRef(refs[i])
  {
    var last := refs[|refs| - 1];
    assert IsRef(last);
    var t := Source(RefName(last.schema, last.name), last.alias);
    if |refs| == 1 then t
    else
      var init := LeftDeep(env, refs[..|refs| - 1], whereClause);
      Join(init, t, JoinOn(env, whereClause, init, t), "inner")
  }

  lemma {:induction false} FoldFromRefs(env: Env, tables: seq<TableExpr>, k: nat, whereClause: Option<Expr>, next: nat)
    requires 1 <= k <= |tables| && forall i :: 0 <= i < |tables| ==> IsRef(tables[i])
    ensures FoldFrom(env, LeftDeep(env, tables[..k], whereClause), tables[k..], whereClause, next) ==
            Ok((LeftDeep(env, tables, whereClause), next))
    decreases |tables| - k
  {
    if k == |tables| {
      assert tables[..k] == tables;
    } else {
      var rest := tables[k..];
      assert rest[0] == tables[k] && rest[1..] == tables[k + 1..];
      var current := LeftDeep(env, tables[..k], whereClause);
      var t := Source(RefName(tables[k].schema, tables[k].name), tables[k].alias);
      var joined := Join(current, t, JoinOn(env, whereClause, current, t), "inner");
      assert FromStep(env, current, tables[k], whereClause, next) == Ok((joined, next));
      assert FoldFrom(env, current, rest, whereClause, next) == FoldFrom(env, joined, tables[k + 1..], whereClause, next);
      var prefix := tables[..k + 1];
      assert prefix[..|prefix| - 1] == tables[..k] && prefix[|prefix| - 1] == tables[k];
      assert LeftDeep(env, prefix, whereClause) == joined;
      FoldFromRefs(env, tables, k + 1, whereClause, next);
    }
  }

  /**
   * A FROM list of table references becomes their left-deep chain of inner joins, and
   * allocates no handle.
   */
  lemma ExecuteFromRefs(env: Env, tables: seq<TableExpr>, whereClause: Option<Expr>, next: nat)
    requires |tables| >= 1 && forall i :: 0 <= i < |tables| ==> IsRef(tables[i])
    ensures ExecuteFromSpec(env, tables, whereClause, next) == Ok((LeftDeep(env, tables, whereClause), next))
  {
    assert tables[..1] == [tables[0]];
    FoldFromRefs(env, tables, 1, whereClause, next);
    assert tables[1..] == tables[1..];
  }

  // ---------------------------------------------------------------------------
  // ORDER BY

  /** The ORDER BY keys `sort` accepts: a position or a name, ascending or descending. */
  predicate SortableKey(o: OrderBy) {
    (o.value.Integer? || o.value.Name?) && (o.order == "desc" || o.order == "asc")
  }

  /**
   * The column a key sorts by: position n (counted from 1, with Python's indexing) or
   * the column the name resolves to.
   */
  function SortKey(columns: seq<string>, o: OrderBy): Res<string> {
    if o.value.Integer? then
      match PyIndex(columns, o.value.n - 1)
      case None => Err(IndexOutOfRange)
      case Some(c) => Ok(c)
    else if o.value.Name? && o.value.name.Str? then
      var c :- NormalizeColRef(o.value.name.s, columns, false);
      if c.Some? then Ok(c.value) else Err(ColumnNotFound)
    else Err(NotAString)
  }

  function SortKeys(columns: seq<string>, values: seq<OrderBy>): Res<(seq<string>, seq<bool>)>
    decreases |values|
  {
    if values == [] then Ok(([], []))
    else
      var name :- SortKey(columns, values[0]);
      var rest :- SortKeys(columns, values[1..]);
      Ok(([name] + rest.0, [values[0].order == "asc"] + rest.1))
  }

  /**
   * The keys resolve one column and one direction per ORDER BY entry, in order, and fail
   * exactly when some entry does not resolve.
   */
  lemma {:induction false} SortKeysPointwise(columns: seq<string>, values: seq<OrderBy>)
    ensures var r := SortKeys(columns, values);
            && (r.Ok? ==> |r.value.0| == |values| && |r.value.1| == |values|)
            && (r.Ok? ==> forall i :: 0 <= i < |values| ==>
                  SortKey(columns, values[i]) == Ok(r.value.0[i]) && r.value.1[i] == (values[i].order == "asc"))
            && (r.Err? <==> exists i :: 0 <= i < |values| && SortKey(columns, values[i]).Err?)
    decreases |values|
  {
    if values != [] {
      SortKeysPointwise(columns, values[1..]);
      assert forall i :: 1 <= i < |values| ==> values[i] == values[1..][i - 1];
      var r := SortKeys(columns, values);
      if r.Ok? {
        var rest := SortKeys(columns, values[1..]).value;
        assert forall i :: 1 <= i < |values| ==> r.value.0[i] == rest.0[i - 1] && r.value.1[i] == rest.1[i - 1];
      }
    }
  }

  /** `sort`, as a value: every key checked first, then resolved against the table. */
  function SortSpec(env: Env, t: Table, values: seq<OrderBy>): Res<Table> {
    if exists i :: 0 <= i < |values| && !SortableKey(values[i]) then Err(CannotSort)
    else
      var keys :- SortKeys(env.columnsOf(t), values);
      Ok(SortValues(t, keys.0, PerKey(keys.1)))
  }

  /**
   * A sorted table sorts by one resolved column per key, ascending exactly where the
   * key says `asc`; a key that is neither a position nor a name, or has another
   * direction, is refused.
   */
  lemma SortResolves(env: Env, t: Table, values: seq<OrderBy>)
    ensures (exists i :: 0 <= i < |values| && !SortableKey(values[i])) ==> SortSpec(env, t, values) == Err(CannotSort)
    ensures var r := SortSpec(env, t, values);
            r.Ok? ==> && r.value.SortValues? && r.value.input == t && r.value.ascending.PerKey?
                      && |r.value.names| == |values| == |r.value.ascending.flags|
                      && forall i :: 0 <= i < |values| ==>
                           && r.value.ascending.flags[i] == (values[i].order == "asc")
                           && (values[i].value.Integer? ==> PyIndex(env.columnsOf(t), values[i].value.n - 1) == Some(r.value.names[i]))
                           && (values[i].value.Name? ==>
                                 values[i].value.name.Str? &&
                                 NormalizeColRef(values[i].value.name.s, env.columnsOf(t), false) == Ok(Some(r.value.names[i])))
  {
    SortKeysPointwise(env.columnsOf(t), values);
  }

  /** Keys already collected, in front of the keys of the remaining ORDER BY entries. */
  function PrefixKeys(names: seq<string>, ascending: seq<bool>, rest: Res<(seq<string>, seq<bool>)>)
    : Res<(seq<string>, seq<bool>)>
  {
    match rest
    case Ok(keys) => Ok((names + keys.0, ascending + keys.1))
    case Err(e) => Err(e)
  }

  /** One resolved key taken off the front of the remaining entries. */
  lemma SortKeysStep(columns: seq<string>, values: seq<OrderBy>, i: nat, names: seq<string>, ascending: seq<bool>, key: string)
    requires i < |values| && SortKey(columns, values[i]) == Ok(key)
    ensures PrefixKeys(names, ascending, SortKeys(columns, values[i..])) ==
            PrefixKeys(names + [key], ascending + [values[i].order == "asc"], SortKeys(columns, values[i + 1..]))
  {
    assert values[i..][0] == values[i] && values[i..][1..] == values[i + 1..];
    var tail := SortKeys(columns, values[i + 1..]);
    if tail.Ok? {
      assert names + ([key] + tail.value.0) == (names + [key]) + tail.value.0;
      assert ascending + ([values[i].order == "asc"] + tail.value.1) == (ascending + [values[i].order == "asc"]) + tail.value.1;
    }
  }

  /** `sort`: the keys checked, then the names and directions collected key by key. */
  method Sort(env: Env, t: Table, values: seq<OrderBy>) returns (r: Res<Table>)
    ensures r == SortSpec(env, t, values)
  {
    if exists i :: 0 <= i < |values| && !SortableKey(values[i]) {
      return Err(CannotSort);
    }
    var columns := env.columnsOf(t);
    var names: seq<string> := [];
    var ascending: seq<bool> := [];
    assert values[0..] == values;
    ghost var whole := SortKeys(columns, values);
    if whole.Ok? {
      assert [] + whole.value.0 == whole.value.0 && [] + whole.value.1 == whole.value.1;
    }
    for i := 0 to |values|
      invariant whole == PrefixKeys(names, ascending, SortKeys(columns, values[i..]))
    {
      var key := SortKey(columns, values[i]);
      if key.Err? {
        assert values[i..][0] == values[i];
        return Err(key.error);
      }
      SortKeysStep(columns, values, i, names, ascending, key.value);
      names := names + [key.value];
      ascending := ascending + [values[i].order == "asc"];
    }
    assert values[|values|..] == [];
    assert names + [] == names && ascending + [] == ascending;
    return Ok(SortValues(t, names, PerKey(ascending)));
  }

  // ---------------------------------------------------------------------------
  // SELECT

  /** The rows the SELECT reads: DUAL without a FROM clause. */
  function SelectFrom(env: Env, node: Select, next: nat): Res<(Table, nat)> {
    if node.fromClause.None? then Ok((Dual, next))
    else ExecuteFromSpec(env, node.fromClause.value, node.whereClause, next)
  }

  /** An aggregate in the select list without a (non-empty) GROUP BY groups by `true`. */
  function ImplicitGroupBy(columns: seq<Expr>, groupBy: Option<seq<Expr>>): (r: Option<seq<Expr>>)
    ensures AnyAggregate(columns) && (groupBy.None? || groupBy.value == []) ==> r == Some([Bool("true")])
    ensures !(AnyAggregate(columns) && (groupBy.None? || groupBy.value == [])) ==> r == groupBy
  {
    if AnyAggregate(columns) && (groupBy.None? || groupBy.value == []) then Some([Bool("true")]) else groupBy
  }

  /**
   * The grouped projection: GROUP BY normalised, every select column split, the
   * pre-aggregate columns and the group columns computed, the aggregation run, the
   * post-aggregate columns computed; each column list normalised against the table it
   * applies to.
   */
  function Grouped(env: Env, t: Table, columns: seq<Expr>, groupBy: seq<Expr>, next: nat): Res<(Table, nat)> {
    var (keys, n1) :- NormalizeGroupBySpec(env.columnsOf(t), columns, Some(groupBy), next, env.ti, true);
    var (split, n2) :- SplitAll(columns, keys, n1, env.ti, true);
    var levels :- ByLevelsSpec(split, 2);
    var (pre, n3) :- NormalizeColumnsSpec(env.columnsOf(t), levels[2] + GroupColumns(keys), n2, env.ti);
    var t1 := Transform(t, pre);
    var (agg, n4) :- NormalizeColumnsSpec(env.columnsOf(t1), levels[1], n3, env.ti);
    var (gb, n5) :- NormalizeColumnsSpec(env.columnsOf(t1), GroupColumns(keys), n4, env.ti);
    var t2 := Aggregate(t1, agg, gb);
    var (post, n6) :- NormalizeColumnsSpec(env.columnsOf(t2), levels[0], n5, env.ti);
    Ok((Transform(t2, post), n6))
  }

  /** The grouped projection, or a plain transform of the select list without grouping. */
  function Project(env: Env, t: Table, columns: seq<Expr>, groupBy: Option<seq<Expr>>, next: nat): Res<(Table, nat)> {
    if groupBy.Some? then Grouped(env, t, columns, groupBy.value, next) else Ok((Transform(t, columns), next))
  }

  /** The rows the SELECT reads and its select list, normalised against them. */
  function SelectInput(env: Env, node: Select, next: nat): Res<(Table, seq<Expr>, nat)> {
    var (source, n1) :- SelectFrom(env, node, next);
    var (columns, n2) :- NormalizeColumnsSpec(env.columnsOf(source), node.columns, n1, env.ti);
    Ok((source, columns, n2))
  }

  /** The rows that pass the WHERE clause. */
  function Filtered(node: Select, source: Table): Table {
    if node.whereClause.Some? then Filter(source, node.whereClause.value) else source
  }

  /** A SELECT up to its projection: input, WHERE, then grouping or a plain transform. */
  function SelectCore(env: Env, node: Select, next: nat): Res<(Table, nat)> {
    var (source, columns, n) :- SelectInput(env, node, next);
    Project(env, Filtered(node, source), columns, ImplicitGroupBy(columns, node.groupBy), n)
  }

  /** HAVING refused, then sorting, LIMIT/OFFSET and the set quantifier. */
  function Finish(env: Env, node: Select, t: Table): Res<Table> {
    if node.having.Some? then Err(HavingNotImplemented)
    else
      var sorted :- if node.orderBy.Some? then SortSpec(env, t, node.orderBy.value) else Ok(t);
      var limited := if node.limit.Some? || node.offset.Some? then LimitOffset(sorted, node.limit, node.offset) else sorted;
      if node.quantifier == Some("distinct") then Ok(DropDuplicates(limited))
      else if node.quantifier.Some? && node.quantifier.value != "all" then Err(UnknownQuantifier)
      else Ok(limited)
  }

  /** `execute_ast_select` without common table expressions, as a value. */
  function SelectSpec(env: Env, node: Select, next: nat): Res<(Table, nat)> {
    var (core, n) :- SelectCore(env, node, next);
    var t :- Finish(env, node, core);
    Ok((t, n))
  }

  /** HAVING is refused. */
  lemma SelectHavingFails(env: Env, node: Select, next: nat)
    requires node.having.Some?
    ensures SelectSpec(env, node, next).Err?
  {
  }

  /** A set quantifier other than DISTINCT or ALL is refused. */
  lemma SelectUnknownQuantifierFails(env: Env, node: Select, next: nat)
    requires node.quantifier.Some? && node.quantifier.value != "all" && node.quantifier.value != "distinct"
    ensures SelectSpec(env, node, next).Err?
  {
  }

  /**
   * The stages above the projection `core`, outermost first: de-duplication exactly
   * under DISTINCT, then LIMIT/OFFSET exactly when either is given, then the sort
   * exactly under ORDER BY (one key per ORDER BY entry, ascending where it says `asc`).
   */
  predicate Layered(node: Select, t: Table, core: Table) {
    if node.quantifier == Some("distinct") then t.DropDuplicates? && Limited(node, t.input, core)
    else Limited(node, t, core)
  }

  predicate Limited(node: Select, t: Table, core: Table) {
    if node.limit.Some? || node.offset.Some? then
      t.LimitOffset? && t.limit == node.limit && t.offset == node.offset && Sorted(node, t.input, core)
    else Sorted(node, t, core)
  }

  predicate Sorted(node: Select, t: Table, core: Table) {
    if node.orderBy.Some? then
      && t.SortValues? && t.input == core && t.ascending.PerKey?
      && |t.names| == |node.orderBy.value| == |t.ascending.flags|
      && (forall i :: 0 <= i < |node.orderBy.value| ==> t.ascending.flags[i] == (node.orderBy.value[i].order == "asc"))
    else t == core
  }

  /** The finishing stages wrap the projection in order. */
  lemma FinishLayered(env: Env, node: Select, core: Table)
    requires Finish(env, node, core).Ok?
    ensures Layered(node, Finish(env, node, core).value, core)
  {
    if node.orderBy.Some? {
      SortResolves(env, core, node.orderBy.value);
    }
  }

  /** A grouped projection is a transform over an aggregation over a transform of its input. */
  lemma GroupedShape(env: Env, t: Table, columns: seq<Expr>, groupBy: seq<Expr>, next: nat)
    requires Grouped(env, t, columns, groupBy, next).Ok?
    ensures var g := Grouped(env, t, columns, groupBy, next).value.0;
            g.Transform? && g.input.Aggregate? && g.input.input.Transform? && g.input.input.input == t
  {
  }

  /** Grouping by `true` aggregates under one group column: `true` under a fresh handle. */
  lemma ImplicitKeyIsTrue(env: Env, t: Table, columns: seq<Expr>, next: nat)
    requires Grouped(env, t, columns, [Bool("true")], next).Ok?
    ensures var g := Grouped(env, t, columns, [Bool("true")], next).value.0;
            && g.Transform? && g.input.Aggregate?
            && |g.input.groupBy| == 1 && g.input.groupBy[0].Column? && g.input.groupBy[0].value == Bool("true")
            && g.input.groupBy[0].alias.Some? && g.input.groupBy[0].alias.value.Uniq?
  {
    var (keys, n1) := NormalizeGroupBySpec(env.columnsOf(t), columns, Some([Bool("true")]), next, env.ti, true).value;
    NormalizeGroupByKeys(env.columnsOf(t), columns, [Bool("true")], next, env.ti, true);
    assert keys[0].value == Bool("true") && keys[0].alias.Uniq?;
    var (split, n2) := SplitAll(columns, keys, n1, env.ti, true).value;
    var levels := ByLevelsSpec(split, 2).value;
    var (pre, n3) := NormalizeColumnsSpec(env.columnsOf(t), levels[2] + GroupColumns(keys), n2, env.ti).value;
    var t1 := Transform(t, pre);
    var (agg, n4) := NormalizeColumnsSpec(env.columnsOf(t1), levels[1], n3, env.ti).value;
    assert GroupColumns(keys) == [Column(Bool("true"), Some(keys[0].alias))];
    NormalizeColumnAlias(env.columnsOf(t1), Bool("true"), Some(keys[0].alias), n4, env.ti);
  }

  /** A SELECT result is its projection, a transform, under the finishing stages in order. */
  lemma SelectStageOrder(env: Env, node: Select, next: nat)
    requires SelectSpec(env, node, next).Ok?
    ensures SelectCore(env, node, next).Ok?
    ensures SelectCore(env, node, next).value.0.Transform?
    ensures Layered(node, SelectSpec(env, node, next).value.0, SelectCore(env, node, next).value.0)
  {
    var (source, columns, n) := SelectInput(env, node, next).value;
    var groupBy := ImplicitGroupBy(columns, node.groupBy);
    if groupBy.Some? {
      GroupedShape(env, Filtered(node, source), columns, groupBy.value, n);
    }
    FinishLayered(env, node, SelectCore(env, node, next).value.0);
  }

  /**
   * The projection of a SELECT over its filtered rows: without grouping, one transform
   * of the normalised select list; with grouping (an explicit GROUP BY, or an aggregate
   * in the select list), a transform, then an aggregation, then a transform.  An
   * aggregate without a non-empty GROUP BY groups by `true` under a fresh handle.
   */
  lemma SelectProjection(env: Env, node: Select, next: nat)
    requires SelectCore(env, node, next).Ok?
    ensures var (source, columns, _) := SelectInput(env, node, next).value;
            var filtered := if node.whereClause.Some? then Filter(source, node.whereClause.value) else source;
            var core := SelectCore(env, node, next).value.0;
            && (node.groupBy.None? && !AnyAggregate(columns) ==> core == Transform(filtered, columns))
            && (node.groupBy.Some? || AnyAggregate(columns) ==>
                  && core.Transform? && core.input.Aggregate?
                  && core.input.input.Transform? && core.input.input.input == filtered)
            && (AnyAggregate(columns) && (node.groupBy.None? || node.groupBy.value == []) ==>
                  && core.input.Aggregate? && |core.input.groupBy| == 1 && core.input.groupBy[0].Column?
                  && core.input.groupBy[0].value == Bool("true")
                  && core.input.groupBy[0].alias.Some? && core.input.groupBy[0].alias.value.Uniq?)
  {
    var (source, columns, n) := SelectInput(env, node, next).value;
    var groupBy := ImplicitGroupBy(columns, node.groupBy);
    if groupBy.Some? {
      GroupedShape(env, Filtered(node, source), columns, groupBy.value, n);
      if AnyAggregate(columns) && (node.groupBy.None? || node.groupBy.value == []) {
        ImplicitKeyIsTrue(env, Filtered(node, source), columns, n);
      }
    }
  }

  /** `execute_ast_select` up to its projection: FROM, the select list, WHERE, grouping. */
  method ExecuteProjection(env: Env, node: Select, next: nat) returns (r: Res<(Table, nat)>)
    ensures r == SelectCore(env, node, next)
  {
    var table: Table;
    var n := next;
    if node.fromClause.None? {
      table := Dual;
    } else {
      var from := ExecuteFrom(env, node.fromClause.value, node.whereClause, n);
      if from.Err? {
        return Err(from.error);
      }
      table, n := from.value.0, from.value.1;
    }
    var normalized := NormalizeColumns(env.columnsOf(table), node.columns, n, env.ti);
    if normalized.Err? {
      return Err(normalized.error);
    }
    var columns := normalized.value.0;
    n := normalized.value.1;
    var groupBy := node.groupBy;
    if AnyAggregate(columns) && (groupBy.None? || groupBy.value == []) {
      groupBy := Some([Bool("true")]);
    }
    if node.whereClause.Some? {
      table := Filter(table, node.whereClause.value);
    }
    if groupBy.Some? {
      r := ExecuteGrouped(env, table, columns, groupBy.value, n);
    } else {
      r := Ok((Transform(table, columns), n));
    }
  }

  /** `execute_ast_select` from HAVING on: the projection sorted, limited and de-duplicated. */
  method ExecuteFinish(env: Env, node: Select, projected: Table) returns (r: Res<Table>)
    ensures r == Finish(env, node, projected)
  {
    var table := projected;
    if node.having.Some? {
      return Err(HavingNotImplemented);
    }
    if node.orderBy.Some? {
      var sorted := Sort(env, table, node.orderBy.value);
      if sorted.Err? {
        return Err(sorted.error);
      }
      table := sorted.value;
    }
    if node.limit.Some? || node.offset.Some? {
      table := LimitOffset(table, node.limit, node.offset);
    }
    if node.quantifier == Some("distinct") {
      table := DropDuplicates(table);
    } else if node.quantifier.Some? && node.quantifier.value != "all" {
      return Err(UnknownQuantifier);
    }
    return Ok(table);
  }

  /** `execute_ast_select` without common table expressions: the table reassigned stage by stage. */
  method ExecuteSelect(env: Env, node: Select, next: nat) returns (r: Res<(Table, nat)>)
    ensures r == SelectSpec(env, node, next)
  {
    var core := ExecuteProjection(env, node, next);
    if core.Err? {
      return Err(core.error);
    }
    var finished := ExecuteFinish(env, node, core.value.0);
    if finished.Err? {
      return Err(finished.error);
    }
    return Ok((finished.value, core.value.1));
  }

  /** The grouped branch of `execute_ast_select`. */
  method ExecuteGrouped(env: Env, t: Table, columns: seq<Expr>, groupBy: seq<Expr>, next: nat)
    returns (r: Res<(Table, nat)>)
    ensures r == Grouped(env, t, columns, groupBy, next)
  {
    var keysR := NormalizeGroupBy(env.columnsOf(t), columns, Some(groupBy), next, env.ti, true);
    if keysR.Err? {
      return Err(keysR.error);
    }
    var (keys, n1) := keysR.value;
    var splitR := SplitAll(columns, keys, n1, env.ti, true);
    if splitR.Err? {
      return Err(splitR.error);
    }
    var (split, n2) := splitR.value;
    var levelsR := ByLevels(split, 2);
    if levelsR.Err? {
      return Err(levelsR.error);
    }
    var levels := levelsR.value;
    var preR := NormalizeColumns(env.columnsOf(t), levels[2] + GroupColumns(keys), n2, env.ti);
    if preR.Err? {
      return Err(preR.error);
    }
    var table := Transform(t, preR.value.0);
    var aggR := NormalizeColumns(env.columnsOf(table), levels[1], preR.value.1, env.ti);
    if aggR.Err? {
      return Err(aggR.error);
    }
    var gbR := NormalizeColumns(env.columnsOf(table), GroupColumns(keys), aggR.value.1, env.ti);
    if gbR.Err? {
      return Err(gbR.error);
    }
    table := Aggregate(table, aggR.value.0, gbR.value.0);
    var postR := NormalizeColumns(env.columnsOf(table), levels[0], gbR.value.1, env.ti);
    if postR.Err? {
      return Err(postR.error);
    }
    return Ok((Transform(table, postR.value.0), postR.value.1));
  }

  // ---------------------------------------------------------------------------
  // SHOW and the table scope

  /** `execute_show`: the option's value as a one-column table over DUAL. */
  function ExecuteShow(args: seq<string>): (r: Res<Table>)
    ensures r.Ok? <==> args == ["transaction", "isolation", "level"] || args == ["standard_conforming_strings"]
    ensures args == ["transaction", "isolation", "level"] ==> r == Ok(Assign(Dual, "value", "read only"))
    ensures args == ["standard_conforming_strings"] ==> r == Ok(Assign(Dual, "value", "on"))
    ensures r.Err? ==> r.error == UnknownShowOption
  {
    var value :- ShowValue(args);
    Ok(Assign(Dual, "value", value))
  }

  /** Dropping names one by one: a missing name stops the drop, earlier ones stay dropped. */
  function DropAll(tables: map<string, Table>, names: seq<string>): (map<string, Table>, Res<()>)
    decreases |names|
  {
    if names == [] then (tables, Ok(()))
    else if names[0] !in tables then (tables, Err(UnknownTable))
    else DropAll(tables - {names[0]}, names[1..])
  }

  /** The names among the first `k` of `names`. */
  function FirstNames(names: seq<string>, k: nat): set<string>
    requires k <= |names|
  {
    set x | x in names[..k]
  }

  /** A drop succeeds exactly when the names are all present and distinct. */
  lemma {:induction false} DropAllSucceeds(tables: map<string, Table>, names: seq<string>)
    ensures DropAll(tables, names).1.Ok? <==>
              (forall i :: 0 <= i < |names| ==> names[i] in tables) &&
              (forall i, j :: 0 <= i < j < |names| ==> names[i] != names[j])
    decreases |names|
  {
    if names != [] && names[0] in tables {
      var rest := names[1..];
      var smaller := tables - {names[0]};
      DropAllSucceeds(smaller, rest);
      forall i | 0 < i < |names| ensures names[i] == rest[i - 1] { }
      if (forall i :: 0 <= i < |names| ==> names[i] in tables) && (forall i, j :: 0 <= i < j < |names| ==> names[i] != names[j]) {
        forall i | 0 <= i < |rest| ensures rest[i] in smaller {
          assert names[0] != names[i + 1];
        }
      }
      if DropAll(smaller, rest).1.Ok? {
        forall i, j | 0 <= i < j < |names| ensures names[i] != names[j] {
          if i == 0 { assert rest[j - 1] in smaller; }
        }
      }
    }
  }

  /**
   * A drop removes a prefix of the names from the scope and changes nothing else; a
   * drop that succeeds removes all of them.
   */
  lemma {:induction false} DropAllRemoves(tables: map<string, Table>, names: seq<string>)
    ensures exists k :: 0 <= k <= |names| && DropAll(tables, names).0 == tables - FirstNames(names, k)
    ensures DropAll(tables, names).1.Ok? ==> DropAll(tables, names).0 == tables - FirstNames(names, |names|)
    decreases |names|
  {
    if names == [] || names[0] !in tables {
      assert FirstNames(names, 0) == {};
      assert tables - FirstNames(names, 0) == tables;
    } else {
      var rest := names[1..];
      var smaller := tables - {names[0]};
      DropAllRemoves(smaller, rest);
      var after := DropAll(smaller, rest).0;
      var k :| 0 <= k <= |rest| && after == smaller - FirstNames(rest, k);
      assert names[..k + 1] == [names[0]] + rest[..k];
      assert FirstNames(names, k + 1) == {names[0]} + FirstNames(rest, k);
      assert after == tables - FirstNames(names, k + 1);
      if DropAll(smaller, rest).1.Ok? {
        assert names[..|names|] == [names[0]] + rest[..|rest|];
        assert FirstNames(names, |names|) == {names[0]} + FirstNames(rest, |rest|);
      }
    }
  }

  /** The table scope: table names to tables, changed in place by DDL statements. */
  class Scope {
    var tables: map<string, Table>

    constructor (tables: map<string, Table>)
      ensures this.tables == tables
    {
      this.tables := tables;
    }

    /** `execute_drop_table`: each name deleted in turn; a missing name fails. */
    method DropTables(names: seq<string>) returns (r: Res<()>)
      modifies this
      ensures (tables, r) == DropAll(old(tables), names)
    {
      for i := 0 to |names|
        invariant DropAll(old(tables), names) == DropAll(tables, names[i..])
      {
        assert names[i..][0] == names[i] && names[i..][1..] == names[i + 1..];
        if names[i] !in tables {
          return Err(UnknownTable);
        }
        tables := tables - {names[i]};
      }
      assert names[|names|..] == [];
      return Ok(());
    }

    /** `execute_create_table_as`: the query's table stored under the name. */
    method CreateTableAs(name: string, query: Table)
      modifies this
      ensures tables == old(tables)[name := query]
    {
      tables := tables[name := query];
    }
  }
}
