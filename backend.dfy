/**
 * The dataframe backend, seen from the planner.  Tables are never computed: a table
 * is the record of the backend operations that produced it, and what the planner
 * needs to know about a table (its column identifiers) is an uninterpreted function
 * of that record.
 */
module Backend {
  import opened Wrappers
  import opened Ast

  /** The `ascending` argument of a sort: one flag per key, or one flag for all keys. */
  datatype Ascending = PerKey(flags: seq<bool>) | Uniform(flag: bool)

  datatype Table =
    | Dual
    | Source(name: string, alias: Option<string>)
    | TableValued(func: string, args: seq<Expr>)
    | Filter(input: Table, condition: Expr)
    | Transform(input: Table, columns: seq<Expr>)
    | Aggregate(input: Table, aggregates: seq<Expr>, groupBy: seq<Expr>)
    | SortValues(input: Table, names: seq<string>, ascending: Ascending)
    | LimitOffset(input: Table, limit: Option<nat>, offset: Option<nat>)
    | DropDuplicates(input: Table)
    | LateralJoin(input: Table, func: string, args: seq<Expr>, named: Ident)
    | Join(left: Table, right: Table, on: Expr, how: string)
    | Assign(input: Table, column: string, value: string)
    | Frame(column: string, value: string)

  /**
   * What the planner consults but does not define: the column identifiers of a table,
   * `to_internal_col`, and the WHERE-conjunct selection that builds the condition of a
   * join in the FROM clause from the WHERE clause and the two tables' columns.
   */
  datatype Env = Env(
    columnsOf: Table -> seq<string>,
    ti: string -> string,
    joinCondition: (Expr, seq<string>, seq<string>) -> Expr)

  /** An entry of a FROM clause. */
  datatype TableExpr =
    | TableRef(schema: Option<string>, name: string, alias: Option<string>)
    | TableFunction(func: string, args: seq<Expr>, falias: Option<Ident>)
    | JoinExpr(left: TableExpr, right: TableExpr, on: Expr, how: string)
    | Lateral(table: TableExpr)

  datatype Select = Select(
    fromClause: Option<seq<TableExpr>>,
    columns: seq<Expr>,
    whereClause: Option<Expr>,
    groupBy: Option<seq<Expr>>,
    having: Option<Expr>,
    orderBy: Option<seq<OrderBy>>,
    limit: Option<nat>,
    offset: Option<nat>,
    quantifier: Option<string>)

  /** The name a table reference is looked up under: `schema.name` when a schema is given. */
  function RefName(schema: Option<string>, name: string): string {
    if schema.Some? && schema.value != "" then schema.value + "." + name else name
  }

  /** The SHOW options the executor knows, each with its fixed value. */
  const ShowConfig: map<seq<string>, string> :=
    map[["transaction", "isolation", "level"] := "read only", ["standard_conforming_strings"] := "on"]

  /** The value reported for a SHOW option; an unknown option is refused. */
  function ShowValue(args: seq<string>): (r: Res<string>)
    ensures r.Ok? <==> args == ["transaction", "isolation", "level"] || args == ["standard_conforming_strings"]
    ensures args == ["transaction", "isolation", "level"] ==> r == Ok("read only")
    ensures args == ["standard_conforming_strings"] ==> r == Ok("on")
  {
    if args in ShowConfig then Ok(ShowConfig[args]) else Err(UnknownShowOption)
  }
}
