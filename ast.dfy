/**
 * The statement tree the planner consumes, and the errors it raises.
 *
 * Tree nodes are immutable values with structural equality, which is what lets the
 * aggregate split look an expression up among the GROUP BY values.  A column name is
 * either a string or a `Unique` placeholder; a `Unique` is a natural-number handle and
 * two handles are equal only when they are the same allocation.
 */
module Ast {
  import opened Wrappers

  /** A column name: a user-facing or internal string, or a synthetic `Unique` handle. */
  datatype Ident = Str(s: string) | Uniq(id: nat)

  datatype Expr =
    | Name(name: Ident)
    | InternalName(iname: Ident)
    | Integer(n: nat)
    | Bool(b: string)
    | StringLit(lit: string)
    | BinaryOp(op: string, left: Expr, right: Expr)
    | CallSetFunction(func: string, args: seq<Expr>)
    | WildCard(table: Option<string>)
    | Column(value: Expr, alias: Option<Ident>)

  /** One ORDER BY key: a position or a name, and the direction word. */
  datatype OrderBy = OrderBy(value: Expr, order: string)

  /** The error conditions the planner raises, named after what goes wrong. */
  datatype Error =
    | ColumnNotFound
    | AmbiguousColumn
    | UnsupportedJoinCondition
    | RequiresColumnReferences
    | AmbiguousJoinColumn
    | SelfJoinCondition
    | UnquotedString
    | UnknownUnique
    | NoHandler
    | NotSingleFragment
    | SplitLevelOverflow
    | EmptySplit
    | CannotNormalize
    | UnhandledGroupByExpression
    | IndexOutOfRange
    | CannotSort
    | HavingNotImplemented
    | UnknownQuantifier
    | UnknownShowOption
    | UnknownTable
    | NotImplemented
    | MissingAttribute
    | NotAString

  type Res<T> = Result<T, Error>

  /**
   * `to_internal_col` applied to a name.  The function itself is not part of this model
   * and is the parameter `ti`; it acts on string names, and a `Unique` passes through.
   */
  function Internal(ti: string -> string, id: Ident): (r: Ident)
    ensures id.Uniq? ==> r == id
    ensures r.Str? <==> id.Str?
  {
    match id
    case Str(s) => Str(ti(s))
    case Uniq(_) => id
  }

  /** The internalisation of the older planner, which keeps names as they are. */
  function Raw(s: string): string { s }

  function IdentIds(id: Ident): set<nat> {
    if id.Uniq? then {id.id} else {}
  }

  /** Every `Unique` handle that occurs anywhere in `e`. */
  function IdsOf(e: Expr): set<nat>
    decreases e
  {
    match e
    case Name(n) => IdentIds(n)
    case InternalName(n) => IdentIds(n)
    case Integer(_) => {}
    case Bool(_) => {}
    case StringLit(_) => {}
    case WildCard(_) => {}
    case BinaryOp(_, l, r) => IdsOf(l) + IdsOf(r)
    case CallSetFunction(_, args) => set i, u | 0 <= i < |args| && u in IdsOf(args[i]) :: u
    case Column(v, a) => IdsOf(v) + (if a.Some? then IdentIds(a.value) else {})
  }

  /** The walk of a node reaches an aggregate call. */
  predicate ContainsAggregate(e: Expr)
    decreases e
  {
    match e
    case CallSetFunction(_, _) => true
    case BinaryOp(_, l, r) => ContainsAggregate(l) || ContainsAggregate(r)
    case Column(v, _) => ContainsAggregate(v)
    case _ => false
  }

  predicate AnyAggregate(es: seq<Expr>) {
    exists i :: 0 <= i < |es| && ContainsAggregate(es[i])
  }
}
