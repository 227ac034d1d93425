/**
 * The pure helpers of the older `pdsql` evaluator.  Column references there are
 * paths of name components (`table.column` is `["table", "column"]`), and so are the
 * columns of a table; a reference names a column when the two agree component by
 * component from the right, over the shorter length.
 */
module Evaluate {
  import opened Wrappers
  import opened Ast
  import opened Text

  type Path = seq<string>

  /** The value expressions of the evaluator's grammar that the helpers look at. */
  datatype LExpr =
    | ColumnReference(path: Path)
    | BinaryExpression(operator: string, left: LExpr, right: LExpr)
    | IntegerLiteral(digits: string)
    | GeneralSetFunction(func: string, value: LExpr)

  /** An entry of the select list: a value with an optional alias. */
  datatype DerivedColumn = DerivedColumn(value: LExpr, alias: Option<string>)

  type PathPair = (Path, Path)

  // ---------------------------------------------------------------------------
  // Join conditions

  /**
   * `_flatten_join_condition`: the `=` pairs of an `AND` tree, left subtree first; an
   * `=` must compare two column references, and nothing else is accepted.
   */
  function Flatten(cond: LExpr): (r: Res<seq<PathPair>>)
    ensures r.Ok? ==> |r.value| >= 1
    decreases cond
  {
    if !cond.BinaryExpression? then Err(UnsupportedJoinCondition)
    else if cond.operator == "AND" then
      var l :- Flatten(cond.left);
      var rr :- Flatten(cond.right);
      Ok(l + rr)
    else if cond.operator == "=" then
      if cond.left.ColumnReference? && cond.right.ColumnReference? then Ok([(cond.left.path, cond.right.path)])
      else Err(RequiresColumnReferences)
    else Err(UnsupportedJoinCondition)
  }

  /** The right-nested conjunction of the equalities of `pairs`. */
  function Conjunction(pairs: seq<PathPair>): LExpr
    requires |pairs| >= 1
  {
    var eq := BinaryExpression("=", ColumnReference(pairs[0].0), ColumnReference(pairs[0].1));
    if |pairs| == 1 then eq else BinaryExpression("AND", eq, Conjunction(pairs[1..]))
  }

  /** Flattening a conjunction of equalities gives back its pairs, in order. */
  lemma {:induction false} FlattenConjunction(pairs: seq<PathPair>)
    requires |pairs| >= 1
    ensures Flatten(Conjunction(pairs)) == Ok(pairs)
  {
    var eq := BinaryExpression("=", ColumnReference(pairs[0].0), ColumnReference(pairs[0].1));
    assert Flatten(eq) == Ok([pairs[0]]);
    if |pairs| > 1 {
      FlattenConjunction(pairs[1..]);
      assert [pairs[0]] + pairs[1..] == pairs;
    } else {
      assert [pairs[0]] == pairs;
    }
  }

  /** The shape `_flatten_join_condition` accepts. */
  predicate IsEquiJoin(cond: LExpr)
    decreases cond
  {
    cond.BinaryExpression? &&
    ((cond.operator == "AND" && IsEquiJoin(cond.left) && IsEquiJoin(cond.right)) ||
     (cond.operator == "=" && cond.left.ColumnReference? && cond.right.ColumnReference?))
  }

  /** Flattening succeeds exactly on the accepted shape. */
  lemma {:induction false} FlattenAccepts(cond: LExpr)
    ensures Flatten(cond).Ok? <==> IsEquiJoin(cond)
    decreases cond
  {
    if cond.BinaryExpression? && cond.operator == "AND" {
      FlattenAccepts(cond.left);
      FlattenAccepts(cond.right);
    }
  }

  /** The two paths agree component by component from the right, over the shorter length. */
  predicate SuffixMatch(col: Path, ref: Path) {
    var m := if |col| < |ref| then |col| else |ref|;
    col[|col| - m..] == ref[|ref| - m..]
  }

  /** The first column, in order, that the reference matches. */
  function FirstMatch(columns: seq<Path>, ref: Path): Option<Path>
    decreases |columns|
  {
    if columns == [] then None
    else if SuffixMatch(columns[0], ref) then Some(columns[0])
    else FirstMatch(columns[1..], ref)
  }

  /** `get_col_ref` finds nothing exactly when no column matches. */
  lemma {:induction false} FirstMatchNone(columns: seq<Path>, ref: Path)
    ensures FirstMatch(columns, ref).None? <==> forall i :: 0 <= i < |columns| ==> !SuffixMatch(columns[i], ref)
    decreases |columns|
  {
    if columns != [] && !SuffixMatch(columns[0], ref) {
      FirstMatchNone(columns[1..], ref);
      forall i | 0 < i < |columns| ensures columns[i] == columns[1..][i - 1] { }
    }
  }

  /** What `get_col_ref` finds is a matching column with no matching column before it. */
  lemma {:induction false} FirstMatchIsFirst(columns: seq<Path>, ref: Path)
    requires FirstMatch(columns, ref).Some?
    ensures exists i :: 0 <= i < |columns| && columns[i] == FirstMatch(columns, ref).value && SuffixMatch(columns[i], ref) &&
              forall j :: 0 <= j < i ==> !SuffixMatch(columns[j], ref)
    decreases |columns|
  {
    if SuffixMatch(columns[0], ref) {
      assert columns[0] == FirstMatch(columns, ref).value;
    } else {
      var rest := columns[1..];
      FirstMatchIsFirst(rest, ref);
      var i :| 0 <= i < |rest| && rest[i] == FirstMatch(rest, ref).value && SuffixMatch(rest[i], ref) &&
               forall j :: 0 <= j < i ==> !SuffixMatch(rest[j], ref);
      assert columns[i + 1] == rest[i];
      forall j | 0 <= j < i + 1 ensures !SuffixMatch(columns[j], ref) {
        if j > 0 { assert columns[j] == rest[j - 1]; }
      }
    }
  }

  /**
   * A bare column name matches exactly the non-empty columns ending in it, and an empty
   * path matches every column, so it finds the first column.
   */
  lemma FirstMatchUnqualified(columns: seq<Path>, col: Path, name: string)
    ensures |col| > 0 ==> (SuffixMatch(col, [name]) <==> col[|col| - 1] == name)
    ensures SuffixMatch(col, [])
    ensures FirstMatch(columns, []) == if columns == [] then None else Some(columns[0])
    ensures |columns| > 0 && |columns[0]| > 0 && columns[0][|columns[0]| - 1] == name ==>
              FirstMatch(columns, [name]) == Some(columns[0])
  {
    if |col| > 0 {
      assert col[|col| - 1..] == [col[|col| - 1]];
    }
    if |columns| > 0 && |columns[0]| > 0 {
      var c := columns[0];
      assert c[|c| - 1..] == [c[|c| - 1]];
    }
  }

  /** `get_col_ref`: the columns scanned in order, returning at the first match. */
  method GetColRef(columns: seq<Path>, ref: Path) returns (r: Option<Path>)
    ensures r == FirstMatch(columns, ref)
  {
    for i := 0 to |columns|
      invariant FirstMatch(columns, ref) == FirstMatch(columns[i..], ref)
    {
      assert columns[i..][0] == columns[i] && columns[i..][1..] == columns[i + 1..];
      if SuffixMatch(columns[i], ref) {
        return Some(columns[i]);
      }
    }
    assert columns[|columns|..] == [];
    return None;
  }

  /**
   * `_is_left`: whether the reference names a column of the left table, and the column
   * it names; a reference found on both sides or on neither is ambiguous.
   */
  function IsLeft(leftColumns: seq<Path>, rightColumns: seq<Path>, ref: Path): (r: Res<(bool, Path)>)
    ensures r.Ok? <==> FirstMatch(leftColumns, ref).Some? != FirstMatch(rightColumns, ref).Some?
    ensures r.Ok? && r.value.0 ==> FirstMatch(leftColumns, ref) == Some(r.value.1)
    ensures r.Ok? && !r.value.0 ==> FirstMatch(rightColumns, ref) == Some(r.value.1)
    ensures r.Err? ==> r.error == AmbiguousJoinColumn
  {
    var l := FirstMatch(leftColumns, ref);
    var rr := FirstMatch(rightColumns, ref);
    if l.None? == rr.None? then Err(AmbiguousJoinColumn)
    else Ok((l.Some?, if l.Some? then l.value else rr.value))
  }

  /** One pair sorted into (left key, right key); both on the same side is a self-join. */
  function PlacePair(leftColumns: seq<Path>, rightColumns: seq<Path>, pair: PathPair): Res<(Path, Path)> {
    var a :- IsLeft(leftColumns, rightColumns, pair.0);
    var b :- IsLeft(leftColumns, rightColumns, pair.1);
    if a.0 == b.0 then Err(SelfJoinCondition)
    else if a.0 then Ok((a.1, b.1))
    else Ok((b.1, a.1))
  }

  /**
   * A placed pair has one reference found only in the left table, giving the left key,
   * and the other found only in the right table, giving the right key; a pair whose
   * references are both found on the same single side is a self-join.
   */
  lemma PlacePairSides(leftColumns: seq<Path>, rightColumns: seq<Path>, pair: PathPair)
    ensures var r := PlacePair(leftColumns, rightColumns, pair);
            r.Ok? ==> exists a, b :: && FirstMatch(leftColumns, a) == Some(r.value.0)
                                     && FirstMatch(rightColumns, b) == Some(r.value.1)
                                     && FirstMatch(leftColumns, b).None? && FirstMatch(rightColumns, a).None?
                                     && ((a, b) == pair || (b, a) == pair)
    ensures var (a, b) := pair;
            FirstMatch(leftColumns, a).Some? && FirstMatch(rightColumns, a).None? &&
            FirstMatch(leftColumns, b).Some? && FirstMatch(rightColumns, b).None? ==>
              PlacePair(leftColumns, rightColumns, pair) == Err(SelfJoinCondition)
    ensures var (a, b) := pair;
            FirstMatch(rightColumns, a).Some? && FirstMatch(leftColumns, a).None? &&
            FirstMatch(rightColumns, b).Some? && FirstMatch(leftColumns, b).None? ==>
              PlacePair(leftColumns, rightColumns, pair) == Err(SelfJoinCondition)
  {
    var r := PlacePair(leftColumns, rightColumns, pair);
    if r.Ok? {
      if IsLeft(leftColumns, rightColumns, pair.0).value.0 {
        assert (pair.0, pair.1) == pair;
      } else {
        assert (pair.1, pair.0).1 == pair.0;
      }
    }
  }

  /** The keys of the pairs, in order; the first pair that cannot be placed fails. */
  function PlacePairs(leftColumns: seq<Path>, rightColumns: seq<Path>, pairs: seq<PathPair>): Res<(seq<Path>, seq<Path>)> {
    if pairs == [] then Ok(([], []))
    else
      var first :- PlacePair(leftColumns, rightColumns, pairs[0]);
      var rest :- PlacePairs(leftColumns, rightColumns, pairs[1..]);
      Ok(([first.0] + rest.0, [first.1] + rest.1))
  }

  /**
   * The key lists have one entry per pair, in pair order, each the placement of its
   * pair; they fail exactly when some pair cannot be placed.
   */
  lemma {:induction false} PlacePairsPointwise(leftColumns: seq<Path>, rightColumns: seq<Path>, pairs: seq<PathPair>)
    ensures var r := PlacePairs(leftColumns, rightColumns, pairs);
            && (r.Ok? ==> |r.value.0| == |r.value.1| == |pairs|)
            && (r.Ok? ==> forall i :: 0 <= i < |pairs| ==>
                  PlacePair(leftColumns, rightColumns, pairs[i]) == Ok((r.value.0[i], r.value.1[i])))
            && (r.Err? <==> exists i :: 0 <= i < |pairs| && PlacePair(leftColumns, rightColumns, pairs[i]).Err?)
    decreases |pairs|
  {
    if pairs != [] {
      PlacePairsPointwise(leftColumns, rightColumns, pairs[1..]);
      assert forall i :: 0 < i < |pairs| ==> pairs[i] == pairs[1..][i - 1];
      var r := PlacePairs(leftColumns, rightColumns, pairs);
      if PlacePair(leftColumns, rightColumns, pairs[0]).Ok? && PlacePairs(leftColumns, rightColumns, pairs[1..]).Ok? {
        var rest := PlacePairs(leftColumns, rightColumns, pairs[1..]).value;
        assert forall i :: 0 < i < |pairs| ==> r.value.0[i] == rest.0[i - 1] && r.value.1[i] == rest.1[i - 1];
      }
    }
  }

  /** Keys already collected, in front of the keys of the remaining pairs. */
  function Prefixed(left: seq<Path>, right: seq<Path>, rest: Res<(seq<Path>, seq<Path>)>): Res<(seq<Path>, seq<Path>)> {
    match rest
    case Ok(keys) => Ok((left + keys.0, right + keys.1))
    case Err(e) => Err(e)
  }

  /** `as_pandas_join_condition`, as a value. */
  function JoinKeys(leftColumns: seq<Path>, rightColumns: seq<Path>, cond: LExpr): Res<(seq<Path>, seq<Path>)> {
    var pairs :- Flatten(cond);
    PlacePairs(leftColumns, rightColumns, pairs)
  }

  /** One placed pair taken off the front of the remaining pairs. */
  lemma PlacePairsStep(leftColumns: seq<Path>, rightColumns: seq<Path>, pairs: seq<PathPair>, i: nat,
                       left: seq<Path>, right: seq<Path>, lk: Path, rk: Path)
    requires i < |pairs| && PlacePair(leftColumns, rightColumns, pairs[i]) == Ok((lk, rk))
    ensures Prefixed(left, right, PlacePairs(leftColumns, rightColumns, pairs[i..])) ==
            Prefixed(left + [lk], right + [rk], PlacePairs(leftColumns, rightColumns, pairs[i + 1..]))
  {
    assert pairs[i..][0] == pairs[i] && pairs[i..][1..] == pairs[i + 1..];
    var tail := PlacePairs(leftColumns, rightColumns, pairs[i + 1..]);
    if tail.Ok? {
      assert left + ([lk] + tail.value.0) == (left + [lk]) + tail.value.0;
      assert right + ([rk] + tail.value.1) == (right + [rk]) + tail.value.1;
    }
  }

  /**
   * `as_pandas_join_condition`: the left and right key lists of an equi-join, built by
   * appending one pair at a time.
   */
  method AsPandasJoinCondition(leftColumns: seq<Path>, rightColumns: seq<Path>, cond: LExpr)
    returns (r: Res<(seq<Path>, seq<Path>)>)
    ensures r == JoinKeys(leftColumns, rightColumns, cond)
  {
    var flat := Flatten(cond);
    if flat.Err? {
      return Err(flat.error);
    }
    var pairs := flat.value;
    assert pairs[0..] == pairs;
    var left: seq<Path> := [];
    var right: seq<Path> := [];
    ghost var whole := PlacePairs(leftColumns, rightColumns, pairs);
    if whole.Ok? {
      assert [] + whole.value.0 == whole.value.0 && [] + whole.value.1 == whole.value.1;
    }
    for i := 0 to |pairs|
      invariant whole == Prefixed(left, right, PlacePairs(leftColumns, rightColumns, pairs[i..]))
    {
      var a := IsLeft(leftColumns, rightColumns, pairs[i].0);
      var b := IsLeft(leftColumns, rightColumns, pairs[i].1);
      if a.Err? || b.Err? || a.value.0 == b.value.0 {
        assert pairs[i..][0] == pairs[i];
        return if a.Err? then Err(a.error) else if b.Err? then Err(b.error) else Err(SelfJoinCondition);
      }
      var lk, rk := if a.value.0 then a.value.1 else b.value.1, if a.value.0 then b.value.1 else a.value.1;
      PlacePairsStep(leftColumns, rightColumns, pairs, i, left, right, lk, rk);
      left := left + [lk];
      right := right + [rk];
    }
    assert pairs[|pairs|..] == [];
    assert left + [] == left && right + [] == right;
    return Ok((left, right));
  }

  // ---------------------------------------------------------------------------
  // Names

  /**
   * `normalize_alias`: a column reference is named by its last component, whatever its
   * alias; any other value by its alias, or `__<position>` without one.
   */
  function NormalizeAlias(idx: nat, col: DerivedColumn): (r: Res<string>)
    ensures col.value.ColumnReference? && |col.value.path| > 0 ==> r == Ok(col.value.path[|col.value.path| - 1])
    ensures col.value.ColumnReference? && |col.value.path| == 0 ==> r == Err(IndexOutOfRange)
    ensures !col.value.ColumnReference? && col.alias.Some? ==> r == Ok(col.alias.value)
    ensures !col.value.ColumnReference? && col.alias.None? ==> r == Ok("__" + NatToString(idx))
  {
    if col.value.ColumnReference? then
      match PyIndex(col.value.path, -1)
      case None => Err(IndexOutOfRange)
      case Some(last) => Ok(last)
    else if col.alias.None? then Ok("__" + NatToString(idx))
    else Ok(col.alias.value)
  }

  /** Unaliased values at different positions get different names. */
  lemma NormalizeAliasPositions(i: nat, j: nat, a: LExpr, b: LExpr)
    requires i != j && !a.ColumnReference? && !b.ColumnReference?
    ensures NormalizeAlias(i, DerivedColumn(a, None)) != NormalizeAlias(j, DerivedColumn(b, None))
  {
    if "__" + NatToString(i) == "__" + NatToString(j) {
      assert NatToString(i) == ("__" + NatToString(i))[2..];
      assert NatToString(j) == ("__" + NatToString(j))[2..];
      NatToStringInjective(i, j);
    }
  }

  /** `lookup_table`: the pseudo-table `DUAL` has no frame; an unknown name fails. */
  function LookupTable<T>(scope: map<string, T>, name: string): (r: Res<Option<T>>)
    ensures name == "DUAL" ==> r == Ok(None)
    ensures name != "DUAL" && name in scope ==> r == Ok(Some(scope[name]))
    ensures name != "DUAL" && name !in scope ==> r == Err(UnknownTable)
  {
    if name == "DUAL" then Ok(None)
    else if name in scope then Ok(Some(scope[name]))
    else Err(UnknownTable)
  }

  /**
   * A frame bound in the scope is what a later lookup of its name finds, unless the name
   * is `DUAL`, which always stands for no frame; the binding leaves every other lookup
   * as it was.
   */
  lemma LookupAfterBind<T>(scope: map<string, T>, name: string, frame: T, other: string)
    ensures LookupTable(scope[name := frame], name) == if name == "DUAL" then Ok(None) else Ok(Some(frame))
    ensures other != name ==> LookupTable(scope[name := frame], other) == LookupTable(scope, other)
  {
  }

  /** `_groupby_as_derived`: each GROUP BY reference as a select column named by its last component. */
  function GroupByAsDerived(groupBy: seq<Path>): (r: Res<seq<DerivedColumn>>)
    ensures r.Ok? <==> forall i :: 0 <= i < |groupBy| ==> |groupBy[i]| > 0
    ensures r.Ok? ==> |r.value| == |groupBy| && forall i :: 0 <= i < |groupBy| ==>
              r.value[i] == DerivedColumn(ColumnReference(groupBy[i]), Some(groupBy[i][|groupBy[i]| - 1]))
    decreases |groupBy|
  {
    if groupBy == [] then Ok([])
    else
      var last :- if |groupBy[0]| == 0 then Err(IndexOutOfRange) else Ok(groupBy[0][|groupBy[0]| - 1]);
      var rest :- GroupByAsDerived(groupBy[1..]);
      assert forall i :: 0 < i < |groupBy| ==> groupBy[i] == groupBy[1..][i - 1];
      Ok([DerivedColumn(ColumnReference(groupBy[0]), Some(last))] + rest)
  }

  /**
   * The columns derived from GROUP BY are named, by `normalize_alias`, exactly by the
   * alias they carry: the last component of the reference.
   */
  lemma GroupByNamesAgree(groupBy: seq<Path>, idx: nat, i: nat)
    requires GroupByAsDerived(groupBy).Ok? && i < |groupBy|
    ensures var d := GroupByAsDerived(groupBy).value[i];
            d.alias.Some? && NormalizeAlias(idx, d) == Ok(d.alias.value)
  {
  }
}
