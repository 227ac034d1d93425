/**
 * Equi-join analysis of the planner: an `AND` tree of `=` comparisons between column
 * names is flattened into pairs, and each pair is sorted into a left key and a right
 * key according to which input table each name resolves in.
 */
module JoinCondition {
  import opened Wrappers
  import opened Ast
  import opened Columns

  type Pair = (Ident, Ident)

  /**
   * `_flatten_join_condition`: the `=` pairs of an `AND` tree, left subtree first.  Any
   * node that is not a binary operation, any other operator, and an `=` whose operands
   * are not both names are refused.
   */
  function FlattenJoinCondition(cond: Expr): (r: Res<seq<Pair>>)
    ensures r.Ok? ==> |r.value| >= 1
    decreases cond
  {
    match cond
    case BinaryOp(op, left, right) =>
      if op == "AND" then
        var l :- FlattenJoinCondition(left);
        var rr :- FlattenJoinCondition(right);
        Ok(l + rr)
      else if op == "=" then
        if left.Name? && right.Name? then Ok([(left.name, right.name)])
        else Err(RequiresColumnReferences)
      else Err(UnsupportedJoinCondition)
    case _ => Err(UnsupportedJoinCondition)
  }

  /** The comparison `a = b` between two names. */
  function Equals(p: Pair): Expr {
    BinaryOp("=", Name(p.0), Name(p.1))
  }

  /** The right-nested conjunction of the comparisons of `pairs`. */
  function EquiJoin(pairs: seq<Pair>): Expr
    requires |pairs| >= 1
  {
    if |pairs| == 1 then Equals(pairs[0]) else BinaryOp("AND", Equals(pairs[0]), EquiJoin(pairs[1..]))
  }

  /** Flattening a conjunction of equalities gives back its pairs, in order. */
  lemma {:induction false} FlattenEquiJoin(pairs: seq<Pair>)
    requires |pairs| >= 1
    ensures FlattenJoinCondition(EquiJoin(pairs)) == Ok(pairs)
  {
    assert FlattenJoinCondition(Equals(pairs[0])) == Ok([pairs[0]]);
    if |pairs| > 1 {
      FlattenEquiJoin(pairs[1..]);
      assert [pairs[0]] + pairs[1..] == pairs;
    } else {
      assert [pairs[0]] == pairs;
    }
  }

  /** The shape `_flatten_join_condition` accepts. */
  predicate IsEquiJoin(cond: Expr)
    decreases cond
  {
    match cond
    case BinaryOp(op, left, right) =>
      (op == "AND" && IsEquiJoin(left) && IsEquiJoin(right)) || (op == "=" && left.Name? && right.Name?)
    case _ => false
  }

  /** The number of `=` leaves of an accepted condition. */
  function Leaves(cond: Expr): nat
    decreases cond
  {
    match cond
    case BinaryOp(op, left, right) => if op == "AND" then Leaves(left) + Leaves(right) else 1
    case _ => 1
  }

  /** Flattening succeeds exactly on the accepted shape, with one pair per `=` leaf. */
  lemma {:induction false} FlattenAccepts(cond: Expr)
    ensures FlattenJoinCondition(cond).Ok? <==> IsEquiJoin(cond)
    ensures FlattenJoinCondition(cond).Ok? ==> |FlattenJoinCondition(cond).value| == Leaves(cond)
    decreases cond
  {
    match cond
    case BinaryOp(op, left, right) =>
      if op == "AND" {
        FlattenAccepts(left);
        FlattenAccepts(right);
      }
    case _ =>
  }

  /**
   * `_is_left`: whether `ref` names a column of the left table, and the column it names.
   * A reference that resolves in both tables or in neither is ambiguous.  Names are
   * strings in a join condition; a `Unique` has no dotted form to resolve.
   */
  function IsLeft(leftColumns: seq<string>, rightColumns: seq<string>, ref: Ident): (r: Res<(bool, string)>)
    ensures r.Ok? ==> ref.Str?
  {
    if ref.Uniq? then Err(NotAString)
    else
      var leftRef :- NormalizeColRef(ref.s, leftColumns, true);
      var rightRef :- NormalizeColRef(ref.s, rightColumns, true);
      if leftRef.None? == rightRef.None? then Err(AmbiguousJoinColumn)
      else Ok((leftRef.Some?, if leftRef.Some? then leftRef.value else rightRef.value))
  }

  /**
   * `_is_left` places a reference on the side where it resolves, and only where it
   * resolves on exactly one side.
   */
  lemma IsLeftSides(leftColumns: seq<string>, rightColumns: seq<string>, s: string)
    ensures var r := IsLeft(leftColumns, rightColumns, Str(s));
            && (r.Ok? && r.value.0 <==>
                 exists c :: NormalizeColRef(s, leftColumns, true) == Ok(Some(c)) && NormalizeColRef(s, rightColumns, true) == Ok(None))
            && (r.Ok? && !r.value.0 <==>
                 exists c :: NormalizeColRef(s, rightColumns, true) == Ok(Some(c)) && NormalizeColRef(s, leftColumns, true) == Ok(None))
            && (r.Ok? ==> NormalizeColRef(s, if r.value.0 then leftColumns else rightColumns, true) == Ok(Some(r.value.1)))
  {
    var l := NormalizeColRef(s, leftColumns, true);
    var rr := NormalizeColRef(s, rightColumns, true);
    if l.Ok? && l.value.Some? {
      assert NormalizeColRef(s, leftColumns, true) == Ok(Some(l.value.value));
    }
    if rr.Ok? && rr.value.Some? {
      assert NormalizeColRef(s, rightColumns, true) == Ok(Some(rr.value.value));
    }
  }

  /**
   * A dotted reference resolves on both sides whatever their columns, so `_is_left`
   * rejects every table-qualified join key as ambiguous.
   */
  lemma QualifiedJoinKeyIsAmbiguous(leftColumns: seq<string>, rightColumns: seq<string>, s: string)
    requires |SplitQuoted(s)| >= 2
    ensures IsLeft(leftColumns, rightColumns, Str(s)) == Err(AmbiguousJoinColumn)
  {
  }

  /** One pair sorted into (left key, right key); both on the same side is a self-join. */
  function PlacePair(leftColumns: seq<string>, rightColumns: seq<string>, pair: Pair): (r: Res<(string, string)>)
  {
    var a :- IsLeft(leftColumns, rightColumns, pair.0);
    var b :- IsLeft(leftColumns, rightColumns, pair.1);
    if a.0 == b.0 then Err(SelfJoinCondition)
    else if a.0 then Ok((a.1, b.1))
    else Ok((b.1, a.1))
  }

  /** `s` resolves in the columns `here` and not in the columns `there`. */
  predicate OnlyIn(s: string, here: seq<string>, there: seq<string>) {
    && NormalizeColRef(s, here, true).Ok? && NormalizeColRef(s, here, true).value.Some?
    && NormalizeColRef(s, there, true) == Ok(None)
  }

  /**
   * A placed pair has one member resolved in each table: the left key in the left
   * table and the right key in the right table.  Two members that resolve only in the
   * same table are a self-join.
   */
  lemma PlacePairSides(leftColumns: seq<string>, rightColumns: seq<string>, pair: Pair)
    ensures PlacePair(leftColumns, rightColumns, pair).Ok? ==>
            var (l, r) := PlacePair(leftColumns, rightColumns, pair).value;
            && pair.0.Str? && pair.1.Str?
            && NormalizeColRef(pair.0.s, leftColumns, true).Ok? && NormalizeColRef(pair.1.s, leftColumns, true).Ok?
            && ((NormalizeColRef(pair.0.s, leftColumns, true) == Ok(Some(l)) &&
                 NormalizeColRef(pair.1.s, rightColumns, true) == Ok(Some(r)) &&
                 NormalizeColRef(pair.1.s, leftColumns, true) == Ok(None)) ||
                (NormalizeColRef(pair.1.s, leftColumns, true) == Ok(Some(l)) &&
                 NormalizeColRef(pair.0.s, rightColumns, true) == Ok(Some(r)) &&
                 NormalizeColRef(pair.0.s, leftColumns, true) == Ok(None)))
    ensures pair.0.Str? && pair.1.Str? &&
            OnlyIn(pair.0.s, leftColumns, rightColumns) && OnlyIn(pair.1.s, leftColumns, rightColumns) ==>
              PlacePair(leftColumns, rightColumns, pair) == Err(SelfJoinCondition)
    ensures pair.0.Str? && pair.1.Str? &&
            OnlyIn(pair.0.s, rightColumns, leftColumns) && OnlyIn(pair.1.s, rightColumns, leftColumns) ==>
              PlacePair(leftColumns, rightColumns, pair) == Err(SelfJoinCondition)
  {
    if pair.0.Str? {
      IsLeftSides(leftColumns, rightColumns, pair.0.s);
    }
    if pair.1.Str? {
      IsLeftSides(leftColumns, rightColumns, pair.1.s);
    }
  }

  /** The keys of the pairs, in order; the first pair that cannot be placed fails. */
  function PlacePairs(leftColumns: seq<string>, rightColumns: seq<string>, pairs: seq<Pair>): (r: Res<(seq<string>, seq<string>)>)
    ensures r.Ok? ==> |r.value.0| == |r.value.1| == |pairs|
    ensures r.Ok? ==> forall i :: 0 <= i < |pairs| ==>
              PlacePair(leftColumns, rightColumns, pairs[i]) == Ok((r.value.0[i], r.value.1[i]))
    ensures r.Err? <==> exists i :: 0 <= i < |pairs| && PlacePair(leftColumns, rightColumns, pairs[i]).Err?
  {
    if pairs == [] then Ok(([], []))
    else
      var first :- PlacePair(leftColumns, rightColumns, pairs[0]);
      var rest :- PlacePairs(leftColumns, rightColumns, pairs[1..]);
      assert forall i :: 0 < i < |pairs| ==> pairs[i] == pairs[1..][i - 1];
      Ok(([first.0] + rest.0, [first.1] + rest.1))
  }

  /** Keys already collected, in front of the keys of the remaining pairs. */
  function Prefixed(left: seq<string>, right: seq<string>, rest: Res<(seq<string>, seq<string>)>): Res<(seq<string>, seq<string>)> {
    match rest
    case Ok(keys) => Ok((left + keys.0, right + keys.1))
    case Err(e) => Err(e)
  }

  /** `as_pandas_join_condition`, as a value. */
  function JoinKeys(leftColumns: seq<string>, rightColumns: seq<string>, cond: Expr): Res<(seq<string>, seq<string>)> {
    var pairs :- FlattenJoinCondition(cond);
    PlacePairs(leftColumns, rightColumns, pairs)
  }

  /** One placed pair taken off the front of the remaining pairs. */
  lemma PlacePairsStep(leftColumns: seq<string>, rightColumns: seq<string>, pairs: seq<Pair>, i: nat,
                       left: seq<string>, right: seq<string>, lk: string, rk: string)
    requires i < |pairs| && PlacePair(leftColumns, rightColumns, pairs[i]) == Ok((lk, rk))
    ensures Prefixed(left, right, PlacePairs(leftColumns, rightColumns, pairs[i..])) ==
            Prefixed(left + [lk], right + [rk], PlacePairs(leftColumns, rightColumns, pairs[i + 1..]))
  {
    assert pairs[i..][0] == pairs[i] && pairs[i..][1..] == pairs[i + 1..];
    var tail := PlacePairs(leftColumns, rightColumns, pairs[i + 1..]);
    if tail.Ok? {
      assert left + ([lk] + tail.value.0) == (left + [lk]) + tail.value.0;
      assert right + ([rk] + tail.value.1) == (right + [rk]) + tail.value.1;
    }
  }

  /**
   * `as_pandas_join_condition`: the left and right key lists of an equi-join, built by
   * appending one pair at a time.
   */
  method AsPandasJoinCondition(leftColumns: seq<string>, rightColumns: seq<string>, cond: Expr)
    returns (r: Res<(seq<string>, seq<string>)>)
    ensures r == JoinKeys(leftColumns, rightColumns, cond)
  {
    var flat := FlattenJoinCondition(cond);
    if flat.Err? {
      return Err(flat.error);
    }
    var pairs := flat.value;
    assert pairs[0..] == pairs;
    var left: seq<string> := [];
    var right: seq<string> := [];
    ghost var whole := PlacePairs(leftColumns, rightColumns, pairs);
    if whole.Ok? {
      assert [] + whole.value.0 == whole.value.0 && [] + whole.value.1 == whole.value.1;
    }
    for i := 0 to |pairs|
      invariant whole == Prefixed(left, right, PlacePairs(leftColumns, rightColumns, pairs[i..]))
    {
      var a := IsLeft(leftColumns, rightColumns, pairs[i].0);
      var b := IsLeft(leftColumns, rightColumns, pairs[i].1);
      if a.Err? || b.Err? || a.value.0 == b.value.0 {
        assert pairs[i..][0] == pairs[i];
        return if a.Err? then Err(a.error) else if b.Err? then Err(b.error) else Err(SelfJoinCondition);
      }
      var lk, rk := if a.value.0 then a.value.1 else b.value.1, if a.value.0 then b.value.1 else a.value.1;
      PlacePairsStep(leftColumns, rightColumns, pairs, i, left, right, lk, rk);
      left := left + [lk];
      right := right + [rk];
    }
    assert pairs[|pairs|..] == [];
    assert left + [] == left && right + [] == right;
    return Ok((left, right));
  }
}
