/**
 * The planning steps shared by both SELECT planners: alias assignment, the aggregate
 * split of select expressions into level-tagged fragments, select-list normalisation
 * and GROUP BY normalisation.
 *
 * Fresh `Unique` handles are allocated by counting: every step takes the next unused
 * handle `next` and returns the next one still unused after it.  The internalisation of
 * names is the parameter `ti`; the newer planner passes its `to_internal_col`, the
 * older one passes `Raw`.
 */
module Planner {
  import opened Wrappers
  import opened Ast
  import opened Text
  import opened Columns
  import opened SplitResults

  /** A normalised GROUP BY entry: the grouped value and the name of its column. */
  datatype GroupKey = GroupKey(value: Expr, alias: Ident)

  function GroupColumn(k: GroupKey): Expr {
    Column(k.value, Some(k.alias))
  }

  function GroupColumns(keys: seq<GroupKey>): (r: seq<Expr>)
    ensures |r| == |keys|
    ensures forall i :: 0 <= i < |keys| ==> r[i] == GroupColumn(keys[i])
  {
    seq(|keys|, i requires 0 <= i < |keys| => GroupColumn(keys[i]))
  }

  /** Items already produced, in front of a result still to come. */
  function Prepend<T>(acc: seq<T>, rest: Res<(seq<T>, nat)>): Res<(seq<T>, nat)> {
    match rest
    case Ok(v) => Ok((acc + v.0, v.1))
    case Err(e) => Err(e)
  }

  lemma PrependEmpty<T>(rest: Res<(seq<T>, nat)>)
    ensures Prepend([], rest) == rest
  {
    if rest.Ok? {
      assert [] + rest.value.0 == rest.value.0;
    }
  }

  lemma PrependAppend<T>(acc: seq<T>, more: seq<T>, rest: Res<(seq<T>, nat)>)
    ensures Prepend(acc, Prepend(more, rest)) == Prepend(acc + more, rest)
  {
    if rest.Ok? {
      assert acc + (more + rest.value.0) == (acc + more) + rest.value.0;
    }
  }

  // ---------------------------------------------------------------------------
  // Aliases and the aggregate split

  /**
   * `get_alias` of a column `value AS alias`: the explicit alias, else the referenced
   * name, else a fresh handle, internalised.  The source allocates the fresh handle on
   * every call, used or not.
   */
  function GetAlias(value: Expr, alias: Option<Ident>, next: nat, ti: string -> string): (r: (Ident, nat))
    ensures r.1 == next + 1
    ensures r.0.Uniq? ==> r.0 == Uniq(next) || r.0.id in IdsOf(Column(value, alias))
    ensures r.0 == Uniq(next) ==> alias.None? || alias.value == Uniq(next)
    ensures alias.Some? ==> r.0 == Internal(ti, alias.value)
    ensures alias.None? && value.Name? ==> r.0 == Internal(ti, value.name)
    ensures alias.None? && !value.Name? ==> r.0 == Uniq(next)
  {
    var name := if alias.Some? then Internal(ti, alias.value)
                else if value.Name? then Internal(ti, value.name)
                else Uniq(next);
    (name, next + 1)
  }

  /**
   * The alias under which the GROUP BY keys hold `node`: the one of the last key whose
   * value equals it, as a dictionary built from the keys keeps the last duplicate.
   */
  function LookupGroup(keys: seq<GroupKey>, node: Expr): (r: Option<Ident>)
    ensures r.Some? <==> exists i :: 0 <= i < |keys| && keys[i].value == node
    ensures r.Some? ==> exists i :: 0 <= i < |keys| && keys[i].value == node && keys[i].alias == r.value &&
                          forall j :: i < j < |keys| ==> keys[j].value != node
  {
    if keys == [] then None
    else if keys[|keys| - 1].value == node then Some(keys[|keys| - 1].alias)
    else
      var r := LookupGroup(keys[..|keys| - 1], node);
      assert forall i :: 0 <= i < |keys| - 1 ==> keys[..|keys| - 1][i] == keys[i];
      r
  }

  /**
   * The aggregate call whose split is taken: the newer planner turns `count(*)` into
   * `count(1)`, the older one (`rewriteCount == false`) keeps every call as it is.
   */
  function Rewritten(func: string, args: seq<Expr>, rewriteCount: bool): (string, seq<Expr>) {
    if rewriteCount && Lower(func) == "count" && args == [WildCard(None)] then ("count", [Integer(1)])
    else (func, args)
  }

  /** The name the i-th argument of a split call is computed under. */
  function ArgName(next: nat, i: nat): Expr {
    Name(Uniq(next + i))
  }

  function ArgColumns(args: seq<Expr>, next: nat): (r: seq<Expr>)
    ensures |r| == |args|
    ensures forall i :: 0 <= i < |args| ==> r[i] == Column(args[i], Some(Uniq(next + i)))
  {
    seq(|args|, i requires 0 <= i < |args| => Column(args[i], Some(Uniq(next + i))))
  }

  function ArgNames(n: nat, next: nat): (r: seq<Expr>)
    ensures |r| == n
    ensures forall i :: 0 <= i < n ==> r[i] == ArgName(next, i)
  {
    seq(n, i requires 0 <= i < n => ArgName(next, i))
  }

  /**
   * The split of an aggregate call: each argument computed before aggregation under a
   * fresh name, the call over those names under a fresh name, and that name after it.
   */
  function CallSplit(func: string, args: seq<Expr>, next: nat): Split {
    var self := Uniq(next + |args|);
    Tag(2, ArgColumns(args, next))
      + [Fragment(1, Column(CallSetFunction(func, ArgNames(|args|, next)), Some(self)))]
      + [Fragment(0, Name(self))]
  }

  /**
   * `aggregate_split`: a node equal to a GROUP BY value becomes that key's column; a
   * column is split through its value, whose single post-aggregate fragment is renamed
   * with the column's alias; a name stays after aggregation; an aggregate call is split
   * by `CallSplit`.  There is no rule for any other node.
   */
  function AggregateSplit(node: Expr, keys: seq<GroupKey>, next: nat, ti: string -> string, rewriteCount: bool)
    : (r: Res<(Split, nat)>)
    decreases node
  {
    match LookupGroup(keys, node)
    case Some(alias) => Ok(([Fragment(0, Name(alias))], next))
    case None =>
      match node
      case Column(value, a) =>
        var (alias, n) := GetAlias(value, a, next, ti);
        var (sub, n') :- AggregateSplit(value, keys, n, ti, rewriteCount);
        var levels :- ByLevelsSpec(sub, 2);
        if |levels[0]| != 1 then Err(NotSingleFragment)
        else Ok((FromLevels([[Column(levels[0][0], Some(alias))], levels[1], levels[2]]), n'))
      case Name(_) => Ok(([Fragment(0, node)], next))
      case CallSetFunction(func, args) =>
        var (f, xs) := Rewritten(func, args, rewriteCount);
        Ok((CallSplit(f, xs, next), next + |xs| + 1))
      case _ => Err(NoHandler)
  }

  /** The nodes `aggregate_split` has a rule for, all the way down through columns. */
  predicate Splittable(node: Expr, keys: seq<GroupKey>)
    decreases node
  {
    || LookupGroup(keys, node).Some?
    || node.Name?
    || node.CallSetFunction?
    || (node.Column? && Splittable(node.value, keys))
  }

  /** Exactly one fragment after aggregation, and no level above 2. */
  predicate WellSplit(s: Split) {
    && |Bucket(s, 0)| == 1
    && forall k :: 0 <= k < |s| ==> s[k].level <= 2
  }

  lemma {:induction false} CallSplitBuckets(func: string, args: seq<Expr>, next: nat)
    ensures var s := CallSplit(func, args, next);
            var self := Uniq(next + |args|);
            && Bucket(s, 0) == [Name(self)]
            && Bucket(s, 1) == [Column(CallSetFunction(func, ArgNames(|args|, next)), Some(self))]
            && Bucket(s, 2) == ArgColumns(args, next)
            && forall k :: 0 <= k < |s| ==> s[k].level <= 2
  {
    var self := Uniq(next + |args|);
    var pre := Tag(2, ArgColumns(args, next));
    var agg := [Fragment(1, Column(CallSetFunction(func, ArgNames(|args|, next)), Some(self)))];
    var post := [Fragment(0, Name(self))];
    forall l: nat | l <= 2
      ensures Bucket(pre + agg + post, l) == Bucket(pre, l) + Bucket(agg, l) + Bucket(post, l)
    {
      BucketAppend(pre + agg, post, l);
      BucketAppend(pre, agg, l);
    }
    BucketTag(2, ArgColumns(args, next), 0);
    BucketTag(2, ArgColumns(args, next), 1);
    BucketTag(2, ArgColumns(args, next), 2);
    assert Bucket(agg, 0) == [] && Bucket(agg, 2) == [] by {
      assert agg[..0] == [];
    }
    assert Bucket(post, 1) == [] && Bucket(post, 2) == [] by {
      assert post[..0] == [];
    }
  }

  /** A column's split: its value's split with the post-aggregate fragment renamed. */
  lemma ColumnSplitBuckets(item: Expr, alias: Ident, sub: Split)
    requires WellSplit(sub)
    ensures var s := FromLevels([[Column(item, Some(alias))], Bucket(sub, 1), Bucket(sub, 2)]);
            && Bucket(s, 0) == [Column(item, Some(alias))]
            && Bucket(s, 1) == Bucket(sub, 1)
            && Bucket(s, 2) == Bucket(sub, 2)
            && WellSplit(s)
  {
    var levels := [[Column(item, Some(alias))], Bucket(sub, 1), Bucket(sub, 2)];
    BucketFromLevels(levels, 0);
    BucketFromLevels(levels, 1);
    BucketFromLevels(levels, 2);
    FromLevelsFromLevels(levels, 0);
  }

  /**
   * `aggregate_split` succeeds exactly on the nodes it has rules for, and then yields
   * exactly one post-aggregate fragment and no level above 2, so the unpacking of a
   * column's post-aggregate fragment never fails; every failure is a missing rule.
   */
  lemma {:induction false} AggregateSplitWell(node: Expr, keys: seq<GroupKey>, next: nat, ti: string -> string, rewriteCount: bool)
    ensures var r := AggregateSplit(node, keys, next, ti, rewriteCount);
            && (r.Ok? <==> Splittable(node, keys))
            && (r.Ok? ==> WellSplit(r.value.0) && next <= r.value.1)
            && (r.Err? ==> r.error == NoHandler)
    decreases node
  {
    if LookupGroup(keys, node).None? {
      match node
      case Column(value, a) =>
        var (alias, n) := GetAlias(value, a, next, ti);
        AggregateSplitWell(value, keys, n, ti, rewriteCount);
        var sub := AggregateSplit(value, keys, n, ti, rewriteCount);
        if sub.Ok? {
          var s := sub.value.0;
          var levels := ByLevelsSpec(s, 2);
          BucketNonEmpty(s, 0);
          assert levels == Ok(seq(3, l requires 0 <= l <= 2 => Bucket(s, l)));
          ColumnSplitBuckets(Bucket(s, 0)[0], alias, s);
        }
      case Name(_) =>
      case CallSetFunction(func, args) =>
        var (f, xs) := Rewritten(func, args, rewriteCount);
        CallSplitBuckets(f, xs, next);
      case _ =>
    }
  }

  /** A node equal to a GROUP BY value is replaced by the name of that key's column. */
  lemma AggregateSplitGroupHit(node: Expr, keys: seq<GroupKey>, i: nat, next: nat, ti: string -> string, rewriteCount: bool)
    requires i < |keys| && keys[i].value == node
    requires forall j :: i < j < |keys| ==> keys[j].value != node
    ensures AggregateSplit(node, keys, next, ti, rewriteCount) == Ok(([Fragment(0, Name(keys[i].alias))], next))
  {
    var r := LookupGroup(keys, node);
    var k :| 0 <= k < |keys| && keys[k].value == node && keys[k].alias == r.value &&
             forall j :: k < j < |keys| ==> keys[j].value != node;
    assert k == i;
  }

  /**
   * The split of an aggregate call over k arguments that is not a GROUP BY value: the k
   * arguments before aggregation under the fresh names next … next+k-1, the call over
   * those names under next+k, and that name after aggregation; `count(*)` is counted
   * as `count(1)` when the rewrite is on.
   */
  lemma AggregateSplitCall(func: string, args: seq<Expr>, keys: seq<GroupKey>, next: nat, ti: string -> string, rewriteCount: bool)
    requires LookupGroup(keys, CallSetFunction(func, args)).None?
    ensures var (f, xs) := Rewritten(func, args, rewriteCount);
            var r := AggregateSplit(CallSetFunction(func, args), keys, next, ti, rewriteCount);
            var self := Uniq(next + |xs|);
            && r.Ok? && r.value.1 == next + |xs| + 1
            && ByLevelsSpec(r.value.0, 2) ==
               Ok([[Name(self)],
                   [Column(CallSetFunction(f, ArgNames(|xs|, next)), Some(self))],
                   ArgColumns(xs, next)])
    ensures rewriteCount && Lower(func) == "count" && args == [WildCard(None)] ==>
            Rewritten(func, args, rewriteCount) == ("count", [Integer(1)])
    ensures !rewriteCount ==> Rewritten(func, args, rewriteCount) == (func, args)
  {
    var (f, xs) := Rewritten(func, args, rewriteCount);
    CallSplitBuckets(f, xs, next);
    var s := CallSplit(f, xs, next);
    assert |s| > 0;
    var self := Uniq(next + |xs|);
    assert seq(3, l requires 0 <= l <= 2 => Bucket(s, l)) ==
           [[Name(self)], [Column(CallSetFunction(f, ArgNames(|xs|, next)), Some(self))], ArgColumns(xs, next)];
  }

  /**
   * A column that is not a GROUP BY value: its value is split after its alias is
   * chosen, the value's post-aggregate fragment is renamed with the alias, and the
   * aggregate and pre-aggregate fragments pass through unchanged.
   */
  lemma AggregateSplitColumn(value: Expr, a: Option<Ident>, keys: seq<GroupKey>, next: nat, ti: string -> string, rewriteCount: bool)
    requires LookupGroup(keys, Column(value, a)).None?
    requires AggregateSplit(value, keys, next + 1, ti, rewriteCount).Ok?
    ensures var sub := AggregateSplit(value, keys, next + 1, ti, rewriteCount).value;
            var r := AggregateSplit(Column(value, a), keys, next, ti, rewriteCount);
            var alias := GetAlias(value, a, next, ti).0;
            && r.Ok? && r.value.1 == sub.1
            && Bucket(r.value.0, 0) == [Column(Bucket(sub.0, 0)[0], Some(alias))]
            && Bucket(r.value.0, 1) == Bucket(sub.0, 1)
            && Bucket(r.value.0, 2) == Bucket(sub.0, 2)
  {
    AggregateSplitWell(value, keys, next + 1, ti, rewriteCount);
    var s := AggregateSplit(value, keys, next + 1, ti, rewriteCount).value.0;
    BucketNonEmpty(s, 0);
    assert ByLevelsSpec(s, 2) == Ok(seq(3, l requires 0 <= l <= 2 => Bucket(s, l)));
    ColumnSplitBuckets(Bucket(s, 0)[0], GetAlias(value, a, next, ti).0, s);
  }

  /** `SplitResult.chain` over the splits of the select columns, threading fresh handles. */
  function SplitAll(columns: seq<Expr>, keys: seq<GroupKey>, next: nat, ti: string -> string, rewriteCount: bool)
    : (r: Res<(Split, nat)>)
    decreases |columns|
  {
    if columns == [] then Ok(([], next))
    else
      var (first, n) :- AggregateSplit(columns[0], keys, next, ti, rewriteCount);
      var (rest, n') :- SplitAll(columns[1..], keys, n, ti, rewriteCount);
      Ok((first + rest, n'))
  }

  /**
   * The chained split of a select list has exactly one post-aggregate item per select
   * column, and no level above 2.
   */
  lemma {:induction false} SplitAllWell(columns: seq<Expr>, keys: seq<GroupKey>, next: nat, ti: string -> string, rewriteCount: bool)
    ensures var r := SplitAll(columns, keys, next, ti, rewriteCount);
            && (r.Ok? <==> forall i :: 0 <= i < |columns| ==> Splittable(columns[i], keys))
            && (r.Ok? ==> |Bucket(r.value.0, 0)| == |columns| && next <= r.value.1)
            && (r.Ok? ==> forall k :: 0 <= k < |r.value.0| ==> r.value.0[k].level <= 2)
    decreases |columns|
  {
    if columns != [] {
      AggregateSplitWell(columns[0], keys, next, ti, rewriteCount);
      var first := AggregateSplit(columns[0], keys, next, ti, rewriteCount);
      if first.Ok? {
        var n := first.value.1;
        SplitAllWell(columns[1..], keys, n, ti, rewriteCount);
        var rest := SplitAll(columns[1..], keys, n, ti, rewriteCount);
        assert forall i :: 1 <= i < |columns| ==> columns[i] == columns[1..][i - 1];
        if rest.Ok? {
          BucketAppend(first.value.0, rest.value.0, 0);
          var s := first.value.0 + rest.value.0;
          forall k | 0 <= k < |s| ensures s[k].level <= 2 {
            if k >= |first.value.0| {
              assert s[k] == rest.value.0[k - |first.value.0|];
            }
          }
        }
      }
    }
  }

  // ---------------------------------------------------------------------------
  // Select-list normalisation

  function InternalNames(columns: seq<string>): (r: seq<Expr>)
    ensures |r| == |columns|
    ensures forall i :: 0 <= i < |columns| ==> r[i] == InternalName(Str(columns[i]))
  {
    seq(|columns|, i requires 0 <= i < |columns| => InternalName(Str(columns[i])))
  }

  /** The identifiers among `columns` whose table part is `table`, in order. */
  function OfTable(columns: seq<string>, table: string): (r: seq<string>)
    ensures forall c :: c in r <==> c in columns && ColumnGetTable(c) == Some(table)
  {
    if columns == [] then []
    else
      var init := OfTable(columns[..|columns| - 1], table);
      var last := columns[|columns| - 1];
      assert columns == columns[..|columns| - 1] + [last];
      init + (if ColumnGetTable(last) == Some(table) then [last] else [])
  }

  /** One select-list entry: `*` and `t.*` expand to table columns, a column gets an alias. */
  function NormalizeOne(tableColumns: seq<string>, col: Expr, next: nat, ti: string -> string): (r: Res<(seq<Expr>, nat)>)
  {
    match col
    case WildCard(table) =>
      if table.None? then Ok((InternalNames(tableColumns), next))
      else Ok((InternalNames(OfTable(tableColumns, table.value)), next))
    case Column(value, alias) =>
      var (name, n) := GetAlias(value, alias, next, ti);
      Ok(([Column(value, Some(name))], n))
    case _ => Err(CannotNormalize)
  }

  /** `normalize_columns`, as a value. */
  function NormalizeColumnsSpec(tableColumns: seq<string>, columns: seq<Expr>, next: nat, ti: string -> string)
    : (r: Res<(seq<Expr>, nat)>)
    decreases |columns|
  {
    if columns == [] then Ok(([], next))
    else
      var (first, n) :- NormalizeOne(tableColumns, columns[0], next, ti);
      Prepend(first, NormalizeColumnsSpec(tableColumns, columns[1..], n, ti))
  }

  /** Every normalised entry has a name: a table column, or a column with an alias. */
  predicate Named(tableColumns: seq<string>, e: Expr) {
    || (e.InternalName? && e.iname.Str? && e.iname.s in tableColumns)
    || (e.Column? && e.alias.Some?)
  }

  /**
   * Normalisation fails exactly when an entry is neither a wildcard nor a column;
   * otherwise every entry of the result is named and no handle is given back.
   */
  lemma {:induction false} NormalizeColumnsNamed(tableColumns: seq<string>, columns: seq<Expr>, next: nat, ti: string -> string)
    ensures var r := NormalizeColumnsSpec(tableColumns, columns, next, ti);
            && (r.Err? <==> exists i :: 0 <= i < |columns| && !(columns[i].WildCard? || columns[i].Column?))
            && (r.Err? ==> r.error == CannotNormalize)
            && (r.Ok? ==> forall k :: 0 <= k < |r.value.0| ==> Named(tableColumns, r.value.0[k]))
            && (r.Ok? ==> next <= r.value.1)
    decreases |columns|
  {
    if columns != [] {
      var first := NormalizeOne(tableColumns, columns[0], next, ti);
      assert forall i :: 1 <= i < |columns| ==> columns[i] == columns[1..][i - 1];
      if first.Ok? {
        NormalizeColumnsNamed(tableColumns, columns[1..], first.value.1, ti);
        var rest := NormalizeColumnsSpec(tableColumns, columns[1..], first.value.1, ti);
        if rest.Ok? {
          var out := first.value.0 + rest.value.0;
          forall k | 0 <= k < |out| ensures Named(tableColumns, out[k]) {
            if k < |first.value.0| {
              if columns[0].WildCard? && columns[0].table.Some? {
                assert OfTable(tableColumns, columns[0].table.value)[k] in OfTable(tableColumns, columns[0].table.value);
              }
            } else {
              assert out[k] == rest.value.0[k - |first.value.0|];
            }
          }
        }
      }
    }
  }

  /** `*` alone gives one internal name per table column, in table order. */
  lemma NormalizeStar(tableColumns: seq<string>, next: nat, ti: string -> string)
    ensures NormalizeColumnsSpec(tableColumns, [WildCard(None)], next, ti) == Ok((InternalNames(tableColumns), next))
  {
    assert [WildCard(None)][1..] == [];
    assert InternalNames(tableColumns) + [] == InternalNames(tableColumns);
  }

  /**
   * `t.*` alone gives internal names exactly for the table columns with table part `t`,
   * in table order.
   */
  lemma NormalizeQualifiedStar(tableColumns: seq<string>, t: string, next: nat, ti: string -> string)
    ensures var r := NormalizeColumnsSpec(tableColumns, [WildCard(Some(t))], next, ti);
            && r.Ok? && r.value.1 == next
            && (forall e :: e in r.value.0 ==> e.InternalName? && e.iname.Str? && ColumnGetTable(e.iname.s) == Some(t))
            && (forall c :: c in tableColumns && ColumnGetTable(c) == Some(t) ==> InternalName(Str(c)) in r.value.0)
  {
    var sel := OfTable(tableColumns, t);
    assert [WildCard(Some(t))][1..] == [];
    assert InternalNames(sel) + [] == InternalNames(sel);
    forall c | c in tableColumns && ColumnGetTable(c) == Some(t) ensures InternalName(Str(c)) in InternalNames(sel) {
      var i :| 0 <= i < |sel| && sel[i] == c;
      assert InternalNames(sel)[i] == InternalName(Str(c));
    }
  }

  /**
   * A column gets the alias chosen in order: its explicit alias, then the name it
   * references, then a fresh handle; all internalised, the value unchanged.
   */
  lemma NormalizeColumnAlias(tableColumns: seq<string>, value: Expr, alias: Option<Ident>, next: nat, ti: string -> string)
    ensures var r := NormalizeColumnsSpec(tableColumns, [Column(value, alias)], next, ti);
            && r.Ok? && r.value.1 == next + 1 && |r.value.0| == 1
            && r.value.0[0].Column? && r.value.0[0].value == value
            && r.value.0[0].alias == Some(if alias.Some? then Internal(ti, alias.value)
                                          else if value.Name? then Internal(ti, value.name)
                                          else Uniq(next))
  {
    assert [Column(value, alias)][1..] == [];
  }

  /** `normalize_columns`: the entries normalised one by one into a growing list. */
  method NormalizeColumns(tableColumns: seq<string>, columns: seq<Expr>, next: nat, ti: string -> string)
    returns (r: Res<(seq<Expr>, nat)>)
    ensures r == NormalizeColumnsSpec(tableColumns, columns, next, ti)
  {
    var result: seq<Expr> := [];
    var n := next;
    assert columns[0..] == columns;
    PrependEmpty(NormalizeColumnsSpec(tableColumns, columns, next, ti));
    for i := 0 to |columns|
      invariant NormalizeColumnsSpec(tableColumns, columns, next, ti) ==
                Prepend(result, NormalizeColumnsSpec(tableColumns, columns[i..], n, ti))
    {
      assert columns[i..][0] == columns[i] && columns[i..][1..] == columns[i + 1..];
      var col := columns[i];
      var entries: seq<Expr>;
      if col.WildCard? {
        if col.table.None? {
          entries := InternalNames(tableColumns);
        } else {
          entries := InternalNames(OfTable(tableColumns, col.table.value));
        }
      } else if col.Column? {
        var (alias, n') := GetAlias(col.value, col.alias, n, ti);
        entries := [Column(col.value, Some(alias))];
        n := n';
      } else {
        return Err(CannotNormalize);
      }
      PrependAppend(result, entries, NormalizeColumnsSpec(tableColumns, columns[i + 1..], n, ti));
      result := result + entries;
    }
    assert columns[|columns|..] == [];
    assert result + [] == result;
    return Ok((result, n));
  }

  // ---------------------------------------------------------------------------
  // GROUP BY normalisation

  /**
   * The select aliases, each to its value, built left to right so that the last of
   * several columns with the same alias wins.  Every select entry must be a column.
   */
  function AliasMap(columns: seq<Expr>): (r: Res<map<Ident, Expr>>)
    ensures r.Ok? ==> forall i :: 0 <= i < |columns| ==> columns[i].Column?
    ensures r.Ok? ==> forall a :: a in r.value <==> exists i :: 0 <= i < |columns| && columns[i].alias == Some(a)
    ensures r.Err? <==> exists i :: 0 <= i < |columns| && !columns[i].Column?
    ensures r.Err? ==> r == Err(MissingAttribute)
  {
    if columns == [] then Ok(map[])
    else
      var init := columns[..|columns| - 1];
      var m :- AliasMap(init);
      var c := columns[|columns| - 1];
      assert forall i :: 0 <= i < |init| ==> init[i] == columns[i];
      if !c.Column? then Err(MissingAttribute)
      else if c.alias.Some? then Ok(m[c.alias.value := c.value])
      else Ok(m)
  }

  /** Column `i` is the last select entry carrying alias `a`. */
  ghost predicate LastWithAlias(columns: seq<Expr>, i: int, a: Ident) {
    && 0 <= i < |columns|
    && columns[i].Column? && columns[i].alias == Some(a)
    && forall j :: i < j < |columns| ==> !(columns[j].Column? && columns[j].alias == Some(a))
  }

  /** The last column with alias `a` stays the last when a column without it follows. */
  lemma LastWithAliasExtend(columns: seq<Expr>, i: int, a: Ident)
    requires |columns| > 0 && LastWithAlias(columns[..|columns| - 1], i, a)
    requires !(columns[|columns| - 1].Column? && columns[|columns| - 1].alias == Some(a))
    ensures LastWithAlias(columns, i, a)
  {
    var init := columns[..|columns| - 1];
    forall j | i < j < |columns|
      ensures !(columns[j].Column? && columns[j].alias == Some(a))
    {
      if j < |init| {
        assert columns[j] == init[j];
      }
    }
  }

  /** Each alias maps to the value of the last select column carrying it. */
  lemma {:induction false} AliasMapLastWins(columns: seq<Expr>)
    requires AliasMap(columns).Ok?
    ensures forall a :: a in AliasMap(columns).value ==>
              exists i :: LastWithAlias(columns, i, a) && AliasMap(columns).value[a] == columns[i].value
  {
    if columns != [] {
      var init := columns[..|columns| - 1];
      var c := columns[|columns| - 1];
      assert forall i :: 0 <= i < |init| ==> init[i] == columns[i];
      assert AliasMap(init).Ok? && c.Column?;
      AliasMapLastWins(init);
      var m := AliasMap(init).value;
      var full := AliasMap(columns).value;
      assert full == if c.alias.Some? then m[c.alias.value := c.value] else m;
      forall a | a in full
        ensures exists i :: LastWithAlias(columns, i, a) && full[a] == columns[i].value
      {
        if c.alias == Some(a) {
          assert LastWithAlias(columns, |columns| - 1, a);
        } else {
          assert a in m && full[a] == m[a];
          var i :| LastWithAlias(init, i, a) && m[a] == init[i].value;
          LastWithAliasExtend(columns, i, a);
        }
      }
    }
  }

  /**
   * A positional GROUP BY entry `n` stands for the value of select column n, counted
   * from 1 with Python's indexing: 0 and negative positions count from the end.
   */
  function Positional(columns: seq<Expr>, e: Expr): (r: Res<Expr>)
    ensures !e.Integer? ==> r == Ok(e)
  {
    if e.Integer? then
      match PyIndex(columns, e.n - 1)
      case None => Err(IndexOutOfRange)
      case Some(c) => if c.Column? then Ok(c.value) else Err(MissingAttribute)
    else Ok(e)
  }

  function Substitute(columns: seq<Expr>, exprs: seq<Expr>): (r: Res<seq<Expr>>)
    ensures r.Ok? ==> |r.value| == |exprs|
    ensures r.Ok? ==> forall i :: 0 <= i < |exprs| ==> Positional(columns, exprs[i]) == Ok(r.value[i])
  {
    if exprs == [] then Ok([])
    else
      var init :- Substitute(columns, exprs[..|exprs| - 1]);
      var last :- Positional(columns, exprs[|exprs| - 1]);
      Ok(init + [last])
  }

  /** Some table column is named by the user reference `s`. */
  predicate InTable(tableColumns: seq<string>, s: string) {
    exists c :: c in tableColumns && ColumnMatch(s, c)
  }

  /**
   * One GROUP BY expression: a name of a table column is grouped under that name; else
   * a select alias stands for its value, grouped under the internalised alias; any
   * other expression is grouped under a fresh handle; an unknown name is refused.  The
   * table lookup needs a string, so a handle name fails there when the table has
   * columns.
   */
  function MatchGroup(tableColumns: seq<string>, aliases: map<Ident, Expr>, e: Expr, next: nat, ti: string -> string)
    : (r: Res<(GroupKey, nat)>)
  {
    if e.Name? then
      if e.name.Uniq? && |tableColumns| > 0 then Err(NotAString)
      else if e.name.Str? && InTable(tableColumns, e.name.s) then Ok((GroupKey(e, e.name), next))
      else if e.name in aliases then Ok((GroupKey(aliases[e.name], Internal(ti, e.name)), next))
      else Err(UnhandledGroupByExpression)
    else Ok((GroupKey(e, Uniq(next)), next + 1))
  }

  /** A key that came from an expression that is not a name: grouped under a fresh handle. */
  predicate FreshKey(e: Expr, k: GroupKey) {
    !e.Name? && k.value == e && k.alias.Uniq?
  }

  /** The expressions matched in order, with fresh handles counted up from `next`. */
  function MatchAll(tableColumns: seq<string>, aliases: map<Ident, Expr>, exprs: seq<Expr>, next: nat, ti: string -> string)
    : (r: Res<(seq<GroupKey>, nat)>)
    ensures r.Ok? ==> |r.value.0| == |exprs| && next <= r.value.1
    decreases |exprs|
  {
    if exprs == [] then Ok(([], next))
    else
      var (first, n) :- MatchGroup(tableColumns, aliases, exprs[0], next, ti);
      var (rest, n') :- MatchAll(tableColumns, aliases, exprs[1..], n, ti);
      Ok(([first] + rest, n'))
  }

  /**
   * Each entry that is not a name gets a fresh handle from the range the match
   * allocates, and later entries get larger handles: no two fresh keys share one.
   */
  lemma {:induction false} MatchAllFresh(tableColumns: seq<string>, aliases: map<Ident, Expr>, exprs: seq<Expr>, next: nat, ti: string -> string)
    requires MatchAll(tableColumns, aliases, exprs, next, ti).Ok?
    ensures var (keys, n) := MatchAll(tableColumns, aliases, exprs, next, ti).value;
            && (forall i :: 0 <= i < |exprs| && !exprs[i].Name? ==> FreshKey(exprs[i], keys[i]) && next <= keys[i].alias.id < n)
            && (forall i, j :: 0 <= i < j < |exprs| && FreshKey(exprs[i], keys[i]) && FreshKey(exprs[j], keys[j]) ==>
                  keys[i].alias.id < keys[j].alias.id)
    decreases |exprs|
  {
    if exprs != [] {
      var (first, n) := MatchGroup(tableColumns, aliases, exprs[0], next, ti).value;
      MatchAllFresh(tableColumns, aliases, exprs[1..], n, ti);
      var (rest, n') := MatchAll(tableColumns, aliases, exprs[1..], n, ti).value;
      var keys := [first] + rest;
      assert forall i :: 1 <= i < |exprs| ==> exprs[i] == exprs[1..][i - 1] && keys[i] == rest[i - 1];
    }
  }

  /**
   * `normalize_group_by`, as a value: no clause gives no keys; otherwise the aliases,
   * then (in the newer planner) the positional entries, then each entry matched.
   */
  function NormalizeGroupBySpec(tableColumns: seq<string>, columns: seq<Expr>, groupBy: Option<seq<Expr>>,
                                next: nat, ti: string -> string, positional: bool)
    : (r: Res<(seq<GroupKey>, nat)>)
  {
    if groupBy.None? then Ok(([], next))
    else
      var aliases :- AliasMap(columns);
      var exprs :- if positional then Substitute(columns, groupBy.value) else Ok(groupBy.value);
      MatchAll(tableColumns, aliases, exprs, next, ti)
  }

  /**
   * The normalised GROUP BY has one key per entry; a name of a table column is kept
   * under its own name, a select alias is replaced by its value, and each other
   * expression is grouped under a distinct fresh handle.
   */
  lemma {:induction false} NormalizeGroupByKeys(tableColumns: seq<string>, columns: seq<Expr>, groupBy: seq<Expr>,
                                                 next: nat, ti: string -> string, positional: bool)
    requires NormalizeGroupBySpec(tableColumns, columns, Some(groupBy), next, ti, positional).Ok?
    ensures var (keys, n) := NormalizeGroupBySpec(tableColumns, columns, Some(groupBy), next, ti, positional).value;
            var exprs := if positional then Substitute(columns, groupBy).value else groupBy;
            var aliases := AliasMap(columns).value;
            && |keys| == |groupBy| == |exprs|
            && (forall i :: 0 <= i < |exprs| ==>
                 if exprs[i].Name? then
                   if exprs[i].name.Str? && InTable(tableColumns, exprs[i].name.s) then keys[i] == GroupKey(exprs[i], exprs[i].name)
                   else exprs[i].name in aliases && keys[i] == GroupKey(aliases[exprs[i].name], Internal(ti, exprs[i].name))
                 else FreshKey(exprs[i], keys[i]) && next <= keys[i].alias.id < n)
            && forall i, j :: 0 <= i < j < |exprs| && FreshKey(exprs[i], keys[i]) && FreshKey(exprs[j], keys[j]) ==>
                 keys[i].alias.id < keys[j].alias.id
  {
    var aliases := AliasMap(columns).value;
    var exprs := if positional then Substitute(columns, groupBy).value else groupBy;
    MatchAllEntries(tableColumns, aliases, exprs, next, ti);
    MatchAllFresh(tableColumns, aliases, exprs, next, ti);
  }

  lemma {:induction false} MatchAllEntries(tableColumns: seq<string>, aliases: map<Ident, Expr>, exprs: seq<Expr>, next: nat, ti: string -> string)
    requires MatchAll(tableColumns, aliases, exprs, next, ti).Ok?
    ensures var keys := MatchAll(tableColumns, aliases, exprs, next, ti).value.0;
            forall i :: 0 <= i < |exprs| && exprs[i].Name? ==>
              if exprs[i].name.Str? && InTable(tableColumns, exprs[i].name.s) then keys[i] == GroupKey(exprs[i], exprs[i].name)
              else exprs[i].name in aliases && keys[i] == GroupKey(aliases[exprs[i].name], Internal(ti, exprs[i].name))
    decreases |exprs|
  {
    if exprs != [] {
      var first := MatchGroup(tableColumns, aliases, exprs[0], next, ti).value;
      MatchAllEntries(tableColumns, aliases, exprs[1..], first.1, ti);
      assert forall i :: 1 <= i < |exprs| ==> exprs[i] == exprs[1..][i - 1];
    }
  }

  /** A table column is preferred over a select alias of the same name. */
  lemma GroupByPrefersTableColumn(tableColumns: seq<string>, aliases: map<Ident, Expr>, s: string, next: nat, ti: string -> string)
    requires InTable(tableColumns, s) && Str(s) in aliases
    ensures MatchGroup(tableColumns, aliases, Name(Str(s)), next, ti) == Ok((GroupKey(Name(Str(s)), Str(s)), next))
  {
  }

  /**
   * With the positional step, GROUP BY n groups by the value of select column n; GROUP
   * BY 0 is Python's index -1 and groups by the last select column.
   */
  lemma PositionalGroupBy(columns: seq<Expr>, n: nat)
    requires forall i :: 0 <= i < |columns| ==> columns[i].Column?
    ensures 1 <= n <= |columns| ==> Positional(columns, Integer(n)) == Ok(columns[n - 1].value)
    ensures n == 0 && |columns| > 0 ==> Positional(columns, Integer(n)) == Ok(columns[|columns| - 1].value)
    ensures n > |columns| ==> Positional(columns, Integer(n)) == Err(IndexOutOfRange)
  {
  }

  lemma MatchAllStep(tableColumns: seq<string>, aliases: map<Ident, Expr>, exprs: seq<Expr>, i: nat, n: nat, ti: string -> string)
    requires i < |exprs|
    ensures var m := MatchGroup(tableColumns, aliases, exprs[i], n, ti);
            MatchAll(tableColumns, aliases, exprs[i..], n, ti) ==
              if m.Err? then Err(m.error) else Prepend([m.value.0], MatchAll(tableColumns, aliases, exprs[i + 1..], m.value.1, ti))
  {
    assert exprs[i..][0] == exprs[i] && exprs[i..][1..] == exprs[i + 1..];
  }

  /** `normalize_group_by`: the entries matched one by one into a growing list. */
  method NormalizeGroupBy(tableColumns: seq<string>, columns: seq<Expr>, groupBy: Option<seq<Expr>>,
                          next: nat, ti: string -> string, positional: bool)
    returns (r: Res<(seq<GroupKey>, nat)>)
    ensures r == NormalizeGroupBySpec(tableColumns, columns, groupBy, next, ti, positional)
  {
    if groupBy.None? {
      return Ok(([], next));
    }
    var aliasesR := AliasMap(columns);
    if aliasesR.Err? {
      return Err(aliasesR.error);
    }
    var aliases := aliasesR.value;
    var exprsR := if positional then Substitute(columns, groupBy.value) else Ok(groupBy.value);
    if exprsR.Err? {
      return Err(exprsR.error);
    }
    var exprs := exprsR.value;
    var normalized: seq<GroupKey> := [];
    var n := next;
    assert exprs[0..] == exprs;
    PrependEmpty(MatchAll(tableColumns, aliases, exprs, next, ti));
    for i := 0 to |exprs|
      invariant MatchAll(tableColumns, aliases, exprs, next, ti) == Prepend(normalized, MatchAll(tableColumns, aliases, exprs[i..], n, ti))
    {
      MatchAllStep(tableColumns, aliases, exprs, i, n, ti);
      var matched := MatchGroup(tableColumns, aliases, exprs[i], n, ti);
      if matched.Err? {
        return Err(matched.error);
      }
      PrependAppend(normalized, [matched.value.0], MatchAll(tableColumns, aliases, exprs[i + 1..], matched.value.1, ti));
      normalized := normalized + [matched.value.0];
      n := matched.value.1;
    }
    assert exprs[|exprs|..] == [];
    assert normalized + [] == normalized;
    return Ok((normalized, n));
  }
}
