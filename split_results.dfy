/**
 * Level-tagged fragments of a select list.  Splitting a select expression yields
 * fragments tagged 2 (computed before aggregation), 1 (the aggregation itself) and
 * 0 (computed after it); `by_levels` sorts them back into one list per level.
 */
module SplitResults {
  import opened Wrappers
  import opened Ast

  datatype Fragment = Fragment(level: nat, item: Expr)

  type Split = seq<Fragment>

  /** The items of one level, each tagged with it. */
  function Tag(level: nat, items: seq<Expr>): (r: Split)
    ensures |r| == |items|
    ensures forall i :: 0 <= i < |items| ==> r[i] == Fragment(level, items[i])
  {
    seq(|items|, i requires 0 <= i < |items| => Fragment(level, items[i]))
  }

  /** `from_levels`: the i-th list tagged with level `start + i`, lists in order. */
  function FromLevelsFrom(levels: seq<seq<Expr>>, start: nat): Split
    decreases |levels|
  {
    if levels == [] then [] else Tag(start, levels[0]) + FromLevelsFrom(levels[1..], start + 1)
  }

  function FromLevels(levels: seq<seq<Expr>>): Split {
    FromLevelsFrom(levels, 0)
  }

  /** `chain`: the splits one after the other. */
  function Chain(splits: seq<Split>): Split {
    if splits == [] then [] else Chain(splits[..|splits| - 1]) + splits[|splits| - 1]
  }

  /** `promote`: every level one higher, items unchanged. */
  function Promote(s: Split): (r: Split)
    ensures |r| == |s|
    ensures forall i :: 0 <= i < |s| ==> r[i] == Fragment(s[i].level + 1, s[i].item)
  {
    seq(|s|, i requires 0 <= i < |s| => Fragment(s[i].level + 1, s[i].item))
  }

  /** The items tagged `level`, in their order in `s`. */
  function Bucket(s: Split, level: nat): seq<Expr> {
    if s == [] then []
    else Bucket(s[..|s| - 1], level) + (if s[|s| - 1].level == level then [s[|s| - 1].item] else [])
  }

  /** `by_levels(maxlevel)`, as a value: one list per level up to `maxlevel`. */
  function ByLevelsSpec(s: Split, maxlevel: nat): Res<seq<seq<Expr>>> {
    if |s| == 0 then Err(EmptySplit)
    else if exists k :: 0 <= k < |s| && s[k].level > maxlevel then Err(SplitLevelOverflow)
    else Ok(seq(maxlevel + 1, l requires 0 <= l <= maxlevel => Bucket(s, l)))
  }

  lemma {:induction false} BucketAppend(a: Split, b: Split, level: nat)
    ensures Bucket(a + b, level) == Bucket(a, level) + Bucket(b, level)
    decreases |b|
  {
    if b == [] {
      assert a + b == a;
    } else {
      var init := b[..|b| - 1];
      assert (a + b)[..|a + b| - 1] == a + init;
      BucketAppend(a, init, level);
    }
  }

  /** A level's bucket is non-empty exactly when some fragment carries that level. */
  lemma {:induction false} BucketNonEmpty(s: Split, level: nat)
    ensures Bucket(s, level) != [] <==> exists k :: 0 <= k < |s| && s[k].level == level
    decreases |s|
  {
    if s != [] {
      var init := s[..|s| - 1];
      BucketNonEmpty(init, level);
      if exists k :: 0 <= k < |init| && init[k].level == level {
        var k :| 0 <= k < |init| && init[k].level == level;
        assert s[k] == init[k];
      }
      if exists k :: 0 <= k < |s| && s[k].level == level {
        var k :| 0 <= k < |s| && s[k].level == level;
        if k < |init| {
          assert init[k] == s[k];
        }
      }
    }
  }

  /** All items of a tagged list land in that level's bucket and nowhere else. */
  lemma {:induction false} BucketTag(level: nat, items: seq<Expr>, l: nat)
    ensures Bucket(Tag(level, items), l) == if l == level then items else []
    decreases |items|
  {
    if items != [] {
      var init := items[..|items| - 1];
      assert Tag(level, items)[..|items| - 1] == Tag(level, init);
      BucketTag(level, init, l);
      assert init + [items[|items| - 1]] == items;
    }
  }

  lemma {:induction false} BucketFromLevelsFrom(levels: seq<seq<Expr>>, start: nat, l: nat)
    ensures Bucket(FromLevelsFrom(levels, start), l) ==
            if start <= l < start + |levels| then levels[l - start] else []
    decreases |levels|
  {
    if levels != [] {
      var rest := FromLevelsFrom(levels[1..], start + 1);
      BucketAppend(Tag(start, levels[0]), rest, l);
      BucketTag(start, levels[0], l);
      BucketFromLevelsFrom(levels[1..], start + 1, l);
      if l == start {
        assert Bucket(rest, l) == [];
        assert levels[0] + [] == levels[0];
      } else if start < l < start + |levels| {
        assert levels[1..][l - (start + 1)] == levels[l - start];
        assert [] + levels[l - start] == levels[l - start];
      } else {
        assert Bucket(rest, l) == [];
      }
    }
  }

  /** `from_levels` puts the i-th list back into the i-th bucket. */
  lemma BucketFromLevels(levels: seq<seq<Expr>>, l: nat)
    ensures Bucket(FromLevels(levels), l) == if l < |levels| then levels[l] else []
  {
    BucketFromLevelsFrom(levels, 0, l);
  }

  lemma {:induction false} FromLevelsFromLevels(levels: seq<seq<Expr>>, start: nat)
    ensures forall k :: 0 <= k < |FromLevelsFrom(levels, start)| ==>
              start <= FromLevelsFrom(levels, start)[k].level < start + |levels|
    ensures |FromLevelsFrom(levels, start)| == 0 <==> forall i :: 0 <= i < |levels| ==> levels[i] == []
    decreases |levels|
  {
    if levels != [] {
      FromLevelsFromLevels(levels[1..], start + 1);
      var rest := FromLevelsFrom(levels[1..], start + 1);
      assert FromLevelsFrom(levels, start) == Tag(start, levels[0]) + rest;
      if forall i :: 0 <= i < |levels| - 1 ==> levels[1..][i] == [] {
        assert forall i :: 1 <= i < |levels| ==> levels[i] == levels[1..][i - 1];
      }
    }
  }

  /**
   * `by_levels(n)` of `from_levels(l_0, …, l_n)` gives back the lists, unless they are
   * all empty, which `by_levels` refuses.
   */
  lemma ByLevelsFromLevels(levels: seq<seq<Expr>>)
    requires |levels| >= 1
    ensures ByLevelsSpec(FromLevels(levels), |levels| - 1) ==
            if forall i :: 0 <= i < |levels| ==> levels[i] == [] then Err(EmptySplit) else Ok(levels)
  {
    var s := FromLevels(levels);
    FromLevelsFromLevels(levels, 0);
    forall l | 0 <= l < |levels| ensures Bucket(s, l) == levels[l] {
      BucketFromLevels(levels, l);
    }
    var n := |levels| - 1;
    assert seq(n + 1, l requires 0 <= l <= n => Bucket(s, l)) == levels;
  }

  /** The level-`l` buckets of the splits, concatenated in order. */
  function ChainedBuckets(splits: seq<Split>, l: nat): seq<Expr> {
    if splits == [] then [] else ChainedBuckets(splits[..|splits| - 1], l) + Bucket(splits[|splits| - 1], l)
  }

  /** Buckets of a chain are the chained buckets. */
  lemma {:induction false} BucketChain(splits: seq<Split>, l: nat)
    ensures Bucket(Chain(splits), l) == ChainedBuckets(splits, l)
    decreases |splits|
  {
    if splits != [] {
      BucketChain(splits[..|splits| - 1], l);
      BucketAppend(Chain(splits[..|splits| - 1]), splits[|splits| - 1], l);
    }
  }

  /** Promotion moves every bucket one level up and leaves level 0 empty. */
  lemma {:induction false} BucketPromote(s: Split, l: nat)
    ensures Bucket(Promote(s), l + 1) == Bucket(s, l)
    ensures Bucket(Promote(s), 0) == []
    decreases |s|
  {
    if s != [] {
      var p := Promote(s);
      var init := s[..|s| - 1];
      assert p[..|s| - 1] == Promote(init);
      BucketPromote(init, l);
      var last := s[|s| - 1];
      assert p[|s| - 1] == Fragment(last.level + 1, last.item);
      assert Bucket(p, l + 1) == Bucket(Promote(init), l + 1) + (if last.level == l then [last.item] else []);
      assert Bucket(s, l) == Bucket(init, l) + (if last.level == l then [last.item] else []);
    }
  }

  /**
   * With every level at most 2, the three buckets hold every fragment exactly once:
   * their sizes add up to the number of fragments.
   */
  lemma {:induction false} BucketsPartition(s: Split)
    requires forall k :: 0 <= k < |s| ==> s[k].level <= 2
    ensures |Bucket(s, 0)| + |Bucket(s, 1)| + |Bucket(s, 2)| == |s|
    decreases |s|
  {
    if s != [] {
      BucketsPartition(s[..|s| - 1]);
    }
  }

  /** `by_levels`: a dictionary of lists filled fragment by fragment. */
  method ByLevels(s: Split, maxlevel: nat) returns (r: Res<seq<seq<Expr>>>)
    ensures r == ByLevelsSpec(s, maxlevel)
  {
    var buckets: map<nat, seq<Expr>> := map[];
    for i := 0 to |s|
      invariant forall l :: l in buckets <==> Bucket(s[..i], l) != []
      invariant forall l :: l in buckets ==> buckets[l] == Bucket(s[..i], l)
    {
      assert s[..i + 1][..i] == s[..i];
      var f := s[i];
      var current := if f.level in buckets then buckets[f.level] else [];
      buckets := buckets[f.level := current + [f.item]];
    }
    assert s[..|s|] == s;
    if |s| > 0 {
      BucketNonEmpty(s, s[0].level);
    }
    if |buckets| == 0 {
      return Err(EmptySplit);
    }
    if exists l :: l in buckets && l > maxlevel {
      var l :| l in buckets && l > maxlevel;
      BucketNonEmpty(s, l);
      return Err(SplitLevelOverflow);
    }
    forall k | 0 <= k < |s| ensures s[k].level <= maxlevel {
      BucketNonEmpty(s, s[k].level);
    }
    var key :| key in buckets;
    BucketNonEmpty(s, key);
    var lists := seq(maxlevel + 1, l requires 0 <= l <= maxlevel => if l in buckets then buckets[l] else []);
    assert lists == seq(maxlevel + 1, l requires 0 <= l <= maxlevel => Bucket(s, l));
    return Ok(lists);
  }
}
