/**
 * Synthetic column names.  A `Unique` is a natural-number handle; the generator maps
 * each handle it is asked about to `unique-<n>`, counting from 0 in order of first
 * request, and a frozen generator refuses handles it has not seen.
 */
module UniqueNames {
  import opened Wrappers
  import opened Ast
  import opened Text

  function UniqueName(n: nat): string {
    "unique-" + NatToString(n)
  }

  /** The generated names of different counter values differ. */
  lemma UniqueNameInjective(a: nat, b: nat)
    requires UniqueName(a) == UniqueName(b)
    ensures a == b
  {
    var prefix := "unique-";
    assert UniqueName(a)[|prefix|..] == NatToString(a);
    assert UniqueName(b)[|prefix|..] == NatToString(b);
    NatToStringInjective(a, b);
  }

  /**
   * The names of a generator that started from `preset`: the preset entries are kept,
   * and the i-th handle it named itself (in order of first request, no repeats, none
   * preset) is named `unique-<i>`.
   */
  ghost predicate Sequential(names: map<nat, string>, preset: map<nat, string>, issued: seq<nat>) {
    && (forall i, j :: 0 <= i < j < |issued| ==> issued[i] != issued[j])
    && (forall i :: 0 <= i < |issued| ==>
          issued[i] in names && issued[i] !in preset && names[issued[i]] == UniqueName(i))
    && (forall u :: u in preset ==> u in names && names[u] == preset[u])
    && (forall u :: u in names ==> u in preset || u in issued)
  }

  /** Two handles the generator named itself never share a name. */
  lemma SequentialNamesDistinct(names: map<nat, string>, preset: map<nat, string>, issued: seq<nat>, u: nat, v: nat)
    requires Sequential(names, preset, issued)
    requires u in names && v in names && u !in preset && v !in preset && u != v
    ensures names[u] != names[v]
  {
    var i :| 0 <= i < |issued| && issued[i] == u;
    var j :| 0 <= j < |issued| && issued[j] == v;
    if names[u] == names[v] {
      UniqueNameInjective(i, j);
    }
  }

  /** The k-th handle named after the first `|earlier|` is named `unique-<|earlier| + k>`. */
  lemma SequentialSuffix(names: map<nat, string>, preset: map<nat, string>, earlier: seq<nat>, later: seq<nat>, k: nat)
    requires Sequential(names, preset, earlier + later) && k < |later|
    ensures later[k] in names && names[later[k]] == UniqueName(|earlier| + k)
  {
    assert (earlier + later)[|earlier| + k] == later[k];
  }

  /** The handles among `objs`. */
  function HandlesOf(objs: seq<Ident>): (r: set<nat>)
    ensures forall i :: 0 <= i < |objs| && objs[i].Uniq? ==> objs[i].id in r
  {
    if objs == [] then {} else HandlesOf(objs[..|objs| - 1]) + IdentIds(objs[|objs| - 1])
  }

  /**
   * The handles among `objs` that are neither in `known` nor met earlier in `objs`, in
   * order of first occurrence: the ones a counting generator names while fixing `objs`.
   */
  function NewHandles(objs: seq<Ident>, known: set<nat>): seq<nat> {
    if objs == [] then []
    else
      var init := objs[..|objs| - 1];
      var o := objs[|objs| - 1];
      NewHandles(init, known) + if o.Uniq? && o.id !in known && o.id !in HandlesOf(init) then [o.id] else []
  }

  /** One more object taken into the handles met and the new handles. */
  lemma NewHandlesStep(objs: seq<Ident>, i: nat, known: set<nat>)
    requires i < |objs|
    ensures HandlesOf(objs[..i + 1]) == HandlesOf(objs[..i]) + IdentIds(objs[i])
    ensures NewHandles(objs[..i + 1], known) ==
            NewHandles(objs[..i], known) +
              if objs[i].Uniq? && objs[i].id !in known && objs[i].id !in HandlesOf(objs[..i]) then [objs[i].id] else []
  {
    assert objs[..i + 1][..i] == objs[..i];
  }

  /** Naming one fresh handle `u0` after the handles `seen` and the new handles `added`. */
  lemma FreshNameStep(names0: map<nat, string>, before: map<nat, string>, u0: nat, v: string, seen: set<nat>,
                      issued0: seq<nat>, issuedBefore: seq<nat>, added: seq<nat>)
    requires u0 !in before
    requires forall u :: u in names0 ==> u in before && before[u] == names0[u]
    requires before.Keys == names0.Keys + seen
    requires issuedBefore == issued0 + added
    ensures forall u :: u in names0 ==> u in before[u0 := v] && before[u0 := v][u] == names0[u]
    ensures before[u0 := v].Keys == names0.Keys + (seen + {u0})
    ensures issuedBefore + [u0] == issued0 + (added + [u0])
  {
  }

  class UniqueNameGenerator {
    var names: map<nat, string>
    /** The next counter value, or `None` once the generator is frozen. */
    var ids: Option<nat>
    /** The names it was created with, and the handles it named itself, in order. */
    ghost var preset: map<nat, string>
    ghost var issued: seq<nat>

    /** A generator is counting from the names it issued itself. */
    ghost predicate Valid()
      reads this
    {
      ids.Some? ==> ids.value == |issued| && Sequential(names, preset, issued)
    }

    constructor (names: map<nat, string>, fixed: bool)
      ensures Valid()
      ensures this.names == names && preset == names && issued == []
      ensures ids == if fixed then None else Some(0)
    {
      this.names := names;
      this.ids := if fixed then None else Some(0);
      this.preset := names;
      this.issued := [];
    }

    /**
     * The name of `obj`: a string passes through; a seen handle gets its memoised name;
     * an unseen one gets the next `unique-<n>`, unless the generator is frozen.
     */
    method Get(obj: Ident) returns (r: Res<string>)
      requires Valid()
      modifies this
      ensures Valid()
      ensures obj.Str? ==> r == Ok(obj.s) && names == old(names) && ids == old(ids) && preset == old(preset) && issued == old(issued)
      ensures obj.Uniq? && obj.id in old(names) ==>
                r == Ok(old(names)[obj.id]) && names == old(names) && ids == old(ids) && preset == old(preset) && issued == old(issued)
      ensures obj.Uniq? && obj.id !in old(names) && old(ids).None? ==>
                r == Err(UnknownUnique) && names == old(names) && ids == old(ids) && preset == old(preset) && issued == old(issued)
      ensures obj.Uniq? && obj.id !in old(names) && old(ids).Some? ==>
                && r == Ok(UniqueName(old(ids).value))
                && r.value == UniqueName(|old(issued)|)
                && names == old(names)[obj.id := UniqueName(old(ids).value)]
                && ids == Some(old(ids).value + 1)
                && issued == old(issued) + [obj.id] && preset == old(preset)
    {
      match obj
      case Str(s) =>
        return Ok(s);
      case Uniq(u) =>
        if u !in names {
          if ids.None? {
            return Err(UnknownUnique);
          }
          var n := ids.value;
          names := names[u := UniqueName(n)];
          ids := Some(n + 1);
          issued := issued + [u];
        }
        return Ok(names[u]);
    }

    /**
     * The state after naming `objs[..i]`, starting from the names `names0` and the
     * issued handles `issued0`, counting or frozen.
     */
    ghost predicate NamedUpTo(objs: seq<Ident>, i: nat, names0: map<nat, string>, issued0: seq<nat>, counting: bool)
      requires i <= |objs|
      reads this
    {
      && Valid()
      && (ids.Some? <==> counting)
      && (forall u :: u in names0 ==> u in names && names[u] == names0[u])
      && names.Keys == names0.Keys + HandlesOf(objs[..i])
      && (counting ==> issued == issued0 + NewHandles(objs[..i], names0.Keys))
      && (!counting ==> names == names0 && issued == issued0)
    }

    /** Name `objs[i]`, the next object, or refuse it. */
    method NameNext(objs: seq<Ident>, i: nat, ghost names0: map<nat, string>, ghost issued0: seq<nat>, ghost counting: bool)
        returns (r: Res<()>)
      requires i < |objs| && NamedUpTo(objs, i, names0, issued0, counting)
      modifies this
      ensures preset == old(preset)
      ensures r.Ok? ==> NamedUpTo(objs, i + 1, names0, issued0, counting)
      ensures r.Err? ==> NamedUpTo(objs, i, names0, issued0, counting)
      ensures r.Err? <==> !counting && objs[i].Uniq? && objs[i].id !in names0
      ensures r.Err? ==> r.error == UnknownUnique
    {
      NewHandlesStep(objs, i, names0.Keys);
      var o := objs[i];
      if o.Uniq? && o.id !in names {
        assert o.id !in names0.Keys && o.id !in HandlesOf(objs[..i]);
        if ids.None? {
          var refused := Get(o);
          return Err(refused.error);
        }
        ghost var namesBefore, issuedBefore := names, issued;
        var got := Get(o);
        assert IdentIds(o) == {o.id};
        FreshNameStep(names0, namesBefore, o.id, UniqueName(|issuedBefore|), HandlesOf(objs[..i]),
                      issued0, issuedBefore, NewHandles(objs[..i], names0.Keys));
      } else {
        assert o.Uniq? ==> o.id in names0.Keys || o.id in HandlesOf(objs[..i]);
        assert NewHandles(objs[..i + 1], names0.Keys) == NewHandles(objs[..i], names0.Keys);
        ghost var namesBefore := names;
        var got := Get(o);
        assert names.Keys == namesBefore.Keys + IdentIds(o);
      }
      return Ok(());
    }

    /** Name every object in `objs`, in order, stopping at the first refused handle. */
    method NameEach(objs: seq<Ident>) returns (r: Res<()>)
      requires Valid()
      modifies this
      ensures Valid() && preset == old(preset)
      ensures forall u :: u in old(names) ==> u in names && names[u] == old(names)[u]
      ensures r.Ok? ==> names.Keys == old(names).Keys + HandlesOf(objs)
      ensures old(ids).Some? ==> r.Ok? && ids.Some? && issued == old(issued) + NewHandles(objs, old(names).Keys)
      ensures old(ids).None? ==> names == old(names) && ids == old(ids) && issued == old(issued)
      ensures r.Err? <==> old(ids).None? && exists i :: 0 <= i < |objs| && objs[i].Uniq? && objs[i].id !in old(names)
      ensures r.Err? ==> r.error == UnknownUnique
    {
      ghost var names0, issued0, counting := names, issued, ids.Some?;
      assert objs[..0] == [];
      for i := 0 to |objs|
        invariant preset == old(preset)
        invariant NamedUpTo(objs, i, names0, issued0, counting)
      {
        var step := NameNext(objs, i, names0, issued0, counting);
        if step.Err? {
          return Err(step.error);
        }
      }
      assert objs[..|objs|] == objs;
      return Ok(());
    }

    /**
     * Name every object in `objs`, then return a frozen generator holding the same
     * names, which refuses any other handle.
     */
    method Fix(objs: seq<Ident>) returns (r: Res<UniqueNameGenerator>)
      requires Valid()
      modifies this
      ensures Valid() && preset == old(preset)
      ensures forall u :: u in old(names) ==> u in names && names[u] == old(names)[u]
      ensures r.Ok? ==> names.Keys == old(names).Keys + HandlesOf(objs)
      ensures old(ids).Some? ==>
                && r.Ok?
                && issued == old(issued) + NewHandles(objs, old(names).Keys)
                && ids == Some(|issued|)
                && forall k :: 0 <= k < |NewHandles(objs, old(names).Keys)| ==>
                     NewHandles(objs, old(names).Keys)[k] in names &&
                     names[NewHandles(objs, old(names).Keys)[k]] == UniqueName(|old(issued)| + k)
      ensures old(ids).None? ==> names == old(names) && ids == old(ids) && issued == old(issued)
      ensures r.Err? <==> old(ids).None? && exists i :: 0 <= i < |objs| && objs[i].Uniq? && objs[i].id !in old(names)
      ensures r.Err? ==> r.error == UnknownUnique
      ensures r.Ok? ==> fresh(r.value) && r.value.Valid() && r.value.ids.None? && r.value.names == names
    {
      var named := NameEach(objs);
      if named.Err? {
        return Err(named.error);
      }
      if old(ids).Some? {
        forall k | 0 <= k < |NewHandles(objs, old(names).Keys)|
          ensures NewHandles(objs, old(names).Keys)[k] in names &&
                  names[NewHandles(objs, old(names).Keys)[k]] == UniqueName(|old(issued)| + k)
        {
          assert issued == old(issued) + NewHandles(objs, old(names).Keys);
          SequentialSuffix(names, preset, old(issued), NewHandles(objs, old(names).Keys), k);
        }
      }
      var frozen := new UniqueNameGenerator(names, true);
      return Ok(frozen);
    }
  }
}
