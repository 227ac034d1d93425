# framequery planner, modelled in Dafny

framequery runs SQL statements against dataframes. It does not evaluate anything
itself. It rewrites a parsed statement into a fixed sequence of backend operations:
- read and join the tables;
- filter the rows;
- compute the columns needed before aggregation, aggregate, then compute the columns after it;
- sort, limit, and drop duplicates.

This project models that planner. It covers the newer executor
(`src/framequery/executor/_executor.py`), the legacy one (`_query.py`), the shared
helpers in `_util.py`, and the pure helpers of the older `pdsql` evaluator
(`pdsql/evaluate.py`).

The backend is never executed. A table is the term recording the operations that
produced it (`Backend.Table`). What the planner asks of a table, its list of column
identifiers, is an uninterpreted function of that term.

Modules, one file each:

- `Wrappers`, `Ast`, `Text`: the `Result` type, the statement tree and the planner's errors. `Text` holds the few Python string and list operations the source relies on: `str.split`, `'{}'.format` of a number, negative list indexes.
- `Columns`: internal column identifiers `table/@/column`, the quoted-name splitter and `normalize_col_ref`.
- `UniqueNames`: `UniqueNameGenerator`, a class whose name map and counter change in place.
- `JoinCondition`: `as_pandas_join_condition` and its helpers in `_util.py`.
- `SplitResults`: `SplitResult`, a list of level-tagged fragments, and `by_levels`.
- `Planner`: steps the two SELECT planners share:
  - `get_alias`;
  - `aggregate_split`;
  - `normalize_columns`;
  - `normalize_group_by`.
- `Backend`: the operation terms, the FROM-clause entries and the SHOW options.
- `Executor`: the newer `execute_ast_select`, `execute_from`, `sort`, SHOW, DROP TABLE and CREATE TABLE AS. The table scope is a class whose map changes in place.
- `Query`: the legacy `execute_ast_select`, FROM clause, `sort` and SHOW.
- `Evaluate`: the `pdsql` join-condition, column-lookup and naming helpers, over name paths.

How Python semantics are modelled:

- **Fresh `Unique` objects** are natural-number handles. They are allocated by counting: each planning function takes the next unused handle and returns the next one still unused after it.
- **Errors** that the source raises become `Err` values, named after the condition:
  - a `ValueError` or `NotImplementedError`;
  - a failed `assert`;
  - the unpacking `post, = post`;
  - `max()` of an empty dictionary;
  - an index out of range.
- **Loops that update state** are methods. Each method is proved equal to a function that specifies it, and the properties are proved about that function.

## Model

| member | source | states |
|---|---|---|
| Columns.ColumnPartsRoundTrip | src/framequery/executor/_util.py:31-59 | The table and column parts of `column_from_parts(t, c)` are `t` and `c`. This holds when `t` neither contains `/@/` nor ends in `/@`. For an unqualified column, the column must not contain `/@/`. |
| Columns.UnsafeQualifierLosesRoundTrip | src/framequery/executor/_util.py:49-59 | A qualifier ending in `/@` breaks the round trip. `column_from_parts('a/@', 'c')` splits back as table `a` and column `@/c`. |
| Columns.ColumnPartsRebuild | src/framequery/executor/_util.py:31-59 | Every identifier is rebuilt exactly from its table part and column part. |
| Columns.ColumnSetTableReplacesQualifier | src/framequery/executor/_util.py:19-28 | `column_set_table` makes the table part the given table and keeps the column part. Applying it twice is the same as applying it once. |
| Columns.ColumnMatchUnqualified | src/framequery/executor/_util.py:9-16 | A dot-free reference matches exactly the identifiers whose column part equals it. |
| Columns.ColumnMatchQualified | src/framequery/executor/_util.py:9-16 | `t.c` matches exactly the identifiers with table part `t` and column part `c`. |
| Columns.SplitQuotedCount | src/framequery/executor/_util.py:92-122 | A name splits into one more part than it has separating dots. A separating dot is one outside quotes and not escaped by a backslash. |
| Columns.SplitQuotedName | src/framequery/executor/_util.py:92-122 | The character loop of `split_quoted_name` computes the scanner specification `SplitQuoted`. |
| Columns.SplitQuotedEscaped | src/framequery/executor/_util.py:92-122 | Backslash-escape each part and join the parts with dots: splitting the result gives the parts back. |
| Columns.SplitQuotedQuoted | src/framequery/executor/_util.py:92-122 | Double-quote each part that has no `"` and join the parts with dots: splitting the result gives the parts back. |
| Columns.SplitQuotedPlain | src/framequery/executor/_util.py:92-122 | On names without quotes or backslashes, the split is Python's `str.split('.')`. |
| Columns.CandidatesNone | src/framequery/executor/_util.py:72-78 | There are no candidates exactly when no column has the referenced column part. |
| Columns.CandidatesMany | src/framequery/executor/_util.py:72-84 | There is more than one candidate exactly when two distinct columns have the referenced column part. |
| Columns.CandidatesOne | src/framequery/executor/_util.py:72-89 | A single candidate is the only column with the referenced column part. |
| Columns.NormalizeColRef | src/framequery/executor/_util.py:62-89 | A reference resolves to nothing only when the lookup is optional. |
| Columns.NormalizeColRefQualified | src/framequery/executor/_util.py:62-68 | A reference of two or more parts always resolves to `column_from_parts` of its last two parts, whatever the columns and the optional flag. It is never checked against the columns. When that qualifier is safe, the identifier's table and column parts are exactly those two parts. |
| Columns.NormalizeColRefUnqualified | src/framequery/executor/_util.py:70-89 | A one-part reference resolves to the unique column with that column part. Two such columns are ambiguous. No such column is "not found", or `None` when optional. Each of these outcomes is stated as an if-and-only-if. |
| Columns.EvalStringLiteralQuoted | src/framequery/executor/_util.py:185-190 | A quoted text evaluates to the text. Evaluation fails exactly on values that do not start with `'`. |
| UniqueNames.UniqueNameInjective | src/framequery/executor/_util.py:174 | Different counter values give different `unique-<n>` names. |
| UniqueNames.SequentialNamesDistinct | src/framequery/executor/_util.py:167-176 | No two handles named by the generator itself share a name. |
| UniqueNames.UniqueNameGenerator.constructor | src/framequery/executor/_util.py:155-165 | The generator starts from a copy of the given names. It has a counter at 0 unless it is fixed. |
| UniqueNames.UniqueNameGenerator.Get | src/framequery/executor/_util.py:167-176 | A string is returned unchanged. A known handle gets its recorded name. An unknown handle gets `unique-<counter>` and the counter advances, but a fixed generator fails instead. Nothing else changes, and the generator stays consistent. |
| UniqueNames.UniqueNameGenerator.NameEach | src/framequery/executor/_util.py:179-180 | The loop of `fix`. Existing names are kept, and the named handles become the old ones plus those in `objs`. A counting generator names the new handles in order of first occurrence and never fails. A fixed generator changes nothing, and fails with an unknown handle exactly when `objs` holds a handle it does not know. |
| UniqueNames.UniqueNameGenerator.Fix | src/framequery/executor/_util.py:178-182 | Existing names are kept, and the preset names never change. A counting generator cannot fail. The handles it issues are the old ones followed by the new handles of `objs` in order of first occurrence. The k-th of these is named `unique-<n+k>`, where n is the number issued before, and the counter ends at the number issued. A fixed generator is left unchanged, and fails exactly when `objs` holds an unknown handle. The result is a new fixed generator over exactly the names held afterwards. |
| JoinCondition.FlattenJoinCondition | src/framequery/executor/_util.py:227-247 | A flattened condition has at least one pair. |
| JoinCondition.FlattenEquiJoin | src/framequery/executor/_util.py:227-247 | Flattening a conjunction of equalities between names gives back its pairs, in order. |
| JoinCondition.FlattenAccepts | src/framequery/executor/_util.py:227-247 | Flattening succeeds exactly on `AND` trees of name equalities, with one pair per leaf. |
| JoinCondition.IsLeft | src/framequery/executor/_util.py:217-224 | Only a string reference can be placed. |
| JoinCondition.IsLeftSides | src/framequery/executor/_util.py:217-224 | A reference is left exactly when it resolves on the left and not on the right, and right in the mirror case. The column returned is its resolution on that side. |
| JoinCondition.QualifiedJoinKeyIsAmbiguous | src/framequery/executor/_util.py:217-224 | A qualified reference always resolves on both sides, so `_is_left` rejects it as ambiguous. |
| JoinCondition.PlacePairSides | src/framequery/executor/_util.py:199-212 | A placed pair has one reference found only on the left, giving the left key, and the other found only on the right, giving the right key. Two string references that both resolve only on the left, or both only on the right, form a self-join and fail with `SelfJoinCondition`. |
| JoinCondition.PlacePairs | src/framequery/executor/_util.py:199-212 | The key lists have one entry per pair, in order, and each entry is that pair's placement. They fail exactly when some pair cannot be placed. |
| JoinCondition.AsPandasJoinCondition | src/framequery/executor/_util.py:193-214 | The loop that appends keys pair by pair computes the flattened pairs' placements. |
| SplitResults.BucketTag | src/framequery/executor/_executor.py:497-502 | All items of a tagged level land in that level's bucket, in order, and in no other bucket. |
| SplitResults.BucketNonEmpty | src/framequery/executor/_executor.py:511-519 | A level's bucket is non-empty exactly when some fragment has that level. |
| SplitResults.BucketFromLevels | src/framequery/executor/_executor.py:497-502 | The bucket of level l of `from_levels(levels)` is `levels[l]`, or empty beyond them. |
| SplitResults.FromLevelsFromLevels | src/framequery/executor/_executor.py:497-502 | `from_levels` uses only the levels it was given. It is empty exactly when every level is empty. |
| SplitResults.ByLevelsFromLevels | src/framequery/executor/_executor.py:497-519 | `by_levels` undoes `from_levels`, except that all-empty levels fail, because `max` of an empty dictionary fails. |
| SplitResults.BucketChain | src/framequery/executor/_executor.py:505-506 | A bucket of a chain is the splits' buckets, one after the other. |
| SplitResults.BucketPromote | src/framequery/executor/_executor.py:508-509 | After promotion, level l+1 holds what level l held, and level 0 is empty. |
| SplitResults.BucketsPartition | src/framequery/executor/_executor.py:511-519 | With no level above 2, every fragment lands in exactly one of the three buckets. |
| SplitResults.ByLevels | src/framequery/executor/_executor.py:511-519 | The grouping loop computes `by_levels`: empty fails, a level above the maximum fails, otherwise one bucket per level. |
| Planner.GetAlias | src/framequery/executor/_executor.py:522-528 | Exactly one handle is allocated per call. A handle in the result is the fresh one or one already in the column. The name is the explicit alias if there is one, else the referenced name of a name column, and the fresh handle only when the column has neither. Each is internalised. |
| Planner.LookupGroup | src/framequery/executor/_executor.py:453-455 | A node is found exactly when some GROUP BY value equals it. The alias returned is the last such key's, as the dictionary keeps the last duplicate. |
| Planner.CallSplitBuckets | src/framequery/executor/_executor.py:477-492 | An aggregate call splits into three parts. Its arguments go before aggregation under fresh names. The call over those names goes into aggregation under a fresh name. That name alone comes after aggregation. |
| Planner.ColumnSplitBuckets | src/framequery/executor/_executor.py:460-469 | A column's split renames its value's post-aggregate fragment. The other two levels are unchanged, and the split stays well formed. |
| Planner.AggregateSplitWell | src/framequery/executor/_executor.py:451-492 | The split succeeds exactly on nodes with a rule. It then has one post-aggregate fragment and no level above 2. Every failure is a missing rule. |
| Planner.AggregateSplitGroupHit | src/framequery/executor/_executor.py:451-457 | A node equal to a GROUP BY value becomes the name of that key's column, without allocating. |
| Planner.AggregateSplitCall | src/framequery/executor/_executor.py:477-492 | For a call with k arguments, the levels hold the names next … next+k-1 and next+k, and k+1 handles are used. `count(*)` is counted as `count(1)` exactly when the rewrite is on. |
| Planner.AggregateSplitColumn | src/framequery/executor/_executor.py:460-469 | A column not grouped on renames its value's post-aggregate fragment with its alias, and passes the other levels through. |
| Planner.SplitAllWell | src/framequery/executor/_executor.py:192-193 | The chained split of a select list succeeds exactly when every column splits. It has one post-aggregate item per column and no level above 2. |
| Planner.OfTable | src/framequery/executor/_executor.py:242-245 | The qualified-wildcard filter keeps exactly the identifiers whose table part is the given table. |
| Planner.NormalizeColumnsNamed | src/framequery/executor/_executor.py:232-255 | Normalisation fails exactly when an entry is neither a wildcard nor a column. Otherwise every entry of the result has a name. |
| Planner.NormalizeStar | src/framequery/executor/_executor.py:237-239 | `*` gives one internal name per table column, in order, and allocates nothing. |
| Planner.NormalizeQualifiedStar | src/framequery/executor/_executor.py:241-245 | `t.*` gives internal names for exactly the columns of table `t`. |
| Planner.NormalizeColumnAlias | src/framequery/executor/_executor.py:247-250 | A column keeps its value. Its alias is the explicit one, else the referenced name, else a fresh handle, internalised. |
| Planner.NormalizeColumns | src/framequery/executor/_executor.py:232-255 | The loop over the select list computes `NormalizeColumnsSpec`. |
| Planner.AliasMap | src/framequery/executor/_executor.py:273 | The alias dictionary succeeds exactly when every select entry is a column, and otherwise fails with a missing attribute. Its keys are exactly the aliases present in the select list. |
| Planner.AliasMapLastWins | src/framequery/executor/_executor.py:273 | Each alias maps to the value of the last select column carrying it, because the dictionary keeps the last duplicate. |
| Planner.Positional | src/framequery/executor/_executor.py:276-279 | Only integer GROUP BY entries are replaced. |
| Planner.Substitute | src/framequery/executor/_executor.py:276-279 | The substituted list has one entry per GROUP BY entry, each its positional replacement. |
| Planner.PositionalGroupBy | src/framequery/executor/_executor.py:276-279 | GROUP BY n is the value of select column n. GROUP BY 0 is the last column, by Python indexing. A position past the end fails. |
| Planner.MatchAll | src/framequery/executor/_executor.py:297-304 | One key per GROUP BY entry, and handles are only consumed. |
| Planner.MatchAllFresh | src/framequery/executor/_executor.py:291-304 | Every entry that is not a name is grouped under a fresh handle from the allocated range. The handles increase in entry order. |
| Planner.MatchAllEntries | src/framequery/executor/_executor.py:281-304 | A name of a table column is grouped as itself. Another name must be a select alias, grouped as that column's value under the internalised name. |
| Planner.GroupByPrefersTableColumn | src/framequery/executor/_executor.py:281-290 | A name that is both a table column and a select alias is taken as the table column. |
| Planner.NormalizeGroupByKeys | src/framequery/executor/_executor.py:258-306 | The combined statement of the three matcher cases and the positional substitution, one key per entry. |
| Planner.NormalizeGroupBy | src/framequery/executor/_executor.py:258-306 | The loop over GROUP BY computes `NormalizeGroupBySpec`, including `None` giving no keys and a failed match failing. |
| Backend.ShowValue | src/framequery/executor/_executor.py:405-413 | Exactly the two known SHOW options have a value, `read only` and `on`. Any other option fails. |
| Executor.ExecuteFrom | src/framequery/executor/_executor.py:336-368 | The loop over the FROM list computes its left-to-right fold. An empty list fails. |
| Executor.ExecuteFromRefs | src/framequery/executor/_executor.py:336-386 | A FROM list of table references becomes their left-deep chain of inner joins, each on the WHERE conjuncts for it, and allocates no handle. |
| Executor.SortKeysPointwise | src/framequery/executor/_executor.py:322-331 | One resolved column and one direction per key, in order. Resolution fails exactly when some key does not resolve. |
| Executor.SortResolves | src/framequery/executor/_executor.py:309-333 | A key that is neither a position nor a name, or that has another direction, is refused. A sort has one column per key: by position with Python indexing, or by name through `normalize_col_ref`. It is ascending exactly where the key says `asc`. |
| Executor.Sort | src/framequery/executor/_executor.py:309-333 | The key loop computes `SortSpec`. |
| Executor.SelectHavingFails | src/framequery/executor/_executor.py:211-212 | Every SELECT with HAVING fails. |
| Executor.SelectUnknownQuantifierFails | src/framequery/executor/_executor.py:223-227 | Every SELECT with a quantifier other than DISTINCT or ALL fails. |
| Executor.FinishLayered | src/framequery/executor/_executor.py:211-227 | The finishing stages wrap the projection from the inside out: sort exactly under ORDER BY, limit exactly when LIMIT or OFFSET is given, de-duplicate exactly under DISTINCT. |
| Executor.GroupedShape | src/framequery/executor/_executor.py:189-206 | A grouped projection is a transform over an aggregation over a transform of the input rows. |
| Executor.ImplicitKeyIsTrue | src/framequery/executor/_executor.py:183-206 | Grouping by `true` aggregates under a single group column: `true` under a fresh handle. |
| Executor.SelectStageOrder | src/framequery/executor/_executor.py:173-229 | A successful SELECT is a projection, a transform, under the finishing stages in order. |
| Executor.SelectProjection | src/framequery/executor/_executor.py:173-209 | Without grouping, the projection is one transform of the normalised select list over the filtered rows. Otherwise it is transform, aggregate, transform over the filtered rows. An implicit grouping is by `true`. |
| Executor.ExecuteProjection | src/framequery/executor/_executor.py:173-209 | The statement-by-statement projection computes `SelectCore`. |
| Executor.ExecuteFinish | src/framequery/executor/_executor.py:211-229 | The statement-by-statement finishing computes `Finish`. |
| Executor.ExecuteSelect | src/framequery/executor/_executor.py:166-229 | `execute_ast_select` without CTEs computes `SelectSpec`. |
| Executor.ExecuteGrouped | src/framequery/executor/_executor.py:189-206 | The grouped branch computes `Grouped`. |
| Executor.ExecuteShow | src/framequery/executor/_executor.py:403-414 | SHOW succeeds exactly on `transaction isolation level` and `standard_conforming_strings`. It yields DUAL with `value` assigned `read only` for the first and `on` for the second. Any other option fails as unknown. |
| Executor.DropAllSucceeds | src/framequery/executor/_executor.py:439-442 | DROP TABLE succeeds exactly when the names are all in scope and distinct. |
| Executor.DropAllRemoves | src/framequery/executor/_executor.py:439-442 | DROP TABLE removes a prefix of the names from the scope and nothing else. A successful drop removes them all. |
| Executor.Scope.DropTables | src/framequery/executor/_executor.py:439-442 | The scope after the deletion loop, and the outcome, are those of `DropAll`. |
| Executor.Scope.CreateTableAs | src/framequery/executor/_executor.py:445-448 | The scope binds the name to the query's table, and nothing else changes. |
| Query.EvaluateAll | src/framequery/executor/_query.py:186-188 | One table per FROM entry, in order. Evaluation fails exactly when some entry is not a table reference. |
| Query.FromClauseSingle | src/framequery/executor/_query.py:186-207 | The legacy FROM clause succeeds exactly on a single table reference, and reads that table under its schema-qualified name. |
| Query.SortNames | src/framequery/executor/_query.py:177-181 | One resolved name per key, in order. Resolution fails exactly when some key fails. |
| Query.SortIgnoresDirection | src/framequery/executor/_query.py:171-183 | The legacy sort always sorts descending: swapping `asc` and `desc` changes nothing. It resolves one name per key, and a positional key is refused. |
| Query.SortNamesSameKeys | src/framequery/executor/_query.py:177-181 | The resolved names depend only on the keys' values, not on their directions. |
| Query.Sort | src/framequery/executor/_query.py:171-183 | The key loop computes the legacy `SortSpec`. |
| Query.SelectIgnoresClauses | src/framequery/executor/_query.py:57-97 | WHERE, HAVING, LIMIT, OFFSET and the quantifier make no difference to the legacy plan. |
| Query.SelectWithoutGroupBy | src/framequery/executor/_query.py:61-92 | Without GROUP BY or ORDER BY, the legacy plan is one transform of the normalised select list, with or without aggregates. |
| Query.GroupByNumberIsExpression | src/framequery/executor/_query.py:127-168 | A legacy GROUP BY number is an expression grouped under a fresh handle, not a select-list position. |
| Query.ExecuteSelect | src/framequery/executor/_query.py:57-97 | The legacy `execute_ast_select` computes the legacy `SelectSpec`. |
| Query.ExecuteShow | src/framequery/executor/_query.py:210-221 | Legacy SHOW succeeds exactly on the two known options. It yields a one-row frame holding the value. |
| Evaluate.Flatten | pdsql/evaluate.py:231-255 | A flattened condition has at least one pair. |
| Evaluate.FlattenConjunction | pdsql/evaluate.py:231-255 | Flattening a conjunction of column-reference equalities gives back its pairs, in order. |
| Evaluate.FlattenAccepts | pdsql/evaluate.py:235-255 | Flattening succeeds exactly on `AND` trees of column-reference equalities. |
| Evaluate.FirstMatchNone | pdsql/evaluate.py:223-228 | `get_col_ref` finds nothing exactly when no column agrees with the reference from the right. |
| Evaluate.FirstMatchIsFirst | pdsql/evaluate.py:223-228 | What `get_col_ref` finds is a matching column with no matching column before it. |
| Evaluate.FirstMatchUnqualified | pdsql/evaluate.py:223-228 | A bare name matches a non-empty column exactly when the column ends in it, so a first column ending in it is returned. An empty path matches every column, so the first column is returned, and nothing for no columns. |
| Evaluate.GetColRef | pdsql/evaluate.py:223-228 | The scan over the columns computes the first match. |
| Evaluate.PlacePairSides | pdsql/evaluate.py:195-208 | A placed pair has one reference found only on the left and one only on the right. Two references found only on the left, or both only on the right, form a self-join and fail. |
| Evaluate.PlacePairsPointwise | pdsql/evaluate.py:195-208 | One key per pair on each side, in order. The placement fails exactly when some pair cannot be placed. |
| Evaluate.AsPandasJoinCondition | pdsql/evaluate.py:189-210 | The loop that appends keys pair by pair computes the placements of the flattened pairs. |
| Evaluate.NormalizeAlias | pdsql/evaluate.py:179-186 | A column reference is named by its last component, whatever its alias, and an empty path fails. Any other value is named by its alias, or `__<position>` without one. |
| Evaluate.NormalizeAliasPositions | pdsql/evaluate.py:179-186 | Unaliased values at different positions get different names. |
| Evaluate.LookupAfterBind | pdsql/evaluate.py:160-166 | After binding a frame to a name, looking that name up gives the frame, except for `DUAL`, which always has no frame. Looking up any other name is unaffected by the binding. |
| Evaluate.GroupByAsDerived | pdsql/evaluate.py:69-72 | One derived column per GROUP BY reference, named by its last component. It fails exactly when some reference is empty. |
| Evaluate.GroupByNamesAgree | pdsql/evaluate.py:69-72 | `normalize_alias` names a derived GROUP BY column by exactly the alias it carries. |

## Left out

- Common table expressions (`_executor.py` lines 167-171) are not modelled. They execute nested statements recursively in a copied scope. Subqueries, table-valued function evaluation, COPY FROM and COPY TO are left out too. They hand the work to the backend, or read and write files. The string-literal evaluation that COPY uses is modelled.
- The backend operations are not computed. A table is the record of the operations that produced it. `table.columns` is an uninterpreted parameter `columnsOf`. `model.get_table` becomes a `Source` term, and `model.lateral` and `model.join` become their own terms.
- The following are not part of this model and become parameters of `Backend.Env`:
  - `to_internal_col`: the parameter `ti`. It is applied to string names; a `Unique` handle passes through unchanged.
  - `flatten_ands`, `determine_origin` and `and_join`, which pick a join's WHERE conjuncts: the parameter `joinCondition`.
- The `_monadic` matcher combinators and the rule-set dispatch are not modelled. Each matcher and rule set is written as the `match` it performs. An unmatched node gives `NoHandler`.
- Object identity of `Unique` is not modelled; it is a natural-number handle allocated by counting. Where the source allocates a `Unique` that is never used (`get_alias` always builds one), the model consumes a handle too.
- The `Executor` class, `execute`, `get_model` and `util/_funcs.py` are left out: they are entry points and backend registration.
- The `pdsql` `Evaluator` is left out: grouping, `evaluate_direct`, value evaluation and aggregation all compute on pandas frames. `normalize_table_ref` and `normalize_col_ref` in `pdsql/evaluate.py` only read an attribute. `LookupTable` takes the table name they would return.
- `internal_column` and `all_unique` have no members of their own. Their logic is `Planner.InTable` and `UniqueNames.HandlesOf`.
- Select entries that are not columns: the `InternalName` entries produced by `*` and `t.*` are assumed to have no `alias` or `value` attribute. The node class is not part of this model. So `AliasMap` and `Positional` fail with `MissingAttribute` on them, and a GROUP BY over a wildcard select list fails in both planners (`_executor.py` lines 273 and 277, `_query.py` line 142).
- Planner.MatchAll: its own contract only gives the key count and the allocation bound. The per-entry facts are in `MatchAllEntries` and `MatchAllFresh`.
- Columns.NormalizeColRef: its own contract only says when `None` can occur. The full behaviour is in `NormalizeColRefQualified` and `NormalizeColRefUnqualified`.

Behaviour of the code that is easy to miss:

- Apart from a node equal to a GROUP BY value, which becomes that key's name, `aggregate_split` has rules only for columns, names and aggregate calls. Any other node, a binary operation included, fails with `NoHandler`.
- `count(*)` is rewritten to `count(1)` only in `_executor.py`. The legacy planner splits it as written.
- The legacy `sort` collects the directions but always passes `ascending=False`.
- The legacy planner reads only a single table reference. It ignores WHERE, HAVING, LIMIT, OFFSET and the quantifier, and never groups implicitly.
- In `_util.py`, a qualified reference always resolves without consulting the columns. `_is_left` therefore rejects every qualified join key as ambiguous.
- An empty GROUP BY list (`[]`, not `None`) still takes the grouping path in both planners. In `_executor.py` only, an aggregate turns it into `GROUP BY true` first.
- A lateral FROM entry over anything other than a table function fails while its error message is being built. That message reads `table` from the SELECT node, which has no such attribute. This is modelled as `MissingAttribute`.
- DROP TABLE stops at the first missing name. The names before it stay dropped.
