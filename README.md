# gf-casbin-adapter, modelled in Dafny

A Dafny model of the deterministic core of the GoFrame Casbin adapter
(`adapter.go`). The adapter stores Casbin rules as rows `Ptype, V0..V5` of one
table. The model covers the code between Casbin and the database:

- the row codec:
  - `savePolicyLine` turns a tuple into a row;
  - the trailing-empty trim of `loadPolicyLine`/`preview` turns a row back into a tuple;
  - `toStringPolicy` is a second decoder, which keeps only the non-empty fields;
- the conditions the adapter builds for the store:
  - `checkQueryField`;
  - the positional pattern of `RemoveFilteredPolicyCtx` and `UpdateFilteredPoliciesCtx`;
  - the `WhereIn` conditions of `applyFilter`;
- `preview`, which partitions the scanned rows in place around the engine's
  `HasPolicyEx` answer and then re-slices them;
- the buffering loop of `SavePolicyCtx`, which flushes a batch once the
  buffer holds more than 1000 rows;
- the clear statement `truncateTable` picks for each database type.

Modules:

| file | module | what |
|---|---|---|
| `outcomes.dfy` | `Outcomes` | `Option`, and `Result` for Go's `(T, error)` |
| `rows.dfy` | `PolicyRows` | row datatype, encoder, both decoders, their relations |
| `conditions.dfy` | `Conditions` | checkQueryField, positional pattern, applyFilter |
| `preview.dfy` | `Preview` | the in-place partition over an `array<Row>` |
| `save.dfy` | `SavePolicy` | batching of SavePolicyCtx, truncateTable's statement |

Calls outside the adapter become parameters:
- `HasPolicyEx` is a total function `Query -> Verdict`. A verdict is a yes/no answer or an error.
- `InsertIgnore` is a function from the batch number and the batch to an optional error.
- The store's `Scan` result is a parameter of `UpdateFilteredPolicies`.

Where a lemma speaks of which rows a condition selects, it uses the store
convention the adapter relies on:
- `Where(row).OmitEmpty()` ignores empty pattern fields (`OmitEmptyMatch`);
- each `WhereIn` updates the query `qs` in place, and the conditions are AND-ed (`SatisfiesAll`); `applyFilter` discards the values those calls return.

Three places where the code may surprise a reader; the model follows the code:
- `savePolicyLine` drops rule elements past the sixth without an error.
- Only `RemoveFilteredPolicyCtx` with `fieldIndex != -1` runs `checkQueryField`.
  `UpdateFilteredPoliciesCtx` builds its pattern without it, so all-empty values select the whole rule type (`UpdateAllEmptySelectsRuleType`).
  With `fieldIndex == -1` it shifts the values left, instead of matching on Ptype only (`MinusOneShiftsLeft`, `MinusOneDiffers`).
- Rows whose every field is empty are outside the trim loop's domain: its index runs to -1.
  `DecodeLine` requires some non-empty field. `preview` requires a non-empty Ptype, because it takes `key[:1]`.

## Model

| member | source | states |
|---|---|---|
| PolicyRows.Clamp | adapter.go:562-579 | the part of a rule that is stored: the whole rule when it has at most six elements, exactly its first six otherwise |
| PolicyRows.SavePolicyLine | adapter.go:558-582 | the row's fields are `[ptype]`, then the rule's first (at most) six elements, then empty strings up to seven fields; nothing past the sixth element is kept |
| PolicyRows.EncodeRules | adapter.go:243-247 | the encoding loop of AddPoliciesCtx (same loop at 440-443): one row per rule, in order, each `SavePolicyLine(ptype, rule)` |
| PolicyRows.TrimTrailing | adapter.go:517-522 | the reference decoder: a prefix of the fields, ending in a non-empty field (or empty), with only empty fields cut off |
| PolicyRows.TrimTrailingUnique | adapter.go:517-522 | any prefix with TrimTrailing's three properties is TrimTrailing's result, so those properties define the decoder |
| PolicyRows.DecodeLine | adapter.go:512-522 | the trim loop (copy at 537-542), for a row with some non-empty field: returns `Decode(row)`; its length is 1 to 7 |
| PolicyRows.NonEmptyAppend | adapter.go:595-619 | keeping the non-empty fields distributes over concatenation |
| PolicyRows.NonEmptyProperties | adapter.go:595-619 | the kept fields are no more than the input, none is empty, and a value is kept iff it occurs in the input and is non-empty |
| PolicyRows.NonEmptyOfFull | adapter.go:595-619 | a tuple without empty fields is kept whole |
| PolicyRows.NonEmptyOfBlank | adapter.go:595-619 | a tuple of empty fields leaves nothing |
| PolicyRows.ToStringPolicy | adapter.go:595-619 | the seven conditional appends give exactly the non-empty fields of `[Ptype, V0..V5]`, in order |
| PolicyRows.ToStringPolicyBounds | adapter.go:595-619 | toStringPolicy returns at most seven fields, all non-empty |
| PolicyRows.ToStringPolicyMatchesDecode | adapter.go:595-619 | toStringPolicy equals the trim decoder iff the decoded tuple has no interior empty field (both directions) |
| PolicyRows.DecodeSavePolicyLine | adapter.go:558-582 | decoding an encoded rule gives `[ptype]` plus the clamped rule minus its trailing empties |
| PolicyRows.DecodeSavePolicyLineRoundTrip | adapter.go:513-522 | round trip: a rule of at most six elements whose last element (or, for an empty rule, whose ptype) is non-empty decodes back to `[ptype] + rule` |
| PolicyRows.InteriorEmptySurvives | adapter_test.go:139-146 | the tested rule `{"", "data1", "write"}` decodes back with its empty subject |
| PolicyRows.TrailingEmptyDropped | adapter.go:517-522 | for any rule, appending `""` does not change what it decodes to: the trim loop cannot tell a trailing empty element from an unused column |
| PolicyRows.LongRuleIgnoresTail | adapter.go:562-579 | a rule of six or more elements is stored the same with one more element: nothing past V5 reaches the row |
| PolicyRows.ShortRuleTrailingEmpty | adapter.go:517-522 | a rule of at most five elements decodes the same with a trailing `""`: the trim loop cannot tell it from an unused column |
| PolicyRows.TrailingEmptyIsLost | adapter.go:517-522 | example: `["alice", "data1", ""]` decodes to `["p", "alice", "data1"]` |
| PolicyRows.DecodersDisagreeOnInteriorEmpty | adapter.go:595-619 | on `{"", "data1", "write"}`, toStringPolicy drops the empty subject that the trim decoder keeps |
| Conditions.CheckQueryField | adapter.go:585-592 | an error iff every field value is `""`, so also for no values; the error carries the source's message |
| Conditions.PositionalPattern | adapter.go:312-331 | Ptype is the rule type; column k holds `fieldValues[k - fieldIndex]` iff `fieldIndex <= k < fieldIndex + |fieldValues|`, else `""`; every index is in bounds |
| Conditions.PositionalPatternSelects | adapter.go:312-331 | under OmitEmpty, the pattern selects a row iff it has the rule type (any row when the rule type is empty) and carries every non-empty value that lands on V0..V5 in that column (both directions) |
| Conditions.PtypeOnly | adapter.go:300-304 | the fieldIndex -1 condition: Ptype set, all six value columns empty |
| Conditions.PtypeOnlySelects | adapter.go:300-304 | that condition selects a row iff the row has the rule type; with an empty rule type it selects every row |
| Conditions.RemoveFilteredPolicy | adapter.go:296-336 | with fieldIndex -1, the Ptype-only condition, unchecked; otherwise an error iff all values are empty, with that message, and else the positional pattern; this is the same builder UpdateFilteredPolicies uses |
| Conditions.UpdateFilteredPolicies | adapter.go:415-480 | the condition is the positional pattern, built without checkQueryField; the new rows are the encoded new rules, in order; the returned old rules are the non-empty fields of each matched row, in order |
| Conditions.MinusOneShiftsLeft | adapter.go:420-437 | for any non-empty values, the pattern with fieldIndex -1 is the pattern with fieldIndex 0 of the values minus the first: the first value is dropped and the rest shift left |
| Conditions.MinusOneDiffers | adapter.go:300-304 | example: with fieldIndex -1 and values `["x", "alice"]`, Update's pattern has V0 = alice while Remove matches on Ptype only |
| Conditions.UpdateAllEmptySelectsRuleType | adapter.go:415-437 | UpdateFilteredPoliciesCtx with all-empty values selects every row of the rule type (every row when the rule type is empty) |
| Conditions.ApplyFilter | adapter.go:622-639 | every WhereIn it adds has a non-empty set, and a row satisfies all of them iff the Filter selects it: each set is empty or holds the row's value in that column |
| Conditions.SatisfiesAllByColumn | adapter.go:626-638 | conditions that name each non-empty filter set for its column, and nothing else, select exactly what the Filter selects |
| Conditions.CombinedFilterExample | adapter_test.go:210-216 | `V0 = {alice, data2_admin}` selects the alice and both data2_admin rows and not bob's |
| Conditions.EmptyFilterSelectsAll | adapter.go:622-639 | an all-empty Filter selects every row |
| Preview.QueryOf | adapter.go:543-545 | the query of a row: key is Ptype and sec its first character |
| Preview.QueryOfDecodes | adapter.go:542-545 | key followed by the rule argument is the whole decoded tuple |
| Preview.SelectPartition | adapter.go:549-554 | splitting rows by two complementary tests loses and duplicates nothing (as multisets) |
| Preview.SelectCount | adapter.go:549-554 | the two parts together are as long as the input |
| Preview.AnsweringPartitions | adapter.go:545-554 | when HasPolicyEx never fails, the accepted and the rejected rows together are the input, as a multiset and in number |
| Preview.SwapStep | adapter.go:550 | one swap of positions j and i keeps the multiset, puts row i at position j, and moves row j into the window j+1..i |
| Preview.SwapMiddle | adapter.go:550 | the window j+1..i after the swap holds the rows of j..i-1 before it |
| Preview.SwapWhole | adapter.go:550 | a swap is a permutation |
| Preview.PartitionedStart | adapter.go:532-533 | the loop invariant holds before the first row |
| Preview.AcceptStep | adapter.go:549-552 | an accepted row swapped to position j keeps the loop invariant with j + 1 |
| Preview.RejectStep | adapter.go:545-553 | a rejected row left in place keeps the loop invariant |
| Preview.PartitionedAll | adapter.go:553-554 | after the last row, the front j rows are the accepted ones and the suffix is a permutation of the rejected ones, n − #accepted of them |
| Preview.FailureBreaksAnswered | adapter.go:546-548 | one failing row means not every row is answered |
| Preview.FinishKept | adapter.go:554-555 | the success case: all rows asked in order, the suffix from j kept |
| Preview.FinishFailed | adapter.go:546-548 | the error case: asked in order up to the failing row, whose error is returned without re-slicing |
| Preview.VisitRow | adapter.go:534-552 | one loop pass: the query is the row's decoded query and the answer HasPolicyEx's; on a yes rows i and j are exchanged, otherwise the array is unchanged |
| Preview.Preview | adapter.go:531-556 | the array stays a permutation; success iff HasPolicyEx answers every row; on success every row is asked once, in index order, the accepted rows fill the front in order, and the kept suffix is a permutation of the rejected rows; on an error the queries stop at the failing row and its error is returned |
| Preview.AskedStep | adapter.go:533-545 | the queries grow by one, in index order |
| Preview.PrefixStep | adapter.go:533-553 | extending the processed rows by row i extends the queries, the answered condition and both partitions by that row |
| SavePolicy.BatchesShape | adapter.go:184-216 | batching loses, adds and reorders no row; every batch but the last holds 1001 rows, the last 1 to 1001; no batch at all iff there are no rows |
| SavePolicy.BatchesAfterFull | adapter.go:189-195 | full batches flushed during the loops come first: for batches `full` of 1001 rows each, `Batches(Flatten(full) + rest)` is `full` followed by `Batches(rest)` |
| SavePolicy.Push | adapter.go:187-195 | one rule: the row is appended; a buffer of more than 1000 rows is inserted as the next batch (exactly 1001 rows) and emptied; on an insert error that batch is the last attempted |
| SavePolicy.BufferRules | adapter.go:187-196 | the inner loop: every rule of one assertion is buffered in order; the flushed batches and the buffer spell out the rows so far; an error ends it |
| SavePolicy.BufferAssertion | adapter.go:186-197 | one assertion of the outer loop, with a failure stated against the whole section |
| SavePolicy.BufferSection | adapter.go:186-210 | one section's loops (`p`, then `g` with the buffer carried over): the flushed batches and the buffer spell out the section's rows; on an error the attempted batches are a prefix of those rows and only the last insert failed |
| SavePolicy.EncodeSectionPrefix | adapter.go:186-197 | the rows of a section grow only at the end |
| SavePolicy.FailedIsSaved | adapter.go:190-193 | a failed insert in the loops leaves a prefix of the batches the rows would form |
| SavePolicy.FlushRest | adapter.go:211-216 | the final flush: a non-empty rest is inserted once, at most 1000 rows; the result is the success or failure case of Saved |
| SavePolicy.SavePolicy | adapter.go:177-216 | a clear error returns at once with no insert; otherwise, without an error the inserts are exactly the batches of the `p` rows followed by the `g` rows, all successful; with one they are a non-empty prefix of those batches whose last insert returned the error |
| SavePolicy.ClearStatement | adapter.go:492-506 | for a table name without spaces, the statement truncateTable issues reads back as clearing exactly that table; it deletes rows exactly for `sqlite`/`sqlite3`, and resets the identity exactly for `postgres` |
| SavePolicy.ParseDeleteFrom | adapter.go:494-497 | `delete from T` reads back as a delete of table T |
| SavePolicy.ParseTruncate | adapter.go:500-505 | `truncate table T` reads back as a plain truncate of T, for T without spaces |
| SavePolicy.ParseTruncateRestart | adapter.go:498-499 | `truncate table T RESTART IDENTITY` reads back as a truncate of T with an identity reset |

## Left out

- Database access: every GoFrame call (`Scan`, `InsertIgnore`, `Where(...).OmitEmpty().Delete/Update`, `WhereIn`, `Exec`). Their semantics live in GoFrame, so no lemma claims a store-level result such as which duplicates `InsertIgnore` skips. `OmitEmptyMatch` and `SatisfiesAll` only state the convention the adapter relies on.
- Transactions, `Rollback`/`Commit` and `context` threading. `SavePolicy` stops where the source rolls back and returns; it does not model whether the store joins the clear and the inserts to the transaction, which GoFrame decides (they are issued through the DAO, not the `tx` handle).
- The Begin error of SavePolicyCtx: `SavePolicy` starts after Begin; `clearErr` is truncateTable's result.
- `persist.LoadPolicyArray` and the LoadPolicyCtx/LoadFilteredPolicyCtx flow around `preview` (Scan, the `isFiltered` flag, the `Filter` type assertion and its "invalid filter type" error). These are foreign calls or store calls; `DecodeLine` models the part of loadPolicyLine before the call.
- AddPolicyCtx, RemovePolicyCtx/RemovePoliciesCtx and UpdatePolicyCtx/UpdatePoliciesCtx: their own work is `savePolicyLine` on each rule (`SavePolicyLine`, `EncodeRules`), followed by store calls.
- Constructors, the `IsFiltered` getters and the interface-conformance block: they hold no logic.
- Go's map iteration order over `model["p"]`/`model["g"]` is unspecified. `SavePolicy` takes each section as a given sequence of assertions.
- Preview.QueryOf: `key[:1]` slices bytes in Go; the model takes the first element of the string, which agrees on single-byte first characters only.
- Preview.Preview: the re-slice `(*rules) = (*rules)[j:]` is returned as the start index `j`, and the array keeps its length.
- Preview.Preview: HasPolicyEx is a total function of the query, so an engine whose answer depends on earlier calls is not modelled.
- Preview.Preview and PolicyRows.DecodeLine: the all-empty row that makes Go's trim loop index -1 and panic is excluded by precondition instead of being modelled as a panic.
- The duplicated trim loop (loadPolicyLine, preview) and the duplicated positional builder (RemoveFilteredPolicyCtx, UpdateFilteredPoliciesCtx) are each modelled once.
- SavePolicy.ClearStatement: its contract is stated for table names without spaces, since the statement text alone cannot tell such a name apart from the `RESTART IDENTITY` suffix. Quoting and identifier rules of the databases are not modelled. The `Exec` call is a store call.
