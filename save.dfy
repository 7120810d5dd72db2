/** SavePolicyCtx's buffering loop and the table-clear statement of
    truncateTable. The store is not part of this model: InsertIgnore is a
    parameter that, given the batch number and the batch, says whether the
    insert failed; the transaction around it (Begin, Rollback, Commit) and
    the Exec of the clear statement are left to the store. */
module SavePolicy {
  import opened Outcomes
  import opened PolicyRows

  /** The buffer is flushed once it holds more than this many rows. */
  const FlushEvery: nat := 1000

  /** One assertion of a section of the engine's model: its rule type and its
      rules, in the order `ast.Policy` holds them. */
  datatype Assertion = Assertion(ptype: string, policy: seq<seq<string>>)

  /** The rows SavePolicyCtx writes for a section, assertion by assertion. */
  function EncodeSection(section: seq<Assertion>): seq<Row>
  {
    if section == [] then []
    else
      var last := section[|section| - 1];
      EncodeSection(section[..|section| - 1]) + EncodeAll(last.ptype, last.policy)
  }

  /** The batches concatenated, in order. */
  function Flatten(batches: seq<seq<Row>>): seq<Row>
  {
    if batches == [] then [] else Flatten(batches[..|batches| - 1]) + batches[|batches| - 1]
  }

  /** The batches the buffering loop produces from `rows`: every FlushEvery
      + 1 rows fill a batch, and a non-empty rest forms the final one. */
  function Batches(rows: seq<Row>): seq<seq<Row>>
    decreases |rows|
  {
    if |rows| <= FlushEvery then (if rows == [] then [] else [rows])
    else [rows[..FlushEvery + 1]] + Batches(rows[FlushEvery + 1..])
  }

  /** Batches loses, adds and reorders no row; every batch but the last holds
      exactly FlushEvery + 1 rows, and the last holds 1 to FlushEvery + 1. */
  lemma {:induction false} BatchesShape(rows: seq<Row>)
    ensures Flatten(Batches(rows)) == rows
    ensures forall k :: 0 <= k < |Batches(rows)| - 1 ==> |Batches(rows)[k]| == FlushEvery + 1
    ensures Batches(rows) != [] ==> 1 <= |Batches(rows)[|Batches(rows)| - 1]| <= FlushEvery + 1
    ensures Batches(rows) == [] <==> rows == []
  {
    if |rows| > FlushEvery {
      var head, rest := rows[..FlushEvery + 1], rows[FlushEvery + 1..];
      BatchesShape(rest);
      FlattenCons(head, Batches(rest));
      assert rows == head + rest;
    } else if rows != [] {
      assert Flatten([rows]) == Flatten([]) + rows;
    }
  }

  /** Flatten of a batch put in front. */
  lemma {:induction false} FlattenCons(b: seq<Row>, bs: seq<seq<Row>>)
    ensures Flatten([b] + bs) == b + Flatten(bs)
    decreases |bs|
  {
    if bs == [] {
      assert [b] + bs == [b];
      assert Flatten([b]) == Flatten([]) + b;
    } else {
      var init := bs[..|bs| - 1];
      FlattenCons(b, init);
      assert ([b] + bs)[..|[b] + bs| - 1] == [b] + init;
    }
  }

  /** True of batches that each hold exactly FlushEvery + 1 rows, the ones
      the loop flushes while it runs. */
  predicate AllFull(batches: seq<seq<Row>>)
  {
    forall k :: 0 <= k < |batches| ==> |batches[k]| == FlushEvery + 1
  }

  /** Full batches come first: the batches of `Flatten(full) + rest` are
      `full` followed by the batches of `rest`. */
  lemma {:induction false} BatchesAfterFull(full: seq<seq<Row>>, rest: seq<Row>)
    requires AllFull(full)
    ensures Batches(Flatten(full) + rest) == full + Batches(rest)
    decreases |full|
  {
    if full != [] {
      var init, b := full[..|full| - 1], full[|full| - 1];
      assert AllFull(init) by {
        forall k | 0 <= k < |init| ensures |init[k]| == FlushEvery + 1 {
          assert init[k] == full[k];
        }
      }
      assert full == init + [b];
      FlattenSnoc(init, b);
      assert Flatten(full) + rest == Flatten(init) + (b + rest);
      BatchesAfterFull(init, b + rest);
      assert (b + rest)[..FlushEvery + 1] == b;
      assert (b + rest)[FlushEvery + 1..] == rest;
      assert Batches(b + rest) == [b] + Batches(rest);
      assert init + ([b] + Batches(rest)) == full + Batches(rest);
    } else {
      assert Flatten(full) + rest == rest;
      assert full + Batches(rest) == Batches(rest);
    }
  }

  /** The batch numbers below `n` were all inserted without an error. */
  predicate InsertedUpTo(batches: seq<seq<Row>>, n: nat, insertIgnore: (nat, seq<Row>) -> Option<string>)
  {
    forall k :: 0 <= k < n && k < |batches| ==> insertIgnore(k, batches[k]).None?
  }

  /** The buffering state after the rows `done`: the full batches already
      flushed, followed by the buffer, spell out exactly `done`, every
      flushed batch was inserted, and the buffer holds at most FlushEvery
      rows. */
  predicate Buffered(done: seq<Row>, flushed: seq<seq<Row>>, lines: seq<Row>,
                     insertIgnore: (nat, seq<Row>) -> Option<string>)
  {
    Flatten(flushed) + lines == done && AllFull(flushed) && |lines| <= FlushEvery &&
    InsertedUpTo(flushed, |flushed|, insertIgnore)
  }

  /** What a failed insert leaves: the batches attempted are all full, they
      spell out a prefix of `done`, all but the last were inserted, and the
      last is the one whose insert returned `err`. */
  predicate FailedAfter(done: seq<Row>, attempted: seq<seq<Row>>, err: Option<string>,
                        insertIgnore: (nat, seq<Row>) -> Option<string>)
  {
    attempted != [] && AllFull(attempted) && Flatten(attempted) <= done &&
    InsertedUpTo(attempted, |attempted| - 1, insertIgnore) &&
    err.Some? && insertIgnore(|attempted| - 1, attempted[|attempted| - 1]) == err
  }

  /** One rule of the inner loop of SavePolicyCtx: append its row to the
      buffer and, once the buffer holds more than FlushEvery rows, insert it
      as the next batch and empty it. */
  method Push(flushed: seq<seq<Row>>, lines0: seq<Row>, line: Row,
              insertIgnore: (nat, seq<Row>) -> Option<string>, ghost done: seq<Row>)
    returns (attempted: seq<seq<Row>>, lines: seq<Row>, err: Option<string>)
    requires Buffered(done, flushed, lines0, insertIgnore)
    ensures err.None? ==> Buffered(done + [line], attempted, lines, insertIgnore)
    ensures err.Some? ==> FailedAfter(done + [line], attempted, err, insertIgnore)
    ensures |attempted| >= |flushed|
  {
    attempted, lines, err := flushed, lines0 + [line], None;
    if |lines| > FlushEvery {
      err := insertIgnore(|flushed|, lines);
      attempted := flushed + [lines];
      FlattenSnoc(flushed, lines);
      assert Flatten(attempted) == done + [line];
      assert AllFull(attempted) by {
        forall k | 0 <= k < |attempted| ensures |attempted[k]| == FlushEvery + 1 {
          if k < |flushed| { assert attempted[k] == flushed[k]; }
        }
      }
      assert InsertedUpTo(attempted, |attempted| - 1, insertIgnore) by {
        forall k | 0 <= k < |attempted| - 1 ensures insertIgnore(k, attempted[k]).None? {
          assert attempted[k] == flushed[k];
        }
      }
      if err.None? {
        lines := [];
        assert Flatten(attempted) + lines == done + [line];
      }
    }
  }

  /** A failure stays a failure as more rows follow. */
  lemma FailedPrefix(done: seq<Row>, more: seq<Row>, attempted: seq<seq<Row>>, err: Option<string>,
                     insertIgnore: (nat, seq<Row>) -> Option<string>)
    requires done <= more
    requires FailedAfter(done, attempted, err, insertIgnore)
    ensures FailedAfter(more, attempted, err, insertIgnore)
  {
  }

  /** The inner loop of SavePolicyCtx over the rules of one assertion:
      every rule, in order, goes through Push; a failed insert ends it. */
  method BufferRules(ptype: string, policy: seq<seq<string>>, flushed: seq<seq<Row>>, lines0: seq<Row>,
                     insertIgnore: (nat, seq<Row>) -> Option<string>, ghost done: seq<Row>)
    returns (attempted: seq<seq<Row>>, lines: seq<Row>, err: Option<string>)
    requires Buffered(done, flushed, lines0, insertIgnore)
    ensures err.None? ==> Buffered(done + EncodeAll(ptype, policy), attempted, lines, insertIgnore)
    ensures err.Some? ==> FailedAfter(done + EncodeAll(ptype, policy), attempted, err, insertIgnore)
  {
    attempted, lines, err := flushed, lines0, None;
    for r := 0 to |policy|
      invariant Buffered(done + EncodeAll(ptype, policy[..r]), attempted, lines, insertIgnore)
      invariant err.None?
    {
      ghost var sofar := done + EncodeAll(ptype, policy[..r]);
      attempted, lines, err := Push(attempted, lines, SavePolicyLine(ptype, policy[r]), insertIgnore, sofar);
      EncodeAllStep(ptype, policy, r);
      if err.Some? {
        assert EncodeAll(ptype, policy[..r + 1]) <= EncodeAll(ptype, policy);
        FailedPrefix(sofar + [SavePolicyLine(ptype, policy[r])], done + EncodeAll(ptype, policy), attempted, err, insertIgnore);
        return;
      }
    }
    assert policy[..|policy|] == policy;
  }

  /** One pass of the outer loop of SavePolicyCtx: the rules of the
      assertion `section[a]` go through BufferRules. A failure is stated
      against the rows of the whole section. */
  method BufferAssertion(section: seq<Assertion>, a: nat, flushed: seq<seq<Row>>, lines0: seq<Row>,
                         insertIgnore: (nat, seq<Row>) -> Option<string>, ghost done: seq<Row>)
    returns (attempted: seq<seq<Row>>, lines: seq<Row>, err: Option<string>)
    requires a < |section|
    requires Buffered(done + EncodeSection(section[..a]), flushed, lines0, insertIgnore)
    ensures err.None? ==> Buffered(done + EncodeSection(section[..a + 1]), attempted, lines, insertIgnore)
    ensures err.Some? ==> FailedAfter(done + EncodeSection(section), attempted, err, insertIgnore)
  {
    ghost var before := done + EncodeSection(section[..a]);
    ghost var after := before + EncodeAll(section[a].ptype, section[a].policy);
    EncodeSectionStep(section, a);
    assert after == done + EncodeSection(section[..a + 1]);
    attempted, lines, err := BufferRules(section[a].ptype, section[a].policy, flushed, lines0, insertIgnore, before);
    if err.Some? {
      EncodeSectionPrefix(section, a + 1);
      FailedPrefix(after, done + EncodeSection(section), attempted, err, insertIgnore);
    }
  }

  /** The loops of SavePolicyCtx over one section (`model["p"]` or
      `model["g"]`): the assertions in order, each through BufferAssertion;
      a failed insert ends the loops. */
  method BufferSection(section: seq<Assertion>, flushed: seq<seq<Row>>, lines0: seq<Row>,
                       insertIgnore: (nat, seq<Row>) -> Option<string>, ghost done: seq<Row>)
    returns (attempted: seq<seq<Row>>, lines: seq<Row>, err: Option<string>)
    requires Buffered(done, flushed, lines0, insertIgnore)
    ensures err.None? ==> Buffered(done + EncodeSection(section), attempted, lines, insertIgnore)
    ensures err.Some? ==> FailedAfter(done + EncodeSection(section), attempted, err, insertIgnore)
  {
    attempted, lines, err := flushed, lines0, None;
    assert section[..0] == [];
    assert done + EncodeSection(section[..0]) == done;
    for a := 0 to |section|
      invariant Buffered(done + EncodeSection(section[..a]), attempted, lines, insertIgnore)
      invariant err.None?
    {
      attempted, lines, err := BufferAssertion(section, a, attempted, lines, insertIgnore, done);
      if err.Some? {
        return;
      }
    }
    assert section[..|section|] == section;
  }

  /** Appending a batch at the end. */
  lemma FlattenSnoc(bs: seq<seq<Row>>, b: seq<Row>)
    ensures Flatten(bs + [b]) == Flatten(bs) + b
  {
    assert (bs + [b])[..|bs + [b]| - 1] == bs;
  }

  lemma EncodeAllStep(ptype: string, policy: seq<seq<string>>, r: nat)
    requires r < |policy|
    ensures EncodeAll(ptype, policy[..r + 1]) == EncodeAll(ptype, policy[..r]) + [SavePolicyLine(ptype, policy[r])]
  {
  }

  lemma EncodeSectionStep(section: seq<Assertion>, a: nat)
    requires a < |section|
    ensures EncodeSection(section[..a + 1]) == EncodeSection(section[..a]) + EncodeAll(section[a].ptype, section[a].policy)
  {
    assert section[..a + 1][..a] == section[..a];
  }

  /** The rows of a section grow only at the end. */
  lemma {:induction false} EncodeSectionPrefix(section: seq<Assertion>, a: nat)
    requires a <= |section|
    ensures EncodeSection(section[..a]) <= EncodeSection(section)
    decreases |section| - a
  {
    if a < |section| {
      EncodeSectionPrefix(section, a + 1);
      EncodeSectionStep(section, a);
    } else {
      assert section[..a] == section;
    }
  }

  /** The outcome SavePolicyCtx promises for the rows `all` once the
      table is cleared: without an error the inserts attempted are exactly
      Batches(all), all of them successful (so by BatchesShape every row is
      inserted once and in order); with one they are a non-empty prefix of
      Batches(all) in which only the last insert failed, with that error. */
  predicate Saved(all: seq<Row>, batches: seq<seq<Row>>, err: Option<string>,
                  insertIgnore: (nat, seq<Row>) -> Option<string>)
  {
    (err.None? ==> batches == Batches(all) && InsertedUpTo(batches, |batches|, insertIgnore)) &&
    (err.Some? ==>
      batches != [] && batches <= Batches(all) &&
      InsertedUpTo(batches, |batches| - 1, insertIgnore) &&
      insertIgnore(|batches| - 1, batches[|batches| - 1]) == err)
  }

  /** A failed insert in the loops leaves a prefix of the batches the rows
      would form. */
  lemma FailedIsSaved(done: seq<Row>, attempted: seq<seq<Row>>, err: Option<string>,
                      insertIgnore: (nat, seq<Row>) -> Option<string>)
    requires FailedAfter(done, attempted, err, insertIgnore)
    ensures Saved(done, attempted, err, insertIgnore)
  {
    var rest := done[|Flatten(attempted)|..];
    assert done == Flatten(attempted) + rest;
    BatchesAfterFull(attempted, rest);
  }

  /** The last step of SavePolicyCtx: a non-empty buffer is inserted as
      the final batch. */
  method FlushRest(flushed: seq<seq<Row>>, lines: seq<Row>,
                   insertIgnore: (nat, seq<Row>) -> Option<string>, ghost all: seq<Row>)
    returns (batches: seq<seq<Row>>, err: Option<string>)
    requires Buffered(all, flushed, lines, insertIgnore)
    ensures Saved(all, batches, err, insertIgnore)
  {
    BatchesAfterFull(flushed, lines);
    batches, err := flushed, None;
    if |lines| > 0 {
      err := insertIgnore(|flushed|, lines);
      batches := flushed + [lines];
      assert Batches(lines) == [lines];
      assert InsertedUpTo(batches, |batches| - 1, insertIgnore) by {
        forall k | 0 <= k < |batches| - 1 ensures insertIgnore(k, batches[k]).None? {
          assert batches[k] == flushed[k];
        }
      }
    } else {
      assert flushed + Batches(lines) == flushed;
    }
  }

  /** Every rule of both sections, `p` before `g`, as rows. */
  function AllRows(pSection: seq<Assertion>, gSection: seq<Assertion>): seq<Row>
  {
    EncodeSection(pSection) + EncodeSection(gSection)
  }

  /** SavePolicyCtx after the transaction has begun: `clearErr` is what
      truncateTable returned; every rule of the `p` section and then of the
      `g` section is buffered, full buffers are inserted as they fill and
      the rest is inserted at the end. `batches` are the inserts attempted,
      in order, and `err` is the error SavePolicyCtx returns before it
      would commit. */
  method SavePolicy(pSection: seq<Assertion>, gSection: seq<Assertion>, clearErr: Option<string>,
                    insertIgnore: (nat, seq<Row>) -> Option<string>)
    returns (batches: seq<seq<Row>>, err: Option<string>)
    ensures clearErr.Some? ==> batches == [] && err == clearErr
    ensures clearErr.None? ==> Saved(AllRows(pSection, gSection), batches, err, insertIgnore)
  {
    if clearErr.Some? {
      return [], clearErr;
    }
    var lines: seq<Row>;
    ghost var all := AllRows(pSection, gSection);
    assert Buffered([], [], [], insertIgnore);
    batches, lines, err := BufferSection(pSection, [], [], insertIgnore, []);
    assert [] + EncodeSection(pSection) == EncodeSection(pSection);
    if err.Some? {
      FailedPrefix(EncodeSection(pSection), all, batches, err, insertIgnore);
      FailedIsSaved(all, batches, err, insertIgnore);
      return;
    }
    batches, lines, err := BufferSection(gSection, batches, lines, insertIgnore, EncodeSection(pSection));
    if err.Some? {
      FailedIsSaved(all, batches, err, insertIgnore);
      return;
    }
    batches, err := FlushRest(batches, lines, insertIgnore, all);
  }

  /** The statements truncateTable may issue. The same statement also
      serves ClearPolicy, which calls truncateTable on its own. */
  datatype ClearKind = DeleteFrom | Truncate | TruncateRestartIdentity

  /** What a clear statement does and to which table, read back from its
      text; None for any other statement. */
  function ParseClear(sql: string): Option<(ClearKind, string)>
  {
    if |sql| >= 12 && sql[..12] == "delete from " then Some((DeleteFrom, sql[12..]))
    else if |sql| >= 15 && sql[..15] == "truncate table " then
      var rest := sql[15..];
      if |rest| >= 17 && rest[|rest| - 17..] == " RESTART IDENTITY" then
        Some((TruncateRestartIdentity, rest[..|rest| - 17]))
      else Some((Truncate, rest))
    else None
  }

  /** `delete from T` reads back as a delete of T. */
  lemma ParseDeleteFrom(table: string)
    ensures ParseClear("delete from " + table) == Some((DeleteFrom, table))
  {
    var sql := "delete from " + table;
    assert sql[..12] == "delete from ";
    assert sql[12..] == table;
  }

  /** `truncate table T` reads back as a truncate of T, for T without spaces. */
  lemma ParseTruncate(table: string)
    ensures ' ' !in table ==> ParseClear("truncate table " + table) == Some((Truncate, table))
  {
    var sql := "truncate table " + table;
    assert sql[..12] != "delete from " by { assert sql[0] == 't'; }
    assert sql[..15] == "truncate table ";
    var rest := sql[15..];
    assert rest == table;
    if ' ' !in table {
      assert !(|rest| >= 17 && rest[|rest| - 17..] == " RESTART IDENTITY") by {
        if |rest| >= 17 {
          assert rest[|rest| - 17] in table;
        }
      }
    }
  }

  /** `truncate table T RESTART IDENTITY` reads back as such, with T. */
  lemma ParseTruncateRestart(table: string)
    ensures ParseClear("truncate table " + table + " RESTART IDENTITY") == Some((TruncateRestartIdentity, table))
  {
    var sql := "truncate table " + table + " RESTART IDENTITY";
    assert sql[..12] != "delete from " by { assert sql[0] == 't'; }
    assert sql[..15] == "truncate table ";
    var rest := sql[15..];
    assert rest == table + " RESTART IDENTITY";
    assert rest[|rest| - 17..] == " RESTART IDENTITY";
    assert rest[..|rest| - 17] == table;
  }

  /** The statement truncateTable issues to empty the table `table` on a
      database of type `dbType`: SQLite has no TRUNCATE, so both of its
      driver names delete every row; PostgreSQL also resets the identity
      sequence; every other type truncates. For a table name without spaces
      the statement reads back as clearing exactly that table, by delete
      exactly for the two SQLite types and with an identity reset exactly
      for PostgreSQL. */
  function ClearStatement(dbType: string, table: string): (sql: string)
    ensures ' ' !in table ==> ParseClear(sql).Some? && ParseClear(sql).value.1 == table
    ensures ' ' !in table ==> (ParseClear(sql).value.0 == DeleteFrom <==> dbType == "sqlite" || dbType == "sqlite3")
    ensures ' ' !in table ==> (ParseClear(sql).value.0 == TruncateRestartIdentity <==> dbType == "postgres")
  {
    ParseDeleteFrom(table);
    ParseTruncate(table);
    ParseTruncateRestart(table);
    match dbType
    case "sqlite" => "delete from " + table
    case "sqlite3" => "delete from " + table
    case "postgres" => "truncate table " + table + " RESTART IDENTITY"
    case "sqlserver" => "truncate table " + table
    case "mysql" => "truncate table " + table
    case _ => "truncate table " + table
  }
}
