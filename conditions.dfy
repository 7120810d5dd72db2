/** Building the conditions the adapter hands to the store: the all-empty
    check of `checkQueryField`, the positional pattern of
    `RemoveFilteredPolicyCtx` / `UpdateFilteredPoliciesCtx`, and the IN-set
    conditions of `applyFilter`. The store's evaluation of a condition is not
    part of the adapter; where a lemma speaks of which rows a condition
    selects it uses the convention the adapter relies on (see OmitEmptyMatch
    and SatisfiesAll). */
module Conditions {
  import opened Outcomes
  import opened PolicyRows

  /** The error text of checkQueryField. */
  const EmptyQueryFieldMessage: string :=
    "the query field cannot all be empty string (\"\"), please check"

  /** checkQueryField: an error exactly when every field value is "" (so also
      for no field values at all). */
  method CheckQueryField(fieldValues: seq<string>) returns (err: Option<string>)
    ensures err.Some? <==> AllEmpty(fieldValues)
    ensures err.Some? ==> err.value == EmptyQueryFieldMessage
  {
    for i := 0 to |fieldValues|
      invariant forall k :: 0 <= k < i ==> fieldValues[k] == ""
    {
      if fieldValues[i] != "" {
        return None;
      }
    }
    return Some(EmptyQueryFieldMessage);
  }

  /** The positional pattern: Ptype is the rule type, and value column k gets
      fieldValues[k - fieldIndex] when fieldIndex <= k < fieldIndex +
      |fieldValues|, "" otherwise. Values that fall outside V0..V5 are
      ignored; every index used is in bounds. */
  function PositionalPattern(ptype: string, fieldIndex: int, fieldValues: seq<string>): (line: Row)
    ensures line.ptype == ptype
    ensures forall k :: 0 <= k < ValueColumns ==>
      Value(line, k) == if fieldIndex <= k < fieldIndex + |fieldValues| then fieldValues[k - fieldIndex] else ""
  {
    var idx := fieldIndex + |fieldValues|;
    Row(ptype,
        if fieldIndex <= 0 && 0 < idx then fieldValues[0 - fieldIndex] else "",
        if fieldIndex <= 1 && 1 < idx then fieldValues[1 - fieldIndex] else "",
        if fieldIndex <= 2 && 2 < idx then fieldValues[2 - fieldIndex] else "",
        if fieldIndex <= 3 && 3 < idx then fieldValues[3 - fieldIndex] else "",
        if fieldIndex <= 4 && 4 < idx then fieldValues[4 - fieldIndex] else "",
        if fieldIndex <= 5 && 5 < idx then fieldValues[5 - fieldIndex] else "")
  }

  /** A `Where(pattern).OmitEmpty()` condition: every non-empty field of the
      pattern must equal the row's field; empty pattern fields constrain
      nothing. */
  predicate OmitEmptyMatch(pattern: Row, row: Row)
  {
    forall k :: 0 <= k < ValueColumns + 1 ==> Fields(pattern)[k] == "" || Fields(pattern)[k] == Fields(row)[k]
  }

  /** The positional pattern selects exactly the rows of that rule type whose
      value column fieldIndex + j holds fieldValues[j], for each non-empty
      fieldValues[j] that lands on one of V0..V5. An empty rule type is
      omitted like any empty field and then constrains nothing. */
  lemma PositionalPatternSelects(ptype: string, fieldIndex: int, fieldValues: seq<string>, row: Row)
    ensures OmitEmptyMatch(PositionalPattern(ptype, fieldIndex, fieldValues), row) <==>
      (ptype == "" || row.ptype == ptype) &&
      forall j :: 0 <= j < |fieldValues| && 0 <= fieldIndex + j < ValueColumns && fieldValues[j] != "" ==>
        Value(row, fieldIndex + j) == fieldValues[j]
  {
    var pat := PositionalPattern(ptype, fieldIndex, fieldValues);
    if OmitEmptyMatch(pat, row) {
      assert Fields(pat)[0] == "" || Fields(pat)[0] == Fields(row)[0];
      forall j | 0 <= j < |fieldValues| && 0 <= fieldIndex + j < ValueColumns && fieldValues[j] != ""
        ensures Value(row, fieldIndex + j) == fieldValues[j]
      {
        var k := fieldIndex + j;
        assert Value(pat, k) == fieldValues[j];
        assert Fields(pat)[k + 1] == "" || Fields(pat)[k + 1] == Fields(row)[k + 1];
      }
    }
    if (ptype == "" || row.ptype == ptype) &&
       forall j :: 0 <= j < |fieldValues| && 0 <= fieldIndex + j < ValueColumns && fieldValues[j] != "" ==>
         Value(row, fieldIndex + j) == fieldValues[j]
    {
      forall k | 0 <= k < ValueColumns + 1
        ensures Fields(pat)[k] == "" || Fields(pat)[k] == Fields(row)[k]
      {
        if k > 0 {
          assert Fields(pat)[k] == Value(pat, k - 1);
          assert Fields(row)[k] == Value(row, k - 1);
          if fieldIndex <= k - 1 < fieldIndex + |fieldValues| {
            var j := k - 1 - fieldIndex;
            assert fieldIndex + j == k - 1;
            if fieldValues[j] != "" {
              assert Value(row, fieldIndex + j) == fieldValues[j];
            }
          }
        }
      }
    }
  }

  /** The condition the rule type alone gives: Ptype set, every value column
      empty. */
  function PtypeOnly(ptype: string): (line: Row)
    ensures Fields(line) == [ptype] + Blanks(ValueColumns)
  {
    Row(ptype, "", "", "", "", "", "")
  }

  /** A Ptype-only condition selects every row of that rule type and nothing
      else; with an empty rule type it selects every row. */
  lemma PtypeOnlySelects(ptype: string, row: Row)
    ensures OmitEmptyMatch(PtypeOnly(ptype), row) <==> ptype == "" || row.ptype == ptype
  {
    assert Fields(PtypeOnly(ptype))[0] == ptype;
  }

  /** RemoveFilteredPolicyCtx up to its Delete call: the condition it deletes
      by, or the error it returns first. fieldIndex -1 means "the whole rule
      type" and skips checkQueryField; any other fieldIndex with all-empty
      values is the error, and no condition is built. */
  method RemoveFilteredPolicy(ptype: string, fieldIndex: int, fieldValues: seq<string>) returns (r: Result<Row>)
    ensures fieldIndex == -1 ==> r == Ok(PtypeOnly(ptype))
    ensures fieldIndex != -1 ==> (r.Err? <==> AllEmpty(fieldValues))
    ensures fieldIndex != -1 && r.Err? ==> r.message == EmptyQueryFieldMessage
    ensures fieldIndex != -1 && r.Ok? ==> r.value == PositionalPattern(ptype, fieldIndex, fieldValues)
  {
    if fieldIndex == -1 {
      return Ok(PtypeOnly(ptype));
    }
    var err := CheckQueryField(fieldValues);
    if err.Some? {
      return Err(err.value);
    }
    return Ok(PositionalPattern(ptype, fieldIndex, fieldValues));
  }

  /** What UpdateFilteredPoliciesCtx computes around its store calls: the
      positional condition (built without checkQueryField and without a
      special case for fieldIndex -1), the encoded replacement rules, and
      the replaced rows `matched` (what the store's Scan returned for that
      condition) turned into tuples with toStringPolicy, in order. */
  method UpdateFilteredPolicies(ptype: string, newRules: seq<seq<string>>, fieldIndex: int,
                                fieldValues: seq<string>, matched: seq<Row>)
    returns (condition: Row, inserted: seq<Row>, oldPolicies: seq<seq<string>>)
    ensures condition == PositionalPattern(ptype, fieldIndex, fieldValues)
    ensures |inserted| == |newRules|
    ensures forall k :: 0 <= k < |newRules| ==> inserted[k] == SavePolicyLine(ptype, newRules[k])
    ensures |oldPolicies| == |matched|
    ensures forall k :: 0 <= k < |matched| ==> oldPolicies[k] == NonEmpty(Fields(matched[k]))
  {
    condition := PositionalPattern(ptype, fieldIndex, fieldValues);
    inserted := EncodeRules(ptype, newRules);
    oldPolicies := [];
    for i := 0 to |matched|
      invariant |oldPolicies| == i
      invariant forall k :: 0 <= k < i ==> oldPolicies[k] == NonEmpty(Fields(matched[k]))
    {
      var policy := ToStringPolicy(matched[i]);
      oldPolicies := oldPolicies + [policy];
      assert oldPolicies[i] == NonEmpty(Fields(matched[i]));
    }
  }

  /** With fieldIndex -1 the positional pattern shifts the values one
      column left: the first value falls before V0 and is dropped. */
  lemma MinusOneShiftsLeft(ptype: string, fieldValues: seq<string>)
    requires |fieldValues| > 0
    ensures PositionalPattern(ptype, -1, fieldValues) == PositionalPattern(ptype, 0, fieldValues[1..])
  {
    var a, b := PositionalPattern(ptype, -1, fieldValues), PositionalPattern(ptype, 0, fieldValues[1..]);
    forall k | 0 <= k < ValueColumns ensures Value(a, k) == Value(b, k) {
      if k + 1 < |fieldValues| {
        assert fieldValues[1..][k] == fieldValues[k + 1];
      }
    }
    assert Value(a, 0) == Value(b, 0) && Value(a, 1) == Value(b, 1) && Value(a, 2) == Value(b, 2);
    assert Value(a, 3) == Value(b, 3) && Value(a, 4) == Value(b, 4) && Value(a, 5) == Value(b, 5);
  }

  /** An example of where the two paths part: with fieldIndex -1,
      RemoveFilteredPolicyCtx deletes the whole rule type, while
      UpdateFilteredPoliciesCtx shifts the values one column left. */
  lemma MinusOneDiffers()
    ensures PositionalPattern("p", -1, ["x", "alice"]) == Row("p", "alice", "", "", "", "", "")
    ensures PtypeOnly("p") == Row("p", "", "", "", "", "", "")
  {
  }

  /** Without checkQueryField, UpdateFilteredPoliciesCtx with all-empty values
      builds a condition that selects every row of the rule type (every row
      at all when the rule type is empty). */
  lemma UpdateAllEmptySelectsRuleType(ptype: string, fieldIndex: int, fieldValues: seq<string>, row: Row)
    requires AllEmpty(fieldValues)
    ensures OmitEmptyMatch(PositionalPattern(ptype, fieldIndex, fieldValues), row) <==> ptype == "" || row.ptype == ptype
  {
    PositionalPatternSelects(ptype, fieldIndex, fieldValues, row);
  }

  /** The Filter of LoadFilteredPolicy: one set of accepted values per column;
      an empty set accepts anything. */
  datatype Filter = Filter(ptype: seq<string>, v0: seq<string>, v1: seq<string>, v2: seq<string>,
                           v3: seq<string>, v4: seq<string>, v5: seq<string>)

  /** A `WhereIn(column, values)` condition; `column` indexes Fields (0 is
      Ptype, 1..6 are V0..V5). */
  datatype WhereIn = WhereIn(column: nat, values: seq<string>)

  /** The row satisfies every IN condition: the conditions are AND-ed. */
  predicate SatisfiesAll(row: Row, conds: seq<WhereIn>)
  {
    forall c :: c in conds ==> c.column < ValueColumns + 1 && Fields(row)[c.column] in c.values
  }

  /** The filter's set for column `col` of Fields. */
  function FilterSet(f: Filter, col: nat): seq<string>
    requires col < ValueColumns + 1
  {
    [f.ptype, f.v0, f.v1, f.v2, f.v3, f.v4, f.v5][col]
  }

  /** The selection a Filter means, column by column: each set is empty or
      contains the row's value in that column. */
  predicate Selects(f: Filter, row: Row)
  {
    (|f.ptype| == 0 || row.ptype in f.ptype) &&
    (|f.v0| == 0 || row.v0 in f.v0) &&
    (|f.v1| == 0 || row.v1 in f.v1) &&
    (|f.v2| == 0 || row.v2 in f.v2) &&
    (|f.v3| == 0 || row.v3 in f.v3) &&
    (|f.v4| == 0 || row.v4 in f.v4) &&
    (|f.v5| == 0 || row.v5 in f.v5)
  }

  /** applyFilter: one WhereIn for Ptype when its set is non-empty, then one
      for each of V0..V5 whose set is non-empty, in column order. Taking each WhereIn to
      add its condition to the query in place (the calls' results are not
      used), the query selects a row exactly when the Filter does. */
  method ApplyFilter(f: Filter) returns (conds: seq<WhereIn>)
    ensures forall c :: c in conds ==> |c.values| > 0
    ensures forall row :: SatisfiesAll(row, conds) <==> Selects(f, row)
  {
    conds := [];
    if |f.ptype| > 0 {
      conds := conds + [WhereIn(0, f.ptype)];
    }
    var filterValues := [f.v0, f.v1, f.v2, f.v3, f.v4, f.v5];
    for i := 0 to |filterValues|
      invariant forall c :: c in conds ==> c.column < i + 1 && c.values == FilterSet(f, c.column)
      invariant forall c :: c in conds ==> |c.values| > 0
      invariant forall col :: 0 <= col < i + 1 && |FilterSet(f, col)| > 0 ==> WhereIn(col, FilterSet(f, col)) in conds
    {
      if |filterValues[i]| > 0 {
        conds := conds + [WhereIn(i + 1, filterValues[i])];
      }
    }
    forall row ensures SatisfiesAll(row, conds) <==> Selects(f, row) {
      SatisfiesAllByColumn(f, conds, row);
    }
  }

  /** Conditions that name each non-empty filter set once per column, and
      nothing else, select what the Filter selects. */
  lemma SatisfiesAllByColumn(f: Filter, conds: seq<WhereIn>, row: Row)
    requires forall c :: c in conds ==> c.column < ValueColumns + 1 && c.values == FilterSet(f, c.column)
    requires forall c :: c in conds ==> |c.values| > 0
    requires forall col :: 0 <= col < ValueColumns + 1 && |FilterSet(f, col)| > 0 ==> WhereIn(col, FilterSet(f, col)) in conds
    ensures SatisfiesAll(row, conds) <==> Selects(f, row)
  {
    var s := Fields(row);
    if SatisfiesAll(row, conds) {
      forall col | 0 <= col < ValueColumns + 1 && |FilterSet(f, col)| > 0
        ensures s[col] in FilterSet(f, col)
      {
        assert WhereIn(col, FilterSet(f, col)) in conds;
      }
      assert |FilterSet(f, 0)| == 0 || s[0] in FilterSet(f, 0);
      assert |FilterSet(f, 1)| == 0 || s[1] in FilterSet(f, 1);
      assert |FilterSet(f, 2)| == 0 || s[2] in FilterSet(f, 2);
      assert |FilterSet(f, 3)| == 0 || s[3] in FilterSet(f, 3);
      assert |FilterSet(f, 4)| == 0 || s[4] in FilterSet(f, 4);
      assert |FilterSet(f, 5)| == 0 || s[5] in FilterSet(f, 5);
      assert |FilterSet(f, 6)| == 0 || s[6] in FilterSet(f, 6);
    }
    if Selects(f, row) {
      forall c | c in conds
        ensures c.column < ValueColumns + 1 && s[c.column] in c.values
      {
        var col := c.column;
        assert c.values == FilterSet(f, col) && |FilterSet(f, col)| > 0;
        if col == 0 { assert s[0] == row.ptype; }
        else if col == 1 { assert s[1] == row.v0; }
        else if col == 2 { assert s[2] == row.v1; }
        else if col == 3 { assert s[3] == row.v2; }
        else if col == 4 { assert s[4] == row.v3; }
        else if col == 5 { assert s[5] == row.v4; }
        else { assert s[6] == row.v5; }
      }
    }
  }

  /** The filter of the test suite's combined case: V0 = {alice, data2_admin}
      over the four stored rules selects exactly the alice and data2_admin
      rows. */
  lemma CombinedFilterExample()
    ensures var f := Filter([], ["alice", "data2_admin"], [], [], [], [], []);
      Selects(f, SavePolicyLine("p", ["alice", "data1", "read"])) &&
      !Selects(f, SavePolicyLine("p", ["bob", "data2", "write"])) &&
      Selects(f, SavePolicyLine("p", ["data2_admin", "data2", "read"])) &&
      Selects(f, SavePolicyLine("p", ["data2_admin", "data2", "write"]))
  {
    var f := Filter([], ["alice", "data2_admin"], [], [], [], [], []);
    assert SavePolicyLine("p", ["bob", "data2", "write"]).v0 == "bob";
    assert f.v0[0] != "bob" && f.v0[1] != "bob";
  }

  /** An all-empty Filter selects every row. */
  lemma EmptyFilterSelectsAll(row: Row)
    ensures Selects(Filter([], [], [], [], [], [], []), row)
  {
  }
}
