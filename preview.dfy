/** `preview`: the pre-check pass of LoadPolicyCtx and LoadFilteredPolicyCtx.
    Each scanned row is decoded and put to the engine's
    `model.HasPolicyEx(sec, key, rule)`; rows it answers true for are swapped
    to the front, and the slice is then cut down to the rows it answered
    false for. The engine is not part of this model: HasPolicyEx is a
    parameter, a total function from the query to its answer. */
module Preview {
  import opened PolicyRows

  /** One `HasPolicyEx(sec, key, rule)` call. */
  datatype Query = Query(sec: string, key: string, rule: seq<string>)

  /** What HasPolicyEx returns: a yes/no answer or an error. */
  datatype Verdict = Answer(ok: bool) | Failure(message: string)

  /** The result of preview: the index where the kept rows start (the
      re-sliced `(*rules)[j:]`), or the first error HasPolicyEx returned. */
  datatype PreviewOutcome = Kept(start: nat) | Failed(message: string)

  /** preview needs a non-empty Ptype in every row: it takes `key[:1]`. */
  predicate AllPreviewable(rows: seq<Row>)
  {
    forall k :: 0 <= k < |rows| ==> rows[k].ptype != ""
  }

  /** The query preview puts for a row: sec is the first character of Ptype,
      key is Ptype, and rule is the decoded tuple after Ptype. (Go panics on
      an empty Ptype; this function gives such rows a query anyway, and
      Preview never asks it for one.) */
  function QueryOf(row: Row): (q: Query)
    ensures q.key == row.ptype
    ensures row.ptype != "" ==> q.sec == row.ptype[..1]
  {
    var p := Decode(row);
    assert p != [] ==> p[0] == Fields(row)[0] == row.ptype;
    if row.ptype == "" then Query("", "", if p == [] then [] else p[1..])
    else
      assert p != [];
      Query(row.ptype[..1], p[0], p[1..])
  }

  /** The query carries the whole decoded tuple: Ptype as key, the rest as
      the rule. */
  lemma QueryOfDecodes(row: Row)
    requires row.ptype != ""
    ensures [QueryOf(row).key] + QueryOf(row).rule == Decode(row)
  {
  }

  /** The queries for `rows`, in index order. */
  function Asked(rows: seq<Row>): (qs: seq<Query>)
  {
    seq(|rows|, k requires 0 <= k < |rows| => QueryOf(rows[k]))
  }

  /** HasPolicyEx answers every row without an error. */
  predicate Answered(rows: seq<Row>, hasPolicyEx: Query -> Verdict)
  {
    forall k :: 0 <= k < |rows| ==> hasPolicyEx(QueryOf(rows[k])).Answer?
  }

  /** The elements of `xs` that `keep` holds of, in their order. */
  function Select<T>(xs: seq<T>, keep: T -> bool): seq<T>
  {
    if xs == [] then []
    else Select(xs[..|xs| - 1], keep) + (if keep(xs[|xs| - 1]) then [xs[|xs| - 1]] else [])
  }

  /** Splitting by two complementary tests loses and duplicates nothing. */
  lemma {:induction false} SelectPartition<T>(xs: seq<T>, p: T -> bool, q: T -> bool)
    requires forall k :: 0 <= k < |xs| ==> p(xs[k]) != q(xs[k])
    ensures multiset(Select(xs, p)) + multiset(Select(xs, q)) == multiset(xs)
  {
    if xs != [] {
      var init, last := xs[..|xs| - 1], xs[|xs| - 1];
      SelectPartition(init, p, q);
      assert xs == init + [last];
      var a, b := Select(init, p), Select(init, q);
      if p(last) {
        assert Select(xs, p) == a + [last];
        assert Select(xs, q) == b;
        assert multiset(a + [last]) == multiset(a) + multiset{last};
      } else {
        assert Select(xs, p) == a;
        assert Select(xs, q) == b + [last];
        assert multiset(b + [last]) == multiset(b) + multiset{last};
      }
      assert multiset(xs) == multiset(init) + multiset{last};
    }
  }

  /** ... and so the two parts together are as long as the whole. */
  lemma {:induction false} SelectCount<T>(xs: seq<T>, p: T -> bool, q: T -> bool)
    requires forall k :: 0 <= k < |xs| ==> p(xs[k]) != q(xs[k])
    ensures |Select(xs, p)| + |Select(xs, q)| == |xs|
  {
    if xs != [] {
      SelectCount(xs[..|xs| - 1], p, q);
    }
  }

  /** The test "HasPolicyEx answers `ok` for this row". */
  function AnswersWith(hasPolicyEx: Query -> Verdict, ok: bool): Row -> bool
  {
    row => hasPolicyEx(QueryOf(row)) == Answer(ok)
  }

  /** The rows HasPolicyEx answers `ok` for, in their order. */
  function Answering(rows: seq<Row>, hasPolicyEx: Query -> Verdict, ok: bool): seq<Row>
  {
    Select(rows, AnswersWith(hasPolicyEx, ok))
  }

  /** When HasPolicyEx never fails, the rows it accepts and the rows it
      rejects together are the input: as a multiset, and so in number. */
  lemma AnsweringPartitions(rows: seq<Row>, hasPolicyEx: Query -> Verdict)
    requires Answered(rows, hasPolicyEx)
    ensures multiset(Answering(rows, hasPolicyEx, true)) + multiset(Answering(rows, hasPolicyEx, false)) == multiset(rows)
    ensures |Answering(rows, hasPolicyEx, true)| + |Answering(rows, hasPolicyEx, false)| == |rows|
  {
    var yes, no := AnswersWith(hasPolicyEx, true), AnswersWith(hasPolicyEx, false);
    forall k | 0 <= k < |rows| ensures yes(rows[k]) != no(rows[k]) {
      assert hasPolicyEx(QueryOf(rows[k])).Answer?;
    }
    SelectPartition(rows, yes, no);
    SelectCount(rows, yes, no);
  }

  /** One swap of the loop, on values: `t` is `s` with positions j and i
      exchanged. */
  lemma SwapStep(s: seq<Row>, t: seq<Row>, j: nat, i: nat)
    requires j <= i < |s|
    requires t == s[j := s[i]][i := s[j]]
    ensures t[..j + 1] == s[..j] + [s[i]]
    ensures multiset(t[j + 1..i + 1]) == multiset(s[j..i])
    ensures t[i + 1..] == s[i + 1..]
    ensures multiset(t) == multiset(s)
  {
    assert t[..j + 1] == s[..j] + [s[i]];
    SwapMiddle(s, t, j, i);
    assert t[i + 1..] == s[i + 1..];
    SwapWhole(s, t, j, i);
  }

  /** The rows between the two swapped positions, seen as a bag. */
  lemma SwapMiddle(s: seq<Row>, t: seq<Row>, j: nat, i: nat)
    requires j <= i < |s|
    requires t == s[j := s[i]][i := s[j]]
    ensures multiset(t[j + 1..i + 1]) == multiset(s[j..i])
  {
    if j < i {
      assert t[j + 1..i + 1] == s[j + 1..i] + [s[j]];
      assert s[j..i] == [s[j]] + s[j + 1..i];
    }
  }

  /** A swap keeps the bag of rows. */
  lemma SwapWhole(s: seq<Row>, t: seq<Row>, j: nat, i: nat)
    requires j <= i < |s|
    requires t == s[j := s[i]][i := s[j]]
    ensures multiset(t) == multiset(s)
  {
    var u := s[j := s[i]];
    assert multiset(u) == multiset(s) - multiset{s[j]} + multiset{s[i]};
    assert u[i] == (if i == j then s[i] else s[i]);
    assert multiset(t) == multiset(u) - multiset{u[i]} + multiset{s[j]};
  }

  /** The loop's invariant after `i` rows, `j` of them accepted: the array
      `cur` is a permutation of `orig`, rows from i on are untouched, the
      first i rows were all answered, the front j are the accepted ones in
      their order, and positions j..i hold the rejected ones. */
  ghost predicate PartitionedUpTo(orig: seq<Row>, cur: seq<Row>, i: nat, j: nat, hasPolicyEx: Query -> Verdict)
  {
    j <= i <= |orig| == |cur| &&
    multiset(cur) == multiset(orig) &&
    cur[i..] == orig[i..] &&
    Answered(orig[..i], hasPolicyEx) &&
    cur[..j] == Answering(orig[..i], hasPolicyEx, true) &&
    multiset(cur[j..i]) == multiset(Answering(orig[..i], hasPolicyEx, false))
  }

  lemma PartitionedStart(orig: seq<Row>, hasPolicyEx: Query -> Verdict)
    ensures PartitionedUpTo(orig, orig, 0, 0, hasPolicyEx)
  {
    assert orig[..0] == [];
  }

  /** An accepted row is swapped to position j. */
  lemma AcceptStep(orig: seq<Row>, cur: seq<Row>, i: nat, j: nat, hasPolicyEx: Query -> Verdict)
    requires PartitionedUpTo(orig, cur, i, j, hasPolicyEx) && i < |orig|
    requires hasPolicyEx(QueryOf(orig[i])) == Answer(true)
    ensures PartitionedUpTo(orig, cur[j := cur[i]][i := cur[j]], i + 1, j + 1, hasPolicyEx)
  {
    var next := cur[j := cur[i]][i := cur[j]];
    assert cur[i] == cur[i..][0] == orig[i];
    SwapStep(cur, next, j, i);
    PrefixStep(orig, i, hasPolicyEx);
    assert next[i + 1..] == cur[i + 1..] == cur[i..][1..];
  }

  /** A rejected row stays where it is, behind the accepted ones. */
  lemma RejectStep(orig: seq<Row>, cur: seq<Row>, i: nat, j: nat, hasPolicyEx: Query -> Verdict)
    requires PartitionedUpTo(orig, cur, i, j, hasPolicyEx) && i < |orig|
    requires hasPolicyEx(QueryOf(orig[i])) == Answer(false)
    ensures PartitionedUpTo(orig, cur, i + 1, j, hasPolicyEx)
  {
    assert cur[i] == cur[i..][0] == orig[i];
    PrefixStep(orig, i, hasPolicyEx);
    assert cur[j..i + 1] == cur[j..i] + [cur[i]];
    assert cur[i + 1..] == cur[i..][1..];
  }

  /** After the last row: what preview's success case promises. */
  lemma PartitionedAll(orig: seq<Row>, cur: seq<Row>, j: nat, hasPolicyEx: Query -> Verdict)
    requires PartitionedUpTo(orig, cur, |orig|, j, hasPolicyEx)
    ensures Answered(orig, hasPolicyEx)
    ensures cur[..j] == Answering(orig, hasPolicyEx, true)
    ensures multiset(cur[j..]) == multiset(Answering(orig, hasPolicyEx, false))
    ensures |orig| - j == |Answering(orig, hasPolicyEx, false)|
  {
    assert orig[..|orig|] == orig;
    assert cur[j..] == cur[j..|orig|];
    AnsweringPartitions(orig, hasPolicyEx);
    assert cur == cur[..j] + cur[j..];
  }

  /** One failing row means not every row is answered. */
  lemma FailureBreaksAnswered(orig: seq<Row>, i: nat, hasPolicyEx: Query -> Verdict)
    requires i < |orig| && hasPolicyEx(QueryOf(orig[i])).Failure?
    ensures !Answered(orig, hasPolicyEx)
  {
  }

  /** What preview promises about a run that started from `orig` and ended
      with the array holding `final`. The array is always a permutation of
      `orig`. The run succeeds exactly when HasPolicyEx answers every row;
      then every row was asked once, in index order, the accepted rows fill
      the front in their original order, and the kept suffix from `start` on
      is a permutation of the rejected rows, n - #accepted of them. Otherwise
      the rows were asked in order up to and including the first one
      HasPolicyEx failed on, and its error is the result. */
  ghost predicate PreviewPost(orig: seq<Row>, final: seq<Row>, outcome: PreviewOutcome, asked: seq<Query>,
                              hasPolicyEx: Query -> Verdict)
  {
    |final| == |orig| &&
    multiset(final) == multiset(orig) &&
    (outcome.Kept? <==> Answered(orig, hasPolicyEx)) &&
    (outcome.Kept? ==>
      asked == Asked(orig) &&
      outcome.start <= |final| &&
      final[..outcome.start] == Answering(orig, hasPolicyEx, true) &&
      multiset(final[outcome.start..]) == multiset(Answering(orig, hasPolicyEx, false)) &&
      |final| - outcome.start == |Answering(orig, hasPolicyEx, false)|) &&
    (outcome.Failed? ==>
      0 < |asked| <= |orig| &&
      asked == Asked(orig[..|asked|]) &&
      Answered(orig[..|asked| - 1], hasPolicyEx) &&
      hasPolicyEx(asked[|asked| - 1]) == Failure(outcome.message))
  }

  /** The loop ran to the end: the success case of PreviewPost. */
  lemma FinishKept(orig: seq<Row>, cur: seq<Row>, j: nat, hasPolicyEx: Query -> Verdict)
    requires PartitionedUpTo(orig, cur, |orig|, j, hasPolicyEx)
    ensures PreviewPost(orig, cur, Kept(j), Asked(orig[..|orig|]), hasPolicyEx)
  {
    PartitionedAll(orig, cur, j, hasPolicyEx);
    assert orig[..|orig|] == orig;
  }

  /** HasPolicyEx failed on row i: the error case of PreviewPost. */
  lemma FinishFailed(orig: seq<Row>, cur: seq<Row>, i: nat, j: nat, hasPolicyEx: Query -> Verdict, message: string)
    requires PartitionedUpTo(orig, cur, i, j, hasPolicyEx) && i < |orig|
    requires hasPolicyEx(QueryOf(orig[i])) == Failure(message)
    ensures PreviewPost(orig, cur, Failed(message), Asked(orig[..i]) + [QueryOf(orig[i])], hasPolicyEx)
  {
    AskedStep(orig, i);
    FailureBreaksAnswered(orig, i, hasPolicyEx);
  }

  /** preview: decode each row, ask HasPolicyEx, swap the accepted rows to
      the front, and keep the suffix after them; see PreviewPost. */
  method Preview(rules: array<Row>, hasPolicyEx: Query -> Verdict) returns (outcome: PreviewOutcome, asked: seq<Query>)
    requires AllPreviewable(rules[..])
    modifies rules
    ensures PreviewPost(old(rules[..]), rules[..], outcome, asked, hasPolicyEx)
  {
    ghost var orig := rules[..];
    var j := 0;
    asked := [];
    PartitionedStart(orig, hasPolicyEx);
    for i := 0 to rules.Length
      invariant PartitionedUpTo(orig, rules[..], i, j, hasPolicyEx)
      invariant asked == Asked(orig[..i])
    {
      ghost var before := rules[..];
      assert before[i] == before[i..][0] == orig[i];
      var query, answer := VisitRow(rules, i, j, hasPolicyEx);
      if answer.Failure? {
        FinishFailed(orig, before, i, j, hasPolicyEx, answer.message);
        return Failed(answer.message), asked + [query];
      }
      AskedStep(orig, i);
      asked := asked + [query];
      if answer.ok {
        AcceptStep(orig, before, i, j, hasPolicyEx);
        j := j + 1;
      } else {
        RejectStep(orig, before, i, j, hasPolicyEx);
      }
    }
    FinishKept(orig, rules[..], j, hasPolicyEx);
    return Kept(j), asked;
  }

  /** One pass of preview's loop body: decode row i with the trim loop, ask
      HasPolicyEx with sec = the first character of Ptype, and on a yes swap
      row i with row j. On a no or an error the array is left alone. */
  method VisitRow(rules: array<Row>, i: nat, j: nat, hasPolicyEx: Query -> Verdict)
    returns (query: Query, answer: Verdict)
    requires j <= i < rules.Length && rules[i].ptype != ""
    modifies rules
    ensures query == QueryOf(old(rules[i])) && answer == hasPolicyEx(query)
    ensures rules[..] == if answer == Answer(true) then old(rules[..])[j := old(rules[i])][i := old(rules[j])]
                         else old(rules[..])
  {
    var rule := rules[i];
    var p := DecodeLine(rule);
    var key := p[0];
    var sec := key[..1];
    query := Query(sec, key, p[1..]);
    QueryOfDecodes(rule);
    answer := hasPolicyEx(query);
    if answer == Answer(true) {
      // (*rules)[j], (*rules)[i] = rule, (*rules)[j]
      ghost var before := rules[..];
      var displaced := rules[j];
      rules[j] := rule;
      assert rules[..] == before[j := rule];
      rules[i] := displaced;
      assert rules[..] == before[j := rule][i := displaced];
    }
  }

  /** Asking about row i extends the queries by its query. */
  lemma AskedStep(orig: seq<Row>, i: nat)
    requires i < |orig|
    ensures Asked(orig[..i + 1]) == Asked(orig[..i]) + [QueryOf(orig[i])]
  {
  }

  /** Extending the processed prefix by row i. */
  lemma PrefixStep(orig: seq<Row>, i: nat, hasPolicyEx: Query -> Verdict)
    requires i < |orig|
    ensures orig[..i + 1][..i] == orig[..i] && orig[..i + 1][i] == orig[i]
    ensures Asked(orig[..i + 1]) == Asked(orig[..i]) + [QueryOf(orig[i])]
    ensures Answered(orig[..i + 1], hasPolicyEx) <==>
      Answered(orig[..i], hasPolicyEx) && hasPolicyEx(QueryOf(orig[i])).Answer?
    ensures forall ok :: (Answering(orig[..i + 1], hasPolicyEx, ok) ==
      Answering(orig[..i], hasPolicyEx, ok) + (if hasPolicyEx(QueryOf(orig[i])) == Answer(ok) then [orig[i]] else []))
  {
    assert orig[..i + 1][..i] == orig[..i];
  }
}
