/** The rule table's row and the conversions between rows and rule tuples:
    `savePolicyLine` (tuple to row), the trailing-empty trim of
    `loadPolicyLine`/`preview` (row to tuple) and `toStringPolicy` (row to
    the list of its non-empty fields). */
module PolicyRows {

  /** One row of the rule table, `entity.CasbinRule` without its surrogate id
      (which only the store assigns and reads). */
  datatype Row = Row(ptype: string, v0: string, v1: string, v2: string,
                     v3: string, v4: string, v5: string)

  /** Number of value columns V0..V5. */
  const ValueColumns: nat := 6

  /** The row read as the tuple [Ptype, V0, V1, V2, V3, V4, V5]. */
  function Fields(row: Row): (s: seq<string>)
    ensures |s| == ValueColumns + 1 && s[0] == row.ptype
  {
    [row.ptype, row.v0, row.v1, row.v2, row.v3, row.v4, row.v5]
  }

  /** Value column `k` (V0 is column 0). */
  function Value(row: Row, k: nat): string
    requires k < ValueColumns
  {
    Fields(row)[k + 1]
  }

  /** `n` empty strings. */
  function Blanks(n: nat): (s: seq<string>)
    ensures |s| == n && forall k :: 0 <= k < n ==> s[k] == ""
  {
    seq(n, _ => "")
  }

  /** Every element of `s` is the empty string (vacuously true of []). */
  predicate AllEmpty(s: seq<string>)
  {
    forall k :: 0 <= k < |s| ==> s[k] == ""
  }

  /** The part of a rule that fits the six value columns. */
  function Clamp(rule: seq<string>): (c: seq<string>)
    ensures |c| <= ValueColumns && c <= rule
    ensures |rule| <= ValueColumns ==> c == rule
    ensures |rule| > ValueColumns ==> c == rule[..ValueColumns]
  {
    if |rule| <= ValueColumns then rule else rule[..ValueColumns]
  }

  /** savePolicyLine: Ptype is the rule type, V0..V5 the first six rule
      elements; columns the rule does not reach stay empty, and elements past
      the sixth are dropped without an error. */
  function SavePolicyLine(ptype: string, rule: seq<string>): (line: Row)
    ensures Fields(line) == [ptype] + Clamp(rule) + Blanks(ValueColumns - |Clamp(rule)|)
  {
    var line := Row(ptype,
                    if |rule| > 0 then rule[0] else "",
                    if |rule| > 1 then rule[1] else "",
                    if |rule| > 2 then rule[2] else "",
                    if |rule| > 3 then rule[3] else "",
                    if |rule| > 4 then rule[4] else "",
                    if |rule| > 5 then rule[5] else "");
    assert forall k :: 0 <= k < ValueColumns + 1 ==>
      Fields(line)[k] == ([ptype] + Clamp(rule) + Blanks(ValueColumns - |Clamp(rule)|))[k];
    line
  }

  /** The encoding of every rule of one rule type, in order. */
  function EncodeAll(ptype: string, rules: seq<seq<string>>): (lines: seq<Row>)
  {
    seq(|rules|, k requires 0 <= k < |rules| => SavePolicyLine(ptype, rules[k]))
  }

  /** The `for _, rule := range rules { lines = append(lines,
      savePolicyLine(ptype, rule)) }` loop shared by AddPoliciesCtx,
      UpdatePoliciesCtx and UpdateFilteredPoliciesCtx. */
  method EncodeRules(ptype: string, rules: seq<seq<string>>) returns (lines: seq<Row>)
    ensures |lines| == |rules|
    ensures forall k :: 0 <= k < |rules| ==> lines[k] == SavePolicyLine(ptype, rules[k])
  {
    lines := [];
    for i := 0 to |rules|
      invariant |lines| == i
      invariant forall k :: 0 <= k < i ==> lines[k] == SavePolicyLine(ptype, rules[k])
    {
      lines := lines + [SavePolicyLine(ptype, rules[i])];
    }
  }

  /** `s` with its trailing empty strings removed: the prefix of `s` that
      ends in a non-empty element (or is empty) and leaves only empty strings
      behind it. */
  function TrimTrailing(s: seq<string>): (r: seq<string>)
    ensures r <= s
    ensures r != [] ==> r[|r| - 1] != ""
    ensures forall k :: |r| <= k < |s| ==> s[k] == ""
  {
    if s == [] || s[|s| - 1] != "" then s else TrimTrailing(s[..|s| - 1])
  }

  /** TrimTrailing's three properties pin its result down: no other prefix
      has them. */
  lemma TrimTrailingUnique(s: seq<string>, q: seq<string>)
    requires q <= s
    requires q != [] ==> q[|q| - 1] != ""
    requires forall k :: |q| <= k < |s| ==> s[k] == ""
    ensures q == TrimTrailing(s)
  {
  }

  /** The tuple a row stands for, as loadPolicyLine hands it to the engine. */
  function Decode(row: Row): seq<string>
  {
    TrimTrailing(Fields(row))
  }

  /** The trim loop of loadPolicyLine (and its copy in preview): walk `index`
      down from the last column while the field there is empty, then keep
      p[:index+1]. The loop only stays in bounds when some field is
      non-empty; an all-empty row drives `index` to -1, where Go panics. */
  method DecodeLine(line: Row) returns (p: seq<string>)
    requires !AllEmpty(Fields(line))
    ensures p == Decode(line)
    ensures 1 <= |p| <= ValueColumns + 1
  {
    var r := Fields(line);
    var index := |r| - 1;
    while r[index] == ""
      invariant 0 <= index < |r|
      invariant forall k :: index < k < |r| ==> r[k] == ""
      decreases index
    {
      index := index - 1;
    }
    index := index + 1;
    p := r[..index];
    TrimTrailingUnique(r, p);
  }

  /** `p` extended by `x` when `x` is non-empty: one `if c.X != "" { policy =
      append(policy, c.X) }` step of toStringPolicy. */
  function AppendIfNonEmpty(p: seq<string>, x: string): seq<string>
  {
    if x != "" then p + [x] else p
  }

  /** Keeps exactly the non-empty elements of `s`, in their order. */
  function NonEmpty(s: seq<string>): (r: seq<string>)
  {
    if s == [] then [] else AppendIfNonEmpty(NonEmpty(s[..|s| - 1]), s[|s| - 1])
  }

  /** NonEmpty of a prefix grows by one field at a time. */
  lemma NonEmptyStep(s: seq<string>, k: nat)
    requires 0 < k <= |s|
    ensures NonEmpty(s[..k]) == AppendIfNonEmpty(NonEmpty(s[..k - 1]), s[k - 1])
  {
    assert s[..k][..k - 1] == s[..k - 1];
  }

  lemma {:induction false} NonEmptyAppend(a: seq<string>, b: seq<string>)
    ensures NonEmpty(a + b) == NonEmpty(a) + NonEmpty(b)
  {
    if b == [] {
      assert a + b == a;
    } else {
      assert (a + b)[..|a + b| - 1] == a + b[..|b| - 1];
      NonEmptyAppend(a, b[..|b| - 1]);
    }
  }

  /** What NonEmpty promises: no empty element survives, every element of the
      result comes from `s`, every non-empty element of `s` survives, and the
      result is no longer than `s`. */
  lemma {:induction false} NonEmptyProperties(s: seq<string>)
    ensures |NonEmpty(s)| <= |s|
    ensures forall k :: 0 <= k < |NonEmpty(s)| ==> NonEmpty(s)[k] != ""
    ensures forall x :: x in NonEmpty(s) <==> x in s && x != ""
  {
    if s != [] {
      NonEmptyProperties(s[..|s| - 1]);
      assert s == s[..|s| - 1] + [s[|s| - 1]];
    }
  }

  /** A sequence with no empty element is its own NonEmpty. */
  lemma {:induction false} NonEmptyOfFull(s: seq<string>)
    requires forall k :: 0 <= k < |s| ==> s[k] != ""
    ensures NonEmpty(s) == s
  {
    if s != [] {
      NonEmptyOfFull(s[..|s| - 1]);
    }
  }

  /** A sequence of empty strings has nothing left after NonEmpty. */
  lemma {:induction false} NonEmptyOfBlank(s: seq<string>)
    requires AllEmpty(s)
    ensures NonEmpty(s) == []
  {
    if s != [] {
      NonEmptyOfBlank(s[..|s| - 1]);
    }
  }

  /** toStringPolicy: appends Ptype, V0, ..., V5 in turn, each only when it is
      non-empty. */
  function ToStringPolicy(c: Row): (policy: seq<string>)
    ensures policy == NonEmpty(Fields(c))
  {
    var s := Fields(c);
    var p1 := AppendIfNonEmpty([], c.ptype);
    var p2 := AppendIfNonEmpty(p1, c.v0);
    var p3 := AppendIfNonEmpty(p2, c.v1);
    var p4 := AppendIfNonEmpty(p3, c.v2);
    var p5 := AppendIfNonEmpty(p4, c.v3);
    var p6 := AppendIfNonEmpty(p5, c.v4);
    var p7 := AppendIfNonEmpty(p6, c.v5);
    assert NonEmpty(s[..0]) == [];
    NonEmptyStep(s, 1);
    assert p1 == NonEmpty(s[..1]);
    NonEmptyStep(s, 2);
    assert p2 == NonEmpty(s[..2]);
    NonEmptyStep(s, 3);
    assert p3 == NonEmpty(s[..3]);
    NonEmptyStep(s, 4);
    assert p4 == NonEmpty(s[..4]);
    NonEmptyStep(s, 5);
    assert p5 == NonEmpty(s[..5]);
    NonEmptyStep(s, 6);
    assert p6 == NonEmpty(s[..6]);
    NonEmptyStep(s, 7);
    assert s[..7] == s;
    p7
  }

  /** toStringPolicy returns at most seven fields, none of them empty. */
  lemma ToStringPolicyBounds(c: Row)
    ensures |ToStringPolicy(c)| <= ValueColumns + 1
    ensures forall k :: 0 <= k < |ToStringPolicy(c)| ==> ToStringPolicy(c)[k] != ""
  {
    NonEmptyProperties(Fields(c));
  }

  /** The two decoders agree exactly when the decoded tuple has no interior
      empty field. */
  lemma ToStringPolicyMatchesDecode(c: Row)
    ensures ToStringPolicy(c) == Decode(c) <==>
            forall k :: 0 <= k < |Decode(c)| ==> Decode(c)[k] != ""
  {
    var s := Fields(c);
    var r := TrimTrailing(s);
    assert s == r + s[|r|..];
    NonEmptyAppend(r, s[|r|..]);
    NonEmptyOfBlank(s[|r|..]);
    if forall k :: 0 <= k < |r| ==> r[k] != "" {
      NonEmptyOfFull(r);
    } else {
      NonEmptyProperties(r);
      var k :| 0 <= k < |r| && r[k] == "";
      if ToStringPolicy(c) == r {
        assert false;
      }
    }
  }

  /** Decoding an encoded rule gives back Ptype and the rule's first six
      elements, minus the trailing empty ones. */
  lemma DecodeSavePolicyLine(ptype: string, rule: seq<string>)
    ensures Decode(SavePolicyLine(ptype, rule)) == TrimTrailing([ptype] + Clamp(rule))
  {
    var q := TrimTrailing([ptype] + Clamp(rule));
    var s := Fields(SavePolicyLine(ptype, rule));
    assert q <= s;
    TrimTrailingUnique(s, q);
  }

  /** Round trip: a rule that fits the six columns and does not end in an
      empty element (with a non-empty Ptype when the rule is empty) decodes
      back to [ptype] + rule, interior empty elements included. */
  lemma DecodeSavePolicyLineRoundTrip(ptype: string, rule: seq<string>)
    requires |rule| <= ValueColumns
    requires ([ptype] + rule)[|rule|] != ""
    ensures Decode(SavePolicyLine(ptype, rule)) == [ptype] + rule
  {
    DecodeSavePolicyLine(ptype, rule);
  }

  /** The rule {"", "data1", "write"} keeps its leading empty subject. */
  lemma InteriorEmptySurvives()
    ensures Decode(SavePolicyLine("p", ["", "data1", "write"])) == ["p", "", "data1", "write"]
  {
    DecodeSavePolicyLineRoundTrip("p", ["", "data1", "write"]);
  }

  /** The trailing-empty limitation: an empty last element of a rule is
      either dropped with the elements past the sixth or stored like an
      unused column, so the rule decodes as if it were not there. */
  lemma TrailingEmptyDropped(ptype: string, rule: seq<string>)
    ensures Decode(SavePolicyLine(ptype, rule + [""])) == Decode(SavePolicyLine(ptype, rule))
  {
    if |rule| >= ValueColumns {
      LongRuleIgnoresTail(ptype, rule);
    } else {
      ShortRuleTrailingEmpty(ptype, rule);
    }
  }

  /** A rule that already fills the six columns is stored the same with
      one more element. */
  lemma LongRuleIgnoresTail(ptype: string, rule: seq<string>)
    requires |rule| >= ValueColumns
    ensures SavePolicyLine(ptype, rule + [""]) == SavePolicyLine(ptype, rule)
  {
    var a, b := SavePolicyLine(ptype, rule + [""]), SavePolicyLine(ptype, rule);
    assert (rule + [""])[..ValueColumns] == rule[..ValueColumns];
    assert Fields(a) == Fields(b);
    assert a.v5 == Fields(a)[6] == Fields(b)[6] == b.v5;
  }

  /** A short rule's trailing "" is stored like an unused column. */
  lemma ShortRuleTrailingEmpty(ptype: string, rule: seq<string>)
    requires |rule| < ValueColumns
    ensures Decode(SavePolicyLine(ptype, rule + [""])) == Decode(SavePolicyLine(ptype, rule))
  {
    DecodeSavePolicyLine(ptype, rule + [""]);
    DecodeSavePolicyLine(ptype, rule);
    var s := [ptype] + rule + [""];
    assert [ptype] + (rule + [""]) == s;
    assert s[..|s| - 1] == [ptype] + rule;
  }

  /** An example of it: a rule ending in "" comes back shorter. */
  lemma TrailingEmptyIsLost()
    ensures Decode(SavePolicyLine("p", ["alice", "data1", ""])) == ["p", "alice", "data1"]
  {
    DecodeSavePolicyLine("p", ["alice", "data1", ""]);
    assert TrimTrailing(["p", "alice", "data1", ""]) == TrimTrailing(["p", "alice", "data1"]);
  }

  /** The two decoders differ on an interior empty field: toStringPolicy
      drops it, the trim decoder keeps it. */
  lemma DecodersDisagreeOnInteriorEmpty()
    ensures ToStringPolicy(SavePolicyLine("p", ["", "data1", "write"])) == ["p", "data1", "write"]
    ensures Decode(SavePolicyLine("p", ["", "data1", "write"])) == ["p", "", "data1", "write"]
  {
    InteriorEmptySurvives();
  }
}
