/** `parse_version_string`: split an optional leading comparison operator off a
    version constraint such as `>=1.2.0`, and map the operator to a code. */
module VersionParse {
  import opened Wrappers
  import opened Strings

  /** The operator table `comparison_operators`: "less" operators map to -1,
      "greater" ones to 1, and `==` to 0. */
  const OperatorCodes: map<string, int> := map["<" := -1, "<=" := -1, ">" := 1, ">=" := 1, "==" := 0]

  /** A parsed constraint: the operator code and the version body after it. */
  datatype VersionSpec = VersionSpec(code: int, body: string)

  /** The characters of the regex class `[<>=]`. */
  predicate IsOperatorChar(c: char) {
    c == '<' || c == '>' || c == '='
  }

  /** The guard `any(op in version_str for op in comparison_operators)`: some key
      of the table occurs anywhere in the string, not only at its start. */
  predicate ContainsOperator(s: string)
    ensures ContainsOperator(s) ==> |s| > 0
  {
    exists op :: op in OperatorCodes && IsInfix(op, s)
  }

  /** Length of the longest run of operator characters that starts `s`. */
  function OperatorRunLength(s: string): (k: nat)
    ensures k <= |s|
    ensures forall i :: 0 <= i < k ==> IsOperatorChar(s[i])
    ensures k < |s| ==> !IsOperatorChar(s[k])
    decreases |s|
  {
    if |s| > 0 && IsOperatorChar(s[0]) then 1 + OperatorRunLength(s[1..]) else 0
  }

  /** The two groups of `re.match(r"([<>=]+)?(.+)", s)`. */
  datatype OperatorMatch = OperatorMatch(op: Option<string>, body: string)

  /** The regex on a non-empty string without newlines: the greedy operator group
      takes the leading run of `<`, `>`, `=` but backtracks to leave `(.+)` at
      least one character, and is absent (`None`) when it would be empty. */
  function MatchOperatorPrefix(s: string): (m: OperatorMatch)
    requires |s| > 0
    ensures m.body != []
    ensures m.op.Some? ==> m.op.value != [] && m.op.value + m.body == s
    ensures m.op.None? ==> m.body == s
    ensures m.op.Some? ==> forall i :: 0 <= i < |m.op.value| ==> IsOperatorChar(m.op.value[i])
    ensures |m.body| == 1 || !IsOperatorChar(m.body[0])
  {
    var run := OperatorRunLength(s);
    var k := if run < |s| then run else |s| - 1;
    assert s[..k] + s[k..] == s;
    if k == 0 then OperatorMatch(None, s) else OperatorMatch(Some(s[..k]), s[k..])
  }

  /** `comparison_operators.get(operator, 0)`, where an absent group is `None`. */
  function OperatorCode(op: Option<string>): (code: int)
    ensures -1 <= code <= 1
    ensures op.Some? && op.value in OperatorCodes ==> code == OperatorCodes[op.value]
    ensures op.None? || op.value !in OperatorCodes ==> code == 0
  {
    if op.Some? && op.value in OperatorCodes then OperatorCodes[op.value] else 0
  }

  /** `parse_version_string`. The body is always what is left of the input once a
      run of operator characters is taken off its front. */
  function ParseVersionString(s: string): (r: VersionSpec)
    ensures -1 <= r.code <= 1
    ensures |r.body| <= |s| && s[|s| - |r.body|..] == r.body
    ensures forall i :: 0 <= i < |s| - |r.body| ==> IsOperatorChar(s[i])
    ensures |s| > 0 ==> |r.body| > 0
  {
    if ContainsOperator(s) then
      var m := MatchOperatorPrefix(s);
      assert m.op.Some? ==> s[..|m.op.value|] == m.op.value && s[|m.op.value|..] == m.body;
      VersionSpec(OperatorCode(m.op), m.body)
    else
      VersionSpec(0, s)
  }

  // ----- properties -----

  /** A string that does not start with an operator character parses to code 0
      and itself: both when it holds no operator at all and when an operator
      only appears inside it (`1<2`). */
  lemma UnprefixedParsesToItself(s: string)
    requires |s| == 0 || !IsOperatorChar(s[0])
    ensures ParseVersionString(s) == VersionSpec(0, s)
  {
  }

  /** A string with none of the table's operators parses to code 0 and itself. */
  lemma NoOperatorParsesToItself(s: string)
    requires forall op :: op in OperatorCodes ==> !IsInfix(op, s)
    ensures ParseVersionString(s) == VersionSpec(0, s)
  {
  }

  lemma {:induction false} OperatorRunOfPrefix(run: string, body: string)
    requires forall i :: 0 <= i < |run| ==> IsOperatorChar(run[i])
    requires |body| > 0 && !IsOperatorChar(body[0])
    ensures OperatorRunLength(run + body) == |run|
    decreases |run|
  {
    if |run| > 0 {
      assert (run + body)[1..] == run[1..] + body;
      OperatorRunOfPrefix(run[1..], body);
    }
  }

  /** A leading run of operator characters followed by a body that does not
      start with one splits into that run and that body, whatever the run. */
  lemma SplitsAtOperatorRun(run: string, body: string)
    requires run != [] && forall i :: 0 <= i < |run| ==> IsOperatorChar(run[i])
    requires |body| > 0 && !IsOperatorChar(body[0])
    ensures MatchOperatorPrefix(run + body) == OperatorMatch(Some(run), body)
  {
    OperatorRunOfPrefix(run, body);
    assert (run + body)[..|run|] == run;
    assert (run + body)[|run|..] == body;
  }

  /** A table operator in front of a body that does not start with an operator
      character parses to the table's code and that body (`>=1.0` is (1, `1.0`)). */
  lemma OperatorPrefixParses(op: string, body: string)
    requires op in OperatorCodes
    requires |body| > 0 && !IsOperatorChar(body[0])
    ensures ParseVersionString(op + body) == VersionSpec(OperatorCodes[op], body)
  {
    assert IsInfix(op, op + body) by {
      assert (op + body)[..|op|] == op;
    }
    SplitsAtOperatorRun(op, body);
  }

  /** A leading run that contains a table operator but is not itself a key of
      the table (`=>` or `<<` in front of the body) yields code 0 and the body. */
  lemma UnknownOperatorRunParses(run: string, body: string, op: string)
    requires run != [] && forall i :: 0 <= i < |run| ==> IsOperatorChar(run[i])
    requires run !in OperatorCodes
    requires op in OperatorCodes && IsInfix(op, run + body)
    requires |body| > 0 && !IsOperatorChar(body[0])
    ensures ParseVersionString(run + body) == VersionSpec(0, body)
  {
    SplitsAtOperatorRun(run, body);
  }

  /** `=>1.0` holds `>` inside its run, and `=>` is not in the table. */
  lemma ArrowRunParsesToZero()
    ensures ParseVersionString("=>1.0") == VersionSpec(0, "1.0")
  {
    assert "=>1.0" == "=>" + "1.0";
    assert IsInfix(">", "=>1.0") by {
      assert "=>1.0"[1..] == ">1.0";
      assert ">1.0"[..1] == ">";
    }
    UnknownOperatorRunParses("=>", "1.0", ">");
  }

  /** `1<2`: an operator inside the version, not in front of it, is ignored. */
  lemma MidStringOperatorIgnored()
    ensures ParseVersionString("1<2") == VersionSpec(0, "1<2")
  {
    UnprefixedParsesToItself("1<2");
  }

  /** A string made only of operator characters that holds a table operator
      keeps its last character as the body; the rest is the operator group. */
  lemma OperatorOnlyParses(s: string)
    requires |s| >= 2 && forall i :: 0 <= i < |s| ==> IsOperatorChar(s[i])
    requires ContainsOperator(s)
    ensures ParseVersionString(s) == VersionSpec(OperatorCode(Some(s[..|s| - 1])), [s[|s| - 1]])
  {
  }

  /** `<=` parses with the operator `<` and the body `=`: the regex leaves one
      character for the body. */
  lemma OperatorOnlyString()
    ensures ParseVersionString("<=") == VersionSpec(-1, "=")
  {
    var s := "<=";
    assert IsInfix("<=", s) by { assert s[..2] == s; }
    OperatorOnlyParses(s);
    assert s[..1] == "<" && [s[1]] == "=";
  }
}
