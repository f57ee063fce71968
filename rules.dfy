/** The horizontal-rule pass of `convert_markdown_to_text`: a line of `-`, `*` or `_` marks,
    with any whitespace around and between them, is logged under `horizontal_rules` and
    dropped. One mark is enough, and the marks may be mixed. */
module Rules {
  import opened Text
  import opened Ledger
  import opened Patterns
  import opened Lines

  predicate IsRuleMark(c: char) {
    c == '-' || c == '*' || c == '_'
  }

  /** `(\s*[-*_])*\s*$` from position `i`. */
  predicate RuleRest(s: string, i: nat)
    requires i <= |s|
    decreases |s| - i
  {
    var j := SpaceEnd(s, i);
    j == |s| || (IsRuleMark(s[j]) && RuleRest(s, j + 1))
  }

  /** `re.match(r'^\s*[-*_](\s*[-*_])*\s*$', line)` */
  predicate IsRule(line: string) {
    var a := SpaceEnd(line, 0);
    a < |line| && IsRuleMark(line[a]) && RuleRest(line, a + 1)
  }

  /** The loop over the lines: rules are logged and dropped, the rest kept. */
  method RemoveHorizontalRules(text: string, logger: StrippedContentLogger) returns (r: string)
    modifies logger
    ensures r == FilterPass(IsRule, "horizontal_rules", text).text
    ensures logger.sections == Replay(logger.enabled, old(logger.sections), FilterPass(IsRule, "horizontal_rules", text).entries)
  {
    r := DropLines(IsRule, "horizontal_rules", text, logger);
  }

  /** The tail of a rule is any mix of whitespace and marks. */
  lemma {:induction false} RuleRestIff(s: string, i: nat)
    requires i <= |s|
    ensures RuleRest(s, i) <==> forall k | i <= k < |s| :: IsSpace(s[k]) || IsRuleMark(s[k])
    decreases |s| - i
  {
    var j := SpaceEnd(s, i);
    SpaceRun(s, i);
    if j < |s| {
      RuleRestIff(s, j + 1);
    }
  }

  /** A line is a rule exactly when it holds only whitespace and marks, and at least one
      mark. */
  lemma RuleIff(line: string)
    ensures IsRule(line) <==>
              && (forall k | 0 <= k < |line| :: IsSpace(line[k]) || IsRuleMark(line[k]))
              && (exists k | 0 <= k < |line| :: IsRuleMark(line[k]))
  {
    var a := SpaceEnd(line, 0);
    SpaceRun(line, 0);
    if a < |line| {
      RuleRestIff(line, a + 1);
    }
    if (forall k | 0 <= k < |line| :: IsSpace(line[k]) || IsRuleMark(line[k]))
       && (exists k | 0 <= k < |line| :: IsRuleMark(line[k]))
    {
      var m :| 0 <= m < |line| && IsRuleMark(line[m]);
      assert !IsSpace(line[m]);
      assert a <= m;
    }
  }
}
