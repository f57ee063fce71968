/** `safe_remove_emphasis`: every line goes through five delimited rewrites in a fixed order
    (bold-italic, bold with asterisks, bold with underscores, italic with asterisks, italic
    with underscores), each logging its whole matches before rewriting. */
module Emphasis {
  import opened Text
  import opened Ledger
  import opened Patterns
  import opened Lines

  /** One `findall`/`log`/`sub` round: the pattern and the category it logs under. */
  datatype Stage = Stage(pattern: Pattern, category: string)

  /** The five rounds, most specific first; the two italic rounds refuse a neighbouring
      mark, `(?<!\*)` / `(?!\*)`. */
  const EmphasisStages: seq<Stage> := [
    Stage(Delimited('*', 3, false), "bold_italic"),
    Stage(Delimited('*', 2, false), "bold_asterisks"),
    Stage(Delimited('_', 2, false), "bold_underscores"),
    Stage(Delimited('*', 1, true), "italic_asterisks"),
    Stage(Delimited('_', 1, true), "italic_underscores")
  ]

  /** The rounds applied in order, each to the previous one's output. */
  function RunStages(stages: seq<Stage>, s: string): Pass
    decreases |stages|
  {
    if stages == [] then Pass(s, [])
    else
      var first := SubPass(stages[0].pattern, stages[0].category, s);
      var rest := RunStages(stages[1..], first.text);
      Pass(rest.text, first.entries + rest.entries)
  }

  /** What one line becomes, and what it logs. */
  function EmphasisLine(line: string): Pass {
    RunStages(EmphasisStages, line)
  }

  /** The loop over the lines. */
  method SafeRemoveEmphasis(text: string, logger: StrippedContentLogger) returns (r: string)
    modifies logger
    ensures r == MapPass(EmphasisLine, text).text
    ensures logger.sections == Replay(logger.enabled, old(logger.sections), MapPass(EmphasisLine, text).entries)
  {
    r := RewriteLines(EmphasisLine, text, logger);
  }

  // ---------------------------------------------------------------------------------------
  // Properties

  /** The markers of every round: each round's pattern is a delimited span of one of them. */
  predicate DelimitedBy(stages: seq<Stage>, marks: set<char>) {
    forall k | 0 <= k < |stages| ::
      stages[k].pattern.Delimited? && stages[k].pattern.mark in marks && stages[k].pattern.width >= 1
  }

  /** Running delimited rounds deletes only their markers, never adds a character and never
      lengthens the text. */
  lemma {:induction false} StagesErase(stages: seq<Stage>, s: string, marks: set<char>, c: char)
    requires DelimitedBy(stages, marks)
    ensures Erase(RunStages(stages, s).text, marks) == Erase(s, marks)
    ensures c !in s ==> c !in RunStages(stages, s).text
    ensures |RunStages(stages, s).text| <= |s|
    decreases |stages|
  {
    if stages != [] {
      var p := stages[0].pattern;
      var first := SubPass(p, stages[0].category, s);
      StagesErase(stages[1..], first.text, marks, c);
      DelimitedErasesOnlyMarks(p.mark, p.width, p.guarded, s, 0, marks);
      assert s[0..] == s;
      ScanLossless(Matching(p), s, 0);
      RewrittenWithin(Scan(p, s), c);
    }
  }

  /** Rounds over marks a text does not hold leave it alone and log nothing. */
  lemma {:induction false} StagesWithoutMarks(stages: seq<Stage>, s: string, marks: set<char>)
    requires DelimitedBy(stages, marks)
    requires forall k | 0 <= k < |s| :: s[k] !in marks
    ensures RunStages(stages, s) == Pass(s, [])
    decreases |stages|
  {
    if stages != [] {
      var p := stages[0].pattern;
      DelimitedNeedsMark(p.mark, p.width, p.guarded, s);
      StagesWithoutMarks(stages[1..], s, marks);
    }
  }

  /** Every emphasis round is delimited by `*` or `_`. */
  lemma EmphasisStagesDelimited()
    ensures DelimitedBy(EmphasisStages, {'*', '_'})
  {
  }

  /** Emphasis removal on one line deletes `*` and `_` characters and nothing else. */
  lemma EmphasisErasesOnlyMarkers(line: string)
    ensures Erase(EmphasisLine(line).text, {'*', '_'}) == Erase(line, {'*', '_'})
    ensures |EmphasisLine(line).text| <= |line|
    ensures '\n' !in line ==> '\n' !in EmphasisLine(line).text
  {
    EmphasisStagesDelimited();
    StagesErase(EmphasisStages, line, {'*', '_'}, '\n');
  }

  /** A line without `*` and `_` comes through verbatim and logs nothing. */
  lemma EmphasisWithoutMarkers(line: string)
    requires '*' !in line && '_' !in line
    ensures EmphasisLine(line) == Pass(line, [])
  {
    EmphasisStagesDelimited();
    StagesWithoutMarks(EmphasisStages, line, {'*', '_'});
  }

  /** The rewrite never introduces a newline, so the pass yields one line per line. */
  lemma EmphasisKeepsLine()
    ensures KeepsLine(EmphasisLine)
  {
    forall line | '\n' !in line
      ensures '\n' !in EmphasisLine(line).text
    {
      EmphasisErasesOnlyMarkers(line);
    }
  }

  /** One output line per input line: line `k` of the result is line `k` of the input with
      its emphasis removed. */
  lemma EmphasisLines(text: string)
    ensures |Split(MapPass(EmphasisLine, text).text, '\n')| == |Split(text, '\n')|
    ensures forall k | 0 <= k < |Split(text, '\n')| ::
              Split(MapPass(EmphasisLine, text).text, '\n')[k] == EmphasisLine(Split(text, '\n')[k]).text
  {
    EmphasisKeepsLine();
    MapPassLines(EmphasisLine, text);
  }
}
