/** The blockquote pass of `convert_markdown_to_text`: the leading run of `>` marks and
    whitespace on a line becomes a run of spaces, one more than the number of `>` on the
    WHOLE line (not only those in the prefix), and the removed prefix is logged under
    `blockquotes`. */
module Blockquotes {
  import opened Text
  import opened Ledger
  import opened Patterns
  import opened Lines

  /** The end of `(?:>\s*)+` from a `>` at `i`: the greedy run of marks and whitespace. */
  function QuoteRunEnd(s: string, i: nat): (m: nat)
    requires i < |s| && s[i] == '>'
    ensures i < m <= |s|
    ensures forall k | i <= k < m :: IsSpace(s[k]) || s[k] == '>'
    ensures m < |s| ==> !IsSpace(s[m]) && s[m] != '>'
    decreases |s| - i
  {
    var j := SpaceEnd(s, i + 1);
    SpaceRun(s, i + 1);
    if j < |s| && s[j] == '>' then QuoteRunEnd(s, j) else j
  }

  /** Where the match of `^\s*(?:>\s*)+` ends, when the line has one. */
  function QuotePrefixEnd(line: string): (m: Option<nat>)
    ensures m.Some? ==> 0 < m.value <= |line| && '>' in line[..m.value]
  {
    var a := SpaceEnd(line, 0);
    if a < |line| && line[a] == '>' then
      var m := QuoteRunEnd(line, a);
      assert line[..m][a] == '>';
      Some(m)
    else None
  }

  /** `re.sub(r'^\s*(?:>\s*)+', ' ' * (gt_count + 1), line)` */
  function Requoted(line: string): (processed: string) {
    match QuotePrefixEnd(line)
    case None => line
    case Some(m) => Spaces(Count(line, '>') + 1) + line[m..]
  }

  /** The rewritten line, and the logged prefix: the first
      `len(original_line) - len(processed_line.lstrip())` characters, logged only when the
      line changed. */
  function QuoteLine(line: string): Pass {
    var processed := Requoted(line);
    if line != processed && |LStrip(processed)| <= |line| then
      Pass(processed, [Entry("blockquotes", line[..|line| - |LStrip(processed)|])])
    else Pass(processed, [])
  }

  /** The loop over the lines. */
  method RemoveBlockquotes(text: string, logger: StrippedContentLogger) returns (r: string)
    modifies logger
    ensures r == MapPass(QuoteLine, text).text
    ensures logger.sections == Replay(logger.enabled, old(logger.sections), MapPass(QuoteLine, text).entries)
  {
    r := RewriteLines(QuoteLine, text, logger);
  }

  // ---------------------------------------------------------------------------------------
  // Properties

  /** `lstrip()` of the spaces put in front of what follows the prefix takes off exactly
      those spaces. */
  lemma LStripAfterSpaces(n: nat, t: string)
    requires t == [] || !IsSpace(t[0])
    ensures LStrip(Spaces(n) + t) == t
    ensures SpaceEnd(Spaces(n) + t, 0) == n
  {
    var s := Spaces(n) + t;
    LStripAt(s, n);
    SpaceEndAt(s, 0, n);
    assert s[n..] == t;
  }

  /** Spaces in place of a prefix holding a `>` never give the line back. */
  lemma QuotedChanges(line: string, m: nat, n: nat)
    requires m <= |line| && '>' in line[..m]
    ensures Spaces(n) + line[m..] != line
  {
  }

  /** A quoted line loses exactly its prefix of marks and whitespace, which is what is
      logged, and gains `Count(line, '>') + 1` spaces in its place; any other line is left
      alone and logs nothing. */
  lemma QuoteLineSpec(line: string)
    ensures QuotePrefixEnd(line).None? ==> QuoteLine(line) == Pass(line, [])
    ensures QuotePrefixEnd(line).Some? ==>
              var m := QuotePrefixEnd(line).value;
              QuoteLine(line) == Pass(Spaces(Count(line, '>') + 1) + line[m..], [Entry("blockquotes", line[..m])])
  {
    match QuotePrefixEnd(line)
    case None =>
    case Some(m) =>
      var n := Count(line, '>') + 1;
      assert Requoted(line) == Spaces(n) + line[m..];
      LStripAfterSpaces(n, line[m..]);
      QuotedChanges(line, m, n);
      assert |line| - |line[m..]| == m;
  }

  /** Requoting a line twice changes nothing more, and logs nothing the second time. */
  lemma QuoteLineIdempotent(line: string)
    ensures QuoteLine(QuoteLine(line).text) == Pass(QuoteLine(line).text, [])
  {
    QuoteLineSpec(line);
    match QuotePrefixEnd(line)
    case None =>
    case Some(m) =>
      var out := QuoteLine(line).text;
      LStripAfterSpaces(Count(line, '>') + 1, line[m..]);
      assert QuotePrefixEnd(out).None?;
      QuoteLineSpec(out);
  }

  /** A line without `>` is left alone. */
  lemma NoMarkUnchanged(line: string)
    requires '>' !in line
    ensures QuoteLine(line) == Pass(line, [])
  {
    QuoteLineSpec(line);
  }

  /** The rewrite never introduces a newline, so the pass yields one line per line. */
  lemma QuoteKeepsLine()
    ensures KeepsLine(QuoteLine)
  {
    forall line | '\n' !in line
      ensures '\n' !in QuoteLine(line).text
    {
      QuoteLineSpec(line);
      match QuotePrefixEnd(line)
      case None =>
      case Some(m) =>
        var t := Spaces(Count(line, '>') + 1) + line[m..];
        forall k | 0 <= k < |t|
          ensures t[k] != '\n'
        {
          if k >= Count(line, '>') + 1 {
            assert t[k] == line[k - (Count(line, '>') + 1) + m];
          }
        }
    }
  }
}
