/** The HTML-tag pass of `convert_markdown_to_text`: on each line, every `<...>` of at most
    125 characters between the brackets, without a newline or `>` inside, is logged under
    `html_tags` and deleted; the text between tags stays. */
module Html {
  import opened Text
  import opened Ledger
  import opened Patterns
  import opened Lines

  /** What one line becomes, and what it logs. */
  function HtmlLine(line: string): Pass {
    SubPass(HtmlTag, "html_tags", line)
  }

  /** The loop over the lines. */
  method RemoveHtmlTags(text: string, logger: StrippedContentLogger) returns (r: string)
    modifies logger
    ensures r == MapPass(HtmlLine, text).text
    ensures logger.sections == Replay(logger.enabled, old(logger.sections), MapPass(HtmlLine, text).entries)
  {
    r := RewriteLines(HtmlLine, text, logger);
  }

  /** A tag is deleted whole: it keeps nothing of itself. */
  lemma TagKeepsNothing(s: string, j: nat)
    requires j < |s|
    ensures MatchAt(HtmlTag, s, j).Some? ==> s[j] == '<' && Target(PieceAt(Matching(HtmlTag), s, j)) == []
  {
    assert MatchAt(HtmlTag, s, j) == HtmlTagAt(s, j);
  }

  /** The piece taken at `i` goes either to the output or, as a deleted tag, to the log. */
  lemma PieceGoesOneWay(s: string, i: nat)
    requires i < |s|
    ensures |Target(PieceAt(Matching(HtmlTag), s, i))| + |Original(Cuts([PieceAt(Matching(HtmlTag), s, i)]))| == NextAt(Matching(HtmlTag), s, i) - i
  {
    var c := PieceAt(Matching(HtmlTag), s, i);
    TagKeepsNothing(s, i);
    PiecesCons(c, []);
  }

  /** Every deleted tag is logged: the output and the logged tags together are as long as
      the line. */
  lemma {:induction false} TagsPartition(s: string, i: nat)
    requires i <= |s|
    ensures |Rewritten(ScanFrom(Matching(HtmlTag), s, i))| + |Original(Cuts(ScanFrom(Matching(HtmlTag), s, i)))| == |s| - i
    decreases |s| - i
  {
    if i < |s| {
      var j := NextAt(Matching(HtmlTag), s, i);
      var c := PieceAt(Matching(HtmlTag), s, i);
      var rest := ScanFrom(Matching(HtmlTag), s, j);
      TagsPartition(s, j);
      PiecesCons(c, rest);
      PieceGoesOneWay(s, i);
      assert Cuts([c] + rest) == Cuts([c]) + Cuts(rest) by {
        PiecesCons(c, []);
      }
      OriginalAppend(Cuts([c]), Cuts(rest));
    }
  }

  /** A line without `<` comes through verbatim and logs nothing. */
  lemma NoTagUnchanged(line: string)
    requires '<' !in line
    ensures HtmlLine(line) == Pass(line, [])
  {
    forall j | 0 <= j < |line|
      ensures MatchAt(HtmlTag, line, j).None?
    {
      TagKeepsNothing(line, j);
    }
    NoMatchNoChange(Matching(HtmlTag), line, 0);
    assert line[0..] == line;
  }

  lemma HtmlKeepsLine()
    ensures KeepsLine(HtmlLine)
  {
    forall line | '\n' !in line
      ensures '\n' !in HtmlLine(line).text
    {
      SubKeepsOut(HtmlTag, line, '\n');
    }
  }
}
