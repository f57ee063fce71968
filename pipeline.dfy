/** `convert_markdown_to_text`: the JSON unwrap, then the sixteen steps in their fixed order,
    each working on the previous step's output and logging what it removes. */
module Pipeline {
  import opened Text
  import opened Ledger
  import opened Patterns
  import opened Lines
  import Json
  import CodeBlocks
  import Document
  import Setext
  import Emphasis
  import Links
  import Escapes
  import Blockquotes
  import Rules
  import Tables
  import Html
  import Whitespace

  /** What a conversion yields: the plain text, the entries logged in order, and the line
      number of an unclosed code block, which the source reports on stderr. */
  datatype Conversion = Conversion(text: string, entries: seq<Entry>, warning: Option<int>)

  /** The steps that run as loops of their own, in the shape of the others. */
  function CodeBlockPass(s: string): Pass {
    Pass(CodeBlocks.RemovedCodeBlocks(s), CodeBlocks.CodeBlockEntries(s))
  }

  function EmphasisPass(s: string): Pass {
    MapPass(Emphasis.EmphasisLine, s)
  }

  function LinkPass(s: string): Pass {
    MapPass(Links.LinkLine, s)
  }

  function EscapePass(s: string): Pass {
    Escapes.Rounds(s, 2)
  }

  function BlockquotePass(s: string): Pass {
    MapPass(Blockquotes.QuoteLine, s)
  }

  function RulePass(s: string): Pass {
    FilterPass(Rules.IsRule, "horizontal_rules", s)
  }

  function TablePass(s: string): Pass {
    FilterPass(Tables.IsTableSeparator, "table_separators", s)
  }

  function HtmlPass(s: string): Pass {
    MapPass(Html.HtmlLine, s)
  }

  /** One more step: it works on the text so far, and its entries follow the earlier ones. */
  function Then(p: Pass, step: string -> Pass): Pass {
    Pass(step(p.text).text, p.entries + step(p.text).entries)
  }

  /** Steps 2 to 8: inline code, headers, emphasis, links, task lists and lists. */
  function Formatting(p: Pass): Pass {
    var p2 := Then(p, Document.InlineCodePass);
    var p3 := Then(p2, Document.HashHeaderPass);
    var p4 := Then(p3, Setext.UnderlinePass);
    var p5 := Then(p4, EmphasisPass);
    var p6 := Then(p5, Document.ReferenceDefinitionPass);
    var p7 := Then(p6, Document.ReferenceLinkPass);
    var p8 := Then(p7, LinkPass);
    var p9 := Then(p8, Document.TaskListPass);
    var p10 := Then(p9, Document.UnorderedListPass);
    Then(p10, Document.OrderedListPass)
  }

  /** Steps 9 to 15: escapes, blockquotes, rules, tables, HTML, strikethrough, footnotes. */
  function Decoration(p: Pass): Pass {
    var p12 := Then(p, EscapePass);
    var p13 := Then(p12, BlockquotePass);
    var p14 := Then(p13, RulePass);
    var p15 := Then(p14, TablePass);
    var p16 := Then(p15, HtmlPass);
    var p17 := Then(p16, Document.StrikethroughPass);
    var p18 := Then(p17, Document.FootnoteReferencePass);
    Then(p18, Document.FootnoteDefinitionPass)
  }

  /** The steps up to the whitespace clean-up, from the unwrapped content on. */
  function Prepared(content: string): Pass {
    Decoration(Formatting(CodeBlockPass(content)))
  }

  /** All sixteen steps: the clean-up last. */
  function Steps(content: string): Pass {
    Then(Prepared(content), Whitespace.NormalizeWhitespace)
  }

  /** The whole conversion. */
  function Convert(markdown: string): Conversion {
    var content := Json.Unwrap(markdown);
    var p := Steps(content);
    Conversion(p.text, p.entries, CodeBlocks.UnclosedAt(CodeBlocks.Segments(CodeBlocks.IsFence, Split(content, '\n'))))
  }

  /** Run a step written as a function: log its entries, then take its text. */
  method Apply(step: string -> Pass, text: string, logger: StrippedContentLogger) returns (r: string)
    modifies logger
    ensures r == step(text).text
    ensures logger.sections == Replay(logger.enabled, old(logger.sections), step(text).entries)
  {
    var q := step(text);
    LogEach(logger, q.entries);
    r := q.text;
  }

  /** Steps 2 to 8 against the logger, which holds `p`'s entries on top of `start`. */
  method RemoveFormatting(text: string, logger: StrippedContentLogger, ghost start: Sections, ghost p: Pass)
    returns (r: string)
    requires text == p.text && logger.sections == Replay(logger.enabled, start, p.entries)
    modifies logger
    ensures r == Formatting(p).text
    ensures logger.sections == Replay(logger.enabled, start, Formatting(p).entries)
  {
    var log := logger;
    var t := text;
    ghost var q := p;

    ReplayConcat(log.enabled, start, q.entries, Document.InlineCodePass(t).entries);
    t := Apply(Document.InlineCodePass, t, log);
    q := Then(q, Document.InlineCodePass);

    ReplayConcat(log.enabled, start, q.entries, Document.HashHeaderPass(t).entries);
    t := Apply(Document.HashHeaderPass, t, log);
    q := Then(q, Document.HashHeaderPass);

    ReplayConcat(log.enabled, start, q.entries, Setext.UnderlinePass(t).entries);
    t := Setext.RemoveUnderlines(t, log);
    q := Then(q, Setext.UnderlinePass);

    ReplayConcat(log.enabled, start, q.entries, EmphasisPass(t).entries);
    t := Emphasis.SafeRemoveEmphasis(t, log);
    q := Then(q, EmphasisPass);

    ReplayConcat(log.enabled, start, q.entries, Document.ReferenceDefinitionPass(t).entries);
    t := Apply(Document.ReferenceDefinitionPass, t, log);
    q := Then(q, Document.ReferenceDefinitionPass);

    ReplayConcat(log.enabled, start, q.entries, Document.ReferenceLinkPass(t).entries);
    t := Apply(Document.ReferenceLinkPass, t, log);
    q := Then(q, Document.ReferenceLinkPass);

    ReplayConcat(log.enabled, start, q.entries, LinkPass(t).entries);
    t := Links.RemoveLinksAndImages(t, log);
    q := Then(q, LinkPass);

    ReplayConcat(log.enabled, start, q.entries, Document.TaskListPass(t).entries);
    t := Apply(Document.TaskListPass, t, log);
    q := Then(q, Document.TaskListPass);

    ReplayConcat(log.enabled, start, q.entries, Document.UnorderedListPass(t).entries);
    t := Apply(Document.UnorderedListPass, t, log);
    q := Then(q, Document.UnorderedListPass);

    ReplayConcat(log.enabled, start, q.entries, Document.OrderedListPass(t).entries);
    t := Apply(Document.OrderedListPass, t, log);
    q := Then(q, Document.OrderedListPass);

    assert q == Formatting(p);
    r := t;
  }

  /** Steps 9 to 15 against the logger, which holds `p`'s entries on top of `start`. */
  method RemoveDecoration(text: string, logger: StrippedContentLogger, ghost start: Sections, ghost p: Pass)
    returns (r: string)
    requires text == p.text && logger.sections == Replay(logger.enabled, start, p.entries)
    modifies logger
    ensures r == Decoration(p).text
    ensures logger.sections == Replay(logger.enabled, start, Decoration(p).entries)
  {
    var log := logger;
    var t := text;
    ghost var q := p;

    ReplayConcat(log.enabled, start, q.entries, EscapePass(t).entries);
    t := Escapes.ResolveEscapes(t, log);
    q := Then(q, EscapePass);

    ReplayConcat(log.enabled, start, q.entries, BlockquotePass(t).entries);
    t := Blockquotes.RemoveBlockquotes(t, log);
    q := Then(q, BlockquotePass);

    ReplayConcat(log.enabled, start, q.entries, RulePass(t).entries);
    t := Rules.RemoveHorizontalRules(t, log);
    q := Then(q, RulePass);

    ReplayConcat(log.enabled, start, q.entries, TablePass(t).entries);
    t := Tables.ConservativeRemoveTables(t, log);
    q := Then(q, TablePass);

    ReplayConcat(log.enabled, start, q.entries, HtmlPass(t).entries);
    t := Html.RemoveHtmlTags(t, log);
    q := Then(q, HtmlPass);

    ReplayConcat(log.enabled, start, q.entries, Document.StrikethroughPass(t).entries);
    t := Apply(Document.StrikethroughPass, t, log);
    q := Then(q, Document.StrikethroughPass);

    ReplayConcat(log.enabled, start, q.entries, Document.FootnoteReferencePass(t).entries);
    t := Apply(Document.FootnoteReferencePass, t, log);
    q := Then(q, Document.FootnoteReferencePass);

    ReplayConcat(log.enabled, start, q.entries, Document.FootnoteDefinitionPass(t).entries);
    t := Apply(Document.FootnoteDefinitionPass, t, log);
    q := Then(q, Document.FootnoteDefinitionPass);

    assert q == Decoration(p);
    r := t;
  }

  /** The conversion, step by step, against a logger; without one, a disabled logger is
      made and nothing is recorded. */
  method ConvertMarkdownToText(markdownContent: string, logger: StrippedContentLogger?)
    returns (r: string, warning: Option<int>)
    modifies logger
    ensures r == Convert(markdownContent).text
    ensures warning == Convert(markdownContent).warning
    ensures logger != null ==>
              logger.sections == Replay(logger.enabled, old(logger.sections), Convert(markdownContent).entries)
  {
    var log := logger;
    if log == null {
      log := new StrippedContentLogger(false);
    }
    ghost var start := log.sections;
    var content := Json.Unwrap(markdownContent);
    var text;
    text, warning := CodeBlocks.RemoveCodeBlocks(content, log);
    ghost var p := CodeBlockPass(content);

    text := RemoveFormatting(text, log, start, p);
    p := Formatting(p);

    text := RemoveDecoration(text, log, start, p);
    p := Decoration(p);

    ReplayConcat(log.enabled, start, p.entries, Whitespace.NormalizeWhitespace(text).entries);
    text := Apply(Whitespace.NormalizeWhitespace, text, log);
    r := text;
  }

  // ---------------------------------------------------------------------------------------
  // Properties

  /** Whatever the input, every line of the result is stripped and the result is its own
      `strip()`. */
  lemma ConvertIsClean(markdown: string)
    ensures forall k | 0 <= k < |Split(Convert(markdown).text, '\n')| ::
              IsStripped(Split(Convert(markdown).text, '\n')[k])
    ensures Strip(Convert(markdown).text) == Convert(markdown).text
  {
    Whitespace.NormalizedLines(Prepared(Json.Unwrap(markdown)).text);
  }
}
