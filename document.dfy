/** The passes of `convert_markdown_to_text` that run one `re.findall` / `re.sub` pair over
    the whole text: inline code, hash headers, reference-link definitions and uses, task
    lists, bullet and numbered lists, strikethrough, footnote references and definitions.
    The `^`-anchored ones use MULTILINE, and their `\s` runs may cross newlines, as the
    patterns do. */
module Document {
  import opened Text
  import opened Ledger
  import opened Patterns

  /** `` `code` `` becomes `code`; the whole span is logged. */
  function InlineCodePass(s: string): Pass {
    SubPass(InlineCode, "inline_code", s)
  }

  /** `^#{1,6}\s+` is deleted; what is logged is each match of `^(#{1,6}\s+.*)$`, the
      header marks with the rest of the line. */
  function HashHeaderPass(s: string): Pass {
    Pass(Sub(HashHeader, s), MatchLog("hash_headers", Cuts(Scan(HashHeaderLine, s))))
  }

  /** A `[label]: target` line is deleted and logged whole. Its line break stays unless the
      target is empty: then `\s*` takes the break and `[^\n]*` the next line. */
  function ReferenceDefinitionPass(s: string): Pass {
    SubPass(ReferenceDefinition, "reference_link_definitions", s)
  }

  /** `[text][ref]` becomes `text`; what is logged is `[text][]`, without the reference. */
  function ReferenceLinkLog(cuts: seq<Piece>): seq<Entry> {
    seq(|cuts|, k requires 0 <= k < |cuts| => Entry("reference_links", "[" + Target(cuts[k]) + "][]"))
  }

  function ReferenceLinkPass(s: string): Pass {
    var ps := Scan(ReferenceLink, s);
    Pass(Rewritten(ps), ReferenceLinkLog(Cuts(ps)))
  }

  /** `- [x] task` becomes `task`; the whole item is logged. */
  function TaskListPass(s: string): Pass {
    SubPass(TaskItem, "task_lists", s)
  }

  /** For list items, what is logged is the marker with the whitespace around it: the part
      of the match before the kept item text. */
  function LeadLog(category: string, cuts: seq<Piece>): seq<Entry> {
    seq(|cuts|, k requires 0 <= k < |cuts| => Entry(category, if cuts[k].Cut? then cuts[k].lead else []))
  }

  /** `- item` becomes `item`. */
  function UnorderedListPass(s: string): Pass {
    var ps := Scan(BulletItem, s);
    Pass(Rewritten(ps), LeadLog("unordered_lists", Cuts(ps)))
  }

  /** `1. item` becomes `item`. */
  function OrderedListPass(s: string): Pass {
    var ps := Scan(NumberedItem, s);
    Pass(Rewritten(ps), LeadLog("ordered_lists", Cuts(ps)))
  }

  /** `~~text~~` becomes `text`. */
  function StrikethroughPass(s: string): Pass {
    SubPass(Delimited('~', 2, false), "strikethrough", s)
  }

  /** `[^1]` not followed by `:` is deleted. */
  function FootnoteReferencePass(s: string): Pass {
    SubPass(FootnoteReference, "footnote_references", s)
  }

  /** A `[^1]: text` line is deleted. Its line break stays unless nothing follows the colon
      on that line: then `\s*` takes the break and `(.+)` the next non-blank line. */
  function FootnoteDefinitionPass(s: string): Pass {
    SubPass(FootnoteDefinition, "footnote_definitions", s)
  }

  // ---------------------------------------------------------------------------------------
  // Properties

  /** A pattern whose matches stay inside a line keeps every line break, so the text keeps
      its number of lines. */
  lemma LineLocalKeepsLines(p: Pattern, s: string)
    requires LineLocal(p)
    ensures |Split(Sub(p, s), '\n')| == |Split(s, '\n')|
  {
    LineLocalStaysInLine(p);
    LineLocalKeepsNewlines(Matching(p), s, 0);
    assert s[0..] == s;
    SplitParts(s, '\n');
    SplitParts(Sub(p, s), '\n');
  }

  /** Inline code, strikethrough and footnote references never join or split lines. */
  lemma InlinePassesKeepLines(s: string)
    ensures |Split(InlineCodePass(s).text, '\n')| == |Split(s, '\n')|
    ensures |Split(StrikethroughPass(s).text, '\n')| == |Split(s, '\n')|
    ensures |Split(FootnoteReferencePass(s).text, '\n')| == |Split(s, '\n')|
  {
    LineLocalKeepsLines(InlineCode, s);
    LineLocalKeepsLines(Delimited('~', 2, false), s);
    LineLocalKeepsLines(FootnoteReference, s);
  }

  /** Strikethrough removal deletes `~` characters and nothing else; text without `~` comes
      through verbatim and logs nothing. */
  lemma StrikethroughErasesOnlyTildes(s: string)
    ensures Erase(StrikethroughPass(s).text, {'~'}) == Erase(s, {'~'})
    ensures '~' !in s ==> StrikethroughPass(s) == Pass(s, [])
  {
    DelimitedErasesOnlyMarks('~', 2, false, s, 0, {'~'});
    assert s[0..] == s;
    if '~' !in s {
      DelimitedNeedsMark('~', 2, false, s);
    }
  }

  /** Inline code loses its two backticks and keeps what is between them. */
  lemma InlineCodePiece(s: string, i: nat)
    requires i < |s|
    ensures Erase(Target(PieceAt(Matching(InlineCode), s, i)), {'`'}) == Erase(Source(PieceAt(Matching(InlineCode), s, i)), {'`'})
  {
    var c := PieceAt(Matching(InlineCode), s, i);
    assert MatchAt(InlineCode, s, i) == InlineCodeAt(s, i);
    if c.Cut? {
      assert c.lead == "`" && c.trail == "`";
      EraseAppend(c.lead, c.kept, {'`'});
      EraseAppend(c.lead + c.kept, c.trail, {'`'});
    }
  }

  /** Inline-code removal deletes backticks and nothing else. */
  lemma {:induction false} InlineCodeErasesOnlyBackticks(s: string, i: nat)
    requires i <= |s|
    ensures Erase(Rewritten(ScanFrom(Matching(InlineCode), s, i)), {'`'}) == Erase(s[i..], {'`'})
    decreases |s| - i
  {
    if i < |s| {
      var j := NextAt(Matching(InlineCode), s, i);
      assert Erase(Rewritten(ScanFrom(Matching(InlineCode), s, j)), {'`'}) == Erase(s[j..], {'`'}) by {
        InlineCodeErasesOnlyBackticks(s, j);
      }
      assert Erase(Target(PieceAt(Matching(InlineCode), s, i)), {'`'}) == Erase(s[i..j], {'`'}) by {
        InlineCodePiece(s, i);
      }
      assert ScanFrom(Matching(InlineCode), s, i) == [PieceAt(Matching(InlineCode), s, i)] + ScanFrom(Matching(InlineCode), s, j) by {
        ScanStep(Matching(InlineCode), s, i);
      }
      EraseCons(PieceAt(Matching(InlineCode), s, i), ScanFrom(Matching(InlineCode), s, j), s, i, j, {'`'});
    }
  }

  /** A list item keeps its text: the logged marker followed by the kept text is the whole
      match, with nothing after it. */
  lemma ListItemSplits(p: Pattern, s: string, i: nat)
    requires i < |s| && (p == BulletItem || p == NumberedItem)
    ensures PieceAt(Matching(p), s, i).Cut? ==> PieceAt(Matching(p), s, i).trail == [] && PieceAt(Matching(p), s, i).kept != []
  {
    if p == BulletItem {
      assert MatchAt(p, s, i) == BulletItemAt(s, i);
    } else {
      assert MatchAt(p, s, i) == NumberedItemAt(s, i);
    }
  }

  /** A list pass logs, for each item, the part of the match before the kept text; the
      logged text followed by the kept text is the whole match, and the kept text is never
      empty. */
  lemma ListEntries(s: string)
    ensures var cuts := Cuts(Scan(BulletItem, s));
            && |UnorderedListPass(s).entries| == |cuts|
            && forall k | 0 <= k < |cuts| ::
                 && cuts[k].Cut?
                 && UnorderedListPass(s).entries[k] == Entry("unordered_lists", cuts[k].lead)
                 && cuts[k].lead + cuts[k].kept == Source(cuts[k])
                 && Target(cuts[k]) == cuts[k].kept != []
    ensures var cuts := Cuts(Scan(NumberedItem, s));
            && |OrderedListPass(s).entries| == |cuts|
            && forall k | 0 <= k < |cuts| ::
                 && cuts[k].Cut?
                 && OrderedListPass(s).entries[k] == Entry("ordered_lists", cuts[k].lead)
                 && cuts[k].lead + cuts[k].kept == Source(cuts[k])
                 && Target(cuts[k]) == cuts[k].kept != []
  {
    forall p, j | (p == BulletItem || p == NumberedItem) && 0 <= j < |s| && PieceAt(Matching(p), s, j).Cut?
      ensures ListShape(PieceAt(Matching(p), s, j))
    {
      ListItemSplits(p, s, j);
    }
    CutsHold(Matching(BulletItem), s, 0, ListShape);
    CutsHold(Matching(NumberedItem), s, 0, ListShape);
  }

  /** A list item's match: the marker part, then non-empty kept text, then nothing. */
  predicate ListShape(c: Piece) {
    c.Cut? && c.trail == [] && c.kept != []
  }

  /** A hash header match starts a line with one to six `#` and the whole whitespace run
      after them (which may run past the line's end); all of it is deleted. The logging
      pattern matches at the same place and logs through the end of the line. */
  lemma HashHeaderMatch(s: string, i: nat) returns (k: nat)
    requires i < |s| && MatchAt(HashHeader, s, i).Some?
    ensures LineStart(s, i)
    ensures i < k <= i + 6 && k < |s| && s[k] != '#' && forall j | i <= j < k :: s[j] == '#'
    ensures var e := MatchAt(HashHeader, s, i).value.end;
            && k < e && (forall j | k <= j < e :: IsSpace(s[j])) && (e < |s| ==> !IsSpace(s[e]))
            && PieceAt(Matching(HashHeader), s, i) == Cut(s[i..e], [], [])
    ensures MatchAt(HashHeaderLine, s, i).Some?
    ensures var e := MatchAt(HashHeader, s, i).value.end;
            var f := MatchAt(HashHeaderLine, s, i).value.end;
            && e <= f && (forall j | e <= j < f :: s[j] != '\n') && (f == |s| || s[f] == '\n')
            && Source(PieceAt(Matching(HashHeaderLine), s, i)) == s[i..f]
  {
    assert MatchAt(HashHeader, s, i) == HashHeaderAt(false, s, i);
    assert MatchAt(HashHeaderLine, s, i) == HashHeaderAt(true, s, i);
    MatchingHit(HashHeader, s, i);
    MatchingHit(HashHeaderLine, s, i);
    k := RepeatEnd(s, i, '#');
    RepeatRun(s, i, '#');
    SpaceRun(s, k);
    StopRun(s, SpaceEnd(s, k), {'\n'});
  }

  /** Text with no `#` comes through the hash header pass verbatim and logs nothing. */
  lemma NoHashUnchanged(s: string)
    requires '#' !in s
    ensures HashHeaderPass(s) == Pass(s, [])
  {
    forall j | 0 <= j < |s|
      ensures MatchAt(HashHeader, s, j).None? && MatchAt(HashHeaderLine, s, j).None?
    {
      assert s[j] != '#';
      assert MatchAt(HashHeader, s, j) == HashHeaderAt(false, s, j);
      assert MatchAt(HashHeaderLine, s, j) == HashHeaderAt(true, s, j);
    }
    NoMatchNoChange(Matching(HashHeader), s, 0);
    NoMatchNoChange(Matching(HashHeaderLine), s, 0);
    assert s[0..] == s;
  }

  /** A reference definition match starts a line with `[`, a label of one or more
      characters other than `]`, then `]:`, and runs to the end of a line; all of it is
      deleted and logged. */
  lemma ReferenceDefinitionMatch(s: string, i: nat) returns (j: nat)
    requires i < |s| && MatchAt(ReferenceDefinition, s, i).Some?
    ensures LineStart(s, i) && s[i] == '['
    ensures i + 1 < j && j + 1 < |s| && s[j] == ']' && s[j + 1] == ':'
    ensures forall m | i < m < j :: s[m] != ']'
    ensures var e := MatchAt(ReferenceDefinition, s, i).value.end;
            && j + 2 <= e && (e == |s| || s[e] == '\n')
            && PieceAt(Matching(ReferenceDefinition), s, i) == Cut(s[i..e], [], [])
  {
    assert MatchAt(ReferenceDefinition, s, i) == ReferenceDefinitionAt(s, i);
    MatchingHit(ReferenceDefinition, s, i);
    j := StopEnd(s, i + 1, {']'});
    StopRun(s, i + 1, {']'});
  }

  /** With nothing after the colon, the definition takes the following line with it. */
  lemma DefinitionTakesNextLine(s: string)
    requires s == "[a]:\nfoo\nbar"
    ensures ReferenceDefinitionPass(s) == Pass("\nbar", [Entry("reference_link_definitions", "[a]:\nfoo")])
  {
    var m := Matching(ReferenceDefinition);
    assert StopEnd(s, 1, {']'}) == 2;
    assert SpaceEnd(s, 4) == 5;
    assert StopEnd(s, 8, {'\n'}) == 8;
    assert StopEnd(s, 7, {'\n'}) == 8;
    assert StopEnd(s, 6, {'\n'}) == 8;
    assert StopEnd(s, 5, {'\n'}) == 8;
    assert MatchAt(ReferenceDefinition, s, 0) == Some(Hit(8, 8, 8));
    MatchingHit(ReferenceDefinition, s, 0);
    forall j | 8 <= j < |s| ensures m(s, j).None? {
      assert MatchAt(ReferenceDefinition, s, j) == ReferenceDefinitionAt(s, j);
    }
    NoMatchNoChange(m, s, 8);
    ScanStep(m, s, 0);
    var c := PieceAt(m, s, 0);
    assert c == Cut(s[0..8], [], []);
    PiecesCons(c, ScanFrom(m, s, 8));
    assert s[8..] == "\nbar";
    assert s[0..8] == "[a]:\nfoo";
    assert Cuts(Scan(ReferenceDefinition, s)) == [c];
  }

  /** A reference link match is `[`, a label of one or more characters other than `]`,
      `][`, a reference without `]`, and `]`; the label is kept and the rest deleted. */
  lemma ReferenceLinkMatch(s: string, i: nat) returns (j: nat)
    requires i < |s| && MatchAt(ReferenceLink, s, i).Some?
    ensures s[i] == '[' && i + 1 < j && j + 1 < |s| && s[j] == ']' && s[j + 1] == '['
    ensures forall m | i < m < j :: s[m] != ']'
    ensures var e := MatchAt(ReferenceLink, s, i).value.end;
            && j + 2 < e && s[e - 1] == ']' && (forall m | j + 2 <= m < e - 1 :: s[m] != ']')
            && PieceAt(Matching(ReferenceLink), s, i) == Cut("[", s[i + 1..j], s[j..e])
  {
    assert MatchAt(ReferenceLink, s, i) == ReferenceLinkAt(s, i);
    MatchingHit(ReferenceLink, s, i);
    j := StopEnd(s, i + 1, {']'});
    StopRun(s, i + 1, {']'});
    StopRun(s, j + 2, {']'});
    assert s[i..i + 1] == "[";
  }

  /** The shape of a reference link match: `[`, the kept label, `][`, the reference, `]`. */
  predicate ReferenceLinkShape(c: Piece) {
    && c.Cut? && c.lead == "[" && c.kept != [] && ']' !in c.kept
    && |c.trail| >= 3 && c.trail[0] == ']' && c.trail[1] == '[' && c.trail[|c.trail| - 1] == ']'
    && forall m | 2 <= m < |c.trail| - 1 :: c.trail[m] != ']'
  }

  /** Every reference link found keeps its label, and is logged as the label in `[...][]`. */
  lemma ReferenceLinkEntries(s: string)
    ensures var cuts := Cuts(Scan(ReferenceLink, s));
            && |ReferenceLinkPass(s).entries| == |cuts|
            && forall k | 0 <= k < |cuts| ::
                 && ReferenceLinkShape(cuts[k])
                 && Target(cuts[k]) == cuts[k].kept
                 && ReferenceLinkPass(s).entries[k] == Entry("reference_links", "[" + cuts[k].kept + "][]")
  {
    forall j | 0 <= j < |s| && PieceAt(Matching(ReferenceLink), s, j).Cut?
      ensures ReferenceLinkShape(PieceAt(Matching(ReferenceLink), s, j))
    {
      var c := PieceAt(Matching(ReferenceLink), s, j);
      var b := ReferenceLinkMatch(s, j);
      var e := MatchAt(ReferenceLink, s, j).value.end;
      assert c.kept == s[j + 1..b];
      assert c.trail == s[b..e];
      assert ']' !in c.kept by {
        forall m | 0 <= m < |c.kept| ensures c.kept[m] != ']' { assert c.kept[m] == s[j + 1 + m]; }
      }
      forall m | 2 <= m < |c.trail| - 1 ensures c.trail[m] != ']' {
        assert c.trail[m] == s[b + m];
      }
    }
    CutsHold(Matching(ReferenceLink), s, 0, ReferenceLinkShape);
  }

  /** A task item match starts a line: optional whitespace, a `-`, `*` or `+`, whitespace,
      `[ ]`, `[x]` or `[X]`, optional whitespace, then non-empty text to the end of a line.
      Only that text is kept; the whole match is logged. */
  lemma TaskItemMatch(s: string, i: nat) returns (a: nat, b: nat)
    requires i < |s| && MatchAt(TaskItem, s, i).Some?
    ensures LineStart(s, i)
    ensures i <= a < |s| && (forall j | i <= j < a :: IsSpace(s[j])) && s[a] in "-*+"
    ensures a + 1 < b && b + 2 < |s| && forall j | a + 1 <= j < b :: IsSpace(s[j])
    ensures s[b] == '[' && s[b + 1] in " xX" && s[b + 2] == ']'
    ensures var h := MatchAt(TaskItem, s, i).value;
            && b + 3 <= h.keepStart < h.keepEnd == h.end
            && (forall j | b + 3 <= j < h.keepStart :: IsSpace(s[j]))
            && (forall j | h.keepStart <= j < h.end :: s[j] != '\n')
            && (h.end == |s| || s[h.end] == '\n')
            && PieceAt(Matching(TaskItem), s, i) == Cut(s[i..h.keepStart], s[h.keepStart..h.end], [])
  {
    assert MatchAt(TaskItem, s, i) == TaskItemAt(s, i);
    MatchingHit(TaskItem, s, i);
    a := SpaceEnd(s, i);
    SpaceRun(s, i);
    b := SpaceEnd(s, a + 1);
    SpaceRun(s, a + 1);
    SpaceRun(s, b + 3);
  }

  /** A footnote definition match starts a line with `[^`, a label of one or more
      characters other than `]`, then `]:`, and runs to the end of a line whose text is not
      empty; all of it is deleted and logged. */
  lemma FootnoteDefinitionMatch(s: string, i: nat) returns (j: nat)
    requires i < |s| && MatchAt(FootnoteDefinition, s, i).Some?
    ensures LineStart(s, i) && i + 1 < |s| && s[i] == '[' && s[i + 1] == '^'
    ensures i + 2 < j && j + 1 < |s| && s[j] == ']' && s[j + 1] == ':'
    ensures forall m | i + 2 <= m < j :: s[m] != ']'
    ensures var e := MatchAt(FootnoteDefinition, s, i).value.end;
            && j + 2 < e && s[e - 1] != '\n' && (e == |s| || s[e] == '\n')
            && PieceAt(Matching(FootnoteDefinition), s, i) == Cut(s[i..e], [], [])
  {
    assert MatchAt(FootnoteDefinition, s, i) == FootnoteDefinitionAt(s, i);
    MatchingHit(FootnoteDefinition, s, i);
    j := StopEnd(s, i + 2, {']'});
    StopRun(s, i + 2, {']'});
  }

  /** Text with no `[` comes through the reference-link, task-list and footnote-definition
      passes verbatim, and they log nothing. */
  lemma NoBracketNoChange(s: string)
    requires '[' !in s
    ensures ReferenceDefinitionPass(s) == Pass(s, [])
    ensures ReferenceLinkPass(s) == Pass(s, [])
    ensures TaskListPass(s) == Pass(s, [])
    ensures FootnoteDefinitionPass(s) == Pass(s, [])
  {
    forall j | 0 <= j < |s|
      ensures MatchAt(ReferenceDefinition, s, j).None? && MatchAt(ReferenceLink, s, j).None?
      ensures MatchAt(TaskItem, s, j).None? && MatchAt(FootnoteDefinition, s, j).None?
    {
      assert MatchAt(ReferenceDefinition, s, j) == ReferenceDefinitionAt(s, j);
      assert MatchAt(ReferenceLink, s, j) == ReferenceLinkAt(s, j);
      assert MatchAt(TaskItem, s, j) == TaskItemAt(s, j);
      assert MatchAt(FootnoteDefinition, s, j) == FootnoteDefinitionAt(s, j);
    }
    NoMatchNoChange(Matching(ReferenceDefinition), s, 0);
    NoMatchNoChange(Matching(ReferenceLink), s, 0);
    NoMatchNoChange(Matching(TaskItem), s, 0);
    NoMatchNoChange(Matching(FootnoteDefinition), s, 0);
    assert s[0..] == s;
  }
}
