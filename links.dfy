/** The links-and-images pass of `convert_markdown_to_text`: on each line, images
    `![alt](url)` become their alt text, then links `[text](url)` become their text. For each
    match the loop logs the line's FIRST match again (it re-searches the unchanged line), so
    a line with several images logs the first one several times. */
module Links {
  import opened Text
  import opened Ledger
  import opened Patterns
  import opened Lines

  /** One entry per match, each holding the first match. */
  function RepeatFirst(category: string, cuts: seq<Piece>): seq<Entry> {
    seq(|cuts|, k requires 0 <= k < |cuts| => Entry(category, Source(cuts[0])))
  }

  /** What one line becomes, and what it logs. */
  function LinkLine(line: string): Pass {
    var images := Scan(Image, line);
    var links := Scan(Link, Rewritten(images));
    Pass(Rewritten(links), RepeatFirst("images", Cuts(images)) + RepeatFirst("links", Cuts(links)))
  }

  /** The loop over the lines. */
  method RemoveLinksAndImages(text: string, logger: StrippedContentLogger) returns (r: string)
    modifies logger
    ensures r == MapPass(LinkLine, text).text
    ensures logger.sections == Replay(logger.enabled, old(logger.sections), MapPass(LinkLine, text).entries)
  {
    r := RewriteLines(LinkLine, text, logger);
  }

  /** A line with two different images logs the first image twice, and both images still
      become their alt text. */
  lemma FirstImageLoggedTwice(line: string)
    requires line == "![a](x)![b](y)"
    ensures LinkLine(line) == Pass("ab", [Entry("images", "![a](x)"), Entry("images", "![a](x)")])
  {
    var first := ImageScanOfExample(line);
    var rest: string := "ab";
    forall j | 0 <= j < |rest| ensures Matching(Link)(rest, j).None? {
      BracketStartsMatch(rest, j);
    }
    NoMatchNoChange(Matching(Link), rest, 0);
    assert rest[0..] == rest;
    assert RepeatFirst("images", Cuts(Scan(Image, line))) == [Entry("images", Source(first)), Entry("images", Source(first))];
    assert RepeatFirst("links", Cuts(Scan(Link, rest))) == [];
  }

  /** The image scan of the line above: two images, rewritten to their alt texts. */
  lemma ImageScanOfExample(line: string) returns (first: Piece)
    requires line == "![a](x)![b](y)"
    ensures Source(first) == "![a](x)"
    ensures Rewritten(Scan(Image, line)) == "ab"
    ensures |Cuts(Scan(Image, line))| == 2 && Cuts(Scan(Image, line))[0] == first
  {
    var m := Matching(Image);
    var second;
    first, second := ImagePiecesOfExample(line);
    ScanStep(m, line, 0);
    ScanStep(m, line, 7);
    PiecesCons(first, ScanFrom(m, line, 7));
    PiecesCons(second, ScanFrom(m, line, 14));
  }

  /** The two images of the line above, as the scan takes them. */
  lemma ImagePiecesOfExample(line: string) returns (first: Piece, second: Piece)
    requires line == "![a](x)![b](y)"
    ensures first == PieceAt(Matching(Image), line, 0) == Cut("![", "a", "](x)")
    ensures NextAt(Matching(Image), line, 0) == 7
    ensures second == PieceAt(Matching(Image), line, 7) == Cut("![", "b", "](y)")
    ensures NextAt(Matching(Image), line, 7) == 14
  {
    ImageAtExample(line, 0);
    ImageAtExample(line, 7);
    MatchingHit(Image, line, 0);
    MatchingHit(Image, line, 7);
    first := PieceAt(Matching(Image), line, 0);
    second := PieceAt(Matching(Image), line, 7);
    assert line[0..2] == "![" && line[2..3] == "a" && line[3..7] == "](x)";
    assert line[7..9] == "![" && line[9..10] == "b" && line[10..14] == "](y)";
  }

  /** `![c](d)` at `i` is an image whose alt text is `c`. */
  lemma ImageAtExample(line: string, i: nat)
    requires i + 7 <= |line| && line[i] == '!' && line[i + 1] == '[' && line[i + 3] == ']'
    requires line[i + 4] == '(' && line[i + 6] == ')'
    requires line[i + 2] !in {']', '\n'} && line[i + 5] !in {')', '\n'}
    ensures MatchAt(Image, line, i) == Some(Hit(i + 2, i + 3, i + 7))
  {
    assert StopEnd(line, i + 2, {']', '\n'}) == i + 3;
    assert StopEnd(line, i + 5, {')', '\n'}) == i + 6;
  }

  /** Only a `[` can start an image or a link. */
  lemma BracketStartsMatch(s: string, j: nat)
    requires j < |s|
    ensures MatchAt(Image, s, j).Some? ==> j + 1 < |s| && s[j + 1] == '['
    ensures MatchAt(Link, s, j).Some? ==> s[j] == '['
  {
    assert MatchAt(Image, s, j) == ImageAt(s, j);
    assert MatchAt(Link, s, j) == LinkAt(s, j);
  }

  /** A line without `[` comes through verbatim and logs nothing. */
  lemma NoBracketUnchanged(line: string)
    requires '[' !in line
    ensures LinkLine(line) == Pass(line, [])
  {
    forall j | 0 <= j < |line|
      ensures MatchAt(Image, line, j).None? && MatchAt(Link, line, j).None?
    {
      BracketStartsMatch(line, j);
    }
    NoMatchNoChange(Matching(Image), line, 0);
    NoMatchNoChange(Matching(Link), line, 0);
    assert line[0..] == line;
  }

  /** The rewrite never introduces a newline and never lengthens a line, so the pass yields
      one line per line. */
  lemma LinkLineBounds(line: string)
    ensures |LinkLine(line).text| <= |line|
    ensures '\n' !in line ==> '\n' !in LinkLine(line).text
  {
    var first := Sub(Image, line);
    ScanLossless(Matching(Image), line, 0);
    RewrittenWithin(Scan(Image, line), '\n');
    ScanLossless(Matching(Link), first, 0);
    RewrittenWithin(Scan(Link, first), '\n');
    assert line[0..] == line && first[0..] == first;
  }

  lemma LinkKeepsLine()
    ensures KeepsLine(LinkLine)
  {
    forall line | '\n' !in line
      ensures '\n' !in LinkLine(line).text
    {
      LinkLineBounds(line);
    }
  }
}
