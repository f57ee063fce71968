/** `safe_remove_code_blocks`: a two-state scan over the lines that replaces each fenced
    block by one placeholder line, logs the block, and reports a fence left open.

    The reference it is proved against cuts the lines into segments: a prose line, a closed
    block from an opening fence up to and including the next fence, or an unclosed block
    from an opening fence to the end of the text. */
module CodeBlocks {
  import opened Text
  import opened Ledger

  const Placeholder: string := "[CODE BLOCK]"

  /** `line.strip().startswith('```')` */
  predicate IsFence(line: string) {
    StartsWith(Strip(line), "```")
  }

  /** The first fence line at or after `from`. */
  function NextFence(fence: string -> bool, lines: seq<string>, from: nat): (j: Option<nat>)
    requires from <= |lines|
    ensures j.Some? ==> from <= j.value < |lines| && fence(lines[j.value])
    decreases |lines| - from
  {
    if from == |lines| then None
    else if fence(lines[from]) then Some(from)
    else NextFence(fence, lines, from + 1)
  }

  /** No fence comes before the one `NextFence` finds, or before the end when it finds none. */
  lemma {:induction false} NextFenceRun(fence: string -> bool, lines: seq<string>, from: nat)
    requires from <= |lines|
    ensures forall k | from <= k < |lines| && (NextFence(fence, lines, from).None? || k < NextFence(fence, lines, from).value) :: !fence(lines[k])
    decreases |lines| - from
  {
    if from < |lines| && !fence(lines[from]) {
      NextFenceRun(fence, lines, from + 1);
    }
  }

  /** The text cut into prose lines and fenced blocks, from line `i` on. A block records
      the index of its opening fence. */
  datatype Segment = Prose(line: string) | Block(at: nat, body: seq<string>, closed: bool)

  function SegmentsFrom(fence: string -> bool, lines: seq<string>, i: nat): seq<Segment>
    requires i <= |lines|
    decreases |lines| - i
  {
    if i == |lines| then []
    else if !fence(lines[i]) then [Prose(lines[i])] + SegmentsFrom(fence, lines, i + 1)
    else
      match NextFence(fence, lines, i + 1)
      case None => [Block(i, lines[i..], false)]
      case Some(j) => [Block(i, lines[i..j + 1], true)] + SegmentsFrom(fence, lines, j + 1)
  }

  function Segments(fence: string -> bool, lines: seq<string>): seq<Segment> {
    SegmentsFrom(fence, lines, 0)
  }

  /** The lines a segment covers. */
  function Covered(g: Segment): seq<string> {
    match g
    case Prose(line) => [line]
    case Block(_, body, _) => body
  }

  function Flatten(gs: seq<Segment>): seq<string> {
    if gs == [] then [] else Covered(gs[0]) + Flatten(gs[1..])
  }

  /** The output: a prose line as it is, a block as one placeholder line. */
  function Render(gs: seq<Segment>): (out: seq<string>)
    ensures |out| == |gs|
  {
    seq(|gs|, k requires 0 <= k < |gs| => if gs[k].Prose? then gs[k].line else Placeholder)
  }

  /** One ledger entry per block: its lines joined with '\n', fences included. */
  function BlockLog(gs: seq<Segment>): seq<Entry> {
    if gs == [] then []
    else
      (match gs[0]
       case Prose(_) => []
       case Block(_, body, closed) =>
         [Entry(if closed then "code_blocks" else "code_blocks_unclosed", Join(body, '\n'))])
      + BlockLog(gs[1..])
  }

  /** The 1-based line number of the opening fence of a block left open at the end, if
      any. */
  function UnclosedAt(gs: seq<Segment>): Option<int> {
    if gs != [] && gs[|gs| - 1].Block? && !gs[|gs| - 1].closed
    then Some(gs[|gs| - 1].at + 1)
    else None
  }

  /** The conversion of the whole text, and the entries it logs. */
  function RemovedCodeBlocks(text: string): string {
    Join(Render(Segments(IsFence, Split(text, '\n'))), '\n')
  }

  function CodeBlockEntries(text: string): seq<Entry> {
    BlockLog(Segments(IsFence, Split(text, '\n')))
  }

  // ---------------------------------------------------------------------------------------
  // The reference cuts the text without loss, into well-shaped pieces

  lemma FlattenCons(g: Segment, gs: seq<Segment>)
    ensures Flatten([g] + gs) == Covered(g) + Flatten(gs)
  {
    assert ([g] + gs)[1..] == gs;
  }

  /** The first segment from line `i`, by the three cases of `SegmentsFrom`. */
  lemma SegmentsProse(fence: string -> bool, lines: seq<string>, i: nat)
    requires i < |lines| && !fence(lines[i])
    ensures SegmentsFrom(fence, lines, i) == [Prose(lines[i])] + SegmentsFrom(fence, lines, i + 1)
  {
  }

  lemma SegmentsBlock(fence: string -> bool, lines: seq<string>, i: nat, j: nat)
    requires i < |lines| && fence(lines[i]) && NextFence(fence, lines, i + 1) == Some(j)
    ensures SegmentsFrom(fence, lines, i) == [Block(i, lines[i..j + 1], true)] + SegmentsFrom(fence, lines, j + 1)
  {
  }

  lemma SegmentsOpen(fence: string -> bool, lines: seq<string>, i: nat)
    requires i < |lines| && fence(lines[i]) && NextFence(fence, lines, i + 1).None?
    ensures SegmentsFrom(fence, lines, i) == [Block(i, lines[i..], false)] + []
  {
    assert [Block(i, lines[i..], false)] + [] == [Block(i, lines[i..], false)];
  }

  /** A first segment covering `lines[i..n]`, ahead of segments covering the rest, covers
      `lines[i..]`. */
  lemma FlattenFront(lines: seq<string>, i: nat, n: nat, g: Segment, rest: seq<Segment>)
    requires i < n <= |lines| && Covered(g) == lines[i..n] && Flatten(rest) == lines[n..]
    ensures Flatten([g] + rest) == lines[i..]
  {
    FlattenCons(g, rest);
    assert lines[i..] == lines[i..n] + lines[n..];
  }

  /** `FlattenSegments`, one segment at a time: a prose line, a closed block, an open
      block. */
  lemma FlattenProse(fence: string -> bool, lines: seq<string>, i: nat)
    requires i < |lines| && !fence(lines[i])
    requires Flatten(SegmentsFrom(fence, lines, i + 1)) == lines[i + 1..]
    ensures Flatten(SegmentsFrom(fence, lines, i)) == lines[i..]
  {
    SegmentsProse(fence, lines, i);
    FlattenFront(lines, i, i + 1, Prose(lines[i]), SegmentsFrom(fence, lines, i + 1));
  }

  lemma FlattenBlock(fence: string -> bool, lines: seq<string>, i: nat, j: nat)
    requires i < |lines| && fence(lines[i]) && NextFence(fence, lines, i + 1) == Some(j)
    requires Flatten(SegmentsFrom(fence, lines, j + 1)) == lines[j + 1..]
    ensures Flatten(SegmentsFrom(fence, lines, i)) == lines[i..]
  {
    SegmentsBlock(fence, lines, i, j);
    FlattenFront(lines, i, j + 1, Block(i, lines[i..j + 1], true), SegmentsFrom(fence, lines, j + 1));
  }

  lemma FlattenOpen(fence: string -> bool, lines: seq<string>, i: nat)
    requires i < |lines| && fence(lines[i]) && NextFence(fence, lines, i + 1).None?
    ensures Flatten(SegmentsFrom(fence, lines, i)) == lines[i..]
  {
    SegmentsOpen(fence, lines, i);
    FlattenFront(lines, i, |lines|, Block(i, lines[i..], false), []);
  }

  /** Putting the segments' lines back together gives the text's lines. */
  lemma {:induction false} FlattenSegments(fence: string -> bool, lines: seq<string>, i: nat)
    requires i <= |lines|
    ensures Flatten(SegmentsFrom(fence, lines, i)) == lines[i..]
    decreases |lines| - i
  {
    if i == |lines| {
    } else if !fence(lines[i]) {
      FlattenSegments(fence, lines, i + 1);
      FlattenProse(fence, lines, i);
    } else {
      match NextFence(fence, lines, i + 1)
      case None =>
        FlattenOpen(fence, lines, i);
      case Some(j) =>
        FlattenSegments(fence, lines, j + 1);
        FlattenBlock(fence, lines, i, j);
    }
  }

  /** A segment's shape: a prose line is no fence; a block opens with the fence at `at` and
      holds no other fence before its last line, which is a fence exactly when the block is
      closed. */
  predicate WellShaped(fence: string -> bool, lines: seq<string>, g: Segment) {
    match g
    case Prose(line) => !fence(line)
    case Block(at, body, closed) =>
      && |body| >= 1 && at < |lines| && lines[at] == body[0] && fence(body[0])
      && (forall k | 1 <= k < |body| - 1 :: !fence(body[k]))
      && (closed <==> |body| >= 2 && fence(body[|body| - 1]))
  }

  /** Every segment is well shaped, and only the last one can be an unclosed block. */
  lemma {:induction false} SegmentsShape(fence: string -> bool, lines: seq<string>, i: nat)
    requires i <= |lines|
    ensures forall k | 0 <= k < |SegmentsFrom(fence, lines, i)| :: WellShaped(fence, lines, SegmentsFrom(fence, lines, i)[k])
    ensures forall k | 0 <= k < |SegmentsFrom(fence, lines, i)| - 1 ::
              !(SegmentsFrom(fence, lines, i)[k].Block? && !SegmentsFrom(fence, lines, i)[k].closed)
    decreases |lines| - i
  {
    if i < |lines| {
      var gs := SegmentsFrom(fence, lines, i);
      if !fence(lines[i]) {
        SegmentsShape(fence, lines, i + 1);
        assert gs == [Prose(lines[i])] + SegmentsFrom(fence, lines, i + 1);
      } else {
        NextFenceRun(fence, lines, i + 1);
        match NextFence(fence, lines, i + 1)
        case None =>
          assert WellShaped(fence, lines, gs[0]);
        case Some(j) =>
          SegmentsShape(fence, lines, j + 1);
          assert gs == [Block(i, lines[i..j + 1], true)] + SegmentsFrom(fence, lines, j + 1);
          assert WellShaped(fence, lines, gs[0]);
      }
    }
  }

  /** A text without a fence comes through verbatim and logs nothing. */
  lemma {:induction false} NoFenceUnchanged(fence: string -> bool, lines: seq<string>, i: nat)
    requires i <= |lines| && forall k | i <= k < |lines| :: !fence(lines[k])
    ensures SegmentsFrom(fence, lines, i) == seq(|lines| - i, k requires 0 <= k < |lines| - i => Prose(lines[i + k]))
    ensures Render(SegmentsFrom(fence, lines, i)) == lines[i..]
    ensures BlockLog(SegmentsFrom(fence, lines, i)) == []
    decreases |lines| - i
  {
    if i < |lines| {
      NoFenceUnchanged(fence, lines, i + 1);
    }
  }

  // ---------------------------------------------------------------------------------------
  // The scan, as the state it carries from line to line

  /** The loop's variables: `in_code_block`, `code_block_start_line`, `current_code_block`,
      `result_lines`, and the entries logged so far. */
  datatype ScanState = ScanState(inBlock: bool, start: int, block: seq<string>, out: seq<string>, logged: seq<Entry>)

  const Initial := ScanState(false, -1, [], [], [])

  /** One turn of the loop, on line `i`. */
  function ScanStep(fence: string -> bool, st: ScanState, i: nat, line: string): ScanState {
    if fence(line) then
      if !st.inBlock then ScanState(true, i, [line], st.out + [Placeholder], st.logged)
      else ScanState(false, st.start, [], st.out, st.logged + [Entry("code_blocks", Join(st.block + [line], '\n'))])
    else if st.inBlock then st.(block := st.block + [line])
    else st.(out := st.out + [line])
  }

  /** The state the loop ends in when it reads `lines` from line `i` on, in state `st`. */
  function ScanRun(fence: string -> bool, lines: seq<string>, i: nat, st: ScanState): ScanState
    requires i <= |lines|
    decreases |lines| - i
  {
    if i == |lines| then st else ScanRun(fence, lines, i + 1, ScanStep(fence, st, i, lines[i]))
  }

  /** The entries logged by the end of the pass: a block still open is logged as unclosed. */
  function FinalLog(st: ScanState): seq<Entry> {
    if st.inBlock && st.block != [] then st.logged + [Entry("code_blocks_unclosed", Join(st.block, '\n'))]
    else st.logged
  }

  /** The 1-based line of the fence still open at the end, for the warning. */
  function FinalWarning(st: ScanState): Option<int> {
    if st.inBlock then Some(st.start + 1) else None
  }

  /** Inside the block opened at `st.start`, the scan reads up to the closing fence at `j`
      and leaves the block with it logged. */
  lemma {:induction false} RunToClose(fence: string -> bool, lines: seq<string>, k: nat, j: nat, st: ScanState)
    requires st.inBlock && 0 <= st.start < k <= j < |lines| && st.block == lines[st.start..k]
    requires fence(lines[j]) && forall m | k <= m < j :: !fence(lines[m])
    ensures ScanRun(fence, lines, k, st)
         == ScanRun(fence, lines, j + 1,
                    ScanState(false, st.start, [], st.out, st.logged + [Entry("code_blocks", Join(lines[st.start..j + 1], '\n'))]))
    decreases j - k
  {
    if k == j {
      assert st.block + [lines[j]] == lines[st.start..j + 1];
    } else {
      assert st.block + [lines[k]] == lines[st.start..k + 1];
      RunToClose(fence, lines, k + 1, j, st.(block := st.block + [lines[k]]));
    }
  }

  /** Inside the block opened at `st.start`, with no fence left, the scan gathers the rest
      of the text into the block. */
  lemma {:induction false} RunToEnd(fence: string -> bool, lines: seq<string>, k: nat, st: ScanState)
    requires st.inBlock && 0 <= st.start < k <= |lines| && st.block == lines[st.start..k]
    requires forall m | k <= m < |lines| :: !fence(lines[m])
    ensures ScanRun(fence, lines, k, st) == st.(block := lines[st.start..])
    decreases |lines| - k
  {
    if k < |lines| {
      assert st.block + [lines[k]] == lines[st.start..k + 1];
      RunToEnd(fence, lines, k + 1, st.(block := st.block + [lines[k]]));
    }
  }

  /** What the scan has left to produce from a state outside any block: the rendered
      segments, their entries, and the warning for a block left open. */
  predicate Produces(e: ScanState, st: ScanState, gs: seq<Segment>) {
    && e.out == st.out + Render(gs)
    && FinalLog(e) == st.logged + BlockLog(gs)
    && FinalWarning(e) == UnclosedAt(gs)
  }

  /** A prose line or a closed block, produced in front of the rest. */
  lemma ProducesCons(e: ScanState, st: ScanState, next: ScanState, g: Segment, gs: seq<Segment>)
    requires !(g.Block? && !g.closed) && Produces(e, next, gs)
    requires next.out == st.out + Render([g]) && next.logged == st.logged + BlockLog([g])
    ensures Produces(e, st, [g] + gs)
  {
    assert ([g] + gs)[1..] == gs;
    assert Render([g] + gs) == Render([g]) + Render(gs);
    if gs != [] {
      assert ([g] + gs)[|gs|] == gs[|gs| - 1];
    }
  }

  /** The state after an opening fence at line `i`, read outside any block. */
  function Entered(st: ScanState, i: nat, line: string): ScanState {
    ScanState(true, i, [line], st.out + [Placeholder], st.logged)
  }

  /** The state after the block opened at line `i` closes at line `j`. */
  function Left(st: ScanState, lines: seq<string>, i: nat, j: nat): ScanState
    requires i <= j < |lines|
  {
    ScanState(false, i, [], st.out + [Placeholder], st.logged + [Entry("code_blocks", Join(lines[i..j + 1], '\n'))])
  }

  /** `RunOutside`, one segment at a time: a prose line, a closed block, an open block. */
  lemma ProseTurn(fence: string -> bool, lines: seq<string>, i: nat, st: ScanState)
    requires i < |lines| && !fence(lines[i]) && !st.inBlock
    requires Produces(ScanRun(fence, lines, i + 1, st.(out := st.out + [lines[i]])),
                      st.(out := st.out + [lines[i]]), SegmentsFrom(fence, lines, i + 1))
    ensures Produces(ScanRun(fence, lines, i, st), st, SegmentsFrom(fence, lines, i))
  {
    var next := st.(out := st.out + [lines[i]]);
    assert ScanRun(fence, lines, i, st) == ScanRun(fence, lines, i + 1, next);
    SegmentsProse(fence, lines, i);
    ProducesCons(ScanRun(fence, lines, i, st), st, next, Prose(lines[i]), SegmentsFrom(fence, lines, i + 1));
  }

  lemma BlockTurn(fence: string -> bool, lines: seq<string>, i: nat, j: nat, st: ScanState)
    requires i < |lines| && fence(lines[i]) && NextFence(fence, lines, i + 1) == Some(j) && !st.inBlock
    requires Produces(ScanRun(fence, lines, j + 1, Left(st, lines, i, j)), Left(st, lines, i, j), SegmentsFrom(fence, lines, j + 1))
    ensures Produces(ScanRun(fence, lines, i, st), st, SegmentsFrom(fence, lines, i))
  {
    var entered := Entered(st, i, lines[i]);
    assert ScanRun(fence, lines, i, st) == ScanRun(fence, lines, i + 1, entered);
    assert entered.block == lines[i..i + 1];
    NextFenceRun(fence, lines, i + 1);
    RunToClose(fence, lines, i + 1, j, entered);
    SegmentsBlock(fence, lines, i, j);
    ProducesCons(ScanRun(fence, lines, i, st), st, Left(st, lines, i, j), Block(i, lines[i..j + 1], true), SegmentsFrom(fence, lines, j + 1));
  }

  lemma OpenTurn(fence: string -> bool, lines: seq<string>, i: nat, st: ScanState)
    requires i < |lines| && fence(lines[i]) && NextFence(fence, lines, i + 1).None? && !st.inBlock
    ensures Produces(ScanRun(fence, lines, i, st), st, SegmentsFrom(fence, lines, i))
  {
    var entered := Entered(st, i, lines[i]);
    assert ScanRun(fence, lines, i, st) == ScanRun(fence, lines, i + 1, entered);
    assert entered.block == lines[i..i + 1];
    NextFenceRun(fence, lines, i + 1);
    RunToEnd(fence, lines, i + 1, entered);
    SegmentsOpen(fence, lines, i);
    assert [Block(i, lines[i..], false)] + [] == [Block(i, lines[i..], false)];
  }

  /** `ScanRun` from a state outside any block produces the segments from there on. */
  lemma {:induction false} RunOutside(fence: string -> bool, lines: seq<string>, i: nat, st: ScanState)
    requires i <= |lines| && !st.inBlock
    ensures Produces(ScanRun(fence, lines, i, st), st, SegmentsFrom(fence, lines, i))
    decreases |lines| - i
  {
    if i < |lines| && !fence(lines[i]) {
      RunOutside(fence, lines, i + 1, st.(out := st.out + [lines[i]]));
      ProseTurn(fence, lines, i, st);
    } else if i < |lines| && NextFence(fence, lines, i + 1).Some? {
      var j := NextFence(fence, lines, i + 1).value;
      RunOutside(fence, lines, j + 1, Left(st, lines, i, j));
      BlockTurn(fence, lines, i, j, st);
    } else if i < |lines| {
      OpenTurn(fence, lines, i, st);
    }
  }

  /** The state machine agrees with the segment reference: the output is the rendered
      segments, the ledger gets one entry per block, and the warning names the fence of the
      block left open. */
  lemma ScanMatchesSegments(fence: string -> bool, lines: seq<string>)
    ensures ScanRun(fence, lines, 0, Initial).out == Render(Segments(fence, lines))
    ensures FinalLog(ScanRun(fence, lines, 0, Initial)) == BlockLog(Segments(fence, lines))
    ensures FinalWarning(ScanRun(fence, lines, 0, Initial)) == UnclosedAt(Segments(fence, lines))
  {
    RunOutside(fence, lines, 0, Initial);
  }

  /** Replace every fenced block by `[CODE BLOCK]`, logging closed blocks under
      `code_blocks` and a block left open at the end under `code_blocks_unclosed`; the
      warning carries the 1-based line of the fence that was never closed. */
  method RemoveCodeBlocks(text: string, logger: StrippedContentLogger) returns (r: string, warning: Option<int>)
    modifies logger
    ensures r == RemovedCodeBlocks(text)
    ensures warning == UnclosedAt(Segments(IsFence, Split(text, '\n')))
    ensures logger.sections == Replay(logger.enabled, old(logger.sections), CodeBlockEntries(text))
  {
    var lines := Split(text, '\n');
    var resultLines: seq<string> := [];
    var inCodeBlock := false;
    var codeBlockStartLine: int := -1;
    var currentCodeBlock: seq<string> := [];
    ghost var logged: seq<Entry> := [];
    for i := 0 to |lines|
      invariant ScanRun(IsFence, lines, i, ScanState(inCodeBlock, codeBlockStartLine, currentCodeBlock, resultLines, logged))
             == ScanRun(IsFence, lines, 0, Initial)
      invariant logger.sections == Replay(logger.enabled, old(logger.sections), logged)
    {
      var line := lines[i];
      if IsFence(line) {
        if !inCodeBlock {
          inCodeBlock := true;
          codeBlockStartLine := i;
          currentCodeBlock := [line];
          resultLines := resultLines + [Placeholder];
        } else {
          currentCodeBlock := currentCodeBlock + [line];
          ReplaySnoc(logger.enabled, old(logger.sections), logged, Entry("code_blocks", Join(currentCodeBlock, '\n')));
          logger.Log("code_blocks", Join(currentCodeBlock, '\n'));
          logged := logged + [Entry("code_blocks", Join(currentCodeBlock, '\n'))];
          inCodeBlock := false;
          currentCodeBlock := [];
        }
        continue;
      }
      if inCodeBlock {
        currentCodeBlock := currentCodeBlock + [line];
        continue;
      }
      resultLines := resultLines + [line];
    }
    ghost var st := ScanState(inCodeBlock, codeBlockStartLine, currentCodeBlock, resultLines, logged);
    ScanMatchesSegments(IsFence, lines);
    warning := None;
    if inCodeBlock {
      warning := Some(codeBlockStartLine + 1);
      if currentCodeBlock != [] {
        ReplaySnoc(logger.enabled, old(logger.sections), logged, Entry("code_blocks_unclosed", Join(currentCodeBlock, '\n')));
        logger.Log("code_blocks_unclosed", Join(currentCodeBlock, '\n'));
      }
    }
    r := Join(resultLines, '\n');
  }
}
