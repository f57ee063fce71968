/** The setext-header pass of `convert_markdown_to_text`: a line made of `=` or `-` (then
    optional whitespace) right under a kept line is an underline, and is dropped and logged
    under `underline_headers`; the header line above it stays. The loop carries one flag,
    `skip_next`, so a dropped line can never make the line after it a header. */
module Setext {
  import opened Text
  import opened Ledger
  import opened Patterns
  import opened Lines

  /** `re.match(r'^=+\s*$', line) or re.match(r'^-+\s*$', line)`. */
  predicate IsUnderline(line: string) {
    line != [] && (line[0] == '=' || line[0] == '-') && SpaceEnd(line, RepeatEnd(line, 0, line[0])) == |line|
  }

  /** Whether line `i` is dropped: it is an underline and the line above it was kept. */
  predicate Dropped(lines: seq<string>, i: nat)
    requires i < |lines|
    decreases i
  {
    i > 0 && IsUnderline(lines[i]) && !Dropped(lines, i - 1)
  }

  /** The lines among the first `n` that the pass keeps, in order. */
  function SetextKept(lines: seq<string>, n: nat): seq<string>
    requires n <= |lines|
  {
    if n == 0 then [] else SetextKept(lines, n - 1) + (if Dropped(lines, n - 1) then [] else [lines[n - 1]])
  }

  /** The lines among the first `n` that the pass drops, in order. */
  function SetextDropped(lines: seq<string>, n: nat): seq<string>
    requires n <= |lines|
  {
    if n == 0 then [] else SetextDropped(lines, n - 1) + (if Dropped(lines, n - 1) then [lines[n - 1]] else [])
  }

  /** The whole pass: the text without its underlines, and one entry per underline. */
  function UnderlinePass(text: string): Pass {
    var lines := Split(text, '\n');
    Pass(Join(SetextKept(lines, |lines|), '\n'), DropLog("underline_headers", SetextDropped(lines, |lines|)))
  }

  /** The loop of the pass, with its `skip_next` flag. */
  method RemoveUnderlines(text: string, logger: StrippedContentLogger) returns (r: string)
    modifies logger
    ensures r == UnderlinePass(text).text
    ensures logger.sections == Replay(logger.enabled, old(logger.sections), UnderlinePass(text).entries)
  {
    var lines := Split(text, '\n');
    var processedLines: seq<string> := [];
    var skipNext := false;
    ghost var removed: seq<string> := [];
    for i := 0 to |lines|
      invariant processedLines == SetextKept(lines, i)
      invariant removed == SetextDropped(lines, i)
      invariant skipNext <==> i < |lines| && Dropped(lines, i)
      invariant logger.sections == Replay(logger.enabled, old(logger.sections), DropLog("underline_headers", removed))
    {
      if skipNext {
        DropLogSnoc("underline_headers", removed, lines[i]);
        ReplaySnoc(logger.enabled, old(logger.sections), DropLog("underline_headers", removed), Entry("underline_headers", lines[i]));
        logger.Log("underline_headers", lines[i]);
        removed := removed + [lines[i]];
        skipNext := false;
        continue;
      }
      if i < |lines| - 1 {
        var nextLine := lines[i + 1];
        if IsUnderline(nextLine) {
          processedLines := processedLines + [lines[i]];
          skipNext := true;
        } else {
          processedLines := processedLines + [lines[i]];
        }
      } else {
        processedLines := processedLines + [lines[i]];
      }
    }
    r := Join(processedLines, '\n');
  }

  // ---------------------------------------------------------------------------------------
  // Properties

  /** The first line is always kept, and of two neighbouring lines at most one is dropped:
      the line above a dropped underline, its header, stays. */
  lemma HeaderKept(lines: seq<string>, i: nat)
    requires i + 1 < |lines|
    ensures !Dropped(lines, 0)
    ensures Dropped(lines, i + 1) ==> !Dropped(lines, i) && IsUnderline(lines[i + 1])
  {
  }

  /** Under a line that is not an underline (or under the first line), a run of underlines
      is dropped every other line: the first, third, fifth, ... of the run go. */
  lemma {:induction false} UnderlineRun(lines: seq<string>, p: nat, i: nat)
    requires p <= i < |lines|
    requires p == 0 || !IsUnderline(lines[p])
    requires forall k | p < k <= i :: IsUnderline(lines[k])
    ensures Dropped(lines, i) <==> (i - p) % 2 == 1
    decreases i
  {
    if i > p {
      UnderlineRun(lines, p, i - 1);
    }
  }

  /** Only underlines are dropped. */
  lemma {:induction false} DroppedAreUnderlines(lines: seq<string>, n: nat)
    requires n <= |lines|
    ensures forall k | 0 <= k < |SetextDropped(lines, n)| :: IsUnderline(SetextDropped(lines, n)[k])
  {
    if n > 0 {
      DroppedAreUnderlines(lines, n - 1);
    }
  }

  /** Every line goes to exactly one side: the kept lines and the dropped lines, each in
      order and unchanged, together are the input's lines. */
  lemma {:induction false} SetextPartition(lines: seq<string>, n: nat)
    requires n <= |lines|
    ensures multiset(SetextKept(lines, n)) + multiset(SetextDropped(lines, n)) == multiset(lines[..n])
  {
    if n > 0 {
      SetextPartition(lines, n - 1);
      assert lines[..n] == lines[..n - 1] + [lines[n - 1]];
    }
  }

  /** Each dropped line has its own kept header above it, so at least as many lines are kept
      as are dropped; a non-empty text keeps at least one line. */
  lemma {:induction false} KeptOutnumbersDropped(lines: seq<string>, n: nat)
    requires 0 < n <= |lines|
    ensures |SetextDropped(lines, n)| + (if Dropped(lines, n - 1) then 0 else 1) <= |SetextKept(lines, n)|
  {
    if n > 1 {
      KeptOutnumbersDropped(lines, n - 1);
    }
  }

  /** A text without underlines comes through verbatim and logs nothing. */
  lemma {:induction false} NoUnderlineUnchanged(lines: seq<string>, n: nat)
    requires n <= |lines|
    requires forall k | 0 <= k < n :: !IsUnderline(lines[k])
    ensures SetextKept(lines, n) == lines[..n]
    ensures SetextDropped(lines, n) == []
  {
    if n > 0 {
      NoUnderlineUnchanged(lines, n - 1);
      assert lines[..n] == lines[..n - 1] + [lines[n - 1]];
    }
  }
}
