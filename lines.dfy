/** The two shapes of line-by-line pass the converter uses: split the text on '\n', then
    either rewrite every line (emphasis, links and images, blockquotes, HTML tags) or drop
    the lines a test picks out (horizontal rules, table separators), and join with '\n'. */
module Lines {
  import opened Text
  import opened Ledger
  import opened Patterns

  /** Each line rewritten by `f`, in order. */
  function MappedLines(f: string -> Pass, lines: seq<string>): (r: seq<string>)
    ensures |r| == |lines|
    ensures forall k | 0 <= k < |lines| :: r[k] == f(lines[k]).text
    decreases |lines|
  {
    if lines == [] then [] else MappedLines(f, lines[..|lines| - 1]) + [f(lines[|lines| - 1]).text]
  }

  /** The entries `f` logs, line after line. */
  function MappedEntries(f: string -> Pass, lines: seq<string>): seq<Entry>
    decreases |lines|
  {
    if lines == [] then [] else MappedEntries(f, lines[..|lines| - 1]) + f(lines[|lines| - 1]).entries
  }

  /** Split, rewrite each line with `f`, join. */
  function MapPass(f: string -> Pass, text: string): Pass {
    var lines := Split(text, '\n');
    Pass(Join(MappedLines(f, lines), '\n'), MappedEntries(f, lines))
  }

  /** A line rewriter that never introduces a newline. */
  ghost predicate KeepsLine(f: string -> Pass) {
    forall line :: '\n' !in line ==> '\n' !in f(line).text
  }

  /** Rewriting line by line yields exactly one output line per input line: the `k`-th line of
      the result is `f` applied to the `k`-th line of the input. */
  lemma MapPassLines(f: string -> Pass, text: string)
    requires KeepsLine(f)
    ensures Split(MapPass(f, text).text, '\n') == MappedLines(f, Split(text, '\n'))
    ensures |Split(MapPass(f, text).text, '\n')| == |Split(text, '\n')|
  {
    var lines := Split(text, '\n');
    var out := MappedLines(f, lines);
    SplitParts(text, '\n');
    assert Unbroken(out, '\n') by {
      forall k | 0 <= k < |out|
        ensures '\n' !in out[k]
      {
        assert '\n' !in lines[k];
      }
    }
    SplitJoin(out, '\n');
  }

  /** A line that `f` leaves alone comes through verbatim. */
  lemma MapPassIdentity(f: string -> Pass, text: string)
    requires forall k | 0 <= k < |Split(text, '\n')| :: f(Split(text, '\n')[k]).text == Split(text, '\n')[k]
    ensures MapPass(f, text).text == text
  {
    var lines := Split(text, '\n');
    assert MappedLines(f, lines) == lines;
    JoinSplit(text, '\n');
  }

  /** The loop shared by the line rewriters: rewrite each line, logging what `f` removed. */
  method RewriteLines(f: string -> Pass, text: string, logger: StrippedContentLogger) returns (r: string)
    modifies logger
    ensures r == MapPass(f, text).text
    ensures logger.sections == Replay(logger.enabled, old(logger.sections), MapPass(f, text).entries)
  {
    var lines := Split(text, '\n');
    var processedLines: seq<string> := [];
    for i := 0 to |lines|
      invariant processedLines == MappedLines(f, lines[..i])
      invariant logger.sections == Replay(logger.enabled, old(logger.sections), MappedEntries(f, lines[..i]))
    {
      assert lines[..i + 1][..i] == lines[..i];
      var line := f(lines[i]);
      ReplayConcat(logger.enabled, old(logger.sections), MappedEntries(f, lines[..i]), line.entries);
      LogEach(logger, line.entries);
      processedLines := processedLines + [line.text];
    }
    assert lines[..|lines|] == lines;
    r := Join(processedLines, '\n');
  }

  /** The lines `drop` does not pick out, in order and unchanged. */
  function KeptLines(drop: string -> bool, lines: seq<string>): seq<string>
    decreases |lines|
  {
    if lines == [] then []
    else KeptLines(drop, lines[..|lines| - 1]) + (if drop(lines[|lines| - 1]) then [] else [lines[|lines| - 1]])
  }

  /** The lines `drop` picks out, in order. */
  function DroppedLines(drop: string -> bool, lines: seq<string>): seq<string>
    decreases |lines|
  {
    if lines == [] then []
    else DroppedLines(drop, lines[..|lines| - 1]) + (if drop(lines[|lines| - 1]) then [lines[|lines| - 1]] else [])
  }

  /** One entry per dropped line, holding the line as it was. */
  function DropLog(category: string, dropped: seq<string>): seq<Entry> {
    seq(|dropped|, k requires 0 <= k < |dropped| => Entry(category, dropped[k]))
  }

  lemma DropLogSnoc(category: string, dropped: seq<string>, line: string)
    ensures DropLog(category, dropped + [line]) == DropLog(category, dropped) + [Entry(category, line)]
  {
  }

  /** Split, keep the lines `drop` does not pick out, join; the dropped lines are logged. */
  function FilterPass(drop: string -> bool, category: string, text: string): Pass {
    var lines := Split(text, '\n');
    Pass(Join(KeptLines(drop, lines), '\n'), DropLog(category, DroppedLines(drop, lines)))
  }

  /** Filtering distributes over concatenation, so the kept lines keep their relative order
      and the dropped lines theirs. */
  lemma {:induction false} FilterConcat(drop: string -> bool, a: seq<string>, b: seq<string>)
    ensures KeptLines(drop, a + b) == KeptLines(drop, a) + KeptLines(drop, b)
    ensures DroppedLines(drop, a + b) == DroppedLines(drop, a) + DroppedLines(drop, b)
    decreases |b|
  {
    if b == [] {
      assert a + b == a;
    } else {
      assert (a + b)[..|a + b| - 1] == a + b[..|b| - 1];
      FilterConcat(drop, a, b[..|b| - 1]);
    }
  }

  /** Every line goes to exactly one side: the kept lines are the ones `drop` refuses, the
      dropped ones the ones it picks, and together they are the input lines. */
  lemma {:induction false} FilterPartition(drop: string -> bool, lines: seq<string>)
    ensures forall k | 0 <= k < |KeptLines(drop, lines)| :: !drop(KeptLines(drop, lines)[k])
    ensures forall k | 0 <= k < |DroppedLines(drop, lines)| :: drop(DroppedLines(drop, lines)[k])
    ensures multiset(KeptLines(drop, lines)) + multiset(DroppedLines(drop, lines)) == multiset(lines)
    decreases |lines|
  {
    if lines != [] {
      var init := lines[..|lines| - 1];
      var last := lines[|lines| - 1];
      FilterPartition(drop, init);
      PartitionSnoc(drop, KeptLines(drop, init), DroppedLines(drop, init), last);
      assert multiset(lines) == multiset(init) + multiset{last} by {
        assert lines == init + [last];
      }
    }
  }

  /** One more line goes to the side `drop` picks for it. */
  lemma PartitionSnoc(drop: string -> bool, kept: seq<string>, dropped: seq<string>, last: string)
    requires forall k | 0 <= k < |kept| :: !drop(kept[k])
    requires forall k | 0 <= k < |dropped| :: drop(dropped[k])
    ensures var kept' := kept + (if drop(last) then [] else [last]);
            forall k | 0 <= k < |kept'| :: !drop(kept'[k])
    ensures var dropped' := dropped + (if drop(last) then [last] else []);
            forall k | 0 <= k < |dropped'| :: drop(dropped'[k])
    ensures multiset(kept + (if drop(last) then [] else [last])) + multiset(dropped + (if drop(last) then [last] else []))
         == multiset(kept) + multiset(dropped) + multiset{last}
  {
  }

  /** Where `drop` picks out no line, every line comes through verbatim and nothing is logged. */
  lemma {:induction false} FilterKeepsAll(drop: string -> bool, lines: seq<string>)
    requires forall k | 0 <= k < |lines| :: !drop(lines[k])
    ensures KeptLines(drop, lines) == lines
    ensures DroppedLines(drop, lines) == []
    decreases |lines|
  {
    if lines != [] {
      FilterKeepsAll(drop, lines[..|lines| - 1]);
      assert lines == lines[..|lines| - 1] + [lines[|lines| - 1]];
    }
  }

  /** A filter logs exactly the lines it drops: an entry is logged exactly when it is under
      the filter's category and holds one of the text's lines that `drop` picks out; the
      entries and the kept lines together are as many as the lines. */
  lemma FilterLogged(drop: string -> bool, category: string, text: string)
    ensures forall e :: e in FilterPass(drop, category, text).entries <==>
              e.step == category && e.content in Split(text, '\n') && drop(e.content)
    ensures |FilterPass(drop, category, text).entries| + |KeptLines(drop, Split(text, '\n'))| == |Split(text, '\n')|
  {
    var lines := Split(text, '\n');
    FilterPartition(drop, lines);
    assert |multiset(KeptLines(drop, lines)) + multiset(DroppedLines(drop, lines))| == |multiset(lines)|;
    forall e
      ensures e in DropLog(category, DroppedLines(drop, lines)) <==> e.step == category && e.content in lines && drop(e.content)
    {
      DropLogHolds(category, DroppedLines(drop, lines), e);
      DroppedExactly(drop, lines, e.content);
    }
  }

  /** The log holds an entry exactly for each dropped line. */
  lemma DropLogHolds(category: string, dropped: seq<string>, e: Entry)
    ensures e in DropLog(category, dropped) <==> e.step == category && e.content in dropped
  {
    var log := DropLog(category, dropped);
    if e.step == category && e.content in dropped {
      var k :| 0 <= k < |dropped| && dropped[k] == e.content;
      assert log[k] == e;
    }
  }

  /** A line is dropped exactly when it is one of the lines and `drop` picks it out. */
  lemma {:induction false} DroppedExactly(drop: string -> bool, lines: seq<string>, x: string)
    ensures x in DroppedLines(drop, lines) <==> x in lines && drop(x)
    decreases |lines|
  {
    if lines != [] {
      DroppedExactly(drop, lines[..|lines| - 1], x);
      assert lines == lines[..|lines| - 1] + [lines[|lines| - 1]];
    }
  }

  /** The loop shared by the line filters: drop and log the lines `drop` picks out. */
  method DropLines(drop: string -> bool, category: string, text: string, logger: StrippedContentLogger)
    returns (r: string)
    modifies logger
    ensures r == FilterPass(drop, category, text).text
    ensures logger.sections == Replay(logger.enabled, old(logger.sections), FilterPass(drop, category, text).entries)
  {
    var lines := Split(text, '\n');
    var resultLines: seq<string> := [];
    ghost var removed: seq<string> := [];
    for i := 0 to |lines|
      invariant resultLines == KeptLines(drop, lines[..i])
      invariant removed == DroppedLines(drop, lines[..i])
      invariant logger.sections == Replay(logger.enabled, old(logger.sections), DropLog(category, removed))
    {
      assert lines[..i + 1] == lines[..i] + [lines[i]];
      var line := lines[i];
      if drop(line) {
        DropLogSnoc(category, removed, line);
        ReplaySnoc(logger.enabled, old(logger.sections), DropLog(category, removed), Entry(category, line));
        logger.Log(category, line);
        removed := removed + [line];
      } else {
        resultLines := resultLines + [line];
      }
    }
    assert lines[..|lines|] == lines;
    r := Join(resultLines, '\n');
  }
}
