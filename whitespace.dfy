/** The final whitespace clean-up of `convert_markdown_to_text`: runs of three or more
    newlines become two (the number of runs is logged under `excessive_whitespace`), every
    line is stripped, and the text is stripped as a whole. */
module Whitespace {
  import opened Text
  import opened Ledger
  import opened Patterns

  function DigitChar(d: nat): char
    requires d < 10
  {
    "0123456789"[d]
  }

  /** `str(n)` */
  function Decimal(n: nat): (r: string)
    ensures r != []
  {
    if n < 10 then [DigitChar(n)] else Decimal(n / 10) + [DigitChar(n % 10)]
  }

  /** The number of runs of three or more newlines. */
  function ExcessRuns(s: string): nat {
    |Cuts(Scan(BlankRun, s))|
  }

  /** One summary entry, and only when there is a run to report. */
  function ExcessLog(s: string): seq<Entry> {
    if ExcessRuns(s) > 0
    then [Entry("excessive_whitespace", "Found " + Decimal(ExcessRuns(s)) + " instances of 3+ consecutive newlines")]
    else []
  }

  /** `line.strip()` for each line. */
  function StripAll(lines: seq<string>): seq<string> {
    seq(|lines|, k requires 0 <= k < |lines| => Strip(lines[k]))
  }

  /** The clean-up, ending with the `strip()` the converter returns. */
  function NormalizeWhitespace(s: string): Pass {
    var collapsed := Sub(BlankRun, s);
    Pass(Strip(Join(StripAll(Split(collapsed, '\n')), '\n')), ExcessLog(s))
  }

  // ---------------------------------------------------------------------------------------
  // No run of three newlines survives the collapse

  predicate TripleAt(t: string, k: nat)
    requires k + 2 < |t|
  {
    t[k] == '\n' && t[k + 1] == '\n' && t[k + 2] == '\n'
  }

  /** Nowhere three newlines in a row. */
  predicate NoTriple(t: string) {
    forall k | 0 <= k && k + 2 < |t| :: !TripleAt(t, k)
  }

  /** The number of newlines `t` starts with. */
  function Lead(t: string): nat {
    if t != [] && t[0] == '\n' then 1 + Lead(t[1..]) else 0
  }

  /** One more character in front of a text with no triple makes a triple only at the front. */
  lemma NoTripleCons(x: char, t: string)
    requires NoTriple(t) && (x != '\n' || Lead(t) < 2)
    ensures NoTriple([x] + t)
  {
    var u := [x] + t;
    forall k | 0 <= k && k + 2 < |u|
      ensures !TripleAt(u, k)
    {
      if k == 0 {
        if x == '\n' && t[0] == '\n' {
          assert Lead(t) == 1 + Lead(t[1..]);
        }
      } else {
        assert !TripleAt(t, k - 1);
      }
    }
  }

  lemma LeadCons(x: char, t: string)
    ensures Lead([x] + t) == if x == '\n' then 1 + Lead(t) else 0
  {
    assert ([x] + t)[1..] == t;
  }

  /** Where no run of three starts, the character is copied and the scan moves on by one. */
  lemma CopiedPiece(s: string, i: nat)
    requires i < |s| && MatchAt(BlankRun, s, i).None?
    ensures NextAt(Matching(BlankRun), s, i) == i + 1 && Target(PieceAt(Matching(BlankRun), s, i)) == [s[i]]
    ensures s[i] == '\n' ==> RepeatEnd(s, i, '\n') - i < 3 && RepeatEnd(s, i, '\n') == RepeatEnd(s, i + 1, '\n')
  {
    assert MatchAt(BlankRun, s, i) == BlankRunAt(s, i);
  }

  /** A run of three or more becomes two newlines, and the scan resumes after the run. */
  lemma CollapsedPiece(s: string, i: nat)
    requires i < |s| && MatchAt(BlankRun, s, i).Some?
    ensures Target(PieceAt(Matching(BlankRun), s, i)) == "\n\n"
    ensures NextAt(Matching(BlankRun), s, i) == RepeatEnd(s, i, '\n') >= i + 3
    ensures RepeatEnd(s, NextAt(Matching(BlankRun), s, i), '\n') == NextAt(Matching(BlankRun), s, i)
  {
    assert MatchAt(BlankRun, s, i) == BlankRunAt(s, i);
    var e := RepeatEnd(s, i, '\n');
    RepeatRun(s, i, '\n');
    assert s[i..e][0] == '\n' && s[i..e][1] == '\n';
  }

  /** What the collapse writes from position `i` on holds no triple, and starts with no more
      newlines than the input does there, and never more than two. */
  predicate CollapsedFrom(s: string, i: nat)
    requires i <= |s|
  {
    var out := Rewritten(ScanFrom(Matching(BlankRun), s, i));
    NoTriple(out) && Lead(out) <= RepeatEnd(s, i, '\n') - i && Lead(out) <= 2
  }

  lemma CopyStep(s: string, i: nat)
    requires i < |s| && MatchAt(BlankRun, s, i).None? && CollapsedFrom(s, i + 1)
    ensures CollapsedFrom(s, i)
  {
    var rest := Rewritten(ScanFrom(Matching(BlankRun), s, i + 1));
    CopiedPiece(s, i);
    PiecesCons(PieceAt(Matching(BlankRun), s, i), ScanFrom(Matching(BlankRun), s, i + 1));
    NoTripleCons(s[i], rest);
    LeadCons(s[i], rest);
  }

  lemma CollapseStep(s: string, i: nat)
    requires i < |s| && MatchAt(BlankRun, s, i).Some? && CollapsedFrom(s, NextAt(Matching(BlankRun), s, i))
    ensures CollapsedFrom(s, i)
  {
    var j := NextAt(Matching(BlankRun), s, i);
    var rest := Rewritten(ScanFrom(Matching(BlankRun), s, j));
    CollapsedPiece(s, i);
    PiecesCons(PieceAt(Matching(BlankRun), s, i), ScanFrom(Matching(BlankRun), s, j));
    TwoNewlinesFront(rest);
  }

  /** Two newlines in front of a text that starts with none. */
  lemma TwoNewlinesFront(rest: string)
    requires NoTriple(rest) && Lead(rest) == 0
    ensures NoTriple("\n\n" + rest) && Lead("\n\n" + rest) == 2
  {
    assert "\n\n" + rest == ['\n'] + (['\n'] + rest);
    NoTripleCons('\n', rest);
    LeadCons('\n', rest);
    NoTripleCons('\n', ['\n'] + rest);
    LeadCons('\n', ['\n'] + rest);
  }

  lemma {:induction false} CollapseFrom(s: string, i: nat)
    requires i <= |s|
    ensures CollapsedFrom(s, i)
    decreases |s| - i
  {
    if i < |s| {
      CollapseFrom(s, NextAt(Matching(BlankRun), s, i));
      if MatchAt(BlankRun, s, i).None? {
        CopyStep(s, i);
      } else {
        CollapseStep(s, i);
      }
    }
  }

  /** Right after the collapse there is no run of three or more newlines. (Lines made only of
      whitespace can still produce one once every line is stripped.) */
  lemma CollapseLeavesNoTriple(s: string)
    ensures NoTriple(Sub(BlankRun, s))
  {
    CollapseFrom(s, 0);
  }

  // ---------------------------------------------------------------------------------------
  // Every line of the result is stripped

  /** The lines without the blank ones in front. */
  function TrimFront(ls: seq<string>): (r: seq<string>)
    ensures |r| <= |ls| && r == ls[|ls| - |r|..]
    ensures r != [] ==> r[0] != []
  {
    if ls != [] && ls[0] == [] then TrimFront(ls[1..]) else ls
  }

  /** The lines without the blank ones at the end. */
  function TrimBack(ls: seq<string>): (r: seq<string>)
    ensures |r| <= |ls| && r == ls[..|r|]
    ensures r != [] ==> r[|r| - 1] != []
  {
    if ls != [] && ls[|ls| - 1] == [] then TrimBack(ls[..|ls| - 1]) else ls
  }

  /** The lines without the blank ones at either end. */
  function Trim(ls: seq<string>): seq<string> {
    TrimBack(TrimFront(ls))
  }

  /** `lstrip()` of a text with something left after it: what follows is kept. */
  lemma LStripAppend(x: string, y: string)
    requires LStrip(x) != []
    ensures LStrip(x + y) == LStrip(x) + y
  {
    LStripSpec(x);
    var p := |x| - |LStrip(x)|;
    assert x[p] == LStrip(x)[0];
    LStripAt(x + y, p);
    assert (x + y)[p..] == x[p..] + y;
  }

  /** A newline in front does not change `strip()`. */
  lemma StripLeadingNewline(x: string)
    ensures Strip("\n" + x) == Strip(x)
  {
    assert ("\n" + x)[1..] == x;
  }

  /** A newline at the end does not change `strip()`. */
  lemma StripTrailingNewline(x: string)
    ensures Strip(x + "\n") == Strip(x)
  {
    if LStrip(x) != [] {
      LStripAppend(x, "\n");
      assert (LStrip(x) + "\n")[..|LStrip(x)|] == LStrip(x);
    } else {
      LStripSpec(x);
      LStripAt(x + "\n", |x| + 1);
    }
  }

  /** Blank lines at the front of the text do not survive `strip()`. */
  lemma {:induction false} StripJoinFront(ls: seq<string>)
    ensures Strip(Join(ls, '\n')) == Strip(Join(TrimFront(ls), '\n'))
  {
    if ls != [] && ls[0] == [] {
      StripJoinFront(ls[1..]);
      if |ls| > 1 {
        assert Join(ls, '\n') == "\n" + Join(ls[1..], '\n');
        StripLeadingNewline(Join(ls[1..], '\n'));
      }
    }
  }

  /** Blank lines at the end of the text do not survive `strip()`. */
  lemma {:induction false} StripJoinBack(ls: seq<string>)
    ensures Strip(Join(ls, '\n')) == Strip(Join(TrimBack(ls), '\n'))
  {
    if ls != [] && ls[|ls| - 1] == [] {
      var init := ls[..|ls| - 1];
      StripJoinBack(init);
      assert ls == init + [[]];
      JoinSnoc(init, [], '\n');
      if init != [] {
        assert Join(ls, '\n') == Join(init, '\n') + "\n";
        StripTrailingNewline(Join(init, '\n'));
      }
    }
  }

  /** Every line stripped, and no blank line at either end. */
  predicate Tidy(ms: seq<string>) {
    && (forall k | 0 <= k < |ms| :: IsStripped(ms[k]))
    && (ms != [] ==> ms[0] != [] && ms[|ms| - 1] != [])
  }

  lemma JoinFirst(ms: seq<string>)
    requires ms != [] && ms[0] != []
    ensures Join(ms, '\n') != [] && Join(ms, '\n')[0] == ms[0][0]
  {
  }

  lemma JoinLast(ms: seq<string>)
    requires ms != [] && ms[|ms| - 1] != []
    ensures Join(ms, '\n') != [] && Join(ms, '\n')[|Join(ms, '\n')| - 1] == ms[|ms| - 1][|ms[|ms| - 1]| - 1]
  {
    var init := ms[..|ms| - 1];
    assert ms == init + [ms[|ms| - 1]];
    JoinSnoc(init, ms[|ms| - 1], '\n');
  }

  /** Tidy lines join into a stripped text. */
  lemma TidyJoinStripped(ms: seq<string>)
    requires Tidy(ms)
    ensures IsStripped(Join(ms, '\n'))
  {
    if ms != [] {
      JoinFirst(ms);
      JoinLast(ms);
    }
  }

  /** Stripped lines without line breaks. */
  lemma StrippedLines(lines: seq<string>)
    requires Unbroken(lines, '\n')
    ensures forall k | 0 <= k < |StripAll(lines)| :: IsStripped(StripAll(lines)[k])
    ensures Unbroken(StripAll(lines), '\n')
  {
    forall k | 0 <= k < |lines|
      ensures IsStripped(Strip(lines[k])) && '\n' !in Strip(lines[k])
    {
      var a, b := StripSpec(lines[k]);
      assert '\n' !in lines[k];
    }
  }

  /** Trimming keeps a contiguous run of the lines, so what holds of every line holds of
      every trimmed line. */
  lemma TrimTidy(ls: seq<string>)
    requires forall k | 0 <= k < |ls| :: IsStripped(ls[k])
    requires Unbroken(ls, '\n')
    ensures Tidy(Trim(ls)) && Unbroken(Trim(ls), '\n')
  {
    var f := TrimFront(ls);
    var m := TrimBack(f);
    forall k | 0 <= k < |m|
      ensures IsStripped(m[k]) && '\n' !in m[k]
    {
      assert m[k] == f[k] == ls[|ls| - |f| + k];
    }
    if m != [] {
      assert m[0] == f[0];
    }
  }

  /** The result is the stripped lines of the collapsed text, without the blank lines at its
      two ends, joined again: every line of it is stripped, and it is its own `strip()`. */
  lemma NormalizedLines(s: string)
    ensures NormalizeWhitespace(s).text == Join(Trim(StripAll(Split(Sub(BlankRun, s), '\n'))), '\n')
    ensures Trim(StripAll(Split(Sub(BlankRun, s), '\n'))) != [] ==>
              Split(NormalizeWhitespace(s).text, '\n') == Trim(StripAll(Split(Sub(BlankRun, s), '\n')))
    ensures forall k | 0 <= k < |Split(NormalizeWhitespace(s).text, '\n')| ::
              IsStripped(Split(NormalizeWhitespace(s).text, '\n')[k])
    ensures Strip(NormalizeWhitespace(s).text) == NormalizeWhitespace(s).text
  {
    var lines := Split(Sub(BlankRun, s), '\n');
    var ls := StripAll(lines);
    var m := Trim(ls);
    var out := NormalizeWhitespace(s).text;
    SplitParts(Sub(BlankRun, s), '\n');
    StrippedLines(lines);
    TrimTidy(ls);
    StripJoinFront(ls);
    StripJoinBack(TrimFront(ls));
    TidyJoinStripped(m);
    LStripOfStripped(Join(m, '\n'));
    RStripOfStripped(Join(m, '\n'));
    assert out == Join(m, '\n');
    if m != [] {
      SplitJoin(m, '\n');
    } else {
      assert Split(out, '\n') == [""];
    }
  }
}
