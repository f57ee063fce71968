/** The regular expressions of the converter, each written out as an explicit matcher at one
    position, and the scanner that `re.sub` / `re.findall` run with them: leftmost first,
    non-overlapping, resuming after each match.

    Every pattern the converter uses is deterministic once written out: each bounded run of
    a negated character class is followed by a delimiter from that same class, so the run
    must stop at the first such delimiter and greedy and lazy quantifiers agree. The only
    backtracking that changes a result is a `\s*` / `\s+` giving characters back to a
    following `(.+)`, which `ContentStart` models. Every replacement the converter asks for
    is either empty or one group of the match, a contiguous slice of it, so a match is
    described by where it ends and which slice of it is kept. */
module Patterns {
  import opened Text
  import opened Ledger

  /** The cap on every bounded inline span: `{1,125}` / `{0,125}`. */
  const Cap: nat := 125

  /** The characters `\\([\\`*_{}\[\]()#+\-.!])` accepts after a backslash. */
  const EscapeSet: string := "\\`*_{}[]()#+-.!"

  datatype Pattern =
    | InlineCode                                        // `([^`\n]+)`
    | Delimited(mark: char, width: nat, guarded: bool)  // m{w}([^m\n]{1,125}?)m{w}; guarded adds (?<!m) and (?!m)
    | HashHeader                                        // ^#{1,6}\s+          (MULTILINE)
    | HashHeaderLine                                    // ^(#{1,6}\s+.*)$     (MULTILINE)
    | ReferenceDefinition                               // ^\[([^\]]+)\]:\s*[^\n]*$   (MULTILINE)
    | ReferenceLink                                     // \[([^\]]+)\]\[[^\]]*\]
    | Image                                             // !\[([^\]\n]{0,125})\]\([^)\n]{1,125}\)
    | Link                                              // \[([^\]\n]{1,125})\]\([^)\n]{1,125}\)
    | TaskItem                                          // ^\s*[-*+]\s+\[([ xX])\]\s*(.+)$   (MULTILINE)
    | BulletItem                                        // ^\s*[-*+]\s+(.+)    (MULTILINE)
    | NumberedItem                                      // ^\s*\d+\.\s+(.+)    (MULTILINE)
    | Escape                                            // \\([\\`*_{}\[\]()#+\-.!])
    | HtmlTag                                           // <[^>\n]{0,125}>
    | FootnoteReference                                 // \[\^([^\]\n]{1,125})\](?!:)
    | FootnoteDefinition                                // ^\[\^([^\]]+)\]:\s*(.+)$   (MULTILINE)
    | BlankRun                                          // \n{3,}

  /** A match ending at `end` whose replacement is `s[keepStart..keepEnd]`. */
  datatype Hit = Hit(keepStart: nat, keepEnd: nat, end: nat)

  /** A match at `i` is non-empty, inside `s`, and keeps a slice of itself. */
  predicate Fits(s: string, i: nat, h: Option<Hit>) {
    h.Some? ==> i <= h.value.keepStart <= h.value.keepEnd <= h.value.end <= |s| && i < h.value.end
  }

  predicate IsDigit(c: char) {
    '0' <= c <= '9'
  }

  /** `^` under MULTILINE: the start of the text or just after a newline. */
  predicate LineStart(s: string, i: nat)
    requires i <= |s|
  {
    i == 0 || s[i - 1] == '\n'
  }

  /** The end of the greedy run `\s*` starting at `i`. */
  function SpaceEnd(s: string, i: nat): (k: nat)
    requires i <= |s|
    ensures i <= k <= |s|
    ensures k < |s| ==> !IsSpace(s[k])
    decreases |s| - i
  {
    if i < |s| && IsSpace(s[i]) then SpaceEnd(s, i + 1) else i
  }

  /** Everything the run passes over is whitespace. */
  lemma {:induction false} SpaceRun(s: string, i: nat)
    requires i <= |s|
    ensures forall j | i <= j < SpaceEnd(s, i) :: IsSpace(s[j])
    decreases |s| - i
  {
    if i < |s| && IsSpace(s[i]) {
      SpaceRun(s, i + 1);
    }
  }

  /** The run ends at the first character after `i` that is not whitespace. */
  lemma {:induction false} SpaceEndAt(s: string, i: nat, p: nat)
    requires i <= p <= |s| && (forall j | i <= j < p :: IsSpace(s[j])) && (p < |s| ==> !IsSpace(s[p]))
    ensures SpaceEnd(s, i) == p
    decreases p - i
  {
    if i < p {
      SpaceEndAt(s, i + 1, p);
    }
  }

  /** The first index at or after `i` holding a character of `stop`, or `|s|`: the end of a
      greedy run of the class that excludes `stop`. */
  function StopEnd(s: string, i: nat, stop: set<char>): (k: nat)
    requires i <= |s|
    ensures i <= k <= |s|
    ensures k < |s| ==> s[k] in stop
    decreases |s| - i
  {
    if i < |s| && s[i] !in stop then StopEnd(s, i + 1, stop) else i
  }

  /** Nothing the run passes over is in `stop`. */
  lemma {:induction false} StopRun(s: string, i: nat, stop: set<char>)
    requires i <= |s|
    ensures forall j | i <= j < StopEnd(s, i, stop) :: s[j] !in stop
    decreases |s| - i
  {
    if i < |s| && s[i] !in stop {
      StopRun(s, i + 1, stop);
    }
  }

  /** The end of the run of `c` starting at `i`. */
  function RepeatEnd(s: string, i: nat, c: char): (k: nat)
    requires i <= |s|
    ensures i <= k <= |s|
    ensures k < |s| ==> s[k] != c
    decreases |s| - i
  {
    if i < |s| && s[i] == c then RepeatEnd(s, i + 1, c) else i
  }

  /** Everything the run passes over is `c`. */
  lemma {:induction false} RepeatRun(s: string, i: nat, c: char)
    requires i <= |s|
    ensures forall j | i <= j < RepeatEnd(s, i, c) :: s[j] == c
    decreases |s| - i
  {
    if i < |s| && s[i] == c {
      RepeatRun(s, i + 1, c);
    }
  }

  /** The end of the run of decimal digits starting at `i`. */
  function DigitEnd(s: string, i: nat): (k: nat)
    requires i <= |s|
    ensures i <= k <= |s|
    ensures k < |s| ==> !IsDigit(s[k])
    decreases |s| - i
  {
    if i < |s| && IsDigit(s[i]) then DigitEnd(s, i + 1) else i
  }

  /** Everything the run passes over is a digit. */
  lemma {:induction false} DigitRun(s: string, i: nat)
    requires i <= |s|
    ensures forall j | i <= j < DigitEnd(s, i) :: IsDigit(s[j])
    decreases |s| - i
  {
    if i < |s| && IsDigit(s[i]) {
      DigitRun(s, i + 1);
    }
  }

  /** Where `(.+)` starts after a greedy whitespace run that may give characters back: the
      last `k` in `lo..hi` whose character exists and is not a newline (`.` refuses only
      newlines). None when every candidate is a newline or the end of the text. */
  function ContentStart(s: string, lo: nat, hi: nat): (k: Option<nat>)
    requires lo <= hi <= |s|
    ensures k.Some? ==> lo <= k.value <= hi && k.value < |s| && s[k.value] != '\n'
    decreases hi
  {
    if hi < |s| && s[hi] != '\n' then Some(hi)
    else if hi == lo then None
    else ContentStart(s, lo, hi - 1)
  }

  /** The candidates `ContentStart` passes over are newlines or past the end. */
  lemma {:induction false} ContentStartRun(s: string, lo: nat, hi: nat)
    requires lo <= hi <= |s|
    ensures ContentStart(s, lo, hi).Some? ==>
              forall j | ContentStart(s, lo, hi).value < j <= hi && j < |s| :: s[j] == '\n'
    ensures ContentStart(s, lo, hi).None? ==> forall j | lo <= j <= hi && j < |s| :: s[j] == '\n'
    decreases hi
  {
    if !(hi < |s| && s[hi] != '\n') && hi != lo {
      ContentStartRun(s, lo, hi - 1);
    }
  }

  /** `s[i..i + w]` is `w` copies of `c`. */
  predicate RunOf(s: string, i: nat, c: char, w: nat) {
    i + w <= |s| && RepeatEnd(s, i, c) >= i + w
  }

  function InlineCodeAt(s: string, i: nat): (h: Option<Hit>)
    requires i < |s|
    ensures Fits(s, i, h)
  {
    if s[i] != '`' then None
    else
      var j := StopEnd(s, i + 1, {'`', '\n'});
      if j > i + 1 && j < |s| && s[j] == '`' then Some(Hit(i + 1, j, j + 1)) else None
  }

  function DelimitedAt(mark: char, width: nat, guarded: bool, s: string, i: nat): (h: Option<Hit>)
    requires i < |s|
    ensures Fits(s, i, h)
  {
    if !RunOf(s, i, mark, width) || (guarded && i > 0 && s[i - 1] == mark) then None
    else
      var j := StopEnd(s, i + width, {mark, '\n'});
      if 1 <= j - (i + width) <= Cap && RunOf(s, j, mark, width)
         && !(guarded && j + width < |s| && s[j + width] == mark)
      then Some(Hit(i + width, j, j + width))
      else None
  }

  /** `^#{1,6}\s+`, and with `wholeLine` the logged form `^(#{1,6}\s+.*)$`. */
  function HashHeaderAt(wholeLine: bool, s: string, i: nat): (h: Option<Hit>)
    requires i < |s|
    ensures Fits(s, i, h)
  {
    if !LineStart(s, i) then None
    else
      var k := RepeatEnd(s, i, '#');
      if 1 <= k - i <= 6 && k < |s| && IsSpace(s[k]) then
        var e := if wholeLine then StopEnd(s, SpaceEnd(s, k), {'\n'}) else SpaceEnd(s, k);
        Some(Hit(e, e, e))
      else None
  }

  function ReferenceDefinitionAt(s: string, i: nat): (h: Option<Hit>)
    requires i < |s|
    ensures Fits(s, i, h)
  {
    if !LineStart(s, i) || s[i] != '[' then None
    else
      var j := StopEnd(s, i + 1, {']'});
      if j > i + 1 && j + 1 < |s| && s[j + 1] == ':' then
        var e := StopEnd(s, SpaceEnd(s, j + 2), {'\n'});
        Some(Hit(e, e, e))
      else None
  }

  function ReferenceLinkAt(s: string, i: nat): (h: Option<Hit>)
    requires i < |s|
    ensures Fits(s, i, h)
  {
    if s[i] != '[' then None
    else
      var j := StopEnd(s, i + 1, {']'});
      if j > i + 1 && j + 1 < |s| && s[j + 1] == '[' then
        var k := StopEnd(s, j + 2, {']'});
        if k < |s| then Some(Hit(i + 1, j, k + 1)) else None
      else None
  }

  /** `[label](target)` whose label starts at `labelStart`, with at least `minLabel`
      characters; the label is kept. */
  function LabelTargetAt(s: string, i: nat, labelStart: nat, minLabel: nat): (h: Option<Hit>)
    requires i < labelStart <= |s|
    ensures Fits(s, i, h)
  {
    var j := StopEnd(s, labelStart, {']', '\n'});
    if minLabel <= j - labelStart <= Cap && j + 1 < |s| && s[j] == ']' && s[j + 1] == '(' then
      var k := StopEnd(s, j + 2, {')', '\n'});
      if 1 <= k - (j + 2) <= Cap && k < |s| && s[k] == ')' then Some(Hit(labelStart, j, k + 1)) else None
    else None
  }

  function ImageAt(s: string, i: nat): (h: Option<Hit>)
    requires i < |s|
    ensures Fits(s, i, h)
  {
    if s[i] == '!' && i + 1 < |s| && s[i + 1] == '[' then LabelTargetAt(s, i, i + 2, 0) else None
  }

  function LinkAt(s: string, i: nat): (h: Option<Hit>)
    requires i < |s|
    ensures Fits(s, i, h)
  {
    if s[i] == '[' then LabelTargetAt(s, i, i + 1, 1) else None
  }

  /** `(.+)` from the content start chosen among `lo..hi`, to the end of its line, kept. */
  function ContentToLineEnd(s: string, i: nat, lo: nat, hi: nat): (h: Option<Hit>)
    requires i < lo <= hi <= |s|
    ensures Fits(s, i, h)
    ensures h.Some? ==> lo <= h.value.keepStart <= hi && h.value.keepStart < h.value.keepEnd == h.value.end
    ensures h.Some? ==> forall j | h.value.keepStart < j <= hi && j < |s| :: s[j] == '\n'
    ensures h.Some? ==> forall j | h.value.keepStart <= j < h.value.end :: s[j] != '\n'
    ensures h.Some? ==> h.value.end == |s| || s[h.value.end] == '\n'
    ensures h.None? ==> forall j | lo <= j <= hi && j < |s| :: s[j] == '\n'
  {
    ContentStartRun(s, lo, hi);
    match ContentStart(s, lo, hi)
    case None => None
    case Some(k) =>
      var e := StopEnd(s, k, {'\n'});
      StopRun(s, k, {'\n'});
      Some(Hit(k, e, e))
  }

  function TaskItemAt(s: string, i: nat): (h: Option<Hit>)
    requires i < |s|
    ensures Fits(s, i, h)
  {
    if !LineStart(s, i) then None
    else
      var a := SpaceEnd(s, i);
      if !(a < |s| && s[a] in "-*+") then None
      else
        var b := SpaceEnd(s, a + 1);
        if b > a + 1 && b + 2 < |s| && s[b] == '[' && s[b + 1] in " xX" && s[b + 2] == ']'
        then ContentToLineEnd(s, i, b + 3, SpaceEnd(s, b + 3))
        else None
  }

  function BulletItemAt(s: string, i: nat): (h: Option<Hit>)
    requires i < |s|
    ensures Fits(s, i, h)
  {
    if !LineStart(s, i) then None
    else
      var a := SpaceEnd(s, i);
      if !(a < |s| && s[a] in "-*+") then None
      else
        var b := SpaceEnd(s, a + 1);
        if b > a + 1 then ContentToLineEnd(s, i, a + 2, b) else None
  }

  function NumberedItemAt(s: string, i: nat): (h: Option<Hit>)
    requires i < |s|
    ensures Fits(s, i, h)
  {
    if !LineStart(s, i) then None
    else
      var a := SpaceEnd(s, i);
      var d := DigitEnd(s, a);
      if !(d > a && d < |s| && s[d] == '.') then None
      else
        var b := SpaceEnd(s, d + 1);
        if b > d + 1 then ContentToLineEnd(s, i, d + 2, b) else None
  }

  function EscapeAt(s: string, i: nat): (h: Option<Hit>)
    requires i < |s|
    ensures Fits(s, i, h)
  {
    if s[i] == '\\' && i + 1 < |s| && s[i + 1] in EscapeSet then Some(Hit(i + 1, i + 2, i + 2)) else None
  }

  function HtmlTagAt(s: string, i: nat): (h: Option<Hit>)
    requires i < |s|
    ensures Fits(s, i, h)
  {
    if s[i] != '<' then None
    else
      var j := StopEnd(s, i + 1, {'>', '\n'});
      if j - (i + 1) <= Cap && j < |s| && s[j] == '>' then Some(Hit(j + 1, j + 1, j + 1)) else None
  }

  function FootnoteReferenceAt(s: string, i: nat): (h: Option<Hit>)
    requires i < |s|
    ensures Fits(s, i, h)
  {
    if !(s[i] == '[' && i + 1 < |s| && s[i + 1] == '^') then None
    else
      var j := StopEnd(s, i + 2, {']', '\n'});
      if 1 <= j - (i + 2) <= Cap && j < |s| && s[j] == ']' && !(j + 1 < |s| && s[j + 1] == ':')
      then Some(Hit(j + 1, j + 1, j + 1))
      else None
  }

  function FootnoteDefinitionAt(s: string, i: nat): (h: Option<Hit>)
    requires i < |s|
    ensures Fits(s, i, h)
  {
    if !(LineStart(s, i) && s[i] == '[' && i + 1 < |s| && s[i + 1] == '^') then None
    else
      var j := StopEnd(s, i + 2, {']'});
      if j > i + 2 && j + 1 < |s| && s[j + 1] == ':' then
        match ContentToLineEnd(s, i, j + 2, SpaceEnd(s, j + 2))
        case None => None
        case Some(h) => Some(Hit(h.end, h.end, h.end))
      else None
  }

  /** `\n{3,}` replaced by `\n\n`: the first two newlines of the run are kept. */
  function BlankRunAt(s: string, i: nat): (h: Option<Hit>)
    requires i < |s|
    ensures Fits(s, i, h)
  {
    if s[i] != '\n' then None
    else
      var e := RepeatEnd(s, i, '\n');
      if e - i >= 3 then Some(Hit(i, i + 2, e)) else None
  }

  /** Whether, and how, `p` matches at position `i` of `s`. */
  function MatchAt(p: Pattern, s: string, i: nat): (h: Option<Hit>)
    ensures Fits(s, i, h)
  {
    if i >= |s| then None
    else match p
    case InlineCode => InlineCodeAt(s, i)
    case Delimited(mark, width, guarded) => DelimitedAt(mark, width, guarded, s, i)
    case HashHeader => HashHeaderAt(false, s, i)
    case HashHeaderLine => HashHeaderAt(true, s, i)
    case ReferenceDefinition => ReferenceDefinitionAt(s, i)
    case ReferenceLink => ReferenceLinkAt(s, i)
    case Image => ImageAt(s, i)
    case Link => LinkAt(s, i)
    case TaskItem => TaskItemAt(s, i)
    case BulletItem => BulletItemAt(s, i)
    case NumberedItem => NumberedItemAt(s, i)
    case Escape => EscapeAt(s, i)
    case HtmlTag => HtmlTagAt(s, i)
    case FootnoteReference => FootnoteReferenceAt(s, i)
    case FootnoteDefinition => FootnoteDefinitionAt(s, i)
    case BlankRun => BlankRunAt(s, i)
  }

  /** A stretch of the scanned text: one character no match starts at, or one match split
      into the part before the kept group, the kept group, and the part after it. */
  datatype Piece = Plain(c: char) | Cut(lead: string, kept: string, trail: string)

  /** The text a piece covers in the input. */
  function Source(p: Piece): string {
    match p
    case Plain(c) => [c]
    case Cut(lead, kept, trail) => lead + kept + trail
  }

  /** The text a piece becomes in the output. */
  function Target(p: Piece): string {
    match p
    case Plain(c) => [c]
    case Cut(_, kept, _) => kept
  }

  function Original(ps: seq<Piece>): string {
    if ps == [] then "" else Source(ps[0]) + Original(ps[1..])
  }

  function Rewritten(ps: seq<Piece>): string {
    if ps == [] then "" else Target(ps[0]) + Rewritten(ps[1..])
  }

  /** The matches, in order. */
  function Cuts(ps: seq<Piece>): seq<Piece> {
    if ps == [] then [] else (if ps[0].Cut? then [ps[0]] else []) + Cuts(ps[1..])
  }

  /** What a pattern finds at each position of a text. The scan below works with any such
      function, so that what holds of every scan is proved once; `Matching(p)` is the one
      the converter's pattern `p` gives. */
  type Matcher = (string, nat) -> Option<Hit>

  function Matching(p: Pattern): Matcher {
    (s: string, i: nat) => MatchAt(p, s, i)
  }

  /** The match `m` reports at `i`, when it is one the scan can take. */
  function HitAt(m: Matcher, s: string, i: nat): (h: Option<Hit>)
    ensures Fits(s, i, h)
    ensures h.Some? ==> h == m(s, i)
  {
    if Fits(s, i, m(s, i)) then m(s, i) else None
  }

  /** Every match a pattern reports is one the scan takes. */
  lemma MatchingHit(p: Pattern, s: string, i: nat)
    ensures HitAt(Matching(p), s, i) == MatchAt(p, s, i)
  {
  }

  /** Where the scan resumes after position `i`: past the match, or one character on. */
  function NextAt(m: Matcher, s: string, i: nat): (j: nat)
    requires i < |s|
    ensures i < j <= |s|
  {
    match HitAt(m, s, i)
    case None => i + 1
    case Some(h) => h.end
  }

  /** Three adjacent slices make up the slice they span. */
  lemma SliceThree(s: string, a: nat, b: nat, c: nat, d: nat)
    requires a <= b <= c <= d <= |s|
    ensures s[a..d] == s[a..b] + s[b..c] + s[c..d]
  {
  }

  /** The piece the scan takes at position `i`; it covers exactly `s[i..NextAt(m, s, i)]`. */
  function PieceAt(m: Matcher, s: string, i: nat): (c: Piece)
    requires i < |s|
    ensures Source(c) == s[i..NextAt(m, s, i)]
    ensures c.Plain? <==> HitAt(m, s, i).None?
  {
    match HitAt(m, s, i)
    case None => Plain(s[i])
    case Some(h) =>
      SliceThree(s, i, h.keepStart, h.keepEnd, h.end);
      Cut(s[i..h.keepStart], s[h.keepStart..h.keepEnd], s[h.keepEnd..h.end])
  }

  /** The scan that `re.sub` and `re.findall` share, from position `i`: leftmost matches,
      never overlapping, resuming where the previous match ended. */
  function ScanFrom(m: Matcher, s: string, i: nat): seq<Piece>
    requires i <= |s|
    decreases |s| - i
  {
    if i == |s| then [] else [PieceAt(m, s, i)] + ScanFrom(m, s, NextAt(m, s, i))
  }

  /** One step of the scan: the piece at `i`, then the scan from where it ends. */
  lemma ScanStep(m: Matcher, s: string, i: nat)
    requires i < |s|
    ensures ScanFrom(m, s, i) == [PieceAt(m, s, i)] + ScanFrom(m, s, NextAt(m, s, i))
  {
  }

  /** What holds of every match the scan can take holds of every match `findall` reports. */
  lemma {:induction false} CutsHold(m: Matcher, s: string, i: nat, P: Piece -> bool)
    requires i <= |s|
    requires forall j | i <= j < |s| && PieceAt(m, s, j).Cut? :: P(PieceAt(m, s, j))
    ensures forall k | 0 <= k < |Cuts(ScanFrom(m, s, i))| :: P(Cuts(ScanFrom(m, s, i))[k])
    decreases |s| - i
  {
    if i < |s| {
      CutsHold(m, s, NextAt(m, s, i), P);
      ScanStep(m, s, i);
      PiecesCons(PieceAt(m, s, i), ScanFrom(m, s, NextAt(m, s, i)));
    }
  }

  function Scan(p: Pattern, s: string): seq<Piece> {
    ScanFrom(Matching(p), s, 0)
  }

  /** `re.sub(p, <group>, s)` */
  function Sub(p: Pattern, s: string): string {
    Rewritten(Scan(p, s))
  }

  /** The text the converter logs for a match: the whole match. */
  function Matched(c: Piece): string {
    Source(c)
  }

  /** One ledger entry per match, holding the whole matched text. */
  function MatchLog(category: string, cuts: seq<Piece>): (es: seq<Entry>)
    ensures |es| == |cuts|
    ensures forall k | 0 <= k < |cuts| :: es[k] == Entry(category, Source(cuts[k]))
  {
    if cuts == [] then [] else [Entry(category, Source(cuts[0]))] + MatchLog(category, cuts[1..])
  }

  /** A rewritten text and the entries logged while producing it. */
  datatype Pass = Pass(text: string, entries: seq<Entry>)

  /** `for m in re.findall(p, s): logger.log(category, <whole match>)` then `re.sub(p, ..., s)`. */
  function SubPass(p: Pattern, category: string, s: string): Pass {
    var ps := Scan(p, s);
    Pass(Rewritten(ps), MatchLog(category, Cuts(ps)))
  }

  // ---------------------------------------------------------------------------------------
  // Properties of the scan

  lemma OriginalAppend(a: seq<Piece>, b: seq<Piece>)
    ensures Original(a + b) == Original(a) + Original(b)
  {
    if a != [] {
      assert (a + b)[1..] == a[1..] + b;
      OriginalAppend(a[1..], b);
    } else {
      assert a + b == b;
    }
  }

  lemma RewrittenAppend(a: seq<Piece>, b: seq<Piece>)
    ensures Rewritten(a + b) == Rewritten(a) + Rewritten(b)
  {
    if a != [] {
      assert (a + b)[1..] == a[1..] + b;
      RewrittenAppend(a[1..], b);
    } else {
      assert a + b == b;
    }
  }

  lemma CutsAppend(a: seq<Piece>, b: seq<Piece>)
    ensures Cuts(a + b) == Cuts(a) + Cuts(b)
  {
    if a != [] {
      assert (a + b)[1..] == a[1..] + b;
      CutsAppend(a[1..], b);
    } else {
      assert a + b == b;
    }
  }

  /** The scan is a decomposition of the text: putting its pieces back gives the input. */
  lemma PiecesCons(x: Piece, ps: seq<Piece>)
    ensures Original([x] + ps) == Source(x) + Original(ps)
    ensures Rewritten([x] + ps) == Target(x) + Rewritten(ps)
    ensures Cuts([x] + ps) == (if x.Cut? then [x] else []) + Cuts(ps)
  {
    assert ([x] + ps)[0] == x;
    assert ([x] + ps)[1..] == ps;
  }

  /** A piece covering `s[i..j]` followed by pieces covering `s[j..]` covers `s[i..]`. */
  lemma OriginalCons(x: Piece, rest: seq<Piece>, s: string, i: nat, j: nat)
    requires i <= j <= |s| && Source(x) == s[i..j] && Original(rest) == s[j..]
    ensures Original([x] + rest) == s[i..]
  {
    PiecesCons(x, rest);
    assert s[i..] == s[i..j] + s[j..];
  }

  lemma {:induction false} ScanLossless(m: Matcher, s: string, i: nat)
    requires i <= |s|
    ensures Original(ScanFrom(m, s, i)) == s[i..]
    decreases |s| - i
  {
    if i < |s| {
      var j := NextAt(m, s, i);
      ScanLossless(m, s, j);
      ScanStep(m, s, i);
      OriginalCons(PieceAt(m, s, i), ScanFrom(m, s, j), s, i, j);
    }
  }

  /** A character kept as it is, followed by pieces that leave `s[i + 1..]` alone. */
  lemma PlainCons(rest: seq<Piece>, s: string, i: nat)
    requires i < |s| && Rewritten(rest) == s[i + 1..] && Cuts(rest) == []
    ensures Rewritten([Plain(s[i])] + rest) == s[i..] && Cuts([Plain(s[i])] + rest) == []
  {
    PiecesCons(Plain(s[i]), rest);
    assert s[i..] == [s[i]] + s[i + 1..];
  }

  /** Where no match starts anywhere, the scan changes nothing and finds nothing. */
  lemma {:induction false} NoMatchNoChange(m: Matcher, s: string, i: nat)
    requires i <= |s|
    requires forall j | i <= j < |s| :: m(s, j).None?
    ensures Rewritten(ScanFrom(m, s, i)) == s[i..]
    ensures Cuts(ScanFrom(m, s, i)) == []
    decreases |s| - i
  {
    if i < |s| {
      NoMatchNoChange(m, s, i + 1);
      ScanStep(m, s, i);
      PlainCons(ScanFrom(m, s, i + 1), s, i);
    }
  }

  /** Each piece's output is a slice of its input, so a rewrite never adds a character and
      never gets longer. */
  lemma {:induction false} RewrittenWithin(ps: seq<Piece>, c: char)
    ensures |Rewritten(ps)| <= |Original(ps)|
    ensures c !in Original(ps) ==> c !in Rewritten(ps)
  {
    if ps != [] {
      RewrittenWithin(ps[1..], c);
      match ps[0]
      case Plain(_) =>
      case Cut(lead, kept, trail) =>
        assert Source(ps[0]) == lead + kept + trail;
    }
  }

  /** A rewrite never introduces a character that is not in the input. */
  lemma SubKeepsOut(p: Pattern, s: string, c: char)
    requires c !in s
    ensures c !in Sub(p, s) && |Sub(p, s)| <= |s|
  {
    ScanLossless(Matching(p), s, 0);
    RewrittenWithin(Scan(p, s), c);
  }

  lemma CountAppend(a: string, b: string, c: char)
    ensures Count(a + b, c) == Count(a, c) + Count(b, c)
  {
    if a != [] {
      assert (a + b)[0] == a[0];
      assert (a + b)[1..] == a[1..] + b;
      CountAppend(a[1..], b, c);
    } else {
      assert a + b == b;
    }
  }

  lemma CountAbsent(a: string, c: char)
    requires c !in a
    ensures Count(a, c) == 0
  {
  }

  /** Patterns whose matches never contain a newline: they act on each line on its own. */
  predicate LineLocal(p: Pattern) {
    match p
    case InlineCode => true
    case Delimited(mark, _, _) => mark != '\n'
    case Image => true
    case Link => true
    case Escape => true
    case HtmlTag => true
    case FootnoteReference => true
    case _ => false
  }

  /** `[label](target)` never spans a newline. */
  lemma LabelTargetWithinLine(s: string, i: nat, labelStart: nat, minLabel: nat)
    requires i < labelStart <= |s| && LabelTargetAt(s, i, labelStart, minLabel).Some?
    ensures forall j | labelStart <= j < LabelTargetAt(s, i, labelStart, minLabel).value.end :: s[j] != '\n'
  {
    var j := StopEnd(s, labelStart, {']', '\n'});
    StopRun(s, labelStart, {']', '\n'});
    StopRun(s, j + 2, {')', '\n'});
  }

  /** A delimited span other than of newlines never spans a newline. */
  lemma DelimitedWithinLine(mark: char, width: nat, guarded: bool, s: string, i: nat)
    requires i < |s| && mark != '\n' && DelimitedAt(mark, width, guarded, s, i).Some?
    ensures forall j | i <= j < DelimitedAt(mark, width, guarded, s, i).value.end :: s[j] != '\n'
  {
    var j := StopEnd(s, i + width, {mark, '\n'});
    RepeatRun(s, i, mark);
    StopRun(s, i + width, {mark, '\n'});
    RepeatRun(s, j, mark);
  }

  /** A match of a line-local pattern contains no newline. */
  lemma MatchWithinLine(p: Pattern, s: string, i: nat)
    requires i < |s| && LineLocal(p) && MatchAt(p, s, i).Some?
    ensures '\n' !in s[i..MatchAt(p, s, i).value.end]
  {
    var e := MatchAt(p, s, i).value.end;
    assert forall j | i <= j < e :: s[j] != '\n' by {
      match p
      case InlineCode =>
        assert MatchAt(p, s, i) == InlineCodeAt(s, i);
        StopRun(s, i + 1, {'`', '\n'});
      case Delimited(mark, width, guarded) =>
        assert MatchAt(p, s, i) == DelimitedAt(mark, width, guarded, s, i);
        DelimitedWithinLine(mark, width, guarded, s, i);
      case Image =>
        assert MatchAt(p, s, i) == ImageAt(s, i);
        LabelTargetWithinLine(s, i, i + 2, 0);
      case Link =>
        assert MatchAt(p, s, i) == LinkAt(s, i);
        LabelTargetWithinLine(s, i, i + 1, 1);
      case Escape =>
        assert MatchAt(p, s, i) == EscapeAt(s, i);
        assert s[i + 1] in EscapeSet;
      case HtmlTag =>
        assert MatchAt(p, s, i) == HtmlTagAt(s, i);
        StopRun(s, i + 1, {'>', '\n'});
      case FootnoteReference =>
        assert MatchAt(p, s, i) == FootnoteReferenceAt(s, i);
        StopRun(s, i + 2, {']', '\n'});
    }
    NoNewlineSlice(s, i, e);
  }

  lemma NoNewlineSlice(s: string, a: nat, b: nat)
    requires a <= b <= |s| && forall j | a <= j < b :: s[j] != '\n'
    ensures '\n' !in s[a..b]
  {
  }

  /** A matcher whose matches never contain a newline. */
  ghost predicate StaysInLine(m: Matcher) {
    forall s: string, i: nat | i < |s| && HitAt(m, s, i).Some? :: '\n' !in s[i..HitAt(m, s, i).value.end]
  }

  lemma LineLocalStaysInLine(p: Pattern)
    requires LineLocal(p)
    ensures StaysInLine(Matching(p))
  {
    forall s: string, i: nat | i < |s| && HitAt(Matching(p), s, i).Some?
      ensures '\n' !in s[i..HitAt(Matching(p), s, i).value.end]
    {
      MatchingHit(p, s, i);
      MatchWithinLine(p, s, i);
    }
  }

  /** The piece a matcher that stays in line takes has as many newlines out as in. */
  lemma PieceKeepsNewlines(m: Matcher, s: string, i: nat)
    requires i < |s| && StaysInLine(m)
    ensures Count(Target(PieceAt(m, s, i)), '\n') == Count(s[i..NextAt(m, s, i)], '\n')
  {
    var c := PieceAt(m, s, i);
    if c.Cut? {
      assert '\n' !in s[i..NextAt(m, s, i)];
      assert c.kept <= s[i..NextAt(m, s, i)][|c.lead|..];
      assert '\n' !in c.kept;
      CountAbsent(c.kept, '\n');
      CountAbsent(s[i..NextAt(m, s, i)], '\n');
    }
  }

  /** Newlines counted piece by piece. */
  lemma NewlinesCons(x: Piece, rest: seq<Piece>, s: string, i: nat, j: nat)
    requires i <= j <= |s|
    requires Count(Target(x), '\n') == Count(s[i..j], '\n') && Count(Rewritten(rest), '\n') == Count(s[j..], '\n')
    ensures Count(Rewritten([x] + rest), '\n') == Count(s[i..], '\n')
  {
    PiecesCons(x, rest);
    assert s[i..] == s[i..j] + s[j..];
    CountAppend(s[i..j], s[j..], '\n');
    CountAppend(Target(x), Rewritten(rest), '\n');
  }

  /** The scan of a matcher that stays in line keeps the number of newlines, hence the
      lines. */
  lemma {:induction false} LineLocalKeepsNewlines(m: Matcher, s: string, i: nat)
    requires i <= |s| && StaysInLine(m)
    ensures Count(Rewritten(ScanFrom(m, s, i)), '\n') == Count(s[i..], '\n')
    decreases |s| - i
  {
    if i < |s| {
      var j := NextAt(m, s, i);
      LineLocalKeepsNewlines(m, s, j);
      PieceKeepsNewlines(m, s, i);
      ScanStep(m, s, i);
      NewlinesCons(PieceAt(m, s, i), ScanFrom(m, s, j), s, i, j);
    }
  }

  /** `s` with every character of `marks` deleted. */
  function Erase(s: string, marks: set<char>): string {
    if s == [] then [] else (if s[0] in marks then [] else [s[0]]) + Erase(s[1..], marks)
  }

  lemma {:induction false} EraseAppend(a: string, b: string, marks: set<char>)
    ensures Erase(a + b, marks) == Erase(a, marks) + Erase(b, marks)
  {
    if a != [] {
      assert (a + b)[0] == a[0];
      assert (a + b)[1..] == a[1..] + b;
      EraseAppend(a[1..], b, marks);
    } else {
      assert a + b == b;
    }
  }

  lemma {:induction false} EraseMarksOnly(s: string, marks: set<char>)
    requires forall k | 0 <= k < |s| :: s[k] in marks
    ensures Erase(s, marks) == []
  {
    if s != [] {
      EraseMarksOnly(s[1..], marks);
    }
  }

  /** Erasing piece by piece. */
  lemma EraseCons(x: Piece, rest: seq<Piece>, s: string, i: nat, j: nat, marks: set<char>)
    requires i <= j <= |s|
    requires Erase(Target(x), marks) == Erase(s[i..j], marks) && Erase(Rewritten(rest), marks) == Erase(s[j..], marks)
    ensures Erase(Rewritten([x] + rest), marks) == Erase(s[i..], marks)
  {
    PiecesCons(x, rest);
    assert s[i..] == s[i..j] + s[j..];
    EraseAppend(s[i..j], s[j..], marks);
    EraseAppend(Target(x), Rewritten(rest), marks);
  }

  /** A delimited match loses only its delimiters. */
  lemma DelimitedPieceErase(mark: char, width: nat, guarded: bool, s: string, i: nat, marks: set<char>)
    requires i < |s| && mark in marks
    ensures Erase(Target(PieceAt(Matching(Delimited(mark, width, guarded)), s, i)), marks)
         == Erase(Source(PieceAt(Matching(Delimited(mark, width, guarded)), s, i)), marks)
  {
    var c := PieceAt(Matching(Delimited(mark, width, guarded)), s, i);
    if c.Cut? {
      MatchingHit(Delimited(mark, width, guarded), s, i);
      assert MatchAt(Delimited(mark, width, guarded), s, i) == DelimitedAt(mark, width, guarded, s, i);
      var h := MatchAt(Delimited(mark, width, guarded), s, i).value;
      assert c.lead == s[i..h.keepStart] && c.trail == s[h.keepEnd..h.end];
      assert h.keepStart == i + width && h.end == h.keepEnd + width;
      RepeatRun(s, i, mark);
      RepeatRun(s, h.keepEnd, mark);
      assert forall k | 0 <= k < |c.lead| :: c.lead[k] == s[i + k];
      assert forall k | 0 <= k < |c.trail| :: c.trail[k] == s[h.keepEnd + k];
      EraseMarksOnly(c.lead, marks);
      EraseMarksOnly(c.trail, marks);
      EraseAppend(c.lead, c.kept, marks);
      EraseAppend(c.lead + c.kept, c.trail, marks);
    }
  }

  /** Removing delimited spans deletes delimiter characters and nothing else: with every
      `mark` erased, the text before and after the rewrite is the same. */
  lemma {:induction false} DelimitedErasesOnlyMarks(mark: char, width: nat, guarded: bool, s: string, i: nat, marks: set<char>)
    requires i <= |s| && mark in marks
    ensures Erase(Rewritten(ScanFrom(Matching(Delimited(mark, width, guarded)), s, i)), marks) == Erase(s[i..], marks)
    decreases |s| - i
  {
    if i < |s| {
      var p := Matching(Delimited(mark, width, guarded));
      var j := NextAt(p, s, i);
      assert Erase(Rewritten(ScanFrom(p, s, j)), marks) == Erase(s[j..], marks) by {
        DelimitedErasesOnlyMarks(mark, width, guarded, s, j, marks);
      }
      assert Erase(Target(PieceAt(p, s, i)), marks) == Erase(s[i..j], marks) by {
        DelimitedPieceErase(mark, width, guarded, s, i, marks);
      }
      assert ScanFrom(p, s, i) == [PieceAt(p, s, i)] + ScanFrom(p, s, j) by {
        ScanStep(p, s, i);
      }
      EraseCons(PieceAt(p, s, i), ScanFrom(p, s, j), s, i, j, marks);
    }
  }

  /** A delimited span needs its mark: a text without the mark is left alone. */
  lemma DelimitedNeedsMark(mark: char, width: nat, guarded: bool, s: string)
    requires mark !in s && width >= 1
    ensures SubPass(Delimited(mark, width, guarded), "", s).text == s
    ensures Cuts(Scan(Delimited(mark, width, guarded), s)) == []
  {
    forall j | 0 <= j < |s|
      ensures Matching(Delimited(mark, width, guarded))(s, j).None?
    {
      assert s[j] != mark;
    }
    NoMatchNoChange(Matching(Delimited(mark, width, guarded)), s, 0);
  }
}
