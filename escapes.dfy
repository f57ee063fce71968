/** The escape pass of `convert_markdown_to_text`: a backslash followed by one of
    `` \ ` * _ { } [ ] ( ) # + - . ! `` is replaced by that character, and each such pair is
    logged under `escaped_characters`. The whole substitution runs exactly twice. */
module Escapes {
  import opened Text
  import opened Ledger
  import opened Patterns

  const EscapeCategory := "escaped_characters"

  /** The text after `n` rounds, with the entries of every round in order. The callback
      returns the escaped character itself: its fallback, a backslash put back in front,
      would apply only to a character outside the pattern's class, which never matches. */
  function Rounds(s: string, n: nat): Pass {
    if n == 0 then Pass(s, [])
    else
      var before := Rounds(s, n - 1);
      var round := SubPass(Escape, EscapeCategory, before.text);
      Pass(round.text, before.entries + round.entries)
  }

  /** The fixed two-round loop. */
  method ResolveEscapes(text: string, logger: StrippedContentLogger) returns (r: string)
    modifies logger
    ensures r == Rounds(text, 2).text
    ensures logger.sections == Replay(logger.enabled, old(logger.sections), Rounds(text, 2).entries)
  {
    r := text;
    for round := 0 to 2
      invariant r == Rounds(text, round).text
      invariant logger.sections == Replay(logger.enabled, old(logger.sections), Rounds(text, round).entries)
    {
      var pass := SubPass(Escape, EscapeCategory, r);
      ReplayConcat(logger.enabled, old(logger.sections), Rounds(text, round).entries, pass.entries);
      LogEach(logger, pass.entries);
      r := pass.text;
    }
  }

  // ---------------------------------------------------------------------------------------
  // Properties

  /** One character as markdown source writes it literally: backslash-escaped when it is
      one the pass resolves. */
  function EscapeChar(c: char): string {
    if c in EscapeSet then ['\\', c] else [c]
  }

  /** Every character of `t` escaped. */
  function EscapeAll(t: string): (e: string)
    ensures |t| <= |e|
  {
    if t == [] then [] else EscapeChar(t[0]) + EscapeAll(t[1..])
  }

  /** A backslash before a character of the set is one match, which keeps the character. */
  lemma EscapedPiece(s: string, i: nat)
    requires i + 1 < |s| && s[i] == '\\' && s[i + 1] in EscapeSet
    ensures NextAt(Matching(Escape), s, i) == i + 2 && Target(PieceAt(Matching(Escape), s, i)) == [s[i + 1]]
  {
    assert MatchAt(Escape, s, i) == EscapeAt(s, i);
  }

  /** Any character but a backslash starts no match. */
  lemma PlainPiece(s: string, i: nat)
    requires i < |s| && s[i] != '\\'
    ensures NextAt(Matching(Escape), s, i) == i + 1 && Target(PieceAt(Matching(Escape), s, i)) == [s[i]]
  {
    assert MatchAt(Escape, s, i) == EscapeAt(s, i);
  }

  /** One round resolves one level of escaping, wherever the escaped text starts. */
  lemma {:induction false} ResolveEscaped(u: string, t: string)
    ensures Rewritten(ScanFrom(Matching(Escape), u + EscapeAll(t), |u|)) == t
    decreases |t|
  {
    var s := u + EscapeAll(t);
    if t != [] {
      var c := t[0];
      var u' := u + EscapeChar(c);
      assert s == u' + EscapeAll(t[1..]);
      ResolveEscaped(u', t[1..]);
      if c in EscapeSet {
        EscapedPiece(s, |u|);
      } else {
        PlainPiece(s, |u|);
      }
      PiecesCons(PieceAt(Matching(Escape), s, |u|), ScanFrom(Matching(Escape), s, |u'|));
      assert t == [c] + t[1..];
    }
  }

  /** The two rounds, one after the other. */
  lemma TwoRounds(s: string)
    ensures Rounds(s, 2).text == Sub(Escape, Sub(Escape, s))
  {
    assert Rounds(s, 1).text == Sub(Escape, s);
  }

  /** One round undoes `EscapeAll`. */
  lemma RoundUndoesEscape(t: string)
    ensures Sub(Escape, EscapeAll(t)) == t
  {
    ResolveEscaped([], t);
    assert [] + EscapeAll(t) == EscapeAll(t);
  }

  /** The two rounds resolve text escaped twice; text escaped three times keeps one level of
      escaping. */
  lemma TwoRoundsTwoLevels(t: string)
    ensures Rounds(EscapeAll(EscapeAll(t)), 2).text == t
    ensures Rounds(EscapeAll(EscapeAll(EscapeAll(t))), 2).text == EscapeAll(t)
  {
    TwoRounds(EscapeAll(EscapeAll(t)));
    TwoRounds(EscapeAll(EscapeAll(EscapeAll(t))));
    RoundUndoesEscape(EscapeAll(t));
    RoundUndoesEscape(t);
    RoundUndoesEscape(EscapeAll(EscapeAll(t)));
  }

  /** A backslash at `i` followed by a character the pass resolves. */
  predicate EscapedAt(s: string, i: nat)
    requires i + 1 < |s|
  {
    s[i] == '\\' && s[i + 1] in EscapeSet
  }

  /** A match of the escape pattern is a resolvable pair. */
  lemma PlainOrPair(s: string, j: nat)
    requires j < |s|
    ensures MatchAt(Escape, s, j).Some? ==> j < |s| - 1 && EscapedAt(s, j)
  {
    assert MatchAt(Escape, s, j) == EscapeAt(s, j);
  }

  /** Where no backslash precedes a character of the set, one round finds no match. */
  lemma RoundWithoutPairs(s: string)
    requires forall i | 0 <= i < |s| - 1 :: !EscapedAt(s, i)
    ensures SubPass(Escape, EscapeCategory, s) == Pass(s, [])
  {
    forall j | 0 <= j < |s|
      ensures MatchAt(Escape, s, j).None?
    {
      PlainOrPair(s, j);
    }
    NoMatchNoChange(Matching(Escape), s, 0);
    assert s[0..] == s;
  }

  /** Where no backslash precedes a character of the set (`\q`, say, or a trailing
      backslash), both rounds leave the text alone and log nothing. */
  lemma NothingToResolve(s: string)
    requires forall i | 0 <= i < |s| - 1 :: !EscapedAt(s, i)
    ensures Rounds(s, 2) == Pass(s, [])
  {
    RoundWithoutPairs(s);
    assert Rounds(s, 1) == Pass(s, []);
    assert Rounds(s, 2) == Pass(s, [] + []);
  }
}
