/** The removal ledger (`StrippedContentLogger`): an insertion-ordered dictionary from a
    category name to the list of fragments removed under it. */
module Ledger {
  import opened Text

  /** One call `logger.log(step, content)`. */
  datatype Entry = Entry(step: string, content: string)

  /** The `sections` dictionary: `order` is the dictionary's insertion order of keys. */
  datatype Sections = Sections(order: seq<string>, lists: map<string, seq<string>>)

  const Empty := Sections([], map[])

  /** The list stored under `step`, or [] when the category was never created. */
  function Get(d: Sections, step: string): seq<string> {
    if step in d.lists then d.lists[step] else []
  }

  /** Keys listed once each in insertion order, exactly the keys of the map, and no empty list. */
  ghost predicate WellFormed(d: Sections) {
    && (forall i, j | 0 <= i < j < |d.order| :: d.order[i] != d.order[j])
    && (forall step :: step in d.lists <==> step in d.order)
    && (forall step | step in d.lists :: d.lists[step] != [])
  }

  /** Whether `log` records anything: only when enabled and the content is not blank. */
  predicate Records(enabled: bool, content: string) {
    enabled && Strip(content) != []
  }

  /** The sections after one call of `log`. */
  function Logged(enabled: bool, d: Sections, e: Entry): Sections {
    if !Records(enabled, e.content) then d
    else Sections(if e.step in d.lists then d.order else d.order + [e.step],
                  d.lists[e.step := Get(d, e.step) + [e.content]])
  }

  /** The sections after logging every entry of `es`, in order. */
  function Replay(enabled: bool, d: Sections, es: seq<Entry>): Sections
    decreases |es|
  {
    if es == [] then d else Logged(enabled, Replay(enabled, d, es[..|es| - 1]), es[|es| - 1])
  }

  /** The contents of `es` that `log` records under `step`, in order. */
  function Recorded(enabled: bool, es: seq<Entry>, step: string): seq<string>
    decreases |es|
  {
    if es == [] then []
    else
      var e := es[|es| - 1];
      Recorded(enabled, es[..|es| - 1], step)
        + (if Records(enabled, e.content) && e.step == step then [e.content] else [])
  }

  /** One `log` call appends to its own category exactly when it records, and no other
      category changes. */
  lemma LoggedAppendsOnlyWhenRecorded(enabled: bool, d: Sections, e: Entry, step: string)
    ensures Get(Logged(enabled, d, e), step)
         == Get(d, step) + (if Records(enabled, e.content) && e.step == step then [e.content] else [])
  {
  }

  /** `log` keeps the dictionary well formed and only ever extends the key order. */
  lemma LoggedWellFormed(enabled: bool, d: Sections, e: Entry)
    requires WellFormed(d)
    ensures WellFormed(Logged(enabled, d, e))
    ensures d.order <= Logged(enabled, d, e).order
  {
  }

  /** After any run of `log` calls, each category holds its old list followed by exactly the
      recorded contents logged under it. */
  lemma {:induction false} ReplayGet(enabled: bool, d: Sections, es: seq<Entry>, step: string)
    ensures Get(Replay(enabled, d, es), step) == Get(d, step) + Recorded(enabled, es, step)
  {
    if es != [] {
      ReplayGet(enabled, d, es[..|es| - 1], step);
      LoggedAppendsOnlyWhenRecorded(enabled, Replay(enabled, d, es[..|es| - 1]), es[|es| - 1], step);
    }
  }

  /** A run of `log` calls keeps the dictionary well formed: a category is never created
      without an entry, and categories keep their first-seen order. */
  lemma {:induction false} ReplayWellFormed(enabled: bool, d: Sections, es: seq<Entry>)
    requires WellFormed(d)
    ensures WellFormed(Replay(enabled, d, es))
    ensures d.order <= Replay(enabled, d, es).order
  {
    if es != [] {
      ReplayWellFormed(enabled, d, es[..|es| - 1]);
      LoggedWellFormed(enabled, Replay(enabled, d, es[..|es| - 1]), es[|es| - 1]);
    }
  }

  /** A disabled ledger never changes. */
  lemma {:induction false} ReplayDisabled(d: Sections, es: seq<Entry>)
    ensures Replay(false, d, es) == d
  {
    if es != [] {
      ReplayDisabled(d, es[..|es| - 1]);
    }
  }

  /** Logging one more entry is one more `log` call. */
  lemma ReplaySnoc(enabled: bool, d: Sections, es: seq<Entry>, e: Entry)
    ensures Replay(enabled, d, es + [e]) == Logged(enabled, Replay(enabled, d, es), e)
  {
    assert (es + [e])[..|es|] == es;
  }

  /** Logging `a` and then `b` is logging `a + b`. */
  lemma {:induction false} ReplayConcat(enabled: bool, d: Sections, a: seq<Entry>, b: seq<Entry>)
    ensures Replay(enabled, d, a + b) == Replay(enabled, Replay(enabled, d, a), b)
    decreases |b|
  {
    if b == [] {
      assert a + b == a;
    } else {
      assert (a + b)[..|a + b| - 1] == a + b[..|b| - 1];
      ReplayConcat(enabled, d, a, b[..|b| - 1]);
    }
  }

  class StrippedContentLogger {
    const enabled: bool
    var sections: Sections

    constructor (enabled: bool)
      ensures this.enabled == enabled && sections == Empty
    {
      this.enabled := enabled;
      sections := Empty;
    }

    /** Record `removedContent` under `stepName`, creating the category on first use. */
    method Log(stepName: string, removedContent: string)
      modifies this
      ensures sections == Logged(enabled, old(sections), Entry(stepName, removedContent))
    {
      if !enabled || Strip(removedContent) == [] {
        return;
      }
      if stepName !in sections.lists {
        sections := Sections(sections.order + [stepName], sections.lists[stepName := []]);
      }
      assert sections.lists[stepName] == Get(old(sections), stepName);
      sections := sections.(lists := sections.lists[stepName := sections.lists[stepName] + [removedContent]]);
      assert sections.lists == old(sections).lists[stepName := Get(old(sections), stepName) + [removedContent]];
    }
  }

  /** Log every entry of `entries`, in order. */
  method LogEach(logger: StrippedContentLogger, entries: seq<Entry>)
    modifies logger
    ensures logger.sections == Replay(logger.enabled, old(logger.sections), entries)
  {
    for i := 0 to |entries|
      invariant logger.sections == Replay(logger.enabled, old(logger.sections), entries[..i])
    {
      assert entries[..i + 1][..i] == entries[..i];
      logger.Log(entries[i].step, entries[i].content);
    }
    assert entries[..|entries|] == entries;
  }
}
