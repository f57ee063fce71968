/** The unwrapping of JSON-like input at the start of `convert_markdown_to_text`: a text that
    starts with `"` and holds a `:` is taken to be `"key": "value"`; the value is what follows
    the first colon, stripped of whitespace and then of `"` at both ends, with the escapes
    `\n` and `\"` turned back into a newline and a quote. */
module Json {
  import opened Text

  /** `s.split(":", 1)[1]`: what follows the first colon. */
  function AfterFirstColon(s: string): (r: string)
    requires ':' in s
    ensures |r| < |s|
  {
    if s[0] == ':' then s[1..] else AfterFirstColon(s[1..])
  }

  /** `s.lstrip('"')` */
  function LStripQuotes(s: string): (r: string)
    ensures |r| <= |s|
  {
    if s != [] && s[0] == '"' then LStripQuotes(s[1..]) else s
  }

  /** `s.rstrip('"')` */
  function RStripQuotes(s: string): (r: string)
    ensures |r| <= |s|
  {
    if s != [] && s[|s| - 1] == '"' then RStripQuotes(s[..|s| - 1]) else s
  }

  /** `s.strip('"')` */
  function StripQuotes(s: string): (r: string)
    ensures |r| <= |s|
  {
    RStripQuotes(LStripQuotes(s))
  }

  /** `s.replace(a + b, [r])`: left to right, each pair replaced, never overlapping. */
  function ReplacePair(s: string, a: char, b: char, r: char): (t: string)
    ensures |t| <= |s|
  {
    if |s| >= 2 && s[0] == a && s[1] == b then [r] + ReplacePair(s[2..], a, b, r)
    else if s == [] then []
    else [s[0]] + ReplacePair(s[1..], a, b, r)
  }

  /** Whether the text is taken to be JSON-like. */
  predicate Wrapped(s: string) {
    StartsWith(s, "\"") && ':' in s
  }

  /** The content the conversion works on: a JSON-like text gives up its value, which is
      shorter than the text; any other text is kept as it is. */
  function Unwrap(s: string): (r: string)
    ensures Wrapped(s) ==> |r| < |s|
    ensures !Wrapped(s) ==> r == s
  {
    if Wrapped(s) then
      var content := StripQuotes(Strip(AfterFirstColon(s)));
      ReplacePair(ReplacePair(content, '\\', 'n', '\n'), '\\', '"', '"')
    else s
  }

  // ---------------------------------------------------------------------------------------
  // Properties

  predicate PairAt(s: string, i: nat, a: char, b: char)
    requires i + 1 < |s|
  {
    s[i] == a && s[i + 1] == b
  }

  /** Nowhere `a` directly followed by `b`. */
  predicate NoPair(s: string, a: char, b: char) {
    forall i | 0 <= i && i + 1 < |s| :: !PairAt(s, i, a, b)
  }

  lemma NoPairCons(x: char, t: string, a: char, b: char)
    requires NoPair(t, a, b) && (x != a || t == [] || t[0] != b)
    ensures NoPair([x] + t, a, b)
  {
    var u := [x] + t;
    forall i | 0 <= i && i + 1 < |u|
      ensures !PairAt(u, i, a, b)
    {
      if i > 0 {
        assert !PairAt(t, i - 1, a, b);
      }
    }
  }

  /** The replacement's first character is the replacement or the text's own first one. */
  lemma ReplaceFirst(s: string, a: char, b: char, r: char)
    requires s != []
    ensures ReplacePair(s, a, b, r) != []
    ensures ReplacePair(s, a, b, r)[0] == (if |s| >= 2 && s[0] == a && s[1] == b then r else s[0])
  {
  }

  /** After replacing `\n` by a newline no `\n` is left: the replacement character can
      neither start nor end a new pair. */
  lemma {:induction false} ReplaceLeavesNoPair(s: string, a: char, b: char, r: char)
    requires r != a && r != b
    ensures NoPair(ReplacePair(s, a, b, r), a, b)
    decreases |s|
  {
    if |s| >= 2 && s[0] == a && s[1] == b {
      ReplaceLeavesNoPair(s[2..], a, b, r);
      NoPairCons(r, ReplacePair(s[2..], a, b, r), a, b);
    } else if s != [] {
      ReplaceLeavesNoPair(s[1..], a, b, r);
      if s[1..] != [] {
        ReplaceFirst(s[1..], a, b, r);
      }
      NoPairCons(s[0], ReplacePair(s[1..], a, b, r), a, b);
    }
  }

  /** Replacing `\"` by `"` does not bring a `\n` back. */
  lemma {:induction false} ReplaceKeepsNoPair(s: string)
    requires NoPair(s, '\\', 'n')
    ensures NoPair(ReplacePair(s, '\\', '"', '"'), '\\', 'n')
    decreases |s|
  {
    if s != [] {
      var skip := if |s| >= 2 && s[0] == '\\' && s[1] == '"' then 2 else 1;
      assert NoPair(s[skip..], '\\', 'n') by {
        forall i | 0 <= i && i + 1 < |s[skip..]|
          ensures !PairAt(s[skip..], i, '\\', 'n')
        {
          assert !PairAt(s, i + skip, '\\', 'n');
        }
      }
      ReplaceKeepsNoPair(s[skip..]);
      if s[skip..] != [] {
        ReplaceFirst(s[skip..], '\\', '"', '"');
        if skip == 1 && s[0] == '\\' {
          assert !PairAt(s, 0, '\\', 'n');
        }
      }
      if skip == 2 {
        NoPairCons('"', ReplacePair(s[2..], '\\', '"', '"'), '\\', 'n');
      } else {
        NoPairCons(s[0], ReplacePair(s[1..], '\\', '"', '"'), '\\', 'n');
      }
    }
  }

  /** An unwrapped value holds no literal `\n` any more. */
  lemma UnwrapLeavesNoEscapedNewline(s: string)
    requires Wrapped(s)
    ensures NoPair(Unwrap(s), '\\', 'n')
  {
    var content := StripQuotes(Strip(AfterFirstColon(s)));
    ReplaceLeavesNoPair(content, '\\', 'n', '\n');
    ReplaceKeepsNoPair(ReplacePair(content, '\\', 'n', '\n'));
  }

  /** How a JSON string body writes a newline and a quote: `\n` and `\"`. */
  function JsonEscape(t: string): (e: string)
    ensures |e| >= |t|
  {
    if t == [] then []
    else (if t[0] == '\n' then "\\n" else if t[0] == '"' then "\\\"" else [t[0]]) + JsonEscape(t[1..])
  }

  /** Only quotes escaped. */
  function QuoteEscape(t: string): string {
    if t == [] then []
    else (if t[0] == '"' then "\\\"" else [t[0]]) + QuoteEscape(t[1..])
  }

  /** The first replacement turns the escaped newlines back and leaves the escaped quotes. */
  lemma {:induction false} NewlinesBack(t: string)
    requires '\\' !in t
    ensures ReplacePair(JsonEscape(t), '\\', 'n', '\n') == QuoteEscape(t)
    decreases |t|
  {
    if t != [] {
      var rest := JsonEscape(t[1..]);
      NewlinesBack(t[1..]);
      if t[0] == '\n' {
        assert JsonEscape(t)[2..] == rest;
      } else if t[0] == '"' {
        assert JsonEscape(t)[1..] == ['"'] + rest;
        assert (['"'] + rest)[1..] == rest;
      } else {
        assert JsonEscape(t)[1..] == rest;
      }
    }
  }

  /** The second replacement turns the escaped quotes back. */
  lemma {:induction false} QuotesBack(t: string)
    requires '\\' !in t
    ensures ReplacePair(QuoteEscape(t), '\\', '"', '"') == t
    decreases |t|
  {
    if t != [] {
      var rest := QuoteEscape(t[1..]);
      QuotesBack(t[1..]);
      if t[0] == '"' {
        assert QuoteEscape(t)[2..] == rest;
      } else {
        assert QuoteEscape(t)[1..] == rest;
      }
      assert t == [t[0]] + t[1..];
    }
  }

  /** An escaped body never starts with a quote, and ends with one only when the body does. */
  lemma {:induction false} EscapeEnds(t: string)
    requires t != []
    ensures JsonEscape(t) != [] && JsonEscape(t)[0] != '"'
    ensures t[|t| - 1] != '"' ==> JsonEscape(t)[|JsonEscape(t)| - 1] != '"'
    decreases |t|
  {
    if |t| > 1 {
      EscapeEnds(t[1..]);
    }
  }

  lemma {:induction false} AfterColon(x: string, y: string)
    requires ':' !in x
    ensures AfterFirstColon(x + [':'] + y) == y
    decreases |x|
  {
    if x != [] {
      assert (x + [':'] + y)[1..] == x[1..] + [':'] + y;
      AfterColon(x[1..], y);
    }
  }

  /** The text after the first colon of `"key": ...`. */
  lemma {:induction false} KeyValueShape(key: string, v: string)
    requires ':' !in key
    ensures Wrapped(['"'] + key + ['"', ':'] + v)
    ensures AfterFirstColon(['"'] + key + ['"', ':'] + v) == v
  {
    var x := ['"'] + key + ['"'];
    var s := ['"'] + key + ['"', ':'] + v;
    assert s == x + [':'] + v;
    AfterColon(x, v);
    assert s[|x|] == ':';
    assert s[..1] == "\"";
  }

  /** What `"key": v` unwraps to. */
  lemma UnwrapKeyValue(key: string, v: string)
    requires ':' !in key
    ensures Unwrap(['"'] + key + ['"', ':'] + v)
         == ReplacePair(ReplacePair(StripQuotes(Strip(v)), '\\', 'n', '\n'), '\\', '"', '"')
  {
    KeyValueShape(key, v);
  }

  /** Stripping a value that starts and ends with a quote only drops its leading blank. */
  lemma StripPadded(q: string)
    requires q != [] && q[0] == '"' && q[|q| - 1] == '"'
    ensures Strip([' '] + q) == q
  {
    LStripAt([' '] + q, 1);
    assert ([' '] + q)[1..] == q;
  }

  /** `strip('"')` takes exactly the enclosing quotes off a text that neither starts nor
      ends with one. */
  lemma StripEnclosing(e: string)
    requires e == [] || (e[0] != '"' && e[|e| - 1] != '"')
    ensures StripQuotes(['"'] + e + ['"']) == e
  {
    var q := ['"'] + e + ['"'];
    if e == [] {
      assert q[1..] == ['"'];
      assert LStripQuotes(q) == LStripQuotes(['"']) == LStripQuotes([]);
    } else {
      assert q[1..] == e + ['"'];
      assert LStripQuotes(q) == e + ['"'];
      assert (e + ['"'])[..|e|] == e;
      assert RStripQuotes(e + ['"']) == RStripQuotes(e);
    }
  }

  /** `"key": "e"` read as the key, the colon, and the padded quoted value. */
  lemma Regroup(key: string, e: string)
    ensures ['"'] + key + ['"', ':', ' ', '"'] + e + ['"'] == ['"'] + key + ['"', ':'] + ([' '] + (['"'] + e + ['"']))
  {
    var k := ['"'] + key;
    assert k + ['"', ':', ' ', '"'] == k + ['"', ':'] + [' ', '"'];
  }

  /** `"key": "value"` with the value written the JSON way comes back as the value, as long
      as the key has no colon, the value no backslash, and the value does not end with a
      quote. */
  lemma UnwrapRoundTrip(key: string, body: string, s: string)
    requires ':' !in key && '\\' !in body
    requires body == [] || body[|body| - 1] != '"'
    requires s == ['"'] + key + ['"', ':', ' ', '"'] + JsonEscape(body) + ['"']
    ensures Unwrap(s) == body
  {
    var e := JsonEscape(body);
    var q := ['"'] + e + ['"'];
    var v := [' '] + q;
    assert s == ['"'] + key + ['"', ':'] + v by {
      Regroup(key, e);
    }
    assert Unwrap(s) == ReplacePair(ReplacePair(StripQuotes(Strip(v)), '\\', 'n', '\n'), '\\', '"', '"') by {
      UnwrapKeyValue(key, v);
    }
    assert Strip(v) == q by {
      StripPadded(q);
    }
    assert StripQuotes(q) == e by {
      if body != [] {
        EscapeEnds(body);
      }
      StripEnclosing(e);
    }
    NewlinesBack(body);
    QuotesBack(body);
  }

  /** `"a\""` loses every quote at both ends. */
  lemma QuotesOffEnd(q: string)
    requires q == ['"', 'a', '\\', '"', '"']
    ensures StripQuotes(q) == ['a', '\\']
  {
    var w := ['a', '\\', '"', '"'];
    assert q[1..] == w;
    assert LStripQuotes(q) == w;
    assert w[..3] == ['a', '\\', '"'] && w[..3][..2] == ['a', '\\'];
    assert RStripQuotes(w) == RStripQuotes(w[..3]) == RStripQuotes(['a', '\\']) == ['a', '\\'];
  }

  /** `a\` has no pair to replace. */
  lemma LoneBackslash(c: char, r: char)
    requires c != '\\'
    ensures ReplacePair(['a', '\\'], '\\', c, r) == ['a', '\\']
  {
    assert ['a', '\\'][1..] == ['\\'];
    assert ['\\'][1..] == [];
  }

  /** `strip('"')` takes every quote off the end, so a value ending in an escaped quote loses
      that quote and keeps its backslash: `"k": "a\""` unwraps to `a\`. */
  lemma TrailingQuoteLost(s: string)
    requires s == ['"', 'k', '"', ':', ' ', '"', 'a', '\\', '"', '"']
    ensures Unwrap(s) == ['a', '\\']
  {
    var q := ['"', 'a', '\\', '"', '"'];
    var v := [' '] + q;
    assert s == ['"'] + ['k'] + ['"', ':'] + v;
    assert Unwrap(s) == ReplacePair(ReplacePair(StripQuotes(Strip(v)), '\\', 'n', '\n'), '\\', '"', '"') by {
      UnwrapKeyValue(['k'], v);
    }
    assert Strip(v) == q by {
      StripPadded(q);
    }
    assert StripQuotes(q) == ['a', '\\'] by {
      QuotesOffEnd(q);
    }
    LoneBackslash('n', '\n');
    LoneBackslash('"', '"');
  }
}
