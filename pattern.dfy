// The marker rule built by `build_marker_regex` (src/scanner.rs), written as
// an explicit matcher instead of a compiled regular expression.
//
// The regex is  ^\s*(?://|#|/\*|\*|<!--)\s*(T1|T2|...)(?::|\s)?\s*(.*?)(?:-->|\*/)?$
// Everything after the token group can match any rest of the line, so
// whether a line matches, and which token group 1 captures, depend only on
// the part up to the token.  The regex engine's leftmost-first preference
// decides the capture: the greedy `\s*` after the opener first takes all
// the whitespace, then the tokens are tried in list order; only if none
// fits does `\s*` give whitespace back, one character at a time.
module MarkerPattern {

  import opened Wrappers
  import opened Text

  /** The comment openers, in the order the regex lists them. */
  function CommentOpeners(): seq<string> {
    ["//", "#", "/*", "*", "<!--"]
  }

  /** The alternatives of group 1.  Joining an empty token list gives the
      empty alternation `()`, which matches the empty string. */
  function Alternatives(tokens: seq<string>): (alts: seq<string>)
    ensures |alts| > 0
    ensures tokens != [] ==> alts == tokens
  {
    if tokens == [] then [""] else tokens
  }

  /** Positions of one way the regex can match: `indent` leading whitespace
      characters, the comment `opener`, `gap` whitespace characters, then
      `token`. */
  datatype Capture = Capture(indent: nat, opener: string, gap: nat, token: string)

  /** The line reads: `indent` whitespace characters, `opener`, `gap`
      whitespace characters, then `token` (and anything after it). */
  predicate FitsAt(line: string, indent: nat, opener: string, gap: nat, token: string) {
    var start := indent + |opener| + gap;
    start <= |line|
    && SpacesIn(line, 0, indent)
    && opener in CommentOpeners()
    && HasAt(line, indent, opener)
    && SpacesIn(line, indent + |opener|, start)
    && HasAt(line, start, token)
  }

  /** `c` describes a way for the regex to match `line` with group 1 = c.token. */
  predicate Fits(line: string, c: Capture) {
    FitsAt(line, c.indent, c.opener, c.gap, c.token)
  }

  /** The first opener, in regex order, found at position `at`. */
  function OpenerAt(line: string, at: nat): (r: Option<string>)
    ensures r.Some? ==> r.value in CommentOpeners() && HasAt(line, at, r.value)
    ensures r.None? ==> forall o :: o in CommentOpeners() ==> !HasAt(line, at, o)
  {
    FirstTokenAtSound(line, at, CommentOpeners());
    FirstTokenAt(line, at, CommentOpeners())
  }

  /** At most one opener fits at any position, and `OpenerAt` finds it. */
  lemma OpenerUnique(line: string, at: nat, o: string)
    requires o in CommentOpeners() && HasAt(line, at, o)
    ensures OpenerAt(line, at) == Some(o)
  {
    var found := OpenerAt(line, at).value;
    OpenersDisjoint(line, at, found, o);
  }

  /** Two openers that both fit at the same position are the same. */
  lemma OpenersDisjoint(line: string, at: nat, o1: string, o2: string)
    requires o1 in CommentOpeners() && HasAt(line, at, o1)
    requires o2 in CommentOpeners() && HasAt(line, at, o2)
    ensures o1 == o2
  {
    CharAt(line, at, o1, 0);
    CharAt(line, at, o2, 0);
    if |o1| > 1 && |o2| > 1 {
      CharAt(line, at, o1, 1);
      CharAt(line, at, o2, 1);
    }
  }

  lemma CharAt(line: string, at: nat, p: string, k: nat)
    requires HasAt(line, at, p) && k < |p|
    ensures line[at + k] == p[k]
  {
  }

  /** The first alternative, in list order, found at position `at`. */
  function FirstTokenAt(line: string, at: nat, alts: seq<string>): (r: Option<string>)
    ensures r.Some? ==> r.value in alts
  {
    if alts == [] then None
    else if HasAt(line, at, alts[0]) then Some(alts[0])
    else FirstTokenAt(line, at, alts[1..])
  }

  /** `FirstTokenAt` reports an alternative that fits, and reports none only
      when none fits. */
  lemma {:induction false} FirstTokenAtSound(line: string, at: nat, alts: seq<string>)
    ensures FirstTokenAt(line, at, alts).Some? ==> HasAt(line, at, FirstTokenAt(line, at, alts).value)
    ensures FirstTokenAt(line, at, alts).None? ==> forall t :: t in alts ==> !HasAt(line, at, t)
  {
    if alts != [] && !HasAt(line, at, alts[0]) {
      FirstTokenAtSound(line, at, alts[1..]);
    }
  }

  /** Backtracking over the whitespace after the opener (which ends at
      `from`): try the longest run `gap` first, then shorter ones. */
  function TokenAfterGap(line: string, from: nat, alts: seq<string>, gap: nat): (r: Option<(nat, string)>)
    requires from + gap <= |line|
    ensures r.Some? ==> r.value.0 <= gap && r.value.1 in alts
  {
    match FirstTokenAt(line, from + gap, alts)
    case Some(t) => Some((gap, t))
    case None => if gap == 0 then None else TokenAfterGap(line, from, alts, gap - 1)
  }

  /** `TokenAfterGap` reports a gap and an alternative that fits after it;
      it reports none only when no alternative fits after any shorter gap. */
  lemma {:induction false} TokenAfterGapSound(line: string, from: nat, alts: seq<string>, gap: nat)
    requires from + gap <= |line|
    ensures var r := TokenAfterGap(line, from, alts, gap);
      r.Some? ==> FirstTokenAt(line, from + r.value.0, alts) == Some(r.value.1)
                  && HasAt(line, from + r.value.0, r.value.1)
    ensures TokenAfterGap(line, from, alts, gap).None? ==>
      forall j, t :: from <= j <= from + gap && t in alts ==> !HasAt(line, j, t)
  {
    FirstTokenAtSound(line, from + gap, alts);
    if FirstTokenAt(line, from + gap, alts).None? && gap > 0 {
      TokenAfterGapSound(line, from, alts, gap - 1);
    }
  }

  /** The match the regex engine reports for `line`, if any. */
  function CaptureLine(line: string, tokens: seq<string>): (r: Option<Capture>)
    ensures r.Some? ==> r.value.token in Alternatives(tokens)
  {
    var indent := SpaceRun(line, 0);
    match OpenerAt(line, indent)
    case None => None
    case Some(o) =>
      var from := indent + |o|;
      match TokenAfterGap(line, from, Alternatives(tokens), SpaceRun(line, from))
      case None => None
      case Some((gap, t)) => Some(Capture(indent, o, gap, t))
  }

  /** How `CaptureLine` found its capture: the opener at the end of the
      indent, then the gap search after the opener, which ends at `from`. */
  lemma CaptureParts(line: string, tokens: seq<string>, c: Capture, from: nat)
    requires CaptureLine(line, tokens) == Some(c)
    requires from == c.indent + |c.opener|
    ensures c.indent == SpaceRun(line, 0) && OpenerAt(line, c.indent) == Some(c.opener)
    ensures from + SpaceRun(line, from) <= |line|
    ensures TokenAfterGap(line, from, Alternatives(tokens), SpaceRun(line, from)) == Some((c.gap, c.token))
  {
  }

  /** The reported capture is a way for the regex to match the line. */
  lemma CaptureSound(line: string, tokens: seq<string>, c: Capture)
    requires CaptureLine(line, tokens) == Some(c)
    ensures Fits(line, c)
  {
    var from := c.indent + |c.opener|;
    CaptureParts(line, tokens, c, from);
    PartsFit(line, Alternatives(tokens), c, from);
  }

  /** An opener after the indent and an alternative after a gap that the
      gap search reported make a fit; the opener ends at `from`. */
  lemma PartsFit(line: string, alts: seq<string>, c: Capture, from: nat)
    requires c.indent == SpaceRun(line, 0) && OpenerAt(line, c.indent) == Some(c.opener)
    requires from == c.indent + |c.opener| && from <= |line|
    requires TokenAfterGap(line, from, alts, SpaceRun(line, from)) == Some((c.gap, c.token))
    ensures Fits(line, c)
  {
    TokenAfterGapSound(line, from, alts, SpaceRun(line, from));
    assert SpacesIn(line, from, from + c.gap);
  }

  /** `pattern.captures(line)` followed by `captures.get(1)`: the marker
      type, when the line matches.  A line is what `BufRead::lines()`
      yields, so it holds no '\n' and the pattern's tail `(.*?)…$` always
      matches the rest of it. */
  function MatchLine(line: string, tokens: seq<string>): (r: Option<string>)
    ensures r.Some? ==> r.value in Alternatives(tokens)
  {
    match CaptureLine(line, tokens)
    case None => None
    case Some(c) => Some(c.token)
  }

  /** The matcher accepts a line exactly when the line can be read as
      optional whitespace, a comment opener, optional whitespace and one of
      the alternatives. */
  lemma MatchLineIff(line: string, tokens: seq<string>)
    ensures MatchLine(line, tokens).Some? <==>
      exists c :: Fits(line, c) && c.token in Alternatives(tokens)
  {
    if exists c :: Fits(line, c) && c.token in Alternatives(tokens) {
      var c :| Fits(line, c) && c.token in Alternatives(tokens);
      FitFound(line, tokens, c);
    } else if CaptureLine(line, tokens).Some? {
      CaptureSound(line, tokens, CaptureLine(line, tokens).value);
    }
  }

  /** Whenever some fit exists, the matcher reports a capture. */
  lemma FitFound(line: string, tokens: seq<string>, c: Capture)
    requires Fits(line, c) && c.token in Alternatives(tokens)
    ensures CaptureLine(line, tokens).Some?
  {
    FitForcesIndent(line, c);
    OpenerUnique(line, c.indent, c.opener);
    var from := c.indent + |c.opener|;
    GapWithinRun(line, from, c.gap);
    TokenAfterGapSound(line, from, Alternatives(tokens), SpaceRun(line, from));
  }

  /** `FirstTokenAt` reports the earliest alternative in list order that
      fits: every alternative listed before it does not. */
  lemma {:induction false} FirstTokenIsEarliest(line: string, at: nat, alts: seq<string>)
    requires FirstTokenAt(line, at, alts).Some?
    ensures exists i :: (0 <= i < |alts| && alts[i] == FirstTokenAt(line, at, alts).value
      && forall j :: 0 <= j < i ==> !HasAt(line, at, alts[j]))
  {
    if !HasAt(line, at, alts[0]) {
      FirstTokenIsEarliest(line, at, alts[1..]);
      var i :| 0 <= i < |alts[1..]| && alts[1..][i] == FirstTokenAt(line, at, alts[1..]).value
        && forall j :: 0 <= j < i ==> !HasAt(line, at, alts[1..][j]);
      assert alts[i + 1] == FirstTokenAt(line, at, alts).value;
      forall j | 0 <= j < i + 1 ensures !HasAt(line, at, alts[j]) {
        if j > 0 {
          assert alts[j] == alts[1..][j - 1];
        }
      }
    } else {
      assert alts[0] == FirstTokenAt(line, at, alts).value;
    }
  }

  /** `TokenAfterGap` reports the longest whitespace gap after which some
      alternative fits: no alternative fits after a longer one. */
  lemma {:induction false} TokenAfterGapIsLongest(line: string, from: nat, alts: seq<string>, gap: nat)
    requires from + gap <= |line|
    requires TokenAfterGap(line, from, alts, gap).Some?
    ensures var g := TokenAfterGap(line, from, alts, gap).value.0;
      forall j, t :: from + g < j <= from + gap && t in alts ==> !HasAt(line, j, t)
  {
    if FirstTokenAt(line, from + gap, alts).None? {
      FirstTokenAtSound(line, from + gap, alts);
      TokenAfterGapIsLongest(line, from, alts, gap - 1);
    }
  }

  /** Leftmost-first preference of the regex engine, first half: the
      reported capture uses the longest whitespace gap after the opener at
      which some alternative fits. */
  lemma CaptureLongestGap(line: string, tokens: seq<string>, c: Capture)
    requires CaptureLine(line, tokens) == Some(c)
    ensures forall j, t ::
      (c.indent + |c.opener| + c.gap < j <= c.indent + |c.opener| + SpaceRun(line, c.indent + |c.opener|)
       && t in Alternatives(tokens))
      ==> !HasAt(line, j, t)
  {
    var from := c.indent + |c.opener|;
    CaptureParts(line, tokens, c, from);
    TokenAfterGapIsLongest(line, from, Alternatives(tokens), SpaceRun(line, from));
  }

  /** Second half: at `at`, where the reported token starts, the token is
      the earliest alternative in list order that fits. */
  lemma CaptureEarliestToken(line: string, tokens: seq<string>, c: Capture, at: nat)
    requires CaptureLine(line, tokens) == Some(c)
    requires at == c.indent + |c.opener| + c.gap
    ensures exists i :: (0 <= i < |Alternatives(tokens)| && Alternatives(tokens)[i] == c.token
      && forall j :: 0 <= j < i ==> !HasAt(line, at, Alternatives(tokens)[j]))
  {
    var from := c.indent + |c.opener|;
    CaptureParts(line, tokens, c, from);
    GapSearchFirst(line, from, Alternatives(tokens), c.gap, c.token);
    EarliestToken(line, at, Alternatives(tokens), c.token);
  }

  /** `FirstTokenIsEarliest` for a known result. */
  lemma EarliestToken(line: string, at: nat, alts: seq<string>, token: string)
    requires FirstTokenAt(line, at, alts) == Some(token)
    ensures exists i :: (0 <= i < |alts| && alts[i] == token
      && forall j :: 0 <= j < i ==> !HasAt(line, at, alts[j]))
  {
    FirstTokenIsEarliest(line, at, alts);
  }

  /** The token the gap search reports is the first alternative found
      after the reported gap. */
  lemma GapSearchFirst(line: string, from: nat, alts: seq<string>, gap: nat, token: string)
    requires from <= |line|
    requires TokenAfterGap(line, from, alts, SpaceRun(line, from)) == Some((gap, token))
    ensures FirstTokenAt(line, from + gap, alts) == Some(token)
  {
    TokenAfterGapSound(line, from, alts, SpaceRun(line, from));
  }

  /** The opener's first character is not whitespace, so the indent of any
      fit is the whole leading whitespace run. */
  lemma FitForcesIndent(line: string, c: Capture)
    requires Fits(line, c)
    ensures c.indent == SpaceRun(line, 0)
  {
    assert line[c.indent + 0] == c.opener[0];
  }

  /** Whitespace between `from` and `from + gap` lies within the run. */
  lemma GapWithinRun(line: string, from: nat, gap: nat)
    requires from + gap <= |line| && SpacesIn(line, from, from + gap)
    ensures gap <= SpaceRun(line, from)
  {
  }

  /** A run of `n` whitespace characters at `from` that is not followed by
      more whitespace is the run `SpaceRun` measures. */
  lemma SpaceRunIs(s: string, from: nat, n: nat)
    requires from + n <= |s| && SpacesIn(s, from, from + n)
    requires from + n < |s| ==> !IsSpace(s[from + n])
    ensures SpaceRun(s, from) == n
  {
    GapWithinRun(s, from, n);
  }

  /** The match the engine reports, assembled from its parts: the indent,
      the opener found there, the longest whitespace run after it, and the
      first alternative found right after that run. */
  lemma MatchLineIs(line: string, tokens: seq<string>, indent: nat, o: string, gap: nat, t: string)
    requires SpaceRun(line, 0) == indent
    requires o in CommentOpeners() && HasAt(line, indent, o)
    requires indent + |o| + gap <= |line| && SpaceRun(line, indent + |o|) == gap
    requires FirstTokenAt(line, indent + |o| + gap, Alternatives(tokens)) == Some(t)
    ensures MatchLine(line, tokens) == Some(t)
  {
    OpenerUnique(line, indent, o);
  }

  /** A line whose first non-blank character cannot start an opener does
      not match. */
  lemma NoOpener(line: string, tokens: seq<string>, indent: nat)
    requires SpaceRun(line, 0) == indent
    requires indent < |line| && line[indent] !in {'/', '#', '*', '<'}
    ensures MatchLine(line, tokens) == None
  {
    forall o | o in CommentOpeners() ensures !HasAt(line, indent, o) {
      assert line[indent + 0] != o[0];
    }
  }

  /** The first alternative does not fit, so the search moves on. */
  lemma FirstTokenSkip(line: string, at: nat, alts: seq<string>)
    requires alts != [] && !HasAt(line, at, alts[0])
    ensures FirstTokenAt(line, at, alts) == FirstTokenAt(line, at, alts[1..])
  {
  }

  /** Which alternative fits at the end of `pre` depends only on what
      follows it. */
  lemma {:induction false} FirstTokenAtShift(pre: string, suf: string, alts: seq<string>)
    ensures FirstTokenAt(pre + suf, |pre|, alts) == FirstTokenAt(suf, 0, alts)
  {
    if alts != [] {
      var line := pre + suf;
      assert HasAt(line, |pre|, alts[0]) <==> HasAt(suf, 0, alts[0]) by {
        forall k | 0 <= k < |suf| ensures line[|pre| + k] == suf[k] {
        }
      }
      FirstTokenAtShift(pre, suf, alts[1..]);
    }
  }

  /** A comment line: whitespace, an opener, whitespace, then text that
      starts with a non-blank character and at whose front `t` is the first
      alternative that fits.  The rule matches it and captures `t`. */
  lemma CommentLine(line: string, indent: string, o: string, gap: string, text: string, tokens: seq<string>, t: string)
    requires line == indent + o + gap + text
    requires AllSpaces(indent) && o in CommentOpeners() && AllSpaces(gap)
    requires text != [] && !IsSpace(text[0])
    requires FirstTokenAt(text, 0, Alternatives(tokens)) == Some(t)
    ensures MatchLine(line, tokens) == Some(t)
  {
    CommentPrefix(indent, o, gap, text);
    FirstTokenAtShift(indent + o + gap, text, Alternatives(tokens));
    MatchLineIs(indent + o + gap + text, tokens, |indent|, o, |gap|, t);
  }

  /** The indent, the opener and the gap of such a line are where the
      matcher looks for them. */
  lemma CommentPrefix(indent: string, o: string, gap: string, text: string)
    requires AllSpaces(indent) && o in CommentOpeners() && AllSpaces(gap)
    requires text != [] && !IsSpace(text[0])
    ensures var line := indent + o + gap + text;
      |indent| + |o| + |gap| <= |line| && SpaceRun(line, 0) == |indent|
      && HasAt(line, |indent|, o) && SpaceRun(line, |indent| + |o|) == |gap|
  {
    var line := indent + o + gap + text;
    assert line[|indent|] == o[0];
    SpaceRunIs(line, 0, |indent|);
    assert HasAt(line, |indent|, o) by {
      forall k | 0 <= k < |o| ensures line[|indent| + k] == o[k] {
      }
    }
    assert line[|indent| + |o| + |gap|] == text[0];
    SpaceRunIs(line, |indent| + |o|, |gap|);
  }

  // The lines the marker rule is checked against in src/scanner.rs.

  lemma RegexExampleSlashes()
    ensures MatchLine("// TODO: fix this", ["TODO", "FIXME"]) == Some("TODO")
  {
    CommentLine("// TODO: fix this", "", "//", " ", "TODO: fix this", ["TODO", "FIXME"], "TODO");
  }

  lemma RegexExampleHash()
    ensures MatchLine("# FIXME: broken", ["TODO", "FIXME"]) == Some("FIXME")
  {
    var text := "FIXME: broken";
    assert text[0] != "TODO"[0];
    CommentLine("# FIXME: broken", "", "#", " ", text, ["TODO", "FIXME"], "FIXME");
  }

  lemma RegexExampleBlock()
    ensures MatchLine("/* TODO something */", ["TODO", "FIXME"]) == Some("TODO")
  {
    CommentLine("/* TODO something */", "", "/*", " ", "TODO something */", ["TODO", "FIXME"], "TODO");
  }

  lemma RegexExampleStar()
    ensures MatchLine("  * FIXME: stuff", ["TODO", "FIXME"]) == Some("FIXME")
  {
    var text := "FIXME: stuff";
    assert text[0] != "TODO"[0];
    CommentLine("  * FIXME: stuff", "  ", "*", " ", text, ["TODO", "FIXME"], "FIXME");
  }

  lemma RegexExampleProse()
    ensures MatchLine("This is a TODO in prose", ["TODO", "FIXME"]) == None
  {
    var line := "This is a TODO in prose";
    SpaceRunIs(line, 0, 0);
    NoOpener(line, ["TODO", "FIXME"], 0);
  }

  /** There is no word boundary after the token: "TODOS" is read as TODO. */
  lemma RegexExampleNoBoundary()
    ensures MatchLine("// TODOS", ["TODO", "FIXME"]) == Some("TODO")
  {
    CommentLine("// TODOS", "", "//", " ", "TODOS", ["TODO", "FIXME"], "TODO");
  }
}
