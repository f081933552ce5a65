/**
 * The text post-processing of clean_html_content (src/parsing/html_cleaner.py),
 * starting from the string that the HTML parser's get_text() returned: the
 * line filter, the collapsing of space and tab runs, the ten entity
 * replacements in their fixed order, the removal of tag-like spans and of two
 * left-over artifacts, and the final strips.
 */
module HtmlCleaner {
  import opened Text

  // ---------------------------------------------------------------------------
  // str.splitlines()

  /** The line boundaries str.splitlines() recognises. */
  const LineBreaks: set<char> := {
    '\n', '\r', '\U{0B}', '\U{0C}', '\U{1C}', '\U{1D}', '\U{1E}', '\U{85}', '\U{2028}', '\U{2029}'
  }

  predicate NoBreak(s: string)
  {
    forall k | 0 <= k < |s| :: s[k] !in LineBreaks
  }

  /** The index of the first line boundary, or |s| when there is none. */
  function BreakAt(s: string): (i: nat)
    ensures i <= |s|
    ensures forall k | 0 <= k < i :: s[k] !in LineBreaks
    ensures i < |s| ==> s[i] in LineBreaks
  {
    if s == [] || s[0] in LineBreaks then 0 else BreakAt(s[1..]) + 1
  }

  /** "\r\n" is one boundary of two characters; every other boundary is one character. */
  function BreakLen(s: string, i: nat): (n: nat)
    requires i < |s| && s[i] in LineBreaks
    ensures 1 <= n && i + n <= |s|
    ensures forall k | i <= k < i + n :: s[k] in LineBreaks
  {
    if s[i] == '\r' && i + 1 < |s| && s[i + 1] == '\n' then 2 else 1
  }

  /** str.splitlines(): the text between consecutive line boundaries, with no
      piece after a final boundary, so "" has no lines at all. */
  function SplitLines(s: string): (lines: seq<string>)
    ensures lines == [] <==> s == []
    ensures forall k | 0 <= k < |lines| :: NoBreak(lines[k])
    decreases |s|
  {
    if s == [] then []
    else
      var i := BreakAt(s);
      if i == |s| then [s] else [s[..i]] + SplitLines(s[i + BreakLen(s, i)..])
  }

  function Concat(parts: seq<string>): string
  {
    if parts == [] then [] else parts[0] + Concat(parts[1..])
  }

  /** The text after the first line boundary. */
  function AfterBreak(s: string): string
    requires BreakAt(s) < |s|
  {
    s[BreakAt(s) + BreakLen(s, BreakAt(s))..]
  }

  lemma ConcatStep(s: string)
    requires s != [] && BreakAt(s) < |s|
    ensures Concat(SplitLines(s)) == s[..BreakAt(s)] + Concat(SplitLines(AfterBreak(s)))
  {
    var tail := SplitLines(AfterBreak(s));
    assert ([s[..BreakAt(s)]] + tail)[1..] == tail;
  }

  /** Splitting into lines loses exactly the line boundaries: the pieces put back
      together are the text without its boundary characters. */
  lemma {:induction false} SplitLinesConcat(s: string)
    ensures Concat(SplitLines(s)) == Without(s, LineBreaks)
    decreases |s|
  {
    if s != [] {
      if BreakAt(s) == |s| {
        WithoutNone(s, LineBreaks);
        assert s[..BreakAt(s)] == s;
      } else {
        SplitLinesConcat(AfterBreak(s));
        ConcatStep(s);
        WithoutGap(s, LineBreaks, BreakAt(s), BreakAt(s) + BreakLen(s, BreakAt(s)));
      }
    }
  }

  // ---------------------------------------------------------------------------
  // The line filter

  function StripEach(raw: seq<string>): (r: seq<string>)
  {
    seq(|raw|, k requires 0 <= k < |raw| => Strip(raw[k]))
  }

  /** The lines the filter keeps: each line stripped, the empty ones dropped. */
  function KeptLines(raw: seq<string>): seq<string>
    decreases |raw|
  {
    if raw == [] then []
    else KeptLines(raw[..|raw| - 1]) + KeptLine(raw[|raw| - 1])
  }

  /** What one line contributes: its stripped text, unless that is empty. */
  function KeptLine(raw: string): seq<string>
  {
    var line := Strip(raw);
    if line != [] then [line] else []
  }

  /** Every kept line is non-empty and stripped, and there are no more kept
      lines than lines. */
  lemma {:induction false} KeptLinesGood(raw: seq<string>)
    ensures |KeptLines(raw)| <= |raw|
    ensures forall k | 0 <= k < |KeptLines(raw)| :: KeptLines(raw)[k] != [] && IsStripped(KeptLines(raw)[k])
    decreases |raw|
  {
    if raw != [] {
      var init := raw[..|raw| - 1];
      KeptLinesGood(init);
      var prev, last := KeptLines(init), KeptLine(raw[|raw| - 1]);
      var kept := KeptLines(raw);
      assert kept == prev + last;
      forall k | 0 <= k < |kept|
        ensures kept[k] != [] && IsStripped(kept[k])
      {
        if k < |prev| {
          assert kept[k] == prev[k];
        } else {
          assert kept[k] == last[k - |prev|] == Strip(raw[|raw| - 1]);
        }
      }
    }
  }

  /** KeptLines over one more line. */
  lemma KeptLinesNext(raw: seq<string>, i: nat)
    requires i < |raw|
    ensures KeptLines(raw[..i + 1]) == KeptLines(raw[..i]) + KeptLine(raw[i])
  {
    assert raw[..i + 1][..i] == raw[..i];
  }


  /** One pass of the filter loop's body. */
  method KeepLine(lines: seq<string>, raw: string) returns (lines': seq<string>)
    ensures lines' == lines + KeptLine(raw)
  {
    lines' := lines;
    var line := Strip(raw);
    if line != [] {
      lines' := lines + [line];
    }
  }

  /** The kept lines appear in the order of the lines they come from. */
  lemma {:induction false} KeptLinesOrder(raw: seq<string>)
    ensures IsSubseq(KeptLines(raw), StripEach(raw))
    decreases |raw|
  {
    if raw != [] {
      var init := raw[..|raw| - 1];
      KeptLinesOrder(init);
      var se := StripEach(raw);
      assert se[..|se| - 1] == StripEach(init);
      var kept := KeptLines(raw);
      if Strip(raw[|raw| - 1]) != [] {
        assert kept[..|kept| - 1] == KeptLines(init);
        assert kept[|kept| - 1] == se[|se| - 1];
      } else {
        assert kept == KeptLines(init);
        SubseqShrink(KeptLines(init), StripEach(init), se);
      }
    }
  }

  /** No non-empty line is dropped. */
  lemma {:induction false} KeptLinesComplete(raw: seq<string>, k: nat)
    requires k < |raw| && Strip(raw[k]) != []
    ensures Strip(raw[k]) in KeptLines(raw)
    decreases |raw|
  {
    var init := raw[..|raw| - 1];
    var kept := KeptLines(raw);
    assert kept == KeptLines(init) + KeptLine(raw[|raw| - 1]);
    if k < |raw| - 1 {
      assert init[k] == raw[k];
      KeptLinesComplete(init, k);
      var j :| 0 <= j < |KeptLines(init)| && KeptLines(init)[j] == Strip(raw[k]);
      assert kept[j] == KeptLines(init)[j];
    } else {
      assert kept[|kept| - 1] == Strip(raw[k]);
    }
  }

  /** Stripping keeps a line free of line boundaries. */
  lemma {:induction false} KeptLinesNoBreak(raw: seq<string>)
    requires forall k | 0 <= k < |raw| :: NoBreak(raw[k])
    ensures forall k | 0 <= k < |KeptLines(raw)| :: NoBreak(KeptLines(raw)[k])
    decreases |raw|
  {
    if raw != [] {
      var init := raw[..|raw| - 1];
      var x := raw[|raw| - 1];
      KeptLinesNoBreak(init);
      assert NoBreak(x);
      var line := Strip(x);
      forall k | 0 <= k < |line|
        ensures line[k] !in LineBreaks
      {
        assert line[k] == x[StripStart(x) + k];
      }
    }
  }

  /** The filter loop at lines 33-37: it appends each stripped, non-empty line. */
  method CollectLines(text: string) returns (lines: seq<string>)
    ensures lines == KeptLines(SplitLines(text))
  {
    var raw := SplitLines(text);
    lines := [];
    var i := 0;
    while i < |raw|
      invariant 0 <= i <= |raw|
      invariant lines == KeptLines(raw[..i])
    {
      KeptLinesNext(raw, i);
      lines := KeepLine(lines, raw[i]);
      i := i + 1;
    }
    assert raw[..|raw|] == raw;
  }

  /** '\n'.join(lines) after the filter. */
  function JoinedLines(text: string): string
  {
    Join(KeptLines(SplitLines(text)), '\n')
  }

  /** The joined text consists of the kept lines, each stripped, non-empty and
      free of line boundaries, separated by single '\n' characters; without any
      kept line it is empty. */
  lemma JoinedLinesShape(text: string)
    ensures KeptLines(SplitLines(text)) == [] ==> JoinedLines(text) == []
    ensures KeptLines(SplitLines(text)) != [] ==> Split(JoinedLines(text), '\n') == KeptLines(SplitLines(text))
    ensures forall k | 0 <= k < |KeptLines(SplitLines(text))| :: NoBreak(KeptLines(SplitLines(text))[k])
  {
    var kept := KeptLines(SplitLines(text));
    KeptLinesNoBreak(SplitLines(text));
    if kept != [] {
      forall k | 0 <= k < |kept|
        ensures '\n' !in kept[k]
      {
        assert NoBreak(kept[k]);
      }
      JoinThenSplit(kept, '\n');
    }
  }

  // ---------------------------------------------------------------------------
  // Substitutions

  const SpaceTab: set<char> := {' ', '\t'}

  /** re.sub(r'[ \t]+', ' ', text). */
  function CollapseSpaces(t: string): (r: string)
  {
    CollapseRuns(t, SpaceTab)
  }

  /** Collapsing space and tab runs never removes, adds or reorders any other
      character, line boundaries included. */
  lemma CollapseSpacesKeepsLines(t: string)
    ensures Without(CollapseSpaces(t), SpaceTab) == Without(t, SpaceTab)
  {
    CollapseRunsWithout(t, SpaceTab);
  }

  /** A maximal run of spaces and tabs becomes exactly one space, and the text
      on either side of it is collapsed on its own. */
  lemma CollapseSpacesRun(x: string, run: string, y: string)
    requires run != []
    requires forall k | 0 <= k < |run| :: run[k] in SpaceTab
    requires x == [] || x[|x| - 1] !in SpaceTab
    requires y == [] || y[0] !in SpaceTab
    ensures CollapseSpaces(x + run + y) == CollapseSpaces(x) + " " + CollapseSpaces(y)
  {
    CollapseRunsRun(x, run, y, SpaceTab);
  }

  /** Collapsing works piece by piece wherever the pieces do not meet inside a
      run of spaces and tabs. */
  lemma CollapseSpacesConcat(x: string, y: string)
    requires x == [] || y == [] || x[|x| - 1] !in SpaceTab || y[0] !in SpaceTab
    ensures CollapseSpaces(x + y) == CollapseSpaces(x) + CollapseSpaces(y)
  {
    CollapseRunsConcat(x, y, SpaceTab);
  }

  /** A text with no space or tab is left as it is. */
  lemma CollapseSpacesNone(t: string)
    requires forall k | 0 <= k < |t| :: t[k] !in SpaceTab
    ensures CollapseSpaces(t) == t
  {
    CollapseRunsNone(t, SpaceTab);
  }

  /** Literal replacements applied one after the other, in table order. */
  function ReplaceEach(t: string, table: seq<(string, string)>): string
    requires forall k | 0 <= k < |table| :: table[k].0 != []
    decreases |table|
  {
    if table == [] then t else ReplaceEach(ReplaceAll(t, table[0].0, table[0].1), table[1..])
  }

  /** The entity replacements of lines 46-55, in their order. */
  const Entities: seq<(string, string)> := [
    ("&nbsp;", " "), ("&amp;", "&"), ("&lt;", "<"), ("&gt;", ">"), ("&quot;", "\""),
    ("&apos;", "'"), ("&#160;", " "), ("&#8217;", "'"), ("&#8211;", "-"), ("&#8212;", "--")
  ]

  /** Every pattern of the table starts with '&' and is at least four long. */
  lemma EntityPatterns()
    ensures |Entities| == 10
    ensures forall k | 0 <= k < |Entities| :: |Entities[k].0| >= 4 && Entities[k].0[0] == '&'
  {
  }

  predicate Disjoint(rep: string, q: string)
  {
    forall c | c in rep :: c !in q
  }

  /** Replacements whose replacement texts avoid q keep q absent. */
  lemma {:induction false} ReplaceEachKeepsAbsent(t: string, table: seq<(string, string)>, q: string)
    requires forall k | 0 <= k < |table| :: table[k].0 != [] && table[k].1 != [] && Disjoint(table[k].1, q)
    requires q != [] && !Contains(t, q)
    ensures !Contains(ReplaceEach(t, table), q)
    decreases |table|
  {
    if table != [] {
      ReplaceAllAvoids(t, table[0].0, table[0].1, q);
      ReplaceEachKeepsAbsent(ReplaceAll(t, table[0].0, table[0].1), table[1..], q);
    }
  }

  /** The k-th pattern is gone from the result when neither its own replacement
      nor any later one can rebuild it. */
  lemma {:induction false} ReplaceEachRemoves(t: string, table: seq<(string, string)>, k: nat)
    requires forall j | 0 <= j < |table| :: table[j].0 != [] && table[j].1 != []
    requires k < |table|
    requires forall j | k <= j < |table| :: Disjoint(table[j].1, table[k].0)
    ensures !Contains(ReplaceEach(t, table), table[k].0)
    decreases k
  {
    var t1 := ReplaceAll(t, table[0].0, table[0].1);
    if k == 0 {
      ReplaceAllAvoids(t, table[0].0, table[0].1, table[0].0);
      ReplaceEachKeepsAbsent(t1, table[1..], table[0].0);
    } else {
      assert table[1..][k - 1] == table[k];
      ReplaceEachRemoves(t1, table[1..], k - 1);
    }
  }

  /** Lines 46-55. */
  function DecodeEntities(t: string): string
  {
    ReplaceEach(t, Entities)
  }

  /** After the ten replacements none of the last eight entities is left. The
      first two can reappear: "&amp;" becomes "&" before the later patterns are
      tried, so "&amp;nbsp;" ends as "&nbsp;" and "&amp;amp;" as "&amp;". */
  lemma DecodeEntitiesRemoves(t: string)
    ensures forall k | 2 <= k < |Entities| :: !Contains(DecodeEntities(t), Entities[k].0)
  {
    forall k | 2 <= k < |Entities|
      ensures !Contains(DecodeEntities(t), Entities[k].0)
    {
      ReplaceEachRemoves(t, Entities, k);
    }
  }

  /** A text shorter than every pattern of the table is left alone. */
  lemma {:induction false} ReplaceEachShort(t: string, table: seq<(string, string)>)
    requires forall k | 0 <= k < |table| :: table[k].0 != [] && |t| < |table[k].0|
    ensures ReplaceEach(t, table) == t
    decreases |table|
  {
    if table != [] {
      ReplaceAllShort(t, table[0].0, table[0].1);
      ReplaceEachShort(t, table[1..]);
    }
  }

  /** A text with no '&' has no entity to decode. */
  lemma NoAmpersand(t: string, q: string)
    requires q != [] && q[0] == '&' && '&' !in t
    ensures !Contains(t, q)
  {
    forall i | 0 <= i <= |t| - |q|
      ensures !OccursAt(t, q, i)
    {
      assert t[i..i + |q|][0] == t[i];
    }
  }

  /** Replacements none of whose patterns occurs leave the text alone. */
  lemma {:induction false} ReplaceEachUntouched(t: string, table: seq<(string, string)>)
    requires forall k | 0 <= k < |table| :: table[k].0 != [] && !Contains(t, table[k].0)
    ensures ReplaceEach(t, table) == t
    decreases |table|
  {
    if table != [] {
      ReplaceAllAbsent(t, table[0].0, table[0].1);
      ReplaceEachUntouched(t, table[1..]);
    }
  }

  /** A text whose only '&' is its first character holds no pattern that starts
      with '&' unless the pattern fits and agrees on the second character. */
  lemma LeadingAmp(t: string, q: string)
    requires t != [] && t[0] == '&' && '&' !in t[1..]
    requires |q| >= 2 && q[0] == '&' && (|q| <= |t| ==> q[1] != t[1])
    ensures !Contains(t, q)
  {
    forall i | 0 <= i <= |t| - |q|
      ensures !OccursAt(t, q, i)
    {
      assert t[i..i + |q|][0] == t[i] && t[i..i + |q|][1] == t[i + 1];
      if i > 0 {
        assert t[1..][i - 1] == t[i];
      }
    }
  }

  /** One replacement of a table applied. */
  lemma ReplaceEachFirst(t: string, table: seq<(string, string)>)
    requires table != [] && forall k | 0 <= k < |table| :: table[k].0 != []
    ensures ReplaceEach(t, table) == ReplaceEach(ReplaceAll(t, table[0].0, table[0].1), table[1..])
  {
  }

  /** "&nbsp;" does not occur in "&amp;" followed by a short text without '&',
      and the "&amp;" prefix is then the only match of the second pattern. */
  lemma EscapedPair(t: string, x: string)
    requires t == "&amp;" + x
    requires '&' !in x && |x| < 5
    ensures ReplaceAll(ReplaceAll(t, "&nbsp;", " "), "&amp;", "&") == "&" + x
  {
    assert t[1..] == "amp;" + x;
    LeadingAmp(t, "&nbsp;");
    ReplaceAllAbsent(t, "&nbsp;", " ");
    assert StartsWith(t, "&amp;") && t[5..] == x;
    ReplaceAllShort(x, "&amp;", "&");
  }

  /** The first two replacements over "&amp;" followed by a short text without
      '&': the "&amp;" prefix is the only match. */
  lemma EscapedStep(t: string, x: string)
    requires t == "&amp;" + x
    requires '&' !in x && |x| < 5
    ensures ReplaceEach(t, Entities) == ReplaceEach("&" + x, Entities[2..])
  {
    EscapedPair(t, x);
    ReplaceEachFirst(t, Entities);
    ReplaceEachFirst(ReplaceAll(t, "&nbsp;", " "), Entities[1..]);
    assert Entities[1..][1..] == Entities[2..];
  }

  /** "&lt;" is decoded by the third replacement and nothing later changes the "<". */
  lemma DecodeLt(x: string)
    requires x == "lt;"
    ensures ReplaceEach("&" + x, Entities[2..]) == "<"
  {
    var u := "&" + x;
    assert StartsWith(u, "&lt;") && u[4..] == [];
    assert ReplaceAll(u, "&lt;", "<") == "<";
    ReplaceEachFirst(u, Entities[2..]);
    assert Entities[2..][1..] == Entities[3..];
    ReplaceEachShort("<", Entities[3..]);
  }

  /** The replacements are sequential: an escaped entity is decoded twice. */
  lemma DecodeEntitiesSequential(t: string)
    requires t == "&amp;lt;"
    ensures DecodeEntities(t) == "<"
  {
    var x := t[5..];
    assert t == "&amp;" + x && x == "lt;";
    EscapedStep(t, x);
    DecodeLt(x);
  }

  /** "&amp;" passes through the eight replacements after the second untouched. */
  lemma AmpSurvives(x: string)
    requires x == "amp;"
    ensures ReplaceEach("&" + x, Entities[2..]) == "&" + x
  {
    var t := "&" + x;
    assert t[1..] == "amp;";
    var later := Entities[2..];
    forall k | 0 <= k < |later|
      ensures later[k].0 != [] && !Contains(t, later[k].0)
    {
      LeadingAmp(t, later[k].0);
    }
    ReplaceEachUntouched(t, later);
  }

  /** "&amp;" decodes to "&". */
  lemma DecodeAmp(x: string)
    requires x == "amp;"
    ensures DecodeEntities("&" + x) == "&"
  {
    var u := "&" + x;
    var y := u[5..];
    assert u == "&amp;" + y && y == [];
    EscapedStep(u, y);
    LoneAmp("&" + y);
  }

  /** A lone '&' is shorter than every later pattern. */
  lemma LoneAmp(u: string)
    requires |u| == 1
    ensures ReplaceEach(u, Entities[2..]) == u
  {
    EntityPatterns();
    ReplaceEachShort(u, Entities[2..]);
  }

  /** "&amp;amp;" decodes to "&amp;", which decodes again to "&": the decoding
      is not idempotent. */
  lemma DecodeEntitiesNotIdempotent(t: string)
    requires t == "&amp;amp;"
    ensures DecodeEntities(t) == "&amp;"
    ensures DecodeEntities(DecodeEntities(t)) == "&"
  {
    DecodeEscapedAmp(t);
    DecodeAmp(t[5..]);
  }

  /** "&amp;amp;" decodes to "&" followed by its own tail "amp;". */
  lemma DecodeEscapedAmp(t: string)
    requires t == "&amp;amp;"
    ensures t[5..] == "amp;" && DecodeEntities(t) == "&" + t[5..]
  {
    var x := t[5..];
    assert t == "&amp;" + x && x == "amp;";
    EscapedStep(t, x);
    AmpSurvives(x);
  }

  /** Lines 58-59: re.sub(r'<[^>]*>', '') and then re.sub(r'/[^>]*>', ''). */
  function RemoveTags(t: string): (r: string)
    ensures NoPair(r, '<', '>') && NoPair(r, '/', '>')
  {
    var r1 := RemoveBracketed(t, '<');
    RemoveBracketedKeepsNoPair(r1, '/', '<', '>');
    RemoveBracketed(r1, '/')
  }

  /** A tag is removed and nothing around it: the text before it is kept and
      the text after it is processed on its own. */
  lemma RemoveTagsSpan(x: string, y: string, z: string)
    requires '<' !in x && '/' !in x && '>' !in y
    ensures RemoveTags(x + "<" + y + ">" + z) == x + RemoveTags(z)
  {
    RemoveBracketedSpan(x, y, z, '<');
    RemoveBracketedFree(x, RemoveBracketed(z, '<'), '/');
  }

  /** Text with no '<' or '/' followed by a '>' has no tag and is left as it is. */
  lemma RemoveTagsNone(t: string)
    requires NoPair(t, '<', '>') && NoPair(t, '/', '>')
    ensures RemoveTags(t) == t
  {
    RemoveBracketedNoPair(t, '<');
    RemoveBracketedNoPair(t, '/');
  }

  const NbspCode: string := "#160;"
  const BreakArtifact: string := "br clear=\"none\""

  /** Lines 60-61: "#160;" becomes a space and 'br clear="none"' is deleted. */
  function RemoveArtifacts(t: string): string
  {
    ReplaceAll(ReplaceAll(t, NbspCode, " "), BreakArtifact, "")
  }

  /** The artifact replacements touch no '<', '/' or '>' and so keep both
      tag guarantees. */
  lemma RemoveArtifactsKeepsNoPair(t: string, a: char)
    requires a == '<' || a == '/'
    requires NoPair(t, a, '>')
    ensures NoPair(RemoveArtifacts(t), a, '>')
  {
    var b1 := {'#', '1', '6', '0', ';', ' '};
    var b2 := {'b', 'r', ' ', 'c', 'l', 'e', 'a', '=', '"', 'n', 'o'};
    var t1 := ReplaceAll(t, NbspCode, " ");
    ReplaceAllWithout(t, NbspCode, " ", b1);
    NoPairWithout(t, b1, a, '>');
    NoPairWithout(t1, b1, a, '>');
    ReplaceAllWithout(t1, BreakArtifact, "", b2);
    NoPairWithout(t1, b2, a, '>');
    NoPairWithout(RemoveArtifacts(t), b2, a, '>');
  }

  /** Line 60 leaves no "#160;" behind, and a text holding neither artifact
      passes lines 60-61 unchanged. */
  lemma RemoveArtifactsEffect(t: string)
    ensures !Contains(ReplaceAll(t, NbspCode, " "), NbspCode)
    ensures !Contains(t, NbspCode) && !Contains(t, BreakArtifact) ==> RemoveArtifacts(t) == t
  {
    ReplaceAllAvoids(t, NbspCode, " ", NbspCode);
    if !Contains(t, NbspCode) && !Contains(t, BreakArtifact) {
      ReplaceAllAbsent(t, NbspCode, " ");
      ReplaceAllAbsent(t, BreakArtifact, "");
    }
  }

  /** Lines 43-67 after the filter. */
  function CleanHtmlContent(text: string): string
  {
    var spaced := CollapseSpaces(JoinedLines(text));
    var decoded := DecodeEntities(spaced);
    var tidied := RemoveArtifacts(RemoveTags(decoded));
    Strip(Strip(CollapseSpaces(tidied)))
  }

  predicate Tidy(t: string)
  {
    (forall k | 0 <= k < |t| :: t[k] != '\t') &&
    (forall k | 0 <= k < |t| - 1 :: !(t[k] == ' ' && t[k + 1] == ' '))
  }

  /** After collapsing, the text has no tab and no two adjacent spaces. */
  lemma CollapseSpacesTidy(t: string)
    ensures Tidy(CollapseSpaces(t))
  {
    CollapseRunsShape(t, SpaceTab);
  }

  /** Stripping a tidy text leaves it tidy. */
  lemma StripTidy(c: string)
    requires Tidy(c)
    ensures Tidy(Strip(c))
  {
    var r := Strip(c);
    var lo := StripStart(c);
    forall k | 0 <= k < |r|
      ensures r[k] == c[lo + k]
    {
    }
    forall k | 0 <= k < |r| - 1
      ensures !(r[k] == ' ' && r[k + 1] == ' ')
    {
      assert r[k + 1] == c[lo + k + 1];
    }
  }

  /** Collapsing and stripping keep an a-before-'>' guarantee when a is neither
      a space nor a tab. */
  lemma FinishKeepsNoPair(t: string, a: char)
    requires a != ' ' && a != '\t' && NoPair(t, a, '>')
    ensures NoPair(Strip(Strip(CollapseSpaces(t))), a, '>')
  {
    CollapseKeepsNoPair(t, a);
    StripKeepsNoPair(CollapseSpaces(t), a);
    StripKeepsNoPair(Strip(CollapseSpaces(t)), a);
  }

  lemma CollapseKeepsNoPair(t: string, a: char)
    requires a != ' ' && a != '\t' && NoPair(t, a, '>')
    ensures NoPair(CollapseSpaces(t), a, '>')
  {
    CollapseRunsWithout(t, SpaceTab);
    NoPairWithout(t, SpaceTab, a, '>');
    NoPairWithout(CollapseSpaces(t), SpaceTab, a, '>');
  }

  lemma StripKeepsNoPair(c: string, a: char)
    requires NoPair(c, a, '>')
    ensures NoPair(Strip(c), a, '>')
  {
    var lo := StripStart(c);
    NoPairSlice(c, a, '>', lo, lo + |Strip(c)|);
  }

  /** The closing collapse and strips of lines 64-67 on any text. */
  lemma FinishShape(t: string)
    ensures IsStripped(Strip(Strip(CollapseSpaces(t))))
    ensures Tidy(Strip(Strip(CollapseSpaces(t))))
  {
    var r := Strip(CollapseSpaces(t));
    StrippedFixed(r);
    CollapseSpacesTidy(t);
    StripTidy(CollapseSpaces(t));
  }

  /** Every stage maps the empty text to the empty text. */
  lemma CleanHtmlContentEmpty(text: string)
    requires text == []
    ensures CleanHtmlContent(text) == []
  {
    assert JoinedLines(text) == [];
    ReplaceEachShort([], Entities);
    assert RemoveTags([]) == [];
    assert RemoveArtifacts([]) == [];
  }

  /** The cleaned text has no whitespace at either end, no tab and no two
      adjacent spaces, no '<' or '/' followed anywhere later by '>', and an
      empty text cleans to "". */
  lemma CleanHtmlContentShape(text: string)
    ensures IsStripped(CleanHtmlContent(text)) && Tidy(CleanHtmlContent(text))
    ensures NoPair(CleanHtmlContent(text), '<', '>') && NoPair(CleanHtmlContent(text), '/', '>')
    ensures text == [] ==> CleanHtmlContent(text) == []
  {
    var tagless := RemoveTags(DecodeEntities(CollapseSpaces(JoinedLines(text))));
    var tidied := RemoveArtifacts(tagless);
    assert CleanHtmlContent(text) == Strip(Strip(CollapseSpaces(tidied)));
    RemoveArtifactsKeepsNoPair(tagless, '<');
    RemoveArtifactsKeepsNoPair(tagless, '/');
    FinishShape(tidied);
    FinishKeepsNoPair(tidied, '<');
    FinishKeepsNoPair(tidied, '/');
    if text == [] {
      CleanHtmlContentEmpty(text);
    }
  }

  /** clean_html_content from line 32 on, given the parser's text: the line
      filter loop, then the substitutions in order. */
  method CleanHtml(text: string) returns (cleaned: string)
    ensures cleaned == CleanHtmlContent(text)
    ensures IsStripped(cleaned) && Tidy(cleaned)
    ensures NoPair(cleaned, '<', '>') && NoPair(cleaned, '/', '>')
    ensures text == [] ==> cleaned == []
  {
    var lines := CollectLines(text);
    var t := Join(lines, '\n');
    t := CollapseSpaces(t);
    t := DecodeEntities(t);
    t := RemoveTags(t);
    t := RemoveArtifacts(t);
    t := CollapseSpaces(t);
    t := Strip(t);
    cleaned := Strip(t);
    CleanHtmlContentShape(text);
  }
}
