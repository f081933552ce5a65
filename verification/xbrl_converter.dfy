/**
 * extract_narrative_sections, clean_financial_data and the report text of
 * convert_xbrl_to_text (src/parsing/xbrl_converter.py). The file read is
 * replaced by the content itself, and the HTML parser's get_text() is a
 * function parameter.
 */
module XbrlConverter {
  import opened Text
  import opened HtmlCleaner

  // ---------------------------------------------------------------------------
  // Isolating the document body (lines 21-26)

  const DocOpen: string := "<DOCUMENT>"
  const DocClose: string := "</DOCUMENT>"

  /** When both markers occur, the text from the first "<DOCUMENT>" up to (not
      including) the first "</DOCUMENT>", which is empty when the closing marker
      comes first; otherwise the content unchanged. */
  function Isolate(content: string): string
  {
    if Contains(content, DocOpen) && Contains(content, DocClose) then
      var start := Find(content, DocOpen);
      var end := Find(content, DocClose);
      if start <= end then content[start..end] else []
    else content
  }

  /** Without both markers the content is kept whole. */
  lemma IsolateMissing(content: string)
    requires !Contains(content, DocOpen) || !Contains(content, DocClose)
    ensures Isolate(content) == content
  {
  }

  /** A closing marker cannot start inside an opening one. */
  lemma MarkersApart(content: string, start: nat, end: nat)
    requires OccursAt(content, DocOpen, start) && OccursAt(content, DocClose, end)
    requires start < end
    ensures start + |DocOpen| <= end
  {
    assert forall d | start <= d < start + |DocOpen| :: content[d] == content[start..start + |DocOpen|][d - start];
    assert content[end] == content[end..end + |DocClose|][0] == '<';
    assert forall d | 1 <= d < |DocOpen| :: DocOpen[d] != '<';
  }

  /** A slice ending before the first occurrence of q does not hold q. */
  lemma SliceBeforeFirst(s: string, q: string, lo: nat, hi: nat)
    requires q != [] && lo <= hi <= |s|
    requires forall j | 0 <= j < hi :: !OccursAt(s, q, j)
    ensures !Contains(s[lo..hi], q)
  {
    var r := s[lo..hi];
    forall j | 0 <= j <= |r| - |q|
      ensures !OccursAt(r, q, j)
    {
      assert lo + j < hi;
      var w, v := s[lo + j..lo + j + |q|], r[j..j + |q|];
      assert forall k | 0 <= k < |q| :: w[k] == v[k];
      assert !OccursAt(s, q, lo + j);
    }
  }

  /** With both markers, the body is empty exactly when the first closing marker
      does not come after the first opening one; otherwise it starts with the
      opening marker and holds no closing marker. */
  lemma IsolateBody(content: string)
    requires Contains(content, DocOpen) && Contains(content, DocClose)
    ensures Isolate(content) == [] <==> Find(content, DocClose) <= Find(content, DocOpen)
    ensures Isolate(content) != [] ==> StartsWith(Isolate(content), DocOpen)
    ensures !Contains(Isolate(content), DocClose)
  {
    var start := Find(content, DocOpen);
    var end := Find(content, DocClose);
    if start < end {
      MarkersApart(content, start, end);
      var r := content[start..end];
      assert r[..|DocOpen|] == content[start..start + |DocOpen|];
      SliceBeforeFirst(content, DocClose, start, end);
    }
  }

  // ---------------------------------------------------------------------------
  // The keyword scan (lines 32-90)

  /** The phrases that open a narrative section (lines 38-55). */
  const NarrativeKeywords: seq<string> := [
    "management's discussion", "risk factors", "business overview", "results of operations",
    "liquidity and capital", "forward-looking statements", "covid-19", "pandemic",
    "revenue", "earnings", "growth", "outlook", "item 1", "item 1a", "item 7", "item 7a"
  ]

  /** The phrases that close an open section (line 80). */
  const StopWords: seq<string> := ["item ", "part ", "exhibit", "table of contents"]

  /** The most lines an open section holds before the next line closes it (line 79). */
  const MaxOpenLines: nat := 50

  /** A section is kept only when its space-joined text is longer than this (lines 65, 81, 88). */
  const MinSectionLength: nat := 500

  predicate HasTrigger(line: string)
  {
    ContainsAny(Lower(line), NarrativeKeywords)
  }

  predicate HasStop(line: string)
  {
    ContainsAny(Lower(line), StopWords)
  }

  /** ' '.join(buffer). */
  function SpaceJoin(buffer: seq<string>): string
  {
    Join(buffer, ' ')
  }

  predicate LongEnough(buffer: seq<string>)
  {
    |SpaceJoin(buffer)| > MinSectionLength
  }

  /** The scanner's state: the buffers emitted so far (each becomes one
      section), the open buffer current_section, and in_narrative. */
  datatype Scan = Scan(emitted: seq<seq<string>>, current: seq<string>, inNarrative: bool)

  const Idle: Scan := Scan([], [], false)

  /** Emits a buffer when it is non-empty and long enough; drops it otherwise. */
  function Flush(emitted: seq<seq<string>>, buffer: seq<string>): seq<seq<string>>
  {
    if buffer != [] && LongEnough(buffer) then emitted + [buffer] else emitted
  }

  /** One pass of the loop body of lines 57-85 over a raw line. */
  function Step(st: Scan, raw: string): Scan
  {
    var line := Strip(raw);
    if line == [] then st
    else if HasTrigger(line) then Scan(Flush(st.emitted, st.current), [line], true)
    else if st.inNarrative then
      var current := st.current + [line];
      if |current| > MaxOpenLines || HasStop(line) then Scan(Flush(st.emitted, current), [], false)
      else Scan(st.emitted, current, true)
    else st
  }

  /** The state after the loop has gone over all the lines. */
  function Run(lines: seq<string>): Scan
    decreases |lines|
  {
    if lines == [] then Idle else Step(Run(lines[..|lines| - 1]), lines[|lines| - 1])
  }

  /** The buffers emitted once the final open buffer has been considered (lines 88-90). */
  function KeywordBuffers(lines: seq<string>): seq<seq<string>>
  {
    var st := Run(lines);
    Flush(st.emitted, st.current)
  }

  function JoinEach(buffers: seq<seq<string>>): (r: seq<string>)
    ensures |r| == |buffers|
  {
    seq(|buffers|, k requires 0 <= k < |buffers| => SpaceJoin(buffers[k]))
  }

  /** The sections the keyword scan produces from the cleaned text. */
  function KeywordSections(cleaned: string): seq<string>
  {
    JoinEach(KeywordBuffers(Split(cleaned, '\n')))
  }

  /** What every emitted buffer looks like: 1 to 51 stripped, non-empty lines;
      the first holds a trigger keyword, no later one does; no line strictly
      between the first and the last holds a stop word; and the joined text is
      longer than 500 characters. */
  predicate GoodBuffer(b: seq<string>)
  {
    1 <= |b| <= MaxOpenLines + 1 && HasTrigger(b[0]) &&
    (forall k | 0 <= k < |b| :: b[k] != [] && IsStripped(b[k])) &&
    (forall k | 1 <= k < |b| :: !HasTrigger(b[k])) &&
    (forall k | 1 <= k < |b| - 1 :: !HasStop(b[k])) &&
    LongEnough(b)
  }

  /** The scanner's invariant: idle means an empty buffer; open means 1 to 50
      lines whose first holds a trigger keyword and whose later lines hold
      neither a trigger keyword nor a stop word; every emitted buffer is good. */
  predicate ScanInv(st: Scan)
  {
    (!st.inNarrative ==> st.current == []) &&
    (st.inNarrative ==> 1 <= |st.current| <= MaxOpenLines && HasTrigger(st.current[0])) &&
    (forall k | 0 <= k < |st.current| :: st.current[k] != [] && IsStripped(st.current[k])) &&
    (forall k | 1 <= k < |st.current| :: !HasTrigger(st.current[k]) && !HasStop(st.current[k])) &&
    (forall k | 0 <= k < |st.emitted| :: GoodBuffer(st.emitted[k]))
  }

  lemma FlushGood(emitted: seq<seq<string>>, b: seq<string>)
    requires forall k | 0 <= k < |emitted| :: GoodBuffer(emitted[k])
    requires b != [] ==> 1 <= |b| <= MaxOpenLines + 1 && HasTrigger(b[0])
    requires forall k | 0 <= k < |b| :: b[k] != [] && IsStripped(b[k])
    requires forall k | 1 <= k < |b| :: !HasTrigger(b[k])
    requires forall k | 1 <= k < |b| - 1 :: !HasStop(b[k])
    ensures forall k | 0 <= k < |Flush(emitted, b)| :: GoodBuffer(Flush(emitted, b)[k])
  {
  }

  /** Each step keeps the invariant. */
  lemma StepKeepsInv(st: Scan, raw: string)
    requires ScanInv(st)
    ensures ScanInv(Step(st, raw))
  {
    var line := Strip(raw);
    if line != [] {
      if HasTrigger(line) {
        TriggerKeepsInv(st, line);
      } else if st.inNarrative {
        ContinueKeepsInv(st, line);
      }
    }
  }

  /** A trigger line flushes the open buffer and opens a new one with it. */
  lemma TriggerKeepsInv(st: Scan, line: string)
    requires ScanInv(st) && line != [] && IsStripped(line) && HasTrigger(line)
    ensures ScanInv(Scan(Flush(st.emitted, st.current), [line], true))
  {
    FlushGood(st.emitted, st.current);
  }

  /** A non-trigger line extends the open buffer, which closes at the line
      limit or at a stop word. */
  lemma ContinueKeepsInv(st: Scan, line: string)
    requires ScanInv(st) && st.inNarrative && line != [] && IsStripped(line) && !HasTrigger(line)
    ensures var current := st.current + [line];
      if |current| > MaxOpenLines || HasStop(line) then ScanInv(Scan(Flush(st.emitted, current), [], false))
      else ScanInv(Scan(st.emitted, current, true))
  {
    var current := st.current + [line];
    assert current[0] == st.current[0];
    forall k | 0 <= k < |current|
      ensures current[k] != [] && IsStripped(current[k])
    {
      if k < |st.current| {
        assert current[k] == st.current[k];
      }
    }
    forall k | 1 <= k < |current| - 1
      ensures !HasTrigger(current[k]) && !HasStop(current[k])
    {
      assert current[k] == st.current[k];
    }
    if |current| > MaxOpenLines || HasStop(line) {
      FlushGood(st.emitted, current);
    }
  }

  lemma {:induction false} RunKeepsInv(lines: seq<string>)
    ensures ScanInv(Run(lines))
    decreases |lines|
  {
    if lines != [] {
      RunKeepsInv(lines[..|lines| - 1]);
      StepKeepsInv(Run(lines[..|lines| - 1]), lines[|lines| - 1]);
    }
  }

  /** Every buffer the keyword scan emits is good; in particular every keyword
      section has at most 51 lines and is longer than 500 characters. */
  lemma KeywordBuffersGood(lines: seq<string>)
    ensures forall k | 0 <= k < |KeywordBuffers(lines)| :: GoodBuffer(KeywordBuffers(lines)[k])
  {
    RunKeepsInv(lines);
    var st := Run(lines);
    FlushGood(st.emitted, st.current);
  }

  /** Without any line holding a trigger keyword the scan stays idle and emits
      nothing. */
  lemma {:induction false} NoTriggerNoSections(lines: seq<string>)
    requires forall k | 0 <= k < |lines| :: !HasTrigger(Strip(lines[k]))
    ensures Run(lines) == Idle && KeywordBuffers(lines) == []
    decreases |lines|
  {
    if lines != [] {
      NoTriggerNoSections(lines[..|lines| - 1]);
    }
  }

  // ---------------------------------------------------------------------------
  // re.split(r'\n\s*\n', text) (line 95)

  /** The first index at or after i that is not whitespace, or |s|. */
  function RunEnd(s: string, i: nat): (q: nat)
    requires i <= |s|
    ensures i <= q <= |s|
    ensures forall k | i <= k < q :: IsSpace(s[k])
    ensures q < |s| ==> !IsSpace(s[q])
    decreases |s| - i
  {
    if i < |s| && IsSpace(s[i]) then RunEnd(s, i + 1) else i
  }

  /** The last index in [lo, hi) holding '\n', or -1. */
  function LastNewline(s: string, lo: nat, hi: nat): (k: int)
    requires lo <= hi <= |s|
    ensures k == -1 ==> forall j | lo <= j < hi :: s[j] != '\n'
    ensures k != -1 ==> lo <= k < hi && s[k] == '\n' && forall j | k < j < hi :: s[j] != '\n'
    decreases hi - lo
  {
    if lo == hi then -1 else if s[hi - 1] == '\n' then hi - 1 else LastNewline(s, lo, hi - 1)
  }

  /** Where a match of \n\s*\n starting at p ends, or 0 when none starts there:
      the greedy \s* takes the whole whitespace run after the '\n' and gives
      back characters until the last '\n' of that run. */
  function SepEnd(s: string, p: nat): (e: nat)
    requires p < |s|
    ensures e == 0 || (p + 2 <= e <= |s| && s[p] == '\n' && s[e - 1] == '\n')
  {
    if s[p] != '\n' then 0
    else
      var k := LastNewline(s, p + 1, RunEnd(s, p + 1));
      if k == -1 then 0 else k + 1
  }

  /** The leftmost match start at or after from, or -1. */
  function FindSep(s: string, from: nat): (p: int)
    requires from <= |s|
    ensures p == -1 || (from <= p < |s| && SepEnd(s, p) > 0)
    ensures forall j | from <= j < |s| && (p == -1 || j < p) :: SepEnd(s, j) == 0
    decreases |s| - from
  {
    if from == |s| then -1 else if SepEnd(s, from) > 0 then from else FindSep(s, from + 1)
  }

  /** No blank line: no '\n' is followed by a whitespace run holding another '\n'. */
  predicate NoSep(s: string)
  {
    forall j | 0 <= j < |s| :: SepEnd(s, j) == 0
  }

  /** The chunks between the leftmost non-overlapping matches. */
  function Paragraphs(s: string): (chunks: seq<string>)
    ensures |chunks| >= 1
    decreases |s|
  {
    var p := FindSep(s, 0);
    if p == -1 then [s] else [s[..p]] + Paragraphs(s[SepEnd(s, p)..])
  }

  /** A separator inside a slice is a separator of the whole text: the
      whitespace run in the slice is part of the run in the whole. */
  lemma SepInSlice(s: string, lo: nat, hi: nat, j: nat)
    requires lo <= hi <= |s| && j < hi - lo
    requires SepEnd(s[lo..hi], j) > 0
    ensures SepEnd(s, lo + j) > 0
  {
    var t := s[lo..hi];
    var q := RunEnd(t, j + 1);
    var k := LastNewline(t, j + 1, q);
    assert t[k] == s[lo + k] && t[j] == s[lo + j];
    var q2 := RunEnd(s, lo + j + 1);
    assert forall m | lo + j + 1 <= m < lo + q :: IsSpace(s[m]) by {
      assert forall m | lo + j + 1 <= m < lo + q :: t[m - lo] == s[m];
    }
    assert lo + k < q2;
    var k2 := LastNewline(s, lo + j + 1, q2);
    assert s[lo + k] == '\n';
  }

  /** A slice of a text without blank lines has none either. */
  lemma NoSepSlice(s: string, lo: nat, hi: nat)
    requires lo <= hi <= |s| && NoSep(s)
    ensures NoSep(s[lo..hi])
  {
    forall j | 0 <= j < hi - lo
      ensures SepEnd(s[lo..hi], j) == 0
    {
      if SepEnd(s[lo..hi], j) > 0 {
        SepInSlice(s, lo, hi, j);
      }
    }
  }

  /** No chunk holds a blank line, and a text without one is a single chunk. */
  lemma {:induction false} ParagraphsNoSep(s: string)
    ensures forall k | 0 <= k < |Paragraphs(s)| :: NoSep(Paragraphs(s)[k])
    ensures NoSep(s) ==> Paragraphs(s) == [s]
    decreases |s|
  {
    var p := FindSep(s, 0);
    if p != -1 {
      var rest := s[SepEnd(s, p)..];
      ParagraphsNoSep(rest);
      forall j | 0 <= j < p
        ensures SepEnd(s[..p], j) == 0
      {
        if SepEnd(s[..p], j) > 0 {
          SepInSlice(s, 0, p, j);
        }
      }
      assert ([s[..p]] + Paragraphs(rest))[1..] == Paragraphs(rest);
    }
  }

  // ---------------------------------------------------------------------------
  // The fallback (lines 93-102)

  /** Below this many keyword sections the paragraph chunks are added (line 93). */
  const MinKeywordSections: nat := 3

  /** A chunk is added when its stripped text is longer than this (line 98). */
  const MinChunkLength: nat := 1000

  /** The words one of which an added chunk must hold (lines 98-101). */
  const FinanceKeywords: seq<string> := [
    "revenue", "earnings", "growth", "profit", "loss", "business",
    "company", "financial", "results", "operations"
  ]

  predicate GoodChunk(c: string)
  {
    |c| > MinChunkLength && ContainsAny(Lower(c), FinanceKeywords)
  }

  /** What one raw chunk contributes: its stripped text, if that is good. */
  function KeptChunk(raw: string): seq<string>
  {
    var c := Strip(raw);
    if GoodChunk(c) then [c] else []
  }

  /** The stripped chunks the fallback adds, in split order. */
  function Fallback(chunks: seq<string>): (added: seq<string>)
    decreases |chunks|
  {
    if chunks == [] then []
    else Fallback(chunks[..|chunks| - 1]) + KeptChunk(chunks[|chunks| - 1])
  }

  /** Every chunk the fallback adds is stripped, over 1000 characters long and
      mentions a finance keyword. */
  lemma {:induction false} FallbackGood(chunks: seq<string>)
    ensures forall k | 0 <= k < |Fallback(chunks)| :: GoodChunk(Fallback(chunks)[k]) && IsStripped(Fallback(chunks)[k])
    decreases |chunks|
  {
    if chunks != [] {
      var init := chunks[..|chunks| - 1];
      FallbackGood(init);
      var c := Strip(chunks[|chunks| - 1]);
      var added := Fallback(chunks);
      forall k | 0 <= k < |added|
        ensures GoodChunk(added[k]) && IsStripped(added[k])
      {
        if k < |Fallback(init)| {
          assert added[k] == Fallback(init)[k];
        }
      }
    }
  }

  /** The added chunks keep the order of the chunks they come from. */
  lemma {:induction false} FallbackOrder(chunks: seq<string>)
    ensures IsSubseq(Fallback(chunks), StripEach(chunks))
    decreases |chunks|
  {
    if chunks != [] {
      var init := chunks[..|chunks| - 1];
      FallbackOrder(init);
      var se := StripEach(chunks);
      assert se[..|se| - 1] == StripEach(init);
      var added := Fallback(chunks);
      if GoodChunk(Strip(chunks[|chunks| - 1])) {
        assert added[..|added| - 1] == Fallback(init);
        assert added[|added| - 1] == se[|se| - 1];
      } else {
        assert added == Fallback(init);
        SubseqShrink(Fallback(init), StripEach(init), se);
      }
    }
  }

  /** The sections before de-duplication: the keyword sections, then, when
      there are fewer than three of them, the good paragraph chunks. */
  function Candidates(cleaned: string): seq<string>
  {
    var kw := KeywordSections(cleaned);
    if |kw| < MinKeywordSections then kw + Fallback(Paragraphs(cleaned)) else kw
  }

  /** Every keyword section is longer than 500 characters. */
  lemma KeywordSectionsLong(cleaned: string)
    ensures forall k | 0 <= k < |KeywordSections(cleaned)| :: |KeywordSections(cleaned)[k]| > MinSectionLength
  {
    KeywordBuffersGood(Split(cleaned, '\n'));
    GoodBuffersLong(KeywordBuffers(Split(cleaned, '\n')));
  }

  lemma GoodBuffersLong(bs: seq<seq<string>>)
    requires forall k | 0 <= k < |bs| :: GoodBuffer(bs[k])
    ensures forall k | 0 <= k < |JoinEach(bs)| :: |JoinEach(bs)[k]| > MinSectionLength
  {
    forall k | 0 <= k < |bs|
      ensures |SpaceJoin(bs[k])| > MinSectionLength
    {
      assert GoodBuffer(bs[k]);
    }
  }

  lemma AllLong(kw: seq<string>, added: seq<string>)
    requires forall k | 0 <= k < |kw| :: |kw[k]| > MinSectionLength
    requires forall k | 0 <= k < |added| :: |added[k]| > MinChunkLength
    ensures forall k | 0 <= k < |kw + added| :: |(kw + added)[k]| > MinSectionLength
  {
  }

  /** Every candidate is longer than 500 characters; the fallback adds only
      when the scan found fewer than three sections, and adds after them. */
  lemma CandidatesShape(cleaned: string)
    ensures forall k | 0 <= k < |Candidates(cleaned)| :: |Candidates(cleaned)[k]| > MinSectionLength
    ensures KeywordSections(cleaned) <= Candidates(cleaned)
    ensures |KeywordSections(cleaned)| >= MinKeywordSections ==> Candidates(cleaned) == KeywordSections(cleaned)
  {
    CandidatesLong(cleaned);
    var kw := KeywordSections(cleaned);
    if |kw| < MinKeywordSections {
      assert Candidates(cleaned) == kw + Fallback(Paragraphs(cleaned));
    }
  }

  lemma CandidatesLong(cleaned: string)
    ensures forall k | 0 <= k < |Candidates(cleaned)| :: |Candidates(cleaned)[k]| > MinSectionLength
  {
    KeywordSectionsLong(cleaned);
    FallbackLong(Paragraphs(cleaned));
    var kw, added := KeywordSections(cleaned), Fallback(Paragraphs(cleaned));
    AllLongChoice(kw, added, Candidates(cleaned));
  }

  /** Keyword sections, with the fallback chunks appended when there are too
      few of them, are all longer than a section must be. */
  lemma AllLongChoice(kw: seq<string>, added: seq<string>, chosen: seq<string>)
    requires forall k | 0 <= k < |kw| :: |kw[k]| > MinSectionLength
    requires forall k | 0 <= k < |added| :: |added[k]| > MinChunkLength
    requires chosen == if |kw| < MinKeywordSections then kw + added else kw
    ensures forall k | 0 <= k < |chosen| :: |chosen[k]| > MinSectionLength
  {
    AllLong(kw, added);
  }

  lemma FallbackLong(chunks: seq<string>)
    ensures forall k | 0 <= k < |Fallback(chunks)| :: |Fallback(chunks)[k]| > MinChunkLength
  {
    FallbackGood(chunks);
  }

  // ---------------------------------------------------------------------------
  // De-duplication and the cap (lines 105-113)

  /** The identifying prefix of a section (line 108). */
  const KeyLength: nat := 200

  function Key(section: string): (k: string)
    ensures k <= section && |k| == Min(KeyLength, |section|)
  {
    section[..Min(KeyLength, |section|)]
  }

  function KeysOf(sections: seq<string>): set<string>
  {
    set k | 0 <= k < |sections| :: Key(sections[k])
  }

  /** The loop of lines 107-111: a section is appended unless a section with
      the same key was appended before. */
  function Dedup(sections: seq<string>): seq<string>
    decreases |sections|
  {
    if sections == [] then []
    else
      var kept := Dedup(sections[..|sections| - 1]);
      var last := sections[|sections| - 1];
      if Key(last) in KeysOf(kept) then kept else kept + [last]
  }

  /** The reference definition: a section is kept when no earlier section of
      the input has its key. */
  function KeepFirst(sections: seq<string>): seq<string>
    decreases |sections|
  {
    if sections == [] then []
    else
      var init := sections[..|sections| - 1];
      var last := sections[|sections| - 1];
      KeepFirst(init) + (if Key(last) in KeysOf(init) then [] else [last])
  }

  /** The kept sections carry exactly the keys of the input. */
  lemma {:induction false} DedupKeys(sections: seq<string>)
    ensures KeysOf(Dedup(sections)) == KeysOf(sections)
    decreases |sections|
  {
    if sections != [] {
      var init := sections[..|sections| - 1];
      var last := sections[|sections| - 1];
      DedupKeys(init);
      var kept := Dedup(init);
      assert KeysOf(sections) == KeysOf(init) + {Key(last)} by {
        forall x | x in KeysOf(sections)
          ensures x in KeysOf(init) + {Key(last)}
        {
          var k :| 0 <= k < |sections| && x == Key(sections[k]);
          if k < |sections| - 1 {
            assert sections[k] == init[k];
          }
        }
        forall x | x in KeysOf(init)
          ensures x in KeysOf(sections)
        {
          var k :| 0 <= k < |init| && x == Key(init[k]);
          assert init[k] == sections[k];
        }
      }
      if Key(last) !in KeysOf(kept) {
        var d := kept + [last];
        assert KeysOf(d) == KeysOf(kept) + {Key(last)} by {
          forall x | x in KeysOf(d)
            ensures x in KeysOf(kept) + {Key(last)}
          {
            var k :| 0 <= k < |d| && x == Key(d[k]);
            if k < |kept| {
              assert d[k] == kept[k];
            }
          }
          forall x | x in KeysOf(kept)
            ensures x in KeysOf(d)
          {
            var k :| 0 <= k < |kept| && x == Key(kept[k]);
            assert d[k] == kept[k];
          }
          assert d[|d| - 1] == last;
        }
      }
    }
  }

  /** The loop keeps the first section of every key and drops the later ones. */
  lemma {:induction false} DedupKeepsFirst(sections: seq<string>)
    ensures Dedup(sections) == KeepFirst(sections)
    decreases |sections|
  {
    if sections != [] {
      DedupKeepsFirst(sections[..|sections| - 1]);
      DedupKeys(sections[..|sections| - 1]);
    }
  }

  /** No two kept sections share a key, and the kept sections are a
      subsequence of the input. */
  lemma {:induction false} DedupDistinct(sections: seq<string>)
    ensures forall i, j | 0 <= i < j < |Dedup(sections)| :: Key(Dedup(sections)[i]) != Key(Dedup(sections)[j])
    ensures IsSubseq(Dedup(sections), sections)
    decreases |sections|
  {
    if sections != [] {
      var init := sections[..|sections| - 1];
      var last := sections[|sections| - 1];
      DedupDistinct(init);
      var kept := Dedup(init);
      var d := Dedup(sections);
      if Key(last) in KeysOf(kept) {
        SubseqShrink(kept, init, sections);
      } else {
        assert d[..|d| - 1] == kept;
        forall i, j | 0 <= i < j < |d|
          ensures Key(d[i]) != Key(d[j])
        {
          if j == |d| - 1 {
            assert d[i] == kept[i];
            assert Key(kept[i]) in KeysOf(kept);
          } else {
            assert d[i] == kept[i] && d[j] == kept[j];
          }
        }
      }
    }
  }

  /** The result size limit (line 113). */
  const MaxSections: nat := 5

  /** unique_sections[:5]. */
  function Cap(sections: seq<string>): seq<string>
  {
    PyPrefix(sections, MaxSections)
  }

  /** extract_narrative_sections on the file's content, with getText standing
      for the HTML parser. */
  function NarrativeSections(content: string, getText: string -> string): seq<string>
  {
    SectionsOf(CleanHtmlContent(getText(Isolate(content))))
  }

  /** The sections taken from an already cleaned text. */
  function SectionsOf(cleaned: string): seq<string>
  {
    Cap(Dedup(Candidates(cleaned)))
  }

  /** De-duplicating and capping any candidate list: at most five sections,
      no two with the same first 200 characters, taken in order from the
      candidates, the first of every key winning, and every property shared by
      all candidates kept. */
  lemma CapDedupShape(cands: seq<string>)
    ensures var r := Cap(Dedup(cands));
      |r| <= MaxSections &&
      (forall i, j | 0 <= i < j < |r| :: Key(r[i]) != Key(r[j])) &&
      (forall k | 0 <= k < |r| :: r[k] in cands) &&
      IsSubseq(r, cands) &&
      r == PyPrefix(KeepFirst(cands), MaxSections)
  {
    var d := Dedup(cands);
    var r := Cap(d);
    DedupDistinct(cands);
    DedupKeepsFirst(cands);
    SubseqMembers(d, cands);
    SubseqPrefix(d, cands, |r|);
    forall k | 0 <= k < |r|
      ensures r[k] in cands
    {
      assert r[k] == d[k] && d[k] in d;
    }
    forall i, j | 0 <= i < j < |r|
      ensures Key(r[i]) != Key(r[j])
    {
      assert r[i] == d[i] && r[j] == d[j];
    }
  }

  /** At most five sections, each longer than 500 characters, no two with the
      same first 200 characters, taken in order from the candidates, and the
      first of every key wins. */
  lemma SectionsOfShape(cleaned: string)
    ensures var r := SectionsOf(cleaned);
      |r| <= MaxSections &&
      (forall k | 0 <= k < |r| :: |r[k]| > MinSectionLength) &&
      (forall i, j | 0 <= i < j < |r| :: Key(r[i]) != Key(r[j])) &&
      IsSubseq(r, Candidates(cleaned)) &&
      r == PyPrefix(KeepFirst(Candidates(cleaned)), MaxSections)
  {
    var cands := Candidates(cleaned);
    CandidatesShape(cleaned);
    CapDedupShape(cands);
    var r := Cap(Dedup(cands));
    forall k | 0 <= k < |r|
      ensures |r[k]| > MinSectionLength
    {
      assert r[k] in cands;
    }
  }

  /** At most five sections, each longer than 500 characters, no two with the
      same first 200 characters, taken in order from the candidates, and the
      first of every key wins. */
  lemma NarrativeSectionsShape(content: string, getText: string -> string)
    ensures var r := NarrativeSections(content, getText);
      var cands := Candidates(CleanHtmlContent(getText(Isolate(content))));
      |r| <= MaxSections &&
      (forall k | 0 <= k < |r| :: |r[k]| > MinSectionLength) &&
      (forall i, j | 0 <= i < j < |r| :: Key(r[i]) != Key(r[j])) &&
      IsSubseq(r, cands) &&
      r == PyPrefix(KeepFirst(cands), MaxSections)
  {
    SectionsOfShape(CleanHtmlContent(getText(Isolate(content))));
  }

  // ---------------------------------------------------------------------------
  // extract_narrative_sections as written: three loops over local state

  /** Run over one more line is one more Step. */
  lemma RunNext(lines: seq<string>, i: nat)
    requires i < |lines|
    ensures Run(lines[..i + 1]) == Step(Run(lines[..i]), lines[i])
  {
    assert lines[..i + 1][..i] == lines[..i];
  }

  /** Emitting a buffer appends its joined text to the sections. */
  lemma JoinEachFlush(emitted: seq<seq<string>>, b: seq<string>)
    ensures JoinEach(Flush(emitted, b)) ==
      if b != [] && LongEnough(b) then JoinEach(emitted) + [SpaceJoin(b)] else JoinEach(emitted)
  {
    if b != [] && LongEnough(b) {
      assert JoinEach(emitted + [b]) == JoinEach(emitted) + [SpaceJoin(b)];
    }
  }

  /** One pass of the scan's loop body on the loop's own variables. */
  method ScanLine(narrative: seq<string>, current: seq<string>, inNarrative: bool, emitted: seq<seq<string>>, raw: string)
    returns (narrative': seq<string>, current': seq<string>, inNarrative': bool)
    requires narrative == JoinEach(emitted)
    ensures var st := Step(Scan(emitted, current, inNarrative), raw);
      narrative' == JoinEach(st.emitted) && current' == st.current && inNarrative' == st.inNarrative
  {
    narrative', current', inNarrative' := narrative, current, inNarrative;
    var line := Strip(raw);
    if line != [] {
      if HasTrigger(line) {
        if current != [] && |SpaceJoin(current)| > MinSectionLength {
          var sectionText := SpaceJoin(current);
          if |sectionText| > MinSectionLength {
            narrative' := narrative + [sectionText];
          }
        }
        JoinEachFlush(emitted, current);
        current' := [line];
        inNarrative' := true;
      } else if inNarrative {
        current' := current + [line];
        if |current'| > MaxOpenLines || HasStop(line) {
          if |SpaceJoin(current')| > MinSectionLength {
            var sectionText := SpaceJoin(current');
            narrative' := narrative + [sectionText];
          }
          JoinEachFlush(emitted, current');
          current' := [];
          inNarrative' := false;
        }
      }
    }
  }

  /** The keyword scan of lines 57-90 over the split lines. */
  method ScanLines(lines: seq<string>) returns (narrative: seq<string>)
    ensures narrative == JoinEach(KeywordBuffers(lines))
  {
    narrative := [];
    var current: seq<string> := [];
    var inNarrative := false;
    var i := 0;
    while i < |lines|
      invariant 0 <= i <= |lines|
      invariant narrative == JoinEach(Run(lines[..i]).emitted)
      invariant current == Run(lines[..i]).current && inNarrative == Run(lines[..i]).inNarrative
    {
      RunNext(lines, i);
      narrative, current, inNarrative := ScanLine(narrative, current, inNarrative, Run(lines[..i]).emitted, lines[i]);
      i := i + 1;
    }
    assert lines[..|lines|] == lines;
    if current != [] && |SpaceJoin(current)| > MinSectionLength {
      var sectionText := SpaceJoin(current);
      narrative := narrative + [sectionText];
    }
    JoinEachFlush(Run(lines).emitted, current);
  }

  /** Fallback over one more chunk. */
  lemma FallbackNext(chunks: seq<string>, j: nat)
    requires j < |chunks|
    ensures Fallback(chunks[..j + 1]) == Fallback(chunks[..j]) + KeptChunk(chunks[j])
  {
    assert chunks[..j + 1][..j] == chunks[..j];
  }

  /** One pass of the fallback loop's body: strip the chunk, keep it if good. */
  method AddChunk(result: seq<string>, raw: string) returns (result': seq<string>)
    ensures result' == result + KeptChunk(raw)
  {
    result' := result;
    var chunk := Strip(raw);
    if |chunk| > MinChunkLength && ContainsAny(Lower(chunk), FinanceKeywords) {
      result' := result + [chunk];
    }
  }

  /** The fallback loop of lines 96-102: appends the good stripped chunks. */
  method AddChunks(narrative: seq<string>, chunks: seq<string>) returns (result: seq<string>)
    ensures result == narrative + Fallback(chunks)
  {
    result := narrative;
    var j := 0;
    while j < |chunks|
      invariant 0 <= j <= |chunks|
      invariant result == narrative + Fallback(chunks[..j])
    {
      FallbackNext(chunks, j);
      AppendAssoc(narrative, Fallback(chunks[..j]), KeptChunk(chunks[j]));
      result := AddChunk(result, chunks[j]);
      j := j + 1;
    }
    assert chunks[..|chunks|] == chunks;
  }

  /** Appending a section adds exactly its key. */
  lemma KeysOfSnoc(prev: seq<string>, s: string)
    ensures KeysOf(prev + [s]) == KeysOf(prev) + {Key(s)}
  {
    var all := prev + [s];
    forall x | x in KeysOf(all)
      ensures x in KeysOf(prev) + {Key(s)}
    {
      var m :| 0 <= m < |all| && x == Key(all[m]);
      if m < |prev| {
        assert all[m] == prev[m];
      }
    }
    forall x | x in KeysOf(prev)
      ensures x in KeysOf(all)
    {
      var m :| 0 <= m < |prev| && x == Key(prev[m]);
      assert all[m] == prev[m];
    }
    assert Key(all[|prev|]) == Key(s);
  }

  /** Dedup over one more section. */
  lemma DedupNext(sections: seq<string>, k: nat)
    requires k < |sections|
    ensures var kept := Dedup(sections[..k]);
      Dedup(sections[..k + 1]) == if Key(sections[k]) in KeysOf(kept) then kept else kept + [sections[k]]
  {
    assert sections[..k + 1][..k] == sections[..k];
  }

  /** The de-duplication loop of lines 105-111, with the set of keys seen. */
  method RemoveDuplicates(sections: seq<string>) returns (unique: seq<string>)
    ensures unique == Dedup(sections)
  {
    unique := [];
    var seen: set<string> := {};
    var k := 0;
    while k < |sections|
      invariant 0 <= k <= |sections|
      invariant unique == Dedup(sections[..k]) && seen == KeysOf(unique)
    {
      DedupNext(sections, k);
      var section := sections[k];
      var sectionKey := Key(section);
      if sectionKey !in seen {
        seen := seen + {sectionKey};
        KeysOfSnoc(unique, section);
        unique := unique + [section];
      }
      k := k + 1;
    }
    assert sections[..|sections|] == sections;
  }

  /** Lines 20-26: keep only the text from the first <DOCUMENT> up to the first
      </DOCUMENT> when both markers occur. */
  method IsolateDocument(content: string) returns (text: string)
    ensures text == Isolate(content)
  {
    text := content;
    if Contains(content, DocOpen) && Contains(content, DocClose) {
      var start := Find(content, DocOpen);
      var end := Find(content, DocClose);
      if start != -1 && end != -1 {
        text := if start <= end then content[start..end] else [];
      }
    }
  }

  /** Lines 30-102: the keyword scan over the lines of the cleaned text, then
      the paragraph fallback when it found fewer than three sections. */
  method CollectCandidates(cleaned: string) returns (narrative: seq<string>)
    ensures narrative == Candidates(cleaned)
  {
    var lines := Split(cleaned, '\n');
    narrative := ScanLines(lines);
    if |narrative| < MinKeywordSections {
      var chunks := Paragraphs(cleaned);
      narrative := AddChunks(narrative, chunks);
    }
  }

  /** Lines 30-113 on the cleaned text: collect the candidates, de-duplicate
      them and keep the first five. */
  method SectionsFromCleaned(cleaned: string) returns (sections: seq<string>)
    ensures sections == SectionsOf(cleaned)
    ensures |sections| <= MaxSections
    ensures forall k | 0 <= k < |sections| :: |sections[k]| > MinSectionLength
    ensures forall i, j | 0 <= i < j < |sections| :: Key(sections[i]) != Key(sections[j])
  {
    var narrative := CollectCandidates(cleaned);
    var unique := RemoveDuplicates(narrative);
    sections := PyPrefix(unique, MaxSections);
    SectionsOfShape(cleaned);
  }

  /** extract_narrative_sections: isolate the document body, clean it, collect
      the candidate sections, de-duplicate them and keep the first five. */
  method ExtractNarrativeSections(content: string, getText: string -> string) returns (sections: seq<string>)
    ensures sections == NarrativeSections(content, getText)
    ensures |sections| <= MaxSections
    ensures forall k | 0 <= k < |sections| :: |sections[k]| > MinSectionLength
    ensures forall i, j | 0 <= i < j < |sections| :: Key(sections[i]) != Key(sections[j])
  {
    var text := IsolateDocument(content);
    var cleaned := CleanHtml(getText(text));
    sections := SectionsFromCleaned(cleaned);
  }

  // ---------------------------------------------------------------------------
  // clean_financial_data (lines 120-128)

  /** The character class [a-zA-Z0-9#]. */
  predicate IsEntityChar(c: char)
  {
    'a' <= c <= 'z' || 'A' <= c <= 'Z' || '0' <= c <= '9' || c == '#'
  }

  /** The length of the longest prefix made of entity characters. */
  function ClassRun(s: string): (n: nat)
    ensures n <= |s|
    decreases |s|
  {
    if s != [] && IsEntityChar(s[0]) then 1 + ClassRun(s[1..]) else 0
  }

  lemma {:induction false} ClassRunShape(s: string)
    ensures forall m | 0 <= m < ClassRun(s) :: IsEntityChar(s[m])
    ensures ClassRun(s) < |s| ==> !IsEntityChar(s[ClassRun(s)])
    decreases |s|
  {
    if s != [] && IsEntityChar(s[0]) {
      ClassRunShape(s[1..]);
      forall m | 1 <= m < ClassRun(s)
        ensures IsEntityChar(s[m])
      {
        assert s[m] == s[1..][m - 1];
      }
    }
  }

  /** A prefix of entity characters followed by a non-entity character (or the
      end) is the class run. */
  lemma {:induction false} ClassRunExact(s: string, n: nat)
    requires n <= |s|
    requires forall m | 0 <= m < n :: IsEntityChar(s[m])
    requires n < |s| ==> !IsEntityChar(s[n])
    ensures ClassRun(s) == n
    decreases n
  {
    if n > 0 {
      ClassRunExact(s[1..], n - 1);
    }
  }

  /** The pattern &[a-zA-Z0-9#]+; matches at the start of s. The class holds
      no ';', so the greedy run must end exactly at the ';'. */
  predicate EntityStart(s: string)
  {
    s != [] && s[0] == '&' && 1 <= ClassRun(s[1..]) && ClassRun(s[1..]) + 1 < |s| && s[ClassRun(s[1..]) + 1] == ';'
  }

  /** EntityStart is the regular expression's match: '&', one or more class
      characters, then ';'. */
  lemma EntityStartMatches(s: string)
    ensures EntityStart(s) <==> (s != [] && s[0] == '&' &&
      exists j | 2 <= j < |s| :: s[j] == ';' && forall m | 1 <= m < j :: IsEntityChar(s[m]))
  {
    if s != [] && s[0] == '&' {
      ClassRunShape(s[1..]);
      var n := ClassRun(s[1..]);
      if EntityStart(s) {
        var j := n + 1;
        forall m | 1 <= m < j
          ensures IsEntityChar(s[m])
        {
          assert s[m] == s[1..][m - 1];
        }
      }
      if j :| 2 <= j < |s| && s[j] == ';' && forall m | 1 <= m < j :: IsEntityChar(s[m]) {
        forall m | 0 <= m < j - 1
          ensures IsEntityChar(s[1..][m])
        {
          assert s[1..][m] == s[m + 1];
        }
        assert !IsEntityChar(s[1..][j - 1]);
        ClassRunExact(s[1..], j - 1);
      }
    }
  }

  /** The length of the entity at the start of s. */
  function EntityLength(s: string): nat
    requires EntityStart(s)
  {
    ClassRun(s[1..]) + 2
  }

  /** re.sub(r'&[a-zA-Z0-9#]+;', ' ', s): every entity, leftmost first and
      without overlap, becomes one space. */
  function StripEntities(s: string): string
    decreases |s|
  {
    if s == [] then []
    else if EntityStart(s) then [' '] + StripEntities(s[EntityLength(s)..])
    else [s[0]] + StripEntities(s[1..])
  }

  predicate NoEntity(s: string)
  {
    forall i | 0 <= i < |s| :: !EntityStart(s[i..])
  }

  /** The first character of the result is the input's, or the space an
      entity became. */
  lemma StripEntitiesHead(s: string)
    requires s != []
    ensures StripEntities(s) != []
    ensures StripEntities(s)[0] == (if EntityStart(s) then ' ' else s[0])
  {
  }

  /** Entity characters are copied unchanged. */
  lemma {:induction false} StripEntitiesKeepsRun(s: string, n: nat)
    requires n <= |s|
    requires forall m | 0 <= m < n :: IsEntityChar(s[m])
    ensures StripEntities(s) == s[..n] + StripEntities(s[n..])
    decreases n
  {
    if n > 0 {
      StripEntitiesKeepsRun(s[1..], n - 1);
      assert s[1..][n - 1..] == s[n..];
      assert s[..n] == [s[0]] + s[1..][..n - 1];
    }
  }

  /** An '&' that does not start an entity does not start one after the text
      behind it is processed either. */
  lemma KeptAmpersand(s: string)
    requires s != [] && s[0] == '&' && !EntityStart(s)
    ensures !EntityStart([s[0]] + StripEntities(s[1..]))
  {
    var t := s[1..];
    var n := ClassRun(t);
    ClassRunShape(t);
    StripEntitiesKeepsRun(t, n);
    var r := StripEntities(t);
    var u := [s[0]] + r;
    assert u[1..] == r;
    if n < |t| {
      var tail := t[n..];
      StripEntitiesHead(tail);
      assert tail[0] == t[n];
      assert r == t[..n] + StripEntities(tail);
      assert r[n] == StripEntities(tail)[0];
      forall m | 0 <= m < n
        ensures IsEntityChar(r[m])
      {
        assert r[m] == t[m];
      }
      ClassRunExact(r, n);
      assert t[n] == s[n + 1];
    } else {
      assert r == t[..n] + StripEntities([]);
      forall m | 0 <= m < n
        ensures IsEntityChar(r[m])
      {
        assert r[m] == t[m];
      }
      ClassRunExact(r, n);
    }
  }

  /** After the substitution no entity is left. */
  lemma {:induction false} StripEntitiesClean(s: string)
    ensures NoEntity(StripEntities(s))
    decreases |s|
  {
    if s != [] {
      if EntityStart(s) {
        StripEntitiesClean(s[EntityLength(s)..]);
        NoEntityCons(' ', StripEntities(s[EntityLength(s)..]));
      } else {
        StripEntitiesClean(s[1..]);
        if s[0] == '&' {
          KeptAmpersand(s);
        }
        NoEntityCons(s[0], StripEntities(s[1..]));
      }
    }
  }

  lemma NoEntityCons(c: char, tail: string)
    requires NoEntity(tail) && !EntityStart([c] + tail)
    ensures NoEntity([c] + tail)
  {
    var r := [c] + tail;
    forall i | 1 <= i < |r|
      ensures !EntityStart(r[i..])
    {
      assert r[i..] == tail[i - 1..];
    }
    assert r[0..] == r;
  }

  /** Text with no entity is left as it is. */
  lemma {:induction false} StripEntitiesNone(s: string)
    requires NoEntity(s)
    ensures StripEntities(s) == s
  {
    if s != [] {
      assert !EntityStart(s[0..]) && s[0..] == s;
      forall i | 0 <= i < |s| - 1
        ensures !EntityStart(s[1..][i..])
      {
        assert s[1..][i..] == s[i + 1..];
      }
      StripEntitiesNone(s[1..]);
      assert s == [s[0]] + s[1..];
    }
  }

  /** Text before the first '&' is copied unchanged. */
  lemma {:induction false} StripEntitiesFree(x: string, t: string)
    requires '&' !in x
    ensures StripEntities(x + t) == x + StripEntities(t)
  {
    if x != [] {
      var xt := x + t;
      ConcatTail(x, t);
      assert x[0] in x;
      assert StripEntities(xt) == [x[0]] + StripEntities(x[1..] + t);
      StripEntitiesFree(x[1..], t);
      AppendAssoc([x[0]], x[1..], StripEntities(t));
      assert [x[0]] + x[1..] == x;
    } else {
      assert x + t == t;
    }
  }

  /** One entity becomes one space and nothing else changes: the text before
      it is kept and the text after it is processed on its own. */
  lemma StripEntitiesAt(x: string, e: string, y: string)
    requires '&' !in x && EntityStart(e + y) && |e| == EntityLength(e + y)
    ensures StripEntities(x + e + y) == x + " " + StripEntities(y)
  {
    var t := e + y;
    assert t[|e|..] == y;
    assert StripEntities(t) == " " + StripEntities(y);
    AppendAssoc(x, e, y);
    StripEntitiesFree(x, t);
    AppendAssoc(x, " ", StripEntities(y));
  }

  /** re.sub(r'\$\s*', '$', s): the whitespace after each '$' is removed. */
  function TightenDollars(s: string): (r: string)
    ensures r == [] <==> s == []
    ensures r != [] ==> r[0] == s[0]
    decreases |s|
  {
    if s == [] then []
    else if s[0] == '$' then ['$'] + TightenDollars(DropRun(s[1..], Whitespace))
    else [s[0]] + TightenDollars(s[1..])
  }

  /** Whitespace is single spaces only. */
  predicate SingleSpaced(t: string)
  {
    OnlySpaces(t) && NoDoubleSpace(t)
  }

  /** The only whitespace character is the space. */
  predicate OnlySpaces(t: string)
  {
    OnlySpaceIn(t, Whitespace)
  }

  /** The only character of b in t is the space. */
  predicate OnlySpaceIn(t: string, b: set<char>)
  {
    forall k | 0 <= k < |t| :: t[k] in b ==> t[k] == ' '
  }

  predicate NoDoubleSpace(t: string)
  {
    forall k | 0 <= k < |t| - 1 :: !(t[k] == ' ' && t[k + 1] == ' ')
  }

  /** No '$' is followed by whitespace. */
  predicate DollarsTight(t: string)
  {
    forall k | 0 <= k < |t| - 1 :: t[k] == '$' ==> t[k + 1] !in Whitespace
  }

  lemma SingleSpacedSlice(t: string, lo: nat, hi: nat)
    requires lo <= hi <= |t| && SingleSpaced(t)
    ensures SingleSpaced(t[lo..hi])
  {
    OnlySpacesSlice(t, lo, hi);
    NoDoubleSpaceSlice(t, lo, hi);
  }

  lemma OnlySpacesSlice(t: string, lo: nat, hi: nat)
    requires lo <= hi <= |t| && OnlySpaces(t)
    ensures OnlySpaces(t[lo..hi])
  {
    OnlySpaceInSlice(t, Whitespace, lo, hi);
  }

  lemma OnlySpaceInSlice(t: string, b: set<char>, lo: nat, hi: nat)
    requires lo <= hi <= |t| && OnlySpaceIn(t, b)
    ensures OnlySpaceIn(t[lo..hi], b)
  {
    var u := t[lo..hi];
    forall k | 0 <= k < |u|
      ensures u[k] == t[lo + k]
    {
    }
  }

  lemma NoDoubleSpaceSlice(t: string, lo: nat, hi: nat)
    requires lo <= hi <= |t| && NoDoubleSpace(t)
    ensures NoDoubleSpace(t[lo..hi])
  {
    var u := t[lo..hi];
    forall k | 0 <= k < |u| - 1
      ensures !(u[k] == ' ' && u[k + 1] == ' ')
    {
      assert u[k] == t[lo + k] && u[k + 1] == t[lo + k + 1];
    }
  }

  lemma DollarsTightSlice(t: string, lo: nat, hi: nat)
    requires lo <= hi <= |t| && DollarsTight(t)
    ensures DollarsTight(t[lo..hi])
  {
    var u := t[lo..hi];
    forall k | 0 <= k < |u| - 1
      ensures u[k] == '$' ==> u[k + 1] !in Whitespace
    {
      assert u[k] == t[lo + k] && u[k + 1] == t[lo + k + 1];
    }
  }

  /** After tightening no '$' is followed by whitespace, and every character
      other than whitespace is still there, in order: only whitespace goes. */
  lemma TightenDollarsTight(s: string)
    ensures DollarsTight(TightenDollars(s))
    ensures Without(TightenDollars(s), Whitespace) == Without(s, Whitespace)
  {
    TightenDollarsTightOnly(s);
    TightenDollarsKeeps(s);
  }

  lemma {:induction false} TightenDollarsKeeps(s: string)
    ensures Without(TightenDollars(s), Whitespace) == Without(s, Whitespace)
    decreases |s|
  {
    if s != [] {
      if s[0] == '$' {
        var rest := DropRun(s[1..], Whitespace);
        TightenDollarsKeeps(rest);
        DropRunWithout(s[1..], Whitespace);
        WhitespaceIsSpace('$');
        assert (['$'] + TightenDollars(rest))[1..] == TightenDollars(rest);
      } else {
        TightenDollarsKeeps(s[1..]);
        assert ([s[0]] + TightenDollars(s[1..]))[1..] == TightenDollars(s[1..]);
      }
    }
  }

  lemma {:induction false} TightenDollarsTightOnly(s: string)
    ensures DollarsTight(TightenDollars(s))
    decreases |s|
  {
    if s != [] {
      var rest := if s[0] == '$' then DropRun(s[1..], Whitespace) else s[1..];
      TightenDollarsTightOnly(rest);
      var tail := TightenDollars(rest);
      var r := TightenDollars(s);
      assert r == [r[0]] + tail;
      forall k | 1 <= k < |r| - 1
        ensures r[k] == '$' ==> r[k + 1] !in Whitespace
      {
        assert r[k] == tail[k - 1] && r[k + 1] == tail[k];
      }
    }
  }

  /** Tightening only removes characters, so no whitespace other than the
      space appears. */
  lemma TightenDollarsOnlySpaces(s: string)
    requires OnlySpaces(s)
    ensures OnlySpaces(TightenDollars(s))
  {
    TightenDollarsOnlySpaceIn(s, Whitespace);
  }

  lemma {:induction false} TightenDollarsOnlySpaceIn(s: string, b: set<char>)
    requires b == Whitespace && OnlySpaceIn(s, b)
    ensures OnlySpaceIn(TightenDollars(s), b)
    decreases |s|
  {
    if s != [] {
      if s[0] == '$' {
        var rest := DropRun(s[1..], b);
        OnlySpaceInSlice(s, b, |s| - |rest|, |s|);
        assert s[|s| - |rest|..] == rest;
        TightenDollarsOnlySpaceIn(rest, b);
        OnlySpaceInCons('$', TightenDollars(rest), b);
      } else {
        OnlySpaceInSlice(s, b, 1, |s|);
        TightenDollarsOnlySpaceIn(s[1..], b);
        OnlySpaceInCons(s[0], TightenDollars(s[1..]), b);
      }
    }
  }

  lemma OnlySpaceInCons(c: char, tail: string, b: set<char>)
    requires (c in b ==> c == ' ') && OnlySpaceIn(tail, b)
    ensures OnlySpaceIn([c] + tail, b)
  {
    var r := [c] + tail;
    forall k | 1 <= k < |r|
      ensures r[k] == tail[k - 1]
    {
    }
  }

  /** Tightening removes only the whitespace behind a '$', so it joins no two
      spaces. */
  lemma {:induction false} TightenDollarsNoDoubleSpace(s: string)
    requires NoDoubleSpace(s)
    ensures NoDoubleSpace(TightenDollars(s))
    decreases |s|
  {
    if s != [] {
      if s[0] == '$' {
        var rest := DropRun(s[1..], Whitespace);
        NoDoubleSpaceSlice(s, |s| - |rest|, |s|);
        assert s[|s| - |rest|..] == rest;
        TightenDollarsNoDoubleSpace(rest);
        NoDoubleSpaceCons('$', TightenDollars(rest));
      } else {
        var rest := s[1..];
        NoDoubleSpaceSlice(s, 1, |s|);
        TightenDollarsNoDoubleSpace(rest);
        if s[0] == ' ' && rest != [] {
          assert s[1] == rest[0];
        }
        NoDoubleSpaceCons(s[0], TightenDollars(rest));
      }
    }
  }

  lemma NoDoubleSpaceCons(c: char, tail: string)
    requires NoDoubleSpace(tail) && (c == ' ' && tail != [] ==> tail[0] != ' ')
    ensures NoDoubleSpace([c] + tail)
  {
    var r := [c] + tail;
    forall k | 1 <= k < |r| - 1
      ensures !(r[k] == ' ' && r[k + 1] == ' ')
    {
      assert r[k] == tail[k - 1] && r[k + 1] == tail[k];
    }
  }


  /** Text with no '$' is left as it is. */
  lemma {:induction false} TightenDollarsNone(s: string)
    requires '$' !in s
    ensures TightenDollars(s) == s
  {
    if s != [] {
      assert s[0] in s;
      TightenDollarsNone(s[1..]);
      assert s == [s[0]] + s[1..];
    }
  }

  /** Text before the first '$' is copied unchanged. */
  lemma {:induction false} TightenDollarsFree(x: string, t: string)
    requires '$' !in x
    ensures TightenDollars(x + t) == x + TightenDollars(t)
  {
    if x != [] {
      var xt := x + t;
      ConcatTail(x, t);
      assert x[0] in x;
      assert TightenDollars(xt) == [x[0]] + TightenDollars(x[1..] + t);
      TightenDollarsFree(x[1..], t);
      AppendAssoc([x[0]], x[1..], TightenDollars(t));
      assert [x[0]] + x[1..] == x;
    } else {
      assert x + t == t;
    }
  }

  /** The whitespace right after a '$' goes, and nothing else changes: the text
      before the '$' is kept and the text after the whitespace is processed on
      its own. */
  lemma TightenDollarsAt(x: string, w: string, y: string)
    requires '$' !in x
    requires forall k | 0 <= k < |w| :: w[k] in Whitespace
    requires y == [] || y[0] !in Whitespace
    ensures TightenDollars(x + "$" + w + y) == x + "$" + TightenDollars(y)
  {
    var t := "$" + w + y;
    assert t[0] == '$' && t[1..] == w + y;
    DropRunAllIn(w, Whitespace);
    DropRunConcat(w, y, Whitespace);
    assert DropRun(w + y, Whitespace) == y;
    assert TightenDollars(t) == "$" + TightenDollars(y);
    AppendAssoc(x, "$" + w, y);
    AppendAssoc(x, "$", w);
    TightenDollarsFree(x, t);
    AppendAssoc(x, "$", TightenDollars(y));
  }

  /** clean_financial_data. */
  function CleanFinancialData(text: string): string
  {
    Strip(TightenDollars(CollapseRuns(StripEntities(text), Whitespace)))
  }

  /** The result has no surrounding whitespace, its only whitespace is single
      spaces, no '$' is followed by whitespace, and the first substitution has
      left no entity for the later ones to work on. Text without '&' and '$' is
      only collapsed and stripped. */
  lemma CleanFinancialDataShape(text: string)
    ensures IsStripped(CleanFinancialData(text))
    ensures SingleSpaced(CleanFinancialData(text))
    ensures DollarsTight(CleanFinancialData(text))
    ensures NoEntity(StripEntities(text))
    ensures '&' !in text && '$' !in text ==> CleanFinancialData(text) == Strip(CollapseRuns(text, Whitespace))
  {
    if '&' !in text && '$' !in text {
      CleanFinancialDataPlain(text);
    }
    StripEntitiesClean(text);
    CollapsedSingleSpaced(StripEntities(text));
    FinishFinancial(CollapseRuns(StripEntities(text), Whitespace));
  }

  /** On text with no '&' and no '$' the entity and currency substitutions do
      nothing: the result is the text with its whitespace runs collapsed to one
      space and its ends stripped. */
  lemma CleanFinancialDataPlain(text: string)
    requires '&' !in text && '$' !in text
    ensures CleanFinancialData(text) == Strip(CollapseRuns(text, Whitespace))
  {
    StripEntitiesFree(text, []);
    assert text + [] == text;
    WhitespaceIsSpace('$');
    CollapseRunsAbsent(text, Whitespace, '$');
    TightenDollarsNone(CollapseRuns(text, Whitespace));
  }

  lemma CollapsedSingleSpaced(s: string)
    ensures SingleSpaced(CollapseRuns(s, Whitespace))
  {
    CollapseRunsShape(s, Whitespace);
  }

  /** The '$' substitution and the final strip on single-spaced text. */
  lemma FinishFinancial(c: string)
    requires SingleSpaced(c)
    ensures IsStripped(Strip(TightenDollars(c)))
    ensures SingleSpaced(Strip(TightenDollars(c))) && DollarsTight(Strip(TightenDollars(c)))
  {
    TightenDollarsOnlySpaces(c);
    TightenDollarsNoDoubleSpace(c);
    TightenDollarsTight(c);
    StripSingleSpaced(TightenDollars(c));
    StripDollarsTight(TightenDollars(c));
  }

  lemma StripSingleSpaced(d: string)
    requires SingleSpaced(d)
    ensures SingleSpaced(Strip(d))
  {
    SingleSpacedPart(d, Strip(d), StripStart(d));
  }

  lemma SingleSpacedPart(d: string, r: string, lo: nat)
    requires lo + |r| <= |d| && r == d[lo..lo + |r|] && SingleSpaced(d)
    ensures SingleSpaced(r)
  {
    SingleSpacedSlice(d, lo, lo + |r|);
  }

  lemma StripDollarsTight(d: string)
    requires DollarsTight(d)
    ensures DollarsTight(Strip(d))
  {
    DollarsTightPart(d, Strip(d), StripStart(d));
  }

  lemma DollarsTightPart(d: string, r: string, lo: nat)
    requires lo + |r| <= |d| && r == d[lo..lo + |r|] && DollarsTight(d)
    ensures DollarsTight(r)
  {
    DollarsTightSlice(d, lo, lo + |r|);
  }

  // ---------------------------------------------------------------------------
  // The report written by convert_xbrl_to_text (lines 147-157)

  const ReportTitle: string := "Financial Narrative Extracted from: "
  const ReportBanner: string := "NARRATIVE SECTIONS FOR SENTIMENT ANALYSIS:\n"

  /** The four header lines: the source, 60 '=', the banner, 50 '='; each rule
      line is followed by a blank line. */
  function Header(source: string): string
  {
    ReportTitle + source + "\n" + Repeat('=', 60) + "\n\n" + ReportBanner + Repeat('=', 50) + "\n\n"
  }

  /** One numbered section: its number line, 30 '-', the text, a blank line. */
  function Block(number: nat, section: string): string
  {
    "Section " + NatToDecimal(number) + ":\n" + Repeat('-', 30) + "\n" + section + "\n\n"
  }

  /** The blocks of the sections, numbered from 1 in order. */
  function Blocks(sections: seq<string>): string
    decreases |sections|
  {
    if sections == [] then []
    else Blocks(sections[..|sections| - 1]) + Block(|sections|, sections[|sections| - 1])
  }

  function Report(source: string, sections: seq<string>): string
  {
    Header(source) + Blocks(sections)
  }

  /** The blocks of the first n sections begin the blocks of all of them. */
  lemma {:induction false} BlocksPrefix(sections: seq<string>, n: nat)
    requires n <= |sections|
    ensures Blocks(sections[..n]) <= Blocks(sections)
    decreases |sections|
  {
    if n < |sections| {
      var init := sections[..|sections| - 1];
      assert init[..n] == sections[..n];
      BlocksPrefix(init, n);
      PrefixOfPrefix(Blocks(sections[..n]), Blocks(init), Blocks(sections));
    } else {
      assert sections[..n] == sections;
    }
  }

  lemma PrefixOfPrefix(a: string, b: string, c: string)
    requires a <= b && b <= c
    ensures a <= c
  {
    assert a == c[..|a|] by {
      assert b == c[..|b|];
      assert a == b[..|a|];
    }
  }

  /** The report starts with the header, and section k (counting from 0) sits,
      numbered k + 1, right after the header and the blocks of the sections
      before it. */
  lemma ReportLayout(source: string, sections: seq<string>)
    ensures Header(source) <= Report(source, sections)
    ensures forall k | 0 <= k < |sections| ::
      Header(source) + Blocks(sections[..k]) + Block(k + 1, sections[k]) <= Report(source, sections)
  {
    forall k | 0 <= k < |sections|
      ensures Header(source) + Blocks(sections[..k]) + Block(k + 1, sections[k]) <= Report(source, sections)
    {
      ReportBlock(source, sections, k);
    }
  }

  /** The k-th block of a report follows the header and the blocks before it. */
  lemma ReportBlock(source: string, sections: seq<string>, k: nat)
    requires k < |sections|
    ensures Header(source) + Blocks(sections[..k]) + Block(k + 1, sections[k]) <= Report(source, sections)
  {
    var pre := sections[..k + 1];
    assert pre[..k] == sections[..k];
    assert Blocks(pre) == Blocks(sections[..k]) + Block(k + 1, sections[k]);
    BlocksPrefix(sections, k + 1);
    AppendKeepsPrefix(Header(source), Blocks(pre), Blocks(sections));
    AppendAssoc(Header(source), Blocks(sections[..k]), Block(k + 1, sections[k]));
  }

  lemma AppendKeepsPrefix(h: string, a: string, b: string)
    requires a <= b
    ensures h + a <= h + b
  {
    assert (h + b)[..|h + a|] == h + a;
  }

  /** Blocks grow one section at a time. */
  lemma BlocksNext(sections: seq<string>, i: nat)
    requires i < |sections|
    ensures Blocks(sections[..i + 1]) == Blocks(sections[..i]) + Block(i + 1, sections[i])
  {
    assert sections[..i + 1][..i] == sections[..i];
  }

  /** The three writes for one section (lines 155-157). */
  method WriteBlock(out: string, number: nat, section: string) returns (out': string)
    ensures out' == out + Block(number, section)
  {
    out' := out + ("Section " + NatToDecimal(number) + ":\n");
    out' := out' + (Repeat('-', 30) + "\n");
    out' := out' + (section + "\n\n");
  }

  /** The four header writes (lines 148-152). */
  method WriteHeader(source: string) returns (out: string)
    ensures out == Header(source)
  {
    out := ReportTitle + source + "\n";
    out := out + (Repeat('=', 60) + "\n\n");
    out := out + ReportBanner;
    out := out + (Repeat('=', 50) + "\n\n");
  }

  /** The section loop (lines 154-157): sections numbered from 1, in order. */
  method WriteSections(header: string, sections: seq<string>) returns (out: string)
    ensures out == header + Blocks(sections)
  {
    out := header;
    var i := 0;
    while i < |sections|
      invariant 0 <= i <= |sections|
      invariant out == header + Blocks(sections[..i])
    {
      BlocksNext(sections, i);
      AppendAssoc(header, Blocks(sections[..i]), Block(i + 1, sections[i]));
      out := WriteBlock(out, i + 1, sections[i]);
      i := i + 1;
    }
    assert sections[..|sections|] == sections;
  }

  /** What convert_xbrl_to_text writes: no file when no section is found,
      otherwise the report. */
  function ConvertedReport(content: string, getText: string -> string, source: string): Option<string>
  {
    var sections := NarrativeSections(content, getText);
    if sections == [] then None else Some(Report(source, sections))
  }

  /** convert_xbrl_to_text after the file read: nothing is written when no
      section was found; otherwise the header, then each section in order. */
  method ConvertXbrlToText(content: string, getText: string -> string, source: string) returns (written: Option<string>)
    ensures written.None? <==> NarrativeSections(content, getText) == []
    ensures written.Some? ==> written.value == Report(source, NarrativeSections(content, getText))
    ensures written == ConvertedReport(content, getText, source)
  {
    var sections := ExtractNarrativeSections(content, getText);
    if sections == [] {
      return None;
    }
    var header := WriteHeader(source);
    var out := WriteSections(header, sections);
    written := Some(out);
  }
}
