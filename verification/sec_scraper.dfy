/** The filing selection and naming rules of src/ingestion/sec_scraper.py.
    The submissions request is a function from URL to the recent filings, each
    document download a function from URL to body (None for a failed request),
    and the temporary and converted files are replaced by the values written
    to them. */
module SecScraper {
  import opened Text
  import opened HtmlCleaner
  import opened XbrlConverter

  const CikWidth: nat := 10
  const SubmissionsBase: string := "https://data.sec.gov/submissions/CIK"
  const ArchivesBase: string := "https://www.sec.gov/Archives/edgar/data/"
  const MinConvertedLength: nat := 1000

  // ---------------------------------------------------------------------------
  // CIK normalisation (lines 22-24 and 72-74)

  /** cik.lstrip('0').zfill(10) */
  function NormalizeCik(cik: string): string
  {
    ZFill(LStripChar(cik, '0'), CikWidth)
  }

  function SubmissionsUrl(cik: string): string
  {
    SubmissionsBase + NormalizeCik(cik) + ".json"
  }

  /** The normal form is at least ten characters long, or as long as the
      stripped CIK; an unsigned stripped CIK ends it, after '0's only; a CIK of
      '0's only (the empty one included) becomes ten '0's. */
  lemma NormalizeCikSpec(cik: string)
    ensures |NormalizeCik(cik)| == Max(CikWidth, |LStripChar(cik, '0')|)
    ensures var s := LStripChar(cik, '0');
      (s == [] || !IsSign(s[0])) ==>
        NormalizeCik(cik)[|NormalizeCik(cik)| - |s|..] == s &&
        forall k | 0 <= k < |NormalizeCik(cik)| - |s| :: NormalizeCik(cik)[k] == '0'
    ensures (forall k | 0 <= k < |cik| :: cik[k] == '0') ==> NormalizeCik(cik) == Repeat('0', CikWidth)
  {
    NormalizeAllZeros(cik);
  }

  /** A CIK of '0's only, the empty one included, normalises to ten '0's. */
  lemma NormalizeAllZeros(cik: string)
    ensures (forall k | 0 <= k < |cik| :: cik[k] == '0') ==> NormalizeCik(cik) == Repeat('0', CikWidth)
  {
    if forall k | 0 <= k < |cik| :: cik[k] == '0' {
      LStripCharAll(cik, '0');
      ZFillEmpty(CikWidth);
    }
  }

  /** Leading zeros do not matter: a CIK and the same CIK with extra zeros in
      front normalise alike, and so name the same submissions URL. */
  lemma {:induction false} NormalizeCikLeadingZeros(cik: string, n: nat)
    ensures NormalizeCik(Repeat('0', n) + cik) == NormalizeCik(cik)
    ensures SubmissionsUrl(Repeat('0', n) + cik) == SubmissionsUrl(cik)
  {
    StripZeros(cik, n);
  }

  lemma {:induction false} StripZeros(cik: string, n: nat)
    ensures LStripChar(Repeat('0', n) + cik, '0') == LStripChar(cik, '0')
  {
    if n > 0 {
      var t := Repeat('0', n) + cik;
      assert t[1..] == Repeat('0', n - 1) + cik;
      StripZeros(cik, n - 1);
    } else {
      assert Repeat('0', n) + cik == cik;
    }
  }

  // ---------------------------------------------------------------------------
  // Filing selection (lines 87-109)

  /** The parallel lists of data['filings']['recent']. */
  datatype Recent = Recent(form: seq<string>, filingDate: seq<string>, accessionNumber: seq<string>)

  datatype Filing = Filing(date: string, accession: string, index: nat)

  /** Lines 92-100 over the first n forms: a filing for every form equal to
      formType, or None when one of them has no date or accession at its
      index (an IndexError, which aborts the whole scrape). */
  function SelectUpTo(recent: Recent, formType: string, n: nat): Option<seq<Filing>>
    requires n <= |recent.form|
    decreases n
  {
    if n == 0 then Some([])
    else
      var prev := SelectUpTo(recent, formType, n - 1);
      var i := n - 1;
      if prev.None? || recent.form[i] != formType then prev
      else if i < |recent.filingDate| && i < |recent.accessionNumber| then
        Some(prev.value + [Filing(recent.filingDate[i], recent.accessionNumber[i], i)])
      else None
  }

  function Select(recent: Recent, formType: string): Option<seq<Filing>>
  {
    SelectUpTo(recent, formType, |recent.form|)
  }

  /** The filing for index i of the parallel lists. */
  predicate FilingAt(recent: Recent, f: Filing, i: nat)
  {
    f.index == i && i < |recent.filingDate| && i < |recent.accessionNumber| &&
    f.date == recent.filingDate[i] && f.accession == recent.accessionNumber[i]
  }

  /** The filings are, in ascending index order, filings read at indices
      below n whose form is formType. */
  predicate Chosen(recent: Recent, formType: string, fs: seq<Filing>, n: nat)
    requires n <= |recent.form|
  {
    (forall k | 0 <= k < |fs| :: fs[k].index < n && recent.form[fs[k].index] == formType && FilingAt(recent, fs[k], fs[k].index)) &&
    (forall k, l | 0 <= k < l < |fs| :: fs[k].index < fs[l].index)
  }

  /** Every index below n whose form is formType has its filing among fs. */
  predicate Covers(recent: Recent, formType: string, fs: seq<Filing>, n: nat)
    requires n <= |recent.form|
  {
    forall i | 0 <= i < n && recent.form[i] == formType :: exists k | 0 <= k < |fs| :: fs[k].index == i
  }

  /** Some form equal to formType below index n lacks a date or an accession. */
  predicate Missing(recent: Recent, formType: string, n: nat)
    requires n <= |recent.form|
  {
    exists i | 0 <= i < n :: recent.form[i] == formType && (i >= |recent.filingDate| || i >= |recent.accessionNumber|)
  }

  lemma {:induction false} SelectUpToNone(recent: Recent, formType: string, n: nat)
    requires n <= |recent.form|
    ensures SelectUpTo(recent, formType, n).None? <==> Missing(recent, formType, n)
    decreases n
  {
    if n > 0 {
      SelectUpToNone(recent, formType, n - 1);
      var i := n - 1;
      if SelectUpTo(recent, formType, n).None? && !Missing(recent, formType, n - 1) {
        assert recent.form[i] == formType && (i >= |recent.filingDate| || i >= |recent.accessionNumber|);
      }
      if Missing(recent, formType, n) && !Missing(recent, formType, n - 1) {
        var j :| 0 <= j < n && recent.form[j] == formType && (j >= |recent.filingDate| || j >= |recent.accessionNumber|);
        assert j == i;
      }
    }
  }

  lemma {:induction false} SelectUpToChosen(recent: Recent, formType: string, n: nat)
    requires n <= |recent.form|
    ensures SelectUpTo(recent, formType, n).Some? ==> Chosen(recent, formType, SelectUpTo(recent, formType, n).value, n)
    decreases n
  {
    if n > 0 {
      SelectUpToChosen(recent, formType, n - 1);
    }
  }

  lemma {:induction false} SelectUpToCovers(recent: Recent, formType: string, n: nat)
    requires n <= |recent.form|
    ensures SelectUpTo(recent, formType, n).Some? ==> Covers(recent, formType, SelectUpTo(recent, formType, n).value, n)
    decreases n
  {
    if n > 0 {
      SelectUpToCovers(recent, formType, n - 1);
      var prev := SelectUpTo(recent, formType, n - 1);
      var i := n - 1;
      if prev.Some? && SelectUpTo(recent, formType, n).Some? {
        var fs := SelectUpTo(recent, formType, n).value;
        assert prev.value <= fs;
        forall j | 0 <= j < n && recent.form[j] == formType
          ensures exists k | 0 <= k < |fs| :: fs[k].index == j
        {
          if j < i {
            var k :| 0 <= k < |prev.value| && prev.value[k].index == j;
            assert fs[k].index == j;
          } else {
            assert fs[|fs| - 1].index == j;
          }
        }
      }
    }
  }

  /** Selection fails exactly when some form equal to formType lacks a date or
      an accession; otherwise the filings are, in ascending index order, those
      of exactly the indices whose form equals formType, each reading its date
      and accession at its own index. */
  lemma SelectSpec(recent: Recent, formType: string)
    ensures Select(recent, formType).None? <==> Missing(recent, formType, |recent.form|)
    ensures Select(recent, formType).Some? ==>
      Chosen(recent, formType, Select(recent, formType).value, |recent.form|) &&
      Covers(recent, formType, Select(recent, formType).value, |recent.form|)
  {
    SelectUpToNone(recent, formType, |recent.form|);
    SelectUpToChosen(recent, formType, |recent.form|);
    SelectUpToCovers(recent, formType, |recent.form|);
  }

  /** A form type that no form equals selects nothing. */
  lemma {:induction false} SelectNone(recent: Recent, formType: string, n: nat)
    requires n <= |recent.form|
    requires forall i | 0 <= i < n :: recent.form[i] != formType
    ensures SelectUpTo(recent, formType, n) == Some([])
    decreases n
  {
    if n > 0 {
      SelectNone(recent, formType, n - 1);
    }
  }

  lemma SelectNext(recent: Recent, formType: string, i: nat)
    requires i < |recent.form|
    ensures SelectUpTo(recent, formType, i + 1) ==
      var prev := SelectUpTo(recent, formType, i);
      if prev.None? || recent.form[i] != formType then prev
      else if i < |recent.filingDate| && i < |recent.accessionNumber| then
        Some(prev.value + [Filing(recent.filingDate[i], recent.accessionNumber[i], i)])
      else None
  {
  }

  /** The selection loop of lines 91-100. */
  method SelectFilings(recent: Recent, formType: string) returns (filings: Option<seq<Filing>>)
    ensures filings == Select(recent, formType)
  {
    var found: seq<Filing> := [];
    var i := 0;
    while i < |recent.form|
      invariant 0 <= i <= |recent.form|
      invariant SelectUpTo(recent, formType, i) == Some(found)
    {
      SelectNext(recent, formType, i);
      if recent.form[i] == formType {
        if i >= |recent.filingDate| || i >= |recent.accessionNumber| {
          NoneStays(recent, formType, i + 1, |recent.form|);
          return None;
        }
        found := found + [Filing(recent.filingDate[i], recent.accessionNumber[i], i)];
      }
      i := i + 1;
    }
    filings := Some(found);
  }

  /** Once a selection has failed it stays failed. */
  lemma {:induction false} NoneStays(recent: Recent, formType: string, n: nat, m: nat)
    requires n <= m <= |recent.form|
    requires SelectUpTo(recent, formType, n).None?
    ensures SelectUpTo(recent, formType, m).None?
    decreases m - n
  {
    if n < m {
      NoneStays(recent, formType, n + 1, m);
    }
  }

  // ---------------------------------------------------------------------------
  // Names and URLs (lines 114-140)

  /** Line 116: accession.replace('-', ''). With a one-character pattern and
      an empty replacement, str.replace deletes each occurrence. */
  function Dashless(accession: string): string
  {
    Without(accession, {'-'})
  }

  /** The directory form has no '-', keeps every other character of the
      accession, and leaves an accession without '-' unchanged. */
  lemma DashlessSpec(accession: string)
    ensures '-' !in Dashless(accession)
    ensures forall c | c != '-' :: c in Dashless(accession) <==> c in accession
    ensures '-' !in accession ==> Dashless(accession) == accession
  {
    NoDash(accession);
    forall c | c != '-'
      ensures c in Dashless(accession) <==> c in accession
    {
      WithoutKeeps(accession, {'-'}, c);
    }
    if '-' !in accession {
      WithoutNone(accession, {'-'});
    }
  }

  /** Removing dashes works piece by piece: a dash becomes nothing and any
      other character stays, so the directory form is the accession with
      exactly its dashes taken out, in order. */
  lemma DashlessConcat(x: string, y: string, c: char)
    ensures Dashless(x + y) == Dashless(x) + Dashless(y)
    ensures Dashless([c]) == (if c == '-' then [] else [c])
  {
    WithoutConcat(x, y, {'-'});
  }

  lemma {:induction false} NoDash(s: string)
    ensures '-' !in Without(s, {'-'})
  {
    if s != [] {
      NoDash(s[1..]);
    }
  }

  /** Line 119: the archive URL of a filing's full text. */
  function DocumentUrl(cik: string, accession: string): string
  {
    ArchiveDir(cik) + Dashless(accession) + "/" + accession + ".txt"
  }

  /** The archive directory of a CIK, exactly as the CIK is spelt. */
  function ArchiveDir(cik: string): string
  {
    ArchivesBase + cik + "/"
  }

  /** The URL carries the cik argument exactly as given (not stripped, not
      re-padded), then the dashless accession, then the accession itself. */
  lemma DocumentUrlSpec(cik: string, accession: string)
    ensures StartsWith(DocumentUrl(cik, accession), ArchiveDir(cik))
    ensures DocumentUrl(cik, accession)[|ArchiveDir(cik)|..|ArchiveDir(cik)| + |Dashless(accession)|] == Dashless(accession)
    ensures DocumentUrl(cik, accession)[|DocumentUrl(cik, accession)| - |accession| - 4..] == accession + ".txt"
  {
    UrlParts(ArchiveDir(cik), Dashless(accession), accession);
  }

  /** Where the pieces of a URL built as head + mid + "/" + name + ".txt" sit. */
  lemma UrlParts(head: string, mid: string, name: string)
    ensures var url := head + mid + "/" + name + ".txt";
      StartsWith(url, head) && url[|head|..|head| + |mid|] == mid && url[|url| - |name| - 4..] == name + ".txt"
  {
    var front, tail := head + mid, "/" + name + ".txt";
    AppendAssoc(front, "/", name);
    AppendAssoc(front, "/" + name, ".txt");
    var url := front + tail;
    assert url[..|head|] == head;
    assert url[|head|..|head| + |mid|] == mid;
    assert url[|url| - |name| - 4..] == tail[1..] == name + ".txt";
  }

  /** Line 132 */
  function TempName(cik: string, formType: string, date: string): string
  {
    "temp_" + cik + "_" + formType + "_" + date + ".txt"
  }

  /** Line 140 */
  function ConvertedName(cik: string, companyName: string, formType: string, date: string): string
  {
    cik + "_" + Underscored(companyName) + "_" + formType + "_" + date + "_converted.txt"
  }

  /** companyName.replace(' ', '_'): with one character for another,
      str.replace maps each character. */
  function Underscored(name: string): (r: string)
    ensures |r| == |name| && ' ' !in r
    ensures forall k | 0 <= k < |name| :: r[k] == (if name[k] == ' ' then '_' else name[k])
  {
    seq(|name|, k requires 0 <= k < |name| => if name[k] == ' ' then '_' else name[k])
  }

  /** os.path.join(directory, name) for a name that does not start with '/'. */
  function JoinPath(directory: string, name: string): string
  {
    if directory == [] || directory[|directory| - 1] == '/' then directory + name else directory + "/" + name
  }

  // ---------------------------------------------------------------------------
  // One filing (lines 110-188)

  /** The converted file that is kept: its name and the cleaned text written
      over it. */
  datatype Saved = Saved(name: string, content: string)

  /** What the scrape needs from outside: the document download (None for a
      status other than 200 or a failed request) and the HTML parser's text. */
  datatype Env = Env(fetch: string -> Option<string>, getText: string -> string)

  /** Line 152: the converted text is meaningful when, stripped, it is longer
      than 1000 characters. */
  predicate Meaningful(converted: string)
  {
    |Strip(converted)| > MinConvertedLength
  }

  /** Lines 114-188 for one filing: download, convert, keep the cleaned
      conversion when it is meaningful. */
  function Process(env: Env, companyName: string, cik: string, formType: string, outputDir: string, f: Filing): Option<Saved>
  {
    var body := env.fetch(DocumentUrl(cik, f.accession));
    if body.None? then None
    else
      var report := ConvertedReport(body.value, env.getText, JoinPath(outputDir, TempName(cik, formType, f.date)));
      if report.Some? && Meaningful(report.value) then
        Some(Saved(ConvertedName(cik, companyName, formType, f.date), CleanHtmlContent(env.getText(report.value))))
      else None
  }

  /** A filing is kept exactly when its document downloads, the conversion
      finds narrative sections and the report is meaningful; what is kept is
      the report cleaned, under the converted name. */
  lemma ProcessSpec(env: Env, companyName: string, cik: string, formType: string, outputDir: string, f: Filing)
    ensures var r := Process(env, companyName, cik, formType, outputDir, f);
      var body := env.fetch(DocumentUrl(cik, f.accession));
      (r.Some? <==> (body.Some? &&
        NarrativeSections(body.value, env.getText) != [] &&
        Meaningful(Report(JoinPath(outputDir, TempName(cik, formType, f.date)), NarrativeSections(body.value, env.getText))))) &&
      (r.Some? ==> r.value.name == ConvertedName(cik, companyName, formType, f.date) && Clean(r.value.content))
  {
    ProcessClean(env, companyName, cik, formType, outputDir, f);
  }

  lemma ProcessClean(env: Env, companyName: string, cik: string, formType: string, outputDir: string, f: Filing)
    ensures var r := Process(env, companyName, cik, formType, outputDir, f);
      r.Some? ==> Clean(r.value.content)
  {
    var r := Process(env, companyName, cik, formType, outputDir, f);
    if r.Some? {
      var body := env.fetch(DocumentUrl(cik, f.accession));
      var report := ConvertedReport(body.value, env.getText, JoinPath(outputDir, TempName(cik, formType, f.date)));
      CleanHtmlContentShape(env.getText(report.value));
    }
  }

  /** What clean_html_content guarantees of its output. */
  predicate Clean(t: string)
  {
    IsStripped(t) && Tidy(t) && NoPair(t, '<', '>') && NoPair(t, '/', '>')
  }

  method ProcessFiling(env: Env, companyName: string, cik: string, formType: string, outputDir: string, f: Filing)
    returns (saved: Option<Saved>)
    ensures saved == Process(env, companyName, cik, formType, outputDir, f)
  {
    var accessionClean := Dashless(f.accession);
    var docUrl := ArchivesBase + cik + "/" + accessionClean + "/" + f.accession + ".txt";
    assert docUrl == DocumentUrl(cik, f.accession);
    var body := env.fetch(docUrl);
    if body.None? {
      return None;
    }
    var tempPath := JoinPath(outputDir, TempName(cik, formType, f.date));
    var converted := ConvertXbrlToText(body.value, env.getText, tempPath);
    if converted.None? {
      return None;
    }
    if |Strip(converted.value)| > MinConvertedLength {
      var cleaned := CleanHtml(env.getText(converted.value));
      return Some(Saved(ConvertedName(cik, companyName, formType, f.date), cleaned));
    }
    return None;
  }

  // ---------------------------------------------------------------------------
  // The filing loop (lines 109-188)

  /** The kept conversions of some filings, in order. */
  function ProcessAll(env: Env, companyName: string, cik: string, formType: string, outputDir: string, fs: seq<Filing>): seq<Saved>
    decreases |fs|
  {
    if fs == [] then []
    else
      var last := Process(env, companyName, cik, formType, outputDir, fs[|fs| - 1]);
      ProcessAll(env, companyName, cik, formType, outputDir, fs[..|fs| - 1]) + (if last.Some? then [last.value] else [])
  }

  /** Every kept conversion is cleaned text, and no filing yields more than one. */
  lemma {:induction false} ProcessAllSpec(env: Env, companyName: string, cik: string, formType: string, outputDir: string, fs: seq<Filing>)
    ensures |ProcessAll(env, companyName, cik, formType, outputDir, fs)| <= |fs|
    ensures forall k | 0 <= k < |ProcessAll(env, companyName, cik, formType, outputDir, fs)| ::
      Clean(ProcessAll(env, companyName, cik, formType, outputDir, fs)[k].content)
    decreases |fs|
  {
    if fs != [] {
      ProcessAllSpec(env, companyName, cik, formType, outputDir, fs[..|fs| - 1]);
      ProcessClean(env, companyName, cik, formType, outputDir, fs[|fs| - 1]);
    }
  }

  /** A conversion is returned exactly when one of the filings yields it:
      every kept conversion is in the list and nothing else is. */
  lemma {:induction false} ProcessAllMembers(env: Env, companyName: string, cik: string, formType: string, outputDir: string,
                                             fs: seq<Filing>, s: Saved)
    ensures s in ProcessAll(env, companyName, cik, formType, outputDir, fs) <==>
      exists f | f in fs :: Process(env, companyName, cik, formType, outputDir, f) == Some(s)
    decreases |fs|
  {
    if fs != [] {
      ProcessAllMembers(env, companyName, cik, formType, outputDir, fs[..|fs| - 1], s);
      ProcessAllMembersStep(env, companyName, cik, formType, outputDir, fs, s);
    }
  }

  lemma ProcessAllMembersStep(env: Env, companyName: string, cik: string, formType: string, outputDir: string,
                              fs: seq<Filing>, s: Saved)
    requires fs != []
    requires var init := fs[..|fs| - 1];
      s in ProcessAll(env, companyName, cik, formType, outputDir, init) <==>
      exists f | f in init :: Process(env, companyName, cik, formType, outputDir, f) == Some(s)
    ensures s in ProcessAll(env, companyName, cik, formType, outputDir, fs) <==>
      exists f | f in fs :: Process(env, companyName, cik, formType, outputDir, f) == Some(s)
  {
    var init, last := fs[..|fs| - 1], fs[|fs| - 1];
    var p := Process(env, companyName, cik, formType, outputDir, last);
    assert fs == init + [last];
    KeptStep(ProcessAll(env, companyName, cik, formType, outputDir, init), p, s);
    ExistsSnoc(init, last, f => Process(env, companyName, cik, formType, outputDir, f) == Some(s));
  }

  /** A conversion is in the list extended by one outcome exactly when it was
      already there or is that outcome. */
  lemma KeptStep(prev: seq<Saved>, p: Option<Saved>, s: Saved)
    ensures s in prev + (if p.Some? then [p.value] else []) <==> s in prev || p == Some(s)
  {
  }

  lemma ProcessAllNext(env: Env, companyName: string, cik: string, formType: string, outputDir: string, fs: seq<Filing>, i: nat)
    requires i < |fs|
    ensures ProcessAll(env, companyName, cik, formType, outputDir, fs[..i + 1]) ==
      ProcessAll(env, companyName, cik, formType, outputDir, fs[..i]) +
      (var p := Process(env, companyName, cik, formType, outputDir, fs[i]); if p.Some? then [p.value] else [])
  {
    assert fs[..i + 1][..i] == fs[..i];
  }

  /** Only the first maxFilings selected filings are downloaded: filings after
      them never change the result. */
  lemma FirstFilingsOnly(env: Env, companyName: string, cik: string, formType: string, outputDir: string,
                         fs: seq<Filing>, more: seq<Filing>, maxFilings: nat)
    requires |fs| >= maxFilings
    ensures ProcessAll(env, companyName, cik, formType, outputDir, PyPrefix(fs + more, maxFilings)) ==
            ProcessAll(env, companyName, cik, formType, outputDir, PyPrefix(fs, maxFilings))
  {
    assert PyPrefix(fs + more, maxFilings) == PyPrefix(fs, maxFilings);
  }

  /** The filing loop of lines 109-188 for one form type. */
  method ProcessFilings(env: Env, companyName: string, cik: string, formType: string, outputDir: string, fs: seq<Filing>)
    returns (saved: seq<Saved>)
    ensures saved == ProcessAll(env, companyName, cik, formType, outputDir, fs)
  {
    saved := [];
    var i := 0;
    while i < |fs|
      invariant 0 <= i <= |fs|
      invariant saved == ProcessAll(env, companyName, cik, formType, outputDir, fs[..i])
    {
      ProcessAllNext(env, companyName, cik, formType, outputDir, fs, i);
      var one := ProcessFiling(env, companyName, cik, formType, outputDir, fs[i]);
      if one.Some? {
        saved := saved + [one.value];
      }
      i := i + 1;
    }
    assert fs[..i] == fs;
  }

  // ---------------------------------------------------------------------------
  // The scrape (lines 68-195)

  /** Lines 90-188 for one form type: None when the selection raises,
      otherwise the kept conversions of its first maxFilings filings. */
  function ScrapeType(env: Env, companyName: string, cik: string, formType: string, maxFilings: int, outputDir: string,
                      recent: Recent): Option<seq<Saved>>
  {
    if Select(recent, formType).None? then None
    else Some(ProcessAll(env, companyName, cik, formType, outputDir, Downloaded(recent, formType, maxFilings)))
  }

  /** The filings downloaded for one form type: the first maxFilings selected
      (form_filings[:max_filings]), or none when the selection raises. */
  function Downloaded(recent: Recent, formType: string, maxFilings: int): seq<Filing>
  {
    var filings := Select(recent, formType);
    if filings.None? then [] else PyPrefix(filings.value, maxFilings)
  }

  /** For a form type whose selection does not raise, a conversion is saved
      exactly when one of its downloaded filings yields it. */
  lemma ScrapeTypeMembers(env: Env, companyName: string, cik: string, formType: string, maxFilings: int, outputDir: string,
                          recent: Recent, s: Saved)
    ensures var r := ScrapeType(env, companyName, cik, formType, maxFilings, outputDir, recent);
      r.Some? ==> (s in r.value <==> YieldedBy(env, companyName, cik, formType, maxFilings, outputDir, recent, s))
  {
    ProcessAllMembers(env, companyName, cik, formType, outputDir, Downloaded(recent, formType, maxFilings), s);
  }

  /** One form type yields at most maxFilings conversions, all cleaned text. */
  lemma ScrapeTypeSpec(env: Env, companyName: string, cik: string, formType: string, maxFilings: int, outputDir: string,
                       recent: Recent)
    ensures var r := ScrapeType(env, companyName, cik, formType, maxFilings, outputDir, recent);
      r.Some? ==> Bounded(r.value, maxFilings)
  {
    if Select(recent, formType).Some? {
      ProcessAllSpec(env, companyName, cik, formType, outputDir, Downloaded(recent, formType, maxFilings));
    }
  }

  /** At most limit conversions (when the limit is not negative), all cleaned text. */
  predicate Bounded(saved: seq<Saved>, limit: int)
  {
    (limit >= 0 ==> |saved| <= limit) && forall k | 0 <= k < |saved| :: Clean(saved[k].content)
  }

  /** A form type that no form equals adds nothing (the `continue` of line 104). */
  lemma NoMatchSkipped(env: Env, companyName: string, cik: string, formType: string, maxFilings: int, outputDir: string,
                       recent: Recent)
    requires forall i | 0 <= i < |recent.form| :: recent.form[i] != formType
    ensures ScrapeType(env, companyName, cik, formType, maxFilings, outputDir, recent) == Some([])
  {
    SelectNone(recent, formType, |recent.form|);
  }

  /** The outcome of each form type, in order. */
  function Outcomes(env: Env, companyName: string, cik: string, formTypes: seq<string>, maxFilings: int, outputDir: string,
                    recent: Recent): (r: seq<Option<seq<Saved>>>)
    ensures |r| == |formTypes|
  {
    seq(|formTypes|, k requires 0 <= k < |formTypes| => ScrapeType(env, companyName, cik, formTypes[k], maxFilings, outputDir, recent))
  }

  /** The form-type loop: the conversions of every type in order, or None as
      soon as one type's selection raises. */
  function Gather(outcomes: seq<Option<seq<Saved>>>): Option<seq<Saved>>
    decreases |outcomes|
  {
    if outcomes == [] then Some([])
    else
      var prev := Gather(outcomes[..|outcomes| - 1]);
      var last := outcomes[|outcomes| - 1];
      if prev.None? || last.None? then None else Some(prev.value + last.value)
  }

  /** scrape_company_filings: the saved conversions, or none when the
      submissions request failed or a selection raised. The request is made to
      the submissions URL of the normal CIK (lines 72-82); submissions maps a
      URL to the recent filings it answers with, or None when it fails. */
  function Scrape(env: Env, companyName: string, cik: string, formTypes: seq<string>, maxFilings: int, outputDir: string,
                  submissions: string -> Option<Recent>): seq<Saved>
  {
    var reply := submissions(SubmissionsUrl(cik));
    if reply.None? then [] else ScrapeRecent(env, companyName, cik, formTypes, maxFilings, outputDir, reply.value)
  }

  /** The scrape once the submissions request has answered with recent. */
  function ScrapeRecent(env: Env, companyName: string, cik: string, formTypes: seq<string>, maxFilings: int,
                        outputDir: string, recent: Recent): seq<Saved>
  {
    var r := Gather(Outcomes(env, companyName, cik, formTypes, maxFilings, outputDir, recent));
    if r.None? then [] else r.value
  }

  /** Gathering fails exactly when some outcome failed; a type that yields
      nothing leaves the result alone. */
  lemma {:induction false} GatherNone(outcomes: seq<Option<seq<Saved>>>)
    ensures Gather(outcomes).None? <==> exists k | 0 <= k < |outcomes| :: outcomes[k].None?
    decreases |outcomes|
  {
    if outcomes != [] {
      var init := outcomes[..|outcomes| - 1];
      GatherNone(init);
      if exists k | 0 <= k < |init| :: init[k].None? {
        var k :| 0 <= k < |init| && init[k].None?;
        assert outcomes[k].None?;
      }
      if exists k | 0 <= k < |outcomes| :: outcomes[k].None? {
        var k :| 0 <= k < |outcomes| && outcomes[k].None?;
        if k < |init| {
          assert init[k].None?;
        }
      }
    }
  }

  /** A successful gathering holds exactly the conversions of the outcomes. */
  lemma {:induction false} GatherMembers(outcomes: seq<Option<seq<Saved>>>, s: Saved)
    ensures Gather(outcomes).Some? ==>
      (s in Gather(outcomes).value <==> exists k | 0 <= k < |outcomes| :: outcomes[k].Some? && s in outcomes[k].value)
    decreases |outcomes|
  {
    if outcomes != [] {
      var init := outcomes[..|outcomes| - 1];
      GatherMembers(init, s);
      if exists k | 0 <= k < |init| :: init[k].Some? && s in init[k].value {
        var k :| 0 <= k < |init| && init[k].Some? && s in init[k].value;
        assert outcomes[k] == init[k];
      }
      if exists k | 0 <= k < |outcomes| :: outcomes[k].Some? && s in outcomes[k].value {
        var k :| 0 <= k < |outcomes| && outcomes[k].Some? && s in outcomes[k].value;
        if k < |init| {
          assert init[k] == outcomes[k];
        }
      }
    }
  }

  /** n outcomes of at most limit cleaned conversions each gather to at most
      n * limit cleaned conversions. */
  lemma {:induction false} GatherBounded(outcomes: seq<Option<seq<Saved>>>, limit: int)
    requires forall k | 0 <= k < |outcomes| :: outcomes[k].Some? ==> Bounded(outcomes[k].value, limit)
    ensures Gather(outcomes).Some? ==> Bounded(Gather(outcomes).value, |outcomes| * limit)
    decreases |outcomes|
  {
    if outcomes != [] {
      var n := |outcomes|;
      var init := outcomes[..n - 1];
      GatherBounded(init, limit);
      var prev := Gather(init);
      var last := outcomes[n - 1];
      if prev.Some? && last.Some? {
        AllClean(prev.value, last.value);
        if limit >= 0 {
          assert (n - 1) * limit + limit == n * limit;
        }
      }
    }
  }

  lemma AllClean(a: seq<Saved>, b: seq<Saved>)
    requires forall k | 0 <= k < |a| :: Clean(a[k].content)
    requires forall k | 0 <= k < |b| :: Clean(b[k].content)
    ensures forall k | 0 <= k < |a + b| :: Clean((a + b)[k].content)
  {
    forall k | 0 <= k < |a + b|
      ensures Clean((a + b)[k].content)
    {
      if k >= |a| {
        assert (a + b)[k] == b[k - |a|];
      }
    }
  }

  /** The scrape returns at most maxFilings conversions per form type, each
      cleaned text; nothing when the submissions request fails or when any
      form type's selection raises. */
  lemma ScrapeSpec(env: Env, companyName: string, cik: string, formTypes: seq<string>, maxFilings: int, outputDir: string,
                   submissions: string -> Option<Recent>)
    ensures var r := Scrape(env, companyName, cik, formTypes, maxFilings, outputDir, submissions);
      var reply := submissions(SubmissionsUrl(cik));
      Bounded(r, |formTypes| * maxFilings) &&
      (reply.None? ==> r == []) &&
      (reply.Some? && (exists k | 0 <= k < |formTypes| :: Select(reply.value, formTypes[k]).None?) ==> r == [])
  {
    var reply := submissions(SubmissionsUrl(cik));
    if reply.Some? {
      ScrapeAnswered(env, companyName, cik, formTypes, maxFilings, outputDir, submissions, reply.value);
      ScrapeRecentSpec(env, companyName, cik, formTypes, maxFilings, outputDir, reply.value);
    } else {
      ScrapeFailed(env, companyName, cik, formTypes, maxFilings, outputDir, submissions);
    }
  }

  /** When the submissions request answers and no selection raises, the scrape
      returns exactly the conversions that the downloaded filings yield. */
  lemma ScrapeMembers(env: Env, companyName: string, cik: string, formTypes: seq<string>, maxFilings: int,
                      outputDir: string, submissions: string -> Option<Recent>, s: Saved)
    ensures var reply := submissions(SubmissionsUrl(cik));
      reply.Some? && (forall k | 0 <= k < |formTypes| :: Select(reply.value, formTypes[k]).Some?) ==>
        (s in Scrape(env, companyName, cik, formTypes, maxFilings, outputDir, submissions) <==>
         exists k | 0 <= k < |formTypes| :: YieldedBy(env, companyName, cik, formTypes[k], maxFilings, outputDir, reply.value, s))
  {
    var reply := submissions(SubmissionsUrl(cik));
    if reply.Some? && forall k | 0 <= k < |formTypes| :: Select(reply.value, formTypes[k]).Some? {
      ScrapeAnswered(env, companyName, cik, formTypes, maxFilings, outputDir, submissions, reply.value);
      ScrapeRecentMembers(env, companyName, cik, formTypes, maxFilings, outputDir, reply.value, s);
    }
  }

  /** A failed submissions request saves nothing. */
  lemma ScrapeFailed(env: Env, companyName: string, cik: string, formTypes: seq<string>, maxFilings: int,
                     outputDir: string, submissions: string -> Option<Recent>)
    requires submissions(SubmissionsUrl(cik)).None?
    ensures Scrape(env, companyName, cik, formTypes, maxFilings, outputDir, submissions) == []
    ensures Bounded(Scrape(env, companyName, cik, formTypes, maxFilings, outputDir, submissions), |formTypes| * maxFilings)
  {
    BoundedEmpty(|formTypes| * maxFilings);
  }

  /** Once the submissions request has answered, the scrape is that answer's. */
  lemma ScrapeAnswered(env: Env, companyName: string, cik: string, formTypes: seq<string>, maxFilings: int,
                       outputDir: string, submissions: string -> Option<Recent>, recent: Recent)
    requires submissions(SubmissionsUrl(cik)) == Some(recent)
    ensures Scrape(env, companyName, cik, formTypes, maxFilings, outputDir, submissions) ==
      ScrapeRecent(env, companyName, cik, formTypes, maxFilings, outputDir, recent)
  {
  }

  lemma BoundedEmpty(limit: int)
    ensures Bounded([], limit)
  {
  }

  /** When no selection raises, a conversion is saved exactly when some form
      type has a downloaded filing that yields it: every meaningful filing among
      the first maxFilings of each type is returned, and nothing else is. */
  lemma ScrapeRecentMembers(env: Env, companyName: string, cik: string, formTypes: seq<string>, maxFilings: int,
                            outputDir: string, recent: Recent, s: Saved)
    requires forall k | 0 <= k < |formTypes| :: Select(recent, formTypes[k]).Some?
    ensures s in ScrapeRecent(env, companyName, cik, formTypes, maxFilings, outputDir, recent) <==>
      exists k | 0 <= k < |formTypes| :: YieldedBy(env, companyName, cik, formTypes[k], maxFilings, outputDir, recent, s)
  {
    var outs := Outcomes(env, companyName, cik, formTypes, maxFilings, outputDir, recent);
    assert forall k | 0 <= k < |outs| :: outs[k].Some?;
    GatherNone(outs);
    GatherMembers(outs, s);
    forall k | 0 <= k < |outs|
      ensures (outs[k].Some? && s in outs[k].value) <==> YieldedBy(env, companyName, cik, formTypes[k], maxFilings, outputDir, recent, s)
    {
      ScrapeTypeMembers(env, companyName, cik, formTypes[k], maxFilings, outputDir, recent, s);
    }
  }

  /** Some downloaded filing of formType yields s. */
  predicate YieldedBy(env: Env, companyName: string, cik: string, formType: string, maxFilings: int, outputDir: string,
                      recent: Recent, s: Saved)
  {
    exists f | f in Downloaded(recent, formType, maxFilings) :: Process(env, companyName, cik, formType, outputDir, f) == Some(s)
  }

  /** For one answer of the submissions request: at most maxFilings cleaned
      conversions per form type, and nothing when a selection raises. */
  lemma ScrapeRecentSpec(env: Env, companyName: string, cik: string, formTypes: seq<string>, maxFilings: int,
                         outputDir: string, recent: Recent)
    ensures var r := ScrapeRecent(env, companyName, cik, formTypes, maxFilings, outputDir, recent);
      Bounded(r, |formTypes| * maxFilings) &&
      ((exists k | 0 <= k < |formTypes| :: Select(recent, formTypes[k]).None?) ==> r == [])
  {
    var outs := Outcomes(env, companyName, cik, formTypes, maxFilings, outputDir, recent);
    forall k | 0 <= k < |outs|
      ensures outs[k].Some? ==> Bounded(outs[k].value, maxFilings)
    {
      ScrapeTypeSpec(env, companyName, cik, formTypes[k], maxFilings, outputDir, recent);
    }
    GatherBounded(outs, maxFilings);
    GatherNone(outs);
    if exists k | 0 <= k < |formTypes| :: Select(recent, formTypes[k]).None? {
      var k :| 0 <= k < |formTypes| && Select(recent, formTypes[k]).None?;
      assert outs[k].None?;
    }
  }

  lemma GatherNext(outcomes: seq<Option<seq<Saved>>>, n: nat)
    requires n < |outcomes|
    ensures Gather(outcomes[..n + 1]) ==
      (var prev := Gather(outcomes[..n]); if prev.None? || outcomes[n].None? then None else Some(prev.value + outcomes[n].value))
  {
    assert outcomes[..n + 1][..n] == outcomes[..n];
  }

  /** One more outcome: a failed one makes the whole gathering fail, any other
      is appended to what was gathered so far. */
  lemma GatherStep(outcomes: seq<Option<seq<Saved>>>, n: nat, saved: seq<Saved>, more: Option<seq<Saved>>)
    requires n < |outcomes| && outcomes[n] == more
    requires Gather(outcomes[..n]) == Some(saved)
    ensures more.None? ==> Gather(outcomes).None?
    ensures more.Some? ==> Gather(outcomes[..n + 1]) == Some(saved + more.value)
  {
    GatherNext(outcomes, n);
    GatherNone(outcomes);
  }

  /** scrape_company_filings (lines 43-195) without the printing and the file
      system. */
  method ScrapeCompanyFilings(env: Env, companyName: string, cik: string, formTypes: seq<string>, maxFilings: int,
                              outputDir: string, submissions: string -> Option<Recent>)
    returns (saved: seq<Saved>)
    ensures saved == Scrape(env, companyName, cik, formTypes, maxFilings, outputDir, submissions)
  {
    var url := SubmissionsUrl(cik);
    var reply := submissions(url);
    if reply.None? {
      return [];
    }
    var gathered := ScrapeFormTypes(env, companyName, cik, formTypes, maxFilings, outputDir, reply.value);
    saved := if gathered.None? then [] else gathered.value;
  }

  /** The form-type loop (lines 87-191): the conversions of every type in
      order, or None as soon as one type's selection raises. */
  method ScrapeFormTypes(env: Env, companyName: string, cik: string, formTypes: seq<string>, maxFilings: int,
                         outputDir: string, recent: Recent)
    returns (gathered: Option<seq<Saved>>)
    ensures gathered == Gather(Outcomes(env, companyName, cik, formTypes, maxFilings, outputDir, recent))
  {
    ghost var outs := Outcomes(env, companyName, cik, formTypes, maxFilings, outputDir, recent);
    var saved := [];
    var n := 0;
    while n < |formTypes|
      invariant 0 <= n <= |formTypes|
      invariant Gather(outs[..n]) == Some(saved)
    {
      var more := ScrapeFormType(env, companyName, cik, formTypes[n], maxFilings, outputDir, recent);
      GatherStep(outs, n, saved, more);
      if more.None? {
        return None;
      }
      saved := saved + more.value;
      n := n + 1;
    }
    assert outs[..n] == outs;
    return Some(saved);
  }

  /** The body of the form-type loop (lines 88-188). */
  method ScrapeFormType(env: Env, companyName: string, cik: string, formType: string, maxFilings: int, outputDir: string,
                        recent: Recent) returns (more: Option<seq<Saved>>)
    ensures more == ScrapeType(env, companyName, cik, formType, maxFilings, outputDir, recent)
  {
    var formFilings := SelectFilings(recent, formType);
    if formFilings.None? {
      return None;
    }
    if formFilings.value == [] {
      assert PyPrefix(formFilings.value, maxFilings) == [];
      return Some([]);
    }
    var chosen := PyPrefix(formFilings.value, maxFilings);
    var saved := ProcessFilings(env, companyName, cik, formType, outputDir, chosen);
    return Some(saved);
  }
}
