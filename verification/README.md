# financial-nlp-engine: the filing-to-narrative pipeline, in Dafny

This project models the text pipeline of financial-nlp-engine. The pipeline
downloads SEC EDGAR filings for a company, extracts the narrative sections a
sentiment model reads, and cleans them. It also models the small selection
and normalisation rules around that pipeline. The project has five modules,
one per file:

- `Text` (text.dfy) holds the Python string primitives the code relies on,
  each with its Python meaning:
  - `str.strip` over Python's whitespace set, `str.lstrip('0')` and `str.zfill` with its sign rule;
  - `str.splitlines`, `str.split`, `str.join`, `str.replace` and `re.sub` over a fixed pattern;
  - runs of a character class collapsed to one space, slices with Python's negative bounds, and `str(int)`.
- `HtmlCleaner` (html_cleaner.dfy) models `clean_html_content` after
  BeautifulSoup's `get_text`. In order, it:
  - keeps the non-empty stripped lines;
  - collapses space/tab runs;
  - applies the ten entity replacements;
  - removes tag-like spans and the `#160;` and `br clear="none"` artifacts;
  - strips the result.
- `XbrlConverter` (xbrl_converter.dfy) models three functions:
  - `extract_narrative_sections`:
    - isolation of the `<DOCUMENT>` body;
    - the two-state keyword scan over the cleaned lines;
    - the paragraph fallback;
    - de-duplication by 200-character prefix;
    - the cap of five sections.
  - `clean_financial_data`.
  - The report text written by `convert_xbrl_to_text`.
- `CompanyLookup` (company_lookup.dfy) models the search over the fetched
  ticker table:
  - the substring match;
  - CIK padding and exclusion;
  - the limit of ten results;
  - the lookups by ticker, by name, and by name-or-ticker;
  - `search_companies`.
- `SecScraper` (sec_scraper.dfy) models `scrape_company_filings`:
  - CIK normalisation;
  - filing selection from the parallel `recent` lists;
  - the `max_filings` prefix;
  - the accession directory and document URL;
  - the keep/skip rule for a converted filing;
  - the loop over form types.

The loops of the source are methods with loop invariants:
- the line filter of `clean_html_content`;
- the keyword scan, the fallback and the de-duplication loop;
- the report writer;
- the search loop with its `break`, and the ticker filter with its early return;
- the filing selection, the per-filing loop and the form-type loop.

Each method is proved equal to a specification function. The lemmas state
what the source promises about that function.

Outside inputs are parameters:
- The ticker table request is a `Response` value: a failure, or a status and the entries.
- The submissions request is a function from URL to an optional `Recent`. The scrape applies it to `SubmissionsUrl` of the CIK.
- Each document download is a function from URL to an optional body.
- BeautifulSoup's parse and `get_text` form an uninterpreted function `getText`.
- Files written and read back are the strings written to them.

`clean_html_content` is not idempotent. One pass turns `&amp;amp;` into
`&amp;`, and a second pass turns that into `&`
(`HtmlCleaner.DecodeEntitiesNotIdempotent`).

## Model

| member | source | states |
|---|---|---|
| HtmlCleaner.SplitLines | src/parsing/html_cleaner.py:34 | `splitlines` yields no piece for empty text only, and no piece contains a line break |
| HtmlCleaner.SplitLinesConcat | src/parsing/html_cleaner.py:34 | the pieces, concatenated, are the text with its line-break characters removed: nothing else is lost |
| HtmlCleaner.KeptLinesGood | src/parsing/html_cleaner.py:33-37 | every kept line is non-empty and stripped, and there are no more kept lines than input lines |
| HtmlCleaner.KeptLinesOrder | src/parsing/html_cleaner.py:33-37 | the kept lines are an order-preserving subsequence of the stripped input lines |
| HtmlCleaner.KeptLinesComplete | src/parsing/html_cleaner.py:34-37 | every input line that is non-empty once stripped is kept |
| HtmlCleaner.KeptLinesNoBreak | src/parsing/html_cleaner.py:34-37 | stripping keeps lines free of line breaks |
| HtmlCleaner.CollectLines | src/parsing/html_cleaner.py:33-37 | the filter loop collects exactly the kept lines of `splitlines` |
| HtmlCleaner.JoinedLinesShape | src/parsing/html_cleaner.py:40 | splitting the `'\n'`-joined text at `'\n'` gives back the kept lines; no kept line gives "" |
| HtmlCleaner.CollapseSpacesKeepsLines | src/parsing/html_cleaner.py:43 | collapsing space/tab runs changes nothing but spaces and tabs, so every newline stays where it was |
| HtmlCleaner.CollapseSpacesTidy | src/parsing/html_cleaner.py:64 | after collapsing, no space or tab is followed by another space or tab |
| HtmlCleaner.CollapseSpacesRun | src/parsing/html_cleaner.py:43 | a maximal run of spaces and tabs becomes exactly one space, and the text on either side is collapsed on its own |
| HtmlCleaner.CollapseSpacesConcat | src/parsing/html_cleaner.py:64 | collapsing works piece by piece when the pieces do not meet inside a run of spaces and tabs |
| HtmlCleaner.CollapseSpacesNone | src/parsing/html_cleaner.py:43 | a text with no space or tab is unchanged |
| HtmlCleaner.ReplaceEachRemoves | src/parsing/html_cleaner.py:46-55 | a pattern replaced in turn is absent at the end when no later replacement text can re-create it |
| HtmlCleaner.DecodeEntitiesRemoves | src/parsing/html_cleaner.py:48-55 | after the ten replacements, none of the eight patterns from `&lt;` on remains |
| HtmlCleaner.DecodeEntitiesSequential | src/parsing/html_cleaner.py:47-48 | the replacements are sequential: `&amp;lt;` decodes to `<` |
| HtmlCleaner.DecodeEntitiesNotIdempotent | src/parsing/html_cleaner.py:46-55 | decoding `&amp;amp;` gives `&amp;`, and decoding that again gives `&` |
| HtmlCleaner.RemoveTags | src/parsing/html_cleaner.py:58-59 | after the two removals no `<` and no `/` is followed anywhere later by `>`, across newlines too |
| Text.RemoveBracketedSpan | src/parsing/html_cleaner.py:58-59 | one piece from an opening character to the first `>` after it is deleted and nothing else: the text before it is kept and the text after it is processed on its own |
| Text.RemoveBracketedNoPair | src/parsing/html_cleaner.py:58-59 | text in which no opening character is followed by a `>` is unchanged |
| HtmlCleaner.RemoveTagsSpan | src/parsing/html_cleaner.py:58-59 | a `<…>` tag is deleted and nothing else: "a<b>c" becomes "a" followed by the cleaned "c" |
| HtmlCleaner.RemoveTagsNone | src/parsing/html_cleaner.py:58-59 | text with no `<` or `/` followed by a `>` is unchanged |
| HtmlCleaner.RemoveArtifactsEffect | src/parsing/html_cleaner.py:60-61 | no `#160;` survives its replacement, and text without either artifact is unchanged |
| HtmlCleaner.RemoveArtifactsKeepsNoPair | src/parsing/html_cleaner.py:60-61 | the artifact replacements cannot re-create a `<`…`>` or `/`…`>` pair |
| HtmlCleaner.FinishShape | src/parsing/html_cleaner.py:64-67 | the final collapse and strips give stripped text without space/tab runs |
| HtmlCleaner.CleanHtmlContentShape | src/parsing/html_cleaner.py:33-67 | the cleaned text is stripped, has no space/tab run and no tag-like pair, and empty text gives "" |
| HtmlCleaner.CleanHtml | src/parsing/html_cleaner.py:33-67 | the imperative cleaner computes the cleaned text, with all the guarantees above |
| XbrlConverter.IsolateMissing | src/parsing/xbrl_converter.py:21 | without both markers the content is unchanged |
| XbrlConverter.IsolateBody | src/parsing/xbrl_converter.py:21-26 | with both markers, the body is empty exactly when the first close comes no later than the first open; a non-empty body starts with `<DOCUMENT>` and never contains `</DOCUMENT>` |
| XbrlConverter.IsolateDocument | src/parsing/xbrl_converter.py:21-26 | the isolation step computes the body slice |
| XbrlConverter.StepKeepsInv | src/parsing/xbrl_converter.py:57-85 | one line of the scan keeps the invariant: idle means an empty buffer; accumulating means 1 to 50 stripped non-empty lines, the first and only the first holding a trigger keyword, the later ones no stop word; every emitted buffer has at most 51 lines, a trigger line first and a joined length over 500 |
| XbrlConverter.RunKeepsInv | src/parsing/xbrl_converter.py:57-85 | the invariant holds after any number of lines |
| XbrlConverter.KeywordBuffersGood | src/parsing/xbrl_converter.py:57-90 | every emitted section, including the final flush, is a good buffer: a trigger line first, at most 51 lines, joined length over 500 |
| XbrlConverter.NoTriggerNoSections | src/parsing/xbrl_converter.py:57-90 | lines without a trigger keyword leave the scan idle and emit nothing |
| XbrlConverter.KeywordSectionsLong | src/parsing/xbrl_converter.py:65-90 | every keyword section is longer than 500 characters; shorter buffers are dropped |
| XbrlConverter.ScanLines | src/parsing/xbrl_converter.py:57-90 | the imperative scan emits the joined keyword sections of the line-by-line specification |
| XbrlConverter.ParagraphsNoSep | src/parsing/xbrl_converter.py:95 | no paragraph chunk contains a `\n\s*\n` separator, and text without one is a single chunk |
| XbrlConverter.FallbackGood | src/parsing/xbrl_converter.py:96-102 | every fallback chunk is stripped, longer than 1000 characters and holds a finance keyword |
| XbrlConverter.FallbackOrder | src/parsing/xbrl_converter.py:96-102 | the fallback chunks are a subsequence of the stripped paragraphs, in split order |
| XbrlConverter.AddChunks | src/parsing/xbrl_converter.py:96-102 | the fallback loop appends the fallback chunks after the sections already found |
| XbrlConverter.CandidatesShape | src/parsing/xbrl_converter.py:93-102 | every candidate is longer than 500 characters; the keyword sections come first; with three or more of them there is no fallback |
| XbrlConverter.Key | src/parsing/xbrl_converter.py:108 | the identity of a section is its prefix of length min(200, length) |
| XbrlConverter.DedupKeys | src/parsing/xbrl_converter.py:105-111 | the kept sections have exactly the prefixes seen in the input |
| XbrlConverter.DedupKeepsFirst | src/parsing/xbrl_converter.py:105-111 | the loop's result equals the independent definition "keep a section when no earlier one has its prefix" |
| XbrlConverter.DedupDistinct | src/parsing/xbrl_converter.py:105-111 | no two kept sections share a prefix, and the kept sections are an order-preserving subsequence |
| XbrlConverter.RemoveDuplicates | src/parsing/xbrl_converter.py:105-111 | the imperative de-duplication with its `seen` set computes the specification |
| XbrlConverter.CapDedupShape | src/parsing/xbrl_converter.py:105-113 | at most five sections, distinct prefixes, an order-preserving subsequence of the candidates, equal to the first five first-occurrences |
| XbrlConverter.SectionsOfShape | src/parsing/xbrl_converter.py:93-113 | the sections of cleaned text: at most five, each over 500 characters, distinct prefixes, in candidate order |
| XbrlConverter.NarrativeSectionsShape | src/parsing/xbrl_converter.py:21-113 | the same for a whole filing, through isolation and HTML cleaning |
| XbrlConverter.SectionsFromCleaned | src/parsing/xbrl_converter.py:32-113 | the imperative extraction from cleaned text meets the specification and its bounds |
| XbrlConverter.ExtractNarrativeSections | src/parsing/xbrl_converter.py:14-113 | `extract_narrative_sections` gives at most five sections, each over 500 characters, no two with the same 200-character prefix |
| XbrlConverter.EntityStartMatches | src/parsing/xbrl_converter.py:123 | an entity starts exactly at `&`, one or more characters of `[a-zA-Z0-9#]`, then `;` |
| XbrlConverter.StripEntitiesClean | src/parsing/xbrl_converter.py:123 | after the entity substitution no entity remains |
| XbrlConverter.StripEntitiesAt | src/parsing/xbrl_converter.py:123 | one entity becomes exactly one space: the text before it is kept and the text after it is processed on its own |
| XbrlConverter.StripEntitiesNone | src/parsing/xbrl_converter.py:123 | text with no entity is unchanged |
| XbrlConverter.CollapsedSingleSpaced | src/parsing/xbrl_converter.py:125 | after `\s+` becomes one space, the only whitespace is single spaces |
| XbrlConverter.TightenDollarsTight | src/parsing/xbrl_converter.py:127 | after the currency rule no `$` is followed by whitespace, and every character other than whitespace is kept, in order |
| XbrlConverter.TightenDollarsNoDoubleSpace | src/parsing/xbrl_converter.py:127 | the currency rule cannot create a double space |
| XbrlConverter.TightenDollarsAt | src/parsing/xbrl_converter.py:127 | only the whitespace right after a `$` goes: the text before the `$` is kept and the text after that whitespace is processed on its own |
| XbrlConverter.TightenDollarsNone | src/parsing/xbrl_converter.py:127 | text with no `$` is unchanged |
| XbrlConverter.FinishFinancial | src/parsing/xbrl_converter.py:127-128 | single-spaced text stays single-spaced and `$`-tight through the currency rule and the strip |
| XbrlConverter.CleanFinancialDataShape | src/parsing/xbrl_converter.py:120-128 | the result has no leading or trailing whitespace, no whitespace but single spaces, no `$` before whitespace; entities are gone before the collapse; text without `&` and `$` is only collapsed to single spaces and stripped |
| XbrlConverter.BlocksPrefix | src/parsing/xbrl_converter.py:154-157 | the blocks of the first n sections start the blocks of all of them |
| XbrlConverter.ReportLayout | src/parsing/xbrl_converter.py:148-157 | the report starts with the header (title line, 60 `=`, banner, 50 `=`), and section k+1's numbered block follows the first k blocks |
| XbrlConverter.WriteHeader | src/parsing/xbrl_converter.py:148-152 | the header writes produce the header text |
| XbrlConverter.WriteBlock | src/parsing/xbrl_converter.py:155-157 | one section write appends its numbered block |
| XbrlConverter.WriteSections | src/parsing/xbrl_converter.py:154-157 | the section loop appends the blocks numbered from 1 |
| XbrlConverter.ConvertXbrlToText | src/parsing/xbrl_converter.py:140-157 | nothing is written exactly when there are no narrative sections; otherwise the report of those sections is written |
| CompanyLookup.PaddedCik | src/ingestion/company_lookup.py:58-60 | a CIK exists exactly for an int or str whose text is non-empty and not "0"; it is that text zero-filled to width 10, so at least 10 long |
| CompanyLookup.MatchesSubstring | src/ingestion/company_lookup.py:53-55 | an entry matches exactly when the upper-cased query occurs in the upper-cased title or ticker |
| CompanyLookup.PickShape | src/ingestion/company_lookup.py:47-68 | an entry gives at most one result; it gives one exactly when it matches and has a padded CIK other than ten zeros; the result keeps the title and upper-cases the ticker |
| CompanyLookup.PicksConcat | src/ingestion/company_lookup.py:47-68 | results follow table order: the results of a split table are those of each part, in order |
| CompanyLookup.PicksGood | src/ingestion/company_lookup.py:47-68 | every result matches the query and has a CIK of at least 10 characters other than ten zeros |
| CompanyLookup.SearchShape | src/ingestion/company_lookup.py:26-80 | at most ten results, each a good match, a prefix of all matches in order, of length min(10, matches); a non-200 status or a failed request gives none |
| CompanyLookup.SearchIgnoresRest | src/ingestion/company_lookup.py:70-71 | once ten results are collected the rest of the table does not matter |
| CompanyLookup.StopEarly | src/ingestion/company_lookup.py:70-71 | breaking at the entry that brings the count to ten gives the first ten results |
| CompanyLookup.ScanEntry | src/ingestion/company_lookup.py:53-71 | one loop step appends the entry's result and asks to stop exactly when a matching entry leaves ten or more results |
| CompanyLookup.SearchCompany | src/ingestion/company_lookup.py:36-80 | the loop with its `break` computes the search |
| CompanyLookup.TickerIndex | src/ingestion/company_lookup.py:95-97 | the index found is the first whose ticker equals the query ignoring case, or the length when none does |
| CompanyLookup.FindTicker | src/ingestion/company_lookup.py:95-99 | the filter loop with its early return finds that first company |
| CompanyLookup.ByTickerSpec | src/ingestion/company_lookup.py:82-99 | the company found is the first search result whose ticker is the upper-cased query; none is found exactly when no result has that ticker |
| CompanyLookup.GetCompanyByTicker | src/ingestion/company_lookup.py:82-99 | the method computes the lookup by ticker |
| CompanyLookup.ByNameSpec | src/ingestion/company_lookup.py:101-117 | the first search result, a good match, or none exactly when the search is empty |
| CompanyLookup.GetCompanyByName | src/ingestion/company_lookup.py:111-117 | the method computes the lookup by name |
| CompanyLookup.GetCikByTicker | src/ingestion/company_lookup.py:129-130 | the CIK of the ticker lookup, if any |
| CompanyLookup.GetCikByName | src/ingestion/company_lookup.py:142-143 | the CIK of the name lookup, if any |
| CompanyLookup.CikByNameOrTickerSpec | src/ingestion/company_lookup.py:146-162 | the ticker lookup's CIK when it finds a company, otherwise the name lookup's; a CIK returned is at least 10 characters and not ten zeros |
| CompanyLookup.GetCikByNameOrTicker | src/ingestion/company_lookup.py:156-162 | the method computes that choice |
| CompanyLookup.SearchCompaniesSpec | src/ingestion/company_lookup.py:165-177 | a prefix of the search, at most ten long, of length min(limit, results) for a non-negative limit |
| CompanyLookup.SearchCompaniesLimited | src/ingestion/company_lookup.py:176-177 | the method computes the limited search |
| SecScraper.NormalizeCikSpec | src/ingestion/sec_scraper.py:72-73 | the normal CIK is max(10, stripped length) long; an unsigned stripped CIK ends it after '0's only; an all-zero CIK gives ten '0's |
| SecScraper.NormalizeCikLeadingZeros | src/ingestion/sec_scraper.py:22-24 | leading zeros do not change the normal CIK or the submissions URL |
| SecScraper.SelectUpToNone | src/ingestion/sec_scraper.py:92-100 | the selection raises exactly when a matching form has no date or accession at its index |
| SecScraper.SelectUpToChosen | src/ingestion/sec_scraper.py:92-100 | every selected filing is at a matching index, in ascending order, with the date and accession of that index |
| SecScraper.SelectUpToCovers | src/ingestion/sec_scraper.py:92-100 | every matching index is selected |
| SecScraper.SelectSpec | src/ingestion/sec_scraper.py:91-100 | the selection is exactly the matching indices in ascending order, each with its own date and accession, or it raises |
| SecScraper.SelectNone | src/ingestion/sec_scraper.py:92-104 | a form type that no form equals selects nothing |
| SecScraper.NoneStays | src/ingestion/sec_scraper.py:92-100 | once the selection raises, reading more forms does not undo it |
| SecScraper.SelectFilings | src/ingestion/sec_scraper.py:91-100 | the selection loop computes the selection |
| SecScraper.DashlessSpec | src/ingestion/sec_scraper.py:116 | the directory form has no '-', has every other character of the accession, and leaves a dash-free accession unchanged |
| SecScraper.DashlessConcat | src/ingestion/sec_scraper.py:116 | removing dashes works piece by piece: a '-' becomes nothing and every other character stays, so the directory form is the accession with exactly its dashes taken out, in order |
| SecScraper.DocumentUrlSpec | src/ingestion/sec_scraper.py:119 | the URL starts with the archive directory of the CIK as given, continues with the dashless accession and ends with the accession and ".txt" |
| SecScraper.Underscored | src/ingestion/sec_scraper.py:140 | every space of the company name becomes '_' and every other character is kept |
| SecScraper.ProcessSpec | src/ingestion/sec_scraper.py:113-174 | a filing is kept exactly when its document downloads, it has narrative sections and the report stripped is over 1000 characters (file-system failures aside, see "## Left out"); the kept file has the converted name and cleaned content |
| SecScraper.ProcessClean | src/ingestion/sec_scraper.py:152-159 | the content saved is cleaned text |
| SecScraper.ProcessFiling | src/ingestion/sec_scraper.py:113-188 | the per-filing step computes the keep/skip outcome |
| SecScraper.ProcessAllSpec | src/ingestion/sec_scraper.py:109-188 | no more files than filings are saved, all cleaned text |
| SecScraper.ProcessAllMembers | src/ingestion/sec_scraper.py:109-188 | a conversion is in the list exactly when one of the filings yields it |
| SecScraper.FirstFilingsOnly | src/ingestion/sec_scraper.py:109 | only the first `max_filings` filings matter: later filings never change the outcome |
| SecScraper.ProcessFilings | src/ingestion/sec_scraper.py:109-188 | the per-filing loop computes the saved files in order |
| SecScraper.ScrapeTypeSpec | src/ingestion/sec_scraper.py:87-109 | one form type saves at most `max_filings` files, all cleaned text |
| SecScraper.ScrapeTypeMembers | src/ingestion/sec_scraper.py:87-188 | for a type whose selection does not raise, a conversion is saved exactly when one of its first `max_filings` filings yields it |
| SecScraper.NoMatchSkipped | src/ingestion/sec_scraper.py:102-104 | a form type with no filing adds nothing and does not abort |
| SecScraper.ScrapeFormType | src/ingestion/sec_scraper.py:87-109 | the method computes one form type's outcome |
| SecScraper.GatherNone | src/ingestion/sec_scraper.py:87-195 | the scrape aborts exactly when one form type's selection raises |
| SecScraper.GatherBounded | src/ingestion/sec_scraper.py:87-191 | the form-type loop saves at most types × `max_filings` files, all cleaned text |
| SecScraper.ScrapeRecentSpec | src/ingestion/sec_scraper.py:87-195 | for one answer of the submissions request, at most types × `max_filings` saved files, all cleaned text, and none if one selection raises |
| SecScraper.ScrapeRecentMembers | src/ingestion/sec_scraper.py:87-191 | when no selection raises, a conversion is returned exactly when one of the first `max_filings` filings of some form type yields it |
| SecScraper.ScrapeFailed | src/ingestion/sec_scraper.py:82-84 | when the submissions request fails, the scrape saves nothing (an empty list, within the types × `max_filings` bound) |
| SecScraper.ScrapeSpec | src/ingestion/sec_scraper.py:68-195 | at most types × `max_filings` saved files, all cleaned text; a failed request to the submissions URL of the CIK, or a selection that raises, gives an empty list |
| SecScraper.ScrapeMembers | src/ingestion/sec_scraper.py:68-195 | when the submissions request answers and no selection raises, the scrape returns exactly the conversions that the downloaded filings yield |
| SecScraper.ScrapeFormTypes | src/ingestion/sec_scraper.py:87-191 | the form-type loop gathers every type's conversions in order, or fails once one selection raises |
| SecScraper.ScrapeCompanyFilings | src/ingestion/sec_scraper.py:43-195 | the request to the submissions URL, then the form-type loop, computes the scrape |

## Left out

- HTTP requests, headers and `time.sleep`. Responses are inputs: a `Response`, a submissions function from URL to optional `Recent`, and a download function from URL to optional body.
- BeautifulSoup parsing, script/style removal and `get_text`. They form the uninterpreted function `getText`, so the model says nothing about what they remove.
- File I/O. This covers the reads and writes, the temporary file, `os.remove`, `os.makedirs` and `os.path.exists`. A converted file is the string written to it. A stale converted file from an earlier run, which would pass the existence check of sec_scraper.py line 148, is not modelled.
- `clean_financial_document` and `clean_all_converted_files`. They are file plumbing around `clean_html_content`.
- The `main` functions, `execute_scraping` (a call forwarding its arguments), and all printing.
- main.py, text_parser.py and scrap_sec.py are not part of this model. They are a floating-point classifier, a PDF reader and a command-line front end.
- `get_company_name` performs an HTTP request. Only its URL, `SubmissionsUrl`, is modelled.
- `str.upper` and `str.lower` are modelled for ASCII letters only. Unicode case mapping is not.
- Python's `hash` of the 200-character prefix is modelled as equality of the prefixes. A hash collision could drop a distinct section in the source but not in the model.
- `cik_str` values:
  - a value that is neither int nor str is `OtherCik`;
  - a JSON `true` must be given as `StrCik("True")` and `false` as `OtherCik`, since a Python bool is an int.
- Table entries whose title or ticker is not a string are not modelled. In the source such an entry raises inside the loop and the search returns [].
- Exceptions raised by the per-filing work in src/ingestion/sec_scraper.py:113-182 are not modelled. That work includes the document request, the file writes and reads of lines 127-171, and the conversion. In the source, lines 186-188 catch any such exception and skip the filing.
- SecScraper.ProcessSpec: a form type or company name that contains '/' is not modelled. An example is EDGAR's "10-K/A". The model keeps such a filing whenever its report is meaningful, but the source always skips it:
  - a '/' in the form type puts the temporary path of lines 132-133 into a sub-directory that line 67 never creates. The open at line 136 then raises, and lines 186-188 skip the filing;
  - a '/' in the company name does the same to the converted path of lines 140-141. The write in convert_xbrl_to_text (src/parsing/xbrl_converter.py:147) raises and line 176 catches it; when there are no narrative sections, the existence check of line 148 fails instead. Either way nothing is kept.
- SecScraper.ScrapeSpec: files written before a selection that raises stay on disk in the source. The model records only the returned list, which is empty.
- SecScraper.Scrape returns each kept file's name together with its cleaned content. The source returns the names only.
- SecScraper.ProcessSpec: two filings in one run with the same date and form type get the same converted name, and the model treats each filing on its own. It lists both and does not model the shared file:
  - on disk the second kept filing overwrites the first;
  - if the second yields no narrative sections, nothing is written and the existence check of line 148 finds the first filing's file. The source then takes that file as the second report: it cleans it again and appends its name a second time, or deletes it if it is now 1000 characters or fewer once stripped;
  - if the second report is 1000 characters or fewer once stripped, lines 169-170 delete the file while the first filing's name stays in the returned list.
- XbrlConverter.ParagraphsNoSep: states that no chunk holds a separator. It does not state that the chunks and the separators concatenate back to the text.
- HtmlCleaner.CleanHtmlContentShape: states no idempotence, because the code is not idempotent. It does not promise that the output has no empty lines either: tag removal can span lines and leave blank ones.
- CompanyLookup.ByTickerSpec: the exact-ticker filter sees only the first ten substring matches. A company whose ticker equals the query but comes after ten other matches is not found. The model states this behaviour as written.
