# CYH academic radar: a verified model of its text and lineage logic

The repository has two Streamlit applications.

- `news_app.py` is a news analyser. It gathers search results into a numbered context text for a language model. It parses the model's free-text reply into a Mermaid diagram, a timeline, a stance/credibility spectrum and a report. It repairs the diagram's syntax, and it lists the sources in a numbered reference table.
- `academic_app.py` is a citation-lineage explorer. It finds a paper and builds a skeleton of its references and citations, filtered and sorted. It then mines that lineage page by page: five records per side per step, enriched through a batch lookup and numbered `A1, A2, …` and `D1, D2, …`. It writes author lists in three formats and builds a list of candidate principal investigators (PIs) in which the first label wins.

This project models that logic in Dafny and proves what the code promises about it.

How Python values are modelled:

- A decoded JSON object keeps each key the code reads as `Field` (`Missing`, `Null` or `Present`). This makes `d.get(k)`, `d.get(k, default)`, `or 0`, truthiness and the f-string rendering of `None` exact.
- Where the Python raises (a join over a `None` name, slicing a `None` title, `p['paperId']` on a record without one), the model returns `None` of an `Option`. The model never demands more of its callers than the source does.
- HTTP answers are parameters of the operations that receive them, and so are regular-expression matches and float conversion.

The loops of the source are methods with loop invariants, each proved equal to a specification function. The properties are proved about those functions.

- `values.dfy`, `text.dfy`: JSON fields, and the Python string operations used: `strip`, `find`, `in`, `split`, `join`, `replace`, `lower`, `str(int)`, slicing.
- `media_names.dfy`: `classify_media_name`.
- `mermaid.dfy`: `sanitize_mermaid_code`.
- `reply_parser.dfy`: `parse_gemini_data`.
- `news_context.dfy`: the context loop of `get_search_context` and the reference table.
- `papers.dfy`, `stable_sort.dfy`, `skeleton.dfy`: the paper records, `sorted(..., reverse=True)` and `fetch_network_skeleton`.
- `enrichment.dfy`: `enrich_segment`.
- `mining.dfy`: `process_mining`. The session state is the class `LineageMiner`.
- `author_text.dfy`: `format_paper`, `get_auth_display` and the bibliography author HTML.
- `pi_options.dfy`: the PI option builder.

## Model

| member | source | states |
|---|---|---|
| MediaNames.FirstMatch | news_app.py:74-76 | The category of the first table entry, in table order, that has a keyword occurring in the name. `Other` exactly when no entry has one. |
| MediaNames.ClassifyMediaName | news_app.py:66-76 | The name is lower-cased and classified CHINA, GREEN, BLUE in that order, as the first camp with a keyword in it. OTHER exactly when no keyword of any camp occurs. |
| MediaNames.TvbsNeverMatches | news_app.py:66-75 | The upper-case keyword "TVBS" occurs in no lower-cased name. |
| MediaNames.TvbsClassifiedOther | news_app.py:66-76 | As written, the name "TVBS" is classified OTHER, although it is a BLUE keyword. |
| MediaNames.ClassifyMediaNameCorrected | news_app.py:66-76 | The corrected classifier compares the lower-cased name with lower-cased keywords. It is first-match and OTHER-iff-none as above. |
| MediaNames.CorrectedTvbsIsBlue | news_app.py:66-76 | The corrected classifier puts "TVBS" and "tvbs" in BLUE. |
| MediaNames.CorrectedAgreesWithoutTvbs | news_app.py:66-76 | The corrected classifier differs from the one as written only on names containing "tvbs". |
| Mermaid.SanitizedLines | news_app.py:150-199 | The definition of the emitted lines: "graph TD" when no stripped input line starts with "graph", then the cleaned non-blank lines in input order. SanitizedHasNoBlankLine, NonBlankLineKept and CleanLineVerbatimIff state its properties. |
| Mermaid.SafeLabel | news_app.py:184 | A label keeps its length, has no `(`, `)` or `"`, and changes a character only to a space or `'`. |
| Mermaid.SanitizeMermaidCode | news_app.py:143-201 | The result is the lines emitted for the fence-stripped input, joined by newlines. A missing `graph` header is put first. |
| Mermaid.CleanAll | news_app.py:161-199 | The loop emits the specified rewrite of each non-blank line, in order. |
| Mermaid.CleanLinesConcat | news_app.py:161-199 | The output lines keep the relative order of the input lines: the output for `a + b` is the output for `a` followed by the output for `b`. |
| Mermaid.RewriteShape | news_app.py:176-196 | A rewritten line is cut as `id`, the opening bracket, the label, the last closing bracket and `edge`. `id` is before the first opening bracket, and `edge` holds no closing bracket. Without a closing bracket the label runs to the end and `edge` is empty. The emitted label has no `(`, `)` or `"`. |
| Mermaid.RewriteLonger | news_app.py:185 | `id["label"]edge` is at least two characters longer than the line it replaces. |
| Mermaid.CleanLineVerbatimIff | news_app.py:176-199 | A line is copied unchanged and untrimmed exactly when it matches neither bracket pattern. |
| Mermaid.CleanLinesWellFormed | news_app.py:161-199 | Every emitted line is non-blank and holds no newline. |
| Mermaid.NonBlankLineKept | news_app.py:161-199 | A non-blank input line makes the output non-empty. |
| Mermaid.GraphLineKept | news_app.py:158-163 | A line starting with `graph` is not blank, so it survives the loop. |
| Mermaid.EmittedLinesRoundTrip | news_app.py:158-201 | The emitted lines, joined by newlines and split again, come back one for one, and none is blank. |
| Mermaid.SanitizedHasNoBlankLine | news_app.py:150-201 | The sanitised text, read line by line, has no blank line. When no stripped input line starts with "graph", its first line is "graph TD". When one does, no header is added. |
| ReplyParser.FindMermaid | news_app.py:285-286 | A match is an opening ```` ```mermaid\n ```` followed later by a closing `\n```` `. |
| ReplyParser.MermaidBlock | news_app.py:285-288 | The matched span is the opening, the extracted diagram and the closing. The diagram holds no closing, because the lazy match is the shortest. At least the span's length is removed from the text before the lines are scanned. |
| ReplyParser.NoMermaidKeepsText | news_app.py:285-288 | Without an opening, no diagram is extracted and the whole text is scanned. |
| ReplyParser.TimelineOf | news_app.py:290-294 | The definition of the timeline: one record per stripped line that passes the candidate test, in line order. TimelineConcat, TimelineOfOneLine and TimelineRecordFields state its properties. |
| ReplyParser.SpectrumOf | news_app.py:290-310 | The definition of the spectrum: one point per candidate line whose two numbers parse, in line order. SpectrumConcat, SpectrumOfOneLine, SpectrumSkipsBadLine and SpectrumKeepsGoodLine state its properties. |
| ReplyParser.TimelineConcat | news_app.py:290-294 | Timeline records stay in line order: the records of `a + b` are those of `a` followed by those of `b`. |
| ReplyParser.SpectrumConcat | news_app.py:290-310 | Spectrum points stay in line order, in the same sense. |
| ReplyParser.TimelineOfOneLine | news_app.py:290-294 | A line gives one timeline record exactly when its stripped form passes the test: it contains a bar character (U+007C), has at least three bar-separated fields, and starts with a digit or contains "Future". The record is built from the stripped line. |
| ReplyParser.TimelineRecordFields | news_app.py:292-294 | A record's date, media and event are the line's first three bar-separated fields. None of them holds a bar, and the line starts with them joined by bars. |
| ReplyParser.SpectrumOfOneLine | news_app.py:296-310 | A single line contributes exactly the point its candidate test and number parsing give. |
| ReplyParser.SpectrumSkipsBadLine | news_app.py:296-310 | A candidate line whose field 1 or 2 fails to parse is skipped, and the lines before and after it still give their points. |
| ReplyParser.SpectrumKeepsGoodLine | news_app.py:296-309 | A candidate line whose two numbers parse gives one point. Its source and url are the stripped fields 0 and 3. |
| ReplyParser.ReportText | news_app.py:312-315 | Without the marker, the report is the whole remaining text, so nothing is dropped. |
| ReplyParser.SplitSecondLacks | news_app.py:313 | `s.split(sep)[1]` holds no `sep`. |
| ReplyParser.ReportHasNoMarker | news_app.py:312-313 | A report cut at the marker never holds the marker. |
| ReplyParser.ReportAfterLastMarker | news_app.py:312-313 | When no second marker follows the first, the report is the stripped text after the first. |
| ReplyParser.ReportBetweenMarkers | news_app.py:312-313 | When another marker follows the first, the report is the stripped text between the first marker and the next one. |
| ReplyParser.ParseGeminiData | news_app.py:281-317 | It returns the extracted diagram, the timeline and spectrum of the text left after removing the block (in line order), and the report cut from that text. |
| ReplyParser.ScanLines | news_app.py:290-310 | The loop over the lines appends exactly the specified timeline records and spectrum points. |
| NewsContext.GetSearchContext | news_app.py:116-132 | A failed search gives `("Error: " + message, [], "")`. Otherwise the text is: the fact-check block when that text is non-empty, the history block when there is one, the news header, then one numbered line per result in order. The results and the fact-check text are returned as given. |
| NewsContext.SourcesText | news_app.py:127-128 | The definition of the source lines: line `i` is "Source ", the number `i + 1`, the url and the first 1000 characters of the content, for each result in order. SourceNumber, SourceLabelsDistinct, ContentCapped and SourcesInOrder state its properties. |
| NewsContext.AppendSources | news_app.py:127-128 | The loop appends the numbered source lines of all results, in order. |
| NewsContext.SourceNumberRoundTrip | news_app.py:128 | A source line starts with "Source ". The digits that follow read back as `i + 1`. |
| NewsContext.SourceNumber | news_app.py:128 | The leading digits after "Source " are exactly `str(i + 1)`. |
| NewsContext.SourceLabelsDistinct | news_app.py:128 | Different positions get different labels. |
| NewsContext.ContentCapped | news_app.py:123-128 | A source line shows the url and at most the first 1000 characters of the content. The history block shows at most the first 1000 characters of the earlier report, then "...". It is absent when there is no earlier report or it is empty. |
| NewsContext.SourcesInOrder | news_app.py:127-128 | The text for the first `k` results, followed by the line of result `k`, begins the whole text. |
| NewsContext.TableRows | news_app.py:491-495 | The definition of the table rows: one row per source in order, absent when a title cell cannot be sliced. TitleClean, NullStopsTable, NoNullBuildsTable and RowNumber state its properties. |
| NewsContext.ReferenceTable | news_app.py:490-495 | The loop builds the header followed by the specified rows. It fails, as slicing a null content raises, exactly when the row specification fails. |
| NewsContext.TitleClean | news_app.py:493 | A title cell exists unless the content is null. It holds no bar character and no newline, is at most 63 characters long, and ends in "...". |
| NewsContext.NullStopsTable | news_app.py:491-495 | A source with null content anywhere makes the table fail. |
| NewsContext.NoNullBuildsTable | news_app.py:491-495 | Without null contents, the table is built. |
| NewsContext.RowNumber | news_app.py:495 | Row `i` starts with a bar, a space and two asterisks, followed by exactly `str(i + 1)`. |
| NewsContext.RowNumberMatchesSource | news_app.py:491-495 | Row `i` of the table and source line `i` of the context carry the same number, `i + 1`. |
| Skeleton.CleanInput | academic_app.py:79 | The cleaned input has no `"` and is no longer than the unquoted input. |
| Skeleton.CleanInputKeeps | academic_app.py:79 | Cleaning removes exactly the double quotes of the stripped input. Every other character occurs as often as before. |
| Skeleton.LookupId | academic_app.py:80-85 | A DOI match gives "DOI:" plus the match, whether or not an arXiv number matched. Otherwise an arXiv match gives "arXiv:" plus the match. There is no lookup id exactly when neither matched. |
| Skeleton.LookupIdTagged | academic_app.py:80-85 | The id starts with "DOI:" exactly when a DOI matched, and the matched text follows the tag. |
| Skeleton.WithIdsMembers | academic_app.py:104-105 | The filter keeps exactly the records that have a truthy `paperId`. |
| Skeleton.SortedWithIds | academic_app.py:104-105 | A filtered, sorted list has an id on every item. It holds exactly the input items with an id, in non-increasing key order. Items with equal keys keep their input order. |
| Skeleton.NetworkSkeleton | academic_app.py:79-107 | The definition of the skeleton: none without a hero with an id; otherwise the hero, the references with an id sorted by citation count and the citations with an id sorted by year. SkeletonOrdered states its properties. |
| Skeleton.SkeletonOrdered | academic_app.py:102-107 | There is a skeleton exactly when a record with an id was found. Ancestors are the references with an id, ordered by citation count (missing counts as 0). Descendants are the citations with an id, ordered by year. Both sorts are stable. |
| StableSort.SortDescSorted | academic_app.py:104-105 | The sorted list is in non-increasing key order and is a permutation of the input. |
| StableSort.SortDescStable | academic_app.py:104-105 | For every key, the items with that key leave in the order they came in. |
| StableSort.SortedUnchanged | academic_app.py:104-105 | A list already in order comes back unchanged. |
| Enrichment.BatchIds | academic_app.py:111-112 | The id list is empty exactly when no record has a truthy id. |
| Enrichment.FilledCount | academic_app.py:115-120 | The map is filled from the entries before the first one without a `paperId` key. That entry's `KeyError` is swallowed. |
| Enrichment.MapFromLastWins | academic_app.py:118-119 | The map holds an id exactly when some entry read has it, and then holds the last such entry. |
| Enrichment.MapFromConsistent | academic_app.py:118-119 | Every record in the map is stored under its own id. |
| Enrichment.EnrichedMapConsistent | academic_app.py:114-120 | The same holds for the map left by the `try` block, whatever the batch answer was. |
| Enrichment.BuildEnrichedMap | academic_app.py:114-120 | The loop builds exactly the specified map. |
| Enrichment.EnrichSegmentResult | academic_app.py:109-131 | The definition of the result of `enrich_segment`: [] for no records, the input for no ids, failure where a record lacks the key, otherwise each record replaced by its enriched version. EnrichSegmentShape and EnrichKeepsIdAndCode state its properties. |
| Enrichment.EnrichSegment | academic_app.py:109-131 | The method returns exactly the specified result of `enrich_segment`, or fails where the source raises. |
| Enrichment.EnrichedListShape | academic_app.py:122-131 | The rebuilt list has the input's length and order. Position `i` holds what the loop makes of record `i`. |
| Enrichment.EnrichSegmentShape | academic_app.py:109-131 | An empty input gives []. An input with no ids is returned unchanged. It fails exactly when some record lacks a `paperId` key while another has an id. Otherwise each record whose id is in the map is replaced by the full record, carrying over its `code`; the others stay. |
| Enrichment.EnrichKeepsIdAndCode | academic_app.py:122-131 | Each output record has the id of the record it replaces, and any `code` that record had. |
| Enrichment.EnrichWithIds | academic_app.py:109-131 | Records that all have an id are enriched without failure, one for one, keeping their ids. |
| Mining.WindowExtendsPrefix | academic_app.py:331 | A page holds at most five records. The records before an offset, followed by the page there, are the records before the next offset, so paging neither skips nor repeats. |
| Mining.PagesArePrefix | academic_app.py:326-340 | After `n` pages, a side holds exactly the first `5n` records of its skeleton list, in order, or the whole list. |
| Mining.CodesDistinct | academic_app.py:346-348 | Different positions get different codes. |
| Mining.AssignCodes | academic_app.py:346 | Record `i` of a page gets the code `prefix` followed by `exist + i + 1`. Nothing else in the record changes. |
| Mining.TakePage | academic_app.py:331-348 | Slicing, enriching and numbering a page give exactly the specified page. |
| Mining.PageLength | academic_app.py:331 | A page holds the records of the clamped window, at most five. |
| Mining.PageEntry | academic_app.py:331-348 | Record `k` of a page has the id of the skeleton's record `k` past the offset, and the code numbered on from the existing count. |
| Mining.SideAdvance | academic_app.py:331-351 | Appending the next page keeps a side consistent with an offset five further on. The new records are the skeleton's next ones, and record `i` carries code `i + 1`. |
| Mining.SideStart | academic_app.py:326-329 | The first page starts a consistent side with offset five. |
| Mining.EnrichHero | academic_app.py:314 | The hero, which has an id, is enriched without failure. |
| Mining.SkeletonHasIds | academic_app.py:102-107 | Every record of a skeleton, the hero included, has an id. |
| Mining.LineageMiner.constructor | academic_app.py:257-259 | A fresh session has no skeleton, offsets {a: 0, d: 0} and an empty lineage. |
| Mining.LineageMiner.Init | academic_app.py:305-351 | Without a skeleton nothing changes. Otherwise the skeleton is stored and the hero enriched. Both offsets become 5, and each side holds exactly its first page. |
| Mining.LineageMiner.Load | academic_app.py:312-351 | The `init` path after a skeleton was found: the lineage reset, then the first page of each side taken. |
| Mining.LineageMiner.Older | academic_app.py:322-351 | Without a skeleton, the step fails (the source raises on `sk['all_ancestors']`) and nothing changes. Otherwise the ancestor offset grows by exactly 5 and the next ancestor page is appended at the end. The descendants, the hero and the skeleton stay as they were. |
| Mining.LineageMiner.Newer | academic_app.py:322-351 | Without a skeleton, the step fails and nothing changes. Otherwise the descendant offset grows by exactly 5 and the next descendant page is appended. The ancestors, the hero and the skeleton stay as they were. |
| Mining.LineageMiner.ExpandBoth | academic_app.py:322-351 | Without a skeleton, the step fails and nothing changes. Otherwise both offsets grow by 5, and each side gets its next page appended. |
| AuthorText.FormatPaper | academic_app.py:146-160 | The definition of a paper line: the head column, the author text and the cited column, joined by the bar character; failing where the author text fails. FormatPaperColumns states its properties. |
| AuthorText.AuthorsLine | academic_app.py:151-158 | The definition of the author text: "Unknown", the joined names for up to four authors, or the first and the last three for more. AuthorsLineText, AuthorsLineFails, ShortAuthorsReadBack and LongAuthorsShowEnds state its properties. |
| AuthorText.JoinNames | academic_app.py:154 | The name list exists exactly when no name is null. It holds each name, or "?" for an absent one, in author order. |
| AuthorText.AuthorsLineText | academic_app.py:151-158 | No authors give "Unknown". More than four give "First:" with the first name, " ... Last3:", then the last three names separated by ", ". An absent name shows as "?", a null first name as "None". |
| AuthorText.AuthorsLineFails | academic_app.py:151-158 | The author text fails exactly when a joined name is null. That is any name for up to four authors, and one of the last three for more. |
| AuthorText.ShortAuthorsReadBack | academic_app.py:152-154 | Up to four authors are all listed, in order. Split at `,`, the text gives back every name. |
| AuthorText.LongAuthorsShowEnds | academic_app.py:155-158 | With more than four authors, only the first and the last three show. Two lists that agree on those names give the same text. |
| AuthorText.FormatPaperColumns | academic_app.py:146-160 | A paper line split at the bar character gives three columns: "[code] title (year) ", " authors ", " Cited:n". Absent fields take their defaults. |
| AuthorText.AuthDisplay | academic_app.py:488-496 | The definition of the author display by author count. AuthDisplayText, AuthDisplayEnds and AuthDisplayMiddleHidden state its properties. |
| AuthorText.AuthDisplayText | academic_app.py:488-496 | The exact text for each author count: "Unknown" for none, the name for one, "a & b" for two, and "first ... second-last, last" from three on. An absent or null name shows as "None". |
| AuthorText.AuthDisplayEnds | academic_app.py:488-496 | The display is `None` only for a single author without a name. From two authors on, it starts with the first name and ends with the last. |
| AuthorText.AuthDisplayMiddleHidden | academic_app.py:493-496 | From three authors on, only the first, the second-last and the last are shown. |
| AuthorText.AuthorHtml | academic_app.py:524-533 | The definition of the bibliography author HTML by author count. AuthorHtmlText, AuthorHtmlShown and ThreeAuthorsHtmlAsTwo state its properties. |
| AuthorText.TagsText | academic_app.py:527-531 | The literal text of the entries: `<span class='auth-tag-first'>` name ` (1st)</span>` with an absent name shown as "Unknown"; `, ... , ` name ` (2nd Last)`; `, <span class='auth-tag-last'>` name ` (Last)</span>`, where an absent or null name shows as "None". |
| AuthorText.AuthorHtmlText | academic_app.py:524-533 | The HTML for each author count: "Unknown" for none; the first author's entry alone for one; the first and the last author's entries for two or three; from four on, the first entry, the ellipsis with the second-last author's entry, and the last entry. Nothing else is written. |
| AuthorText.AuthorHtmlShown | academic_app.py:524-533 | Only the first author, the last from two authors on, and the second-last from four on affect the HTML: lists agreeing on those give the same HTML. |
| AuthorText.ThreeAuthorsHtmlAsTwo | academic_app.py:528-532 | Three authors render like the first and the last: the first author's entry followed directly by the last author's, with no ellipsis entry. |
| PiOptions.SafeTitle | academic_app.py:414 | The cut title fails exactly when the title is null. Otherwise it is at most 23 characters long. |
| PiOptions.CandidatesCover | academic_app.py:420-423 | A paper has at most four candidates. With up to four authors every author is one; with more, exactly the first and the last three are. |
| PiOptions.OffersFromIds | academic_app.py:415-418 | Every offer names a candidate author with a truthy id, under its role and the cut title. |
| PiOptions.AddOpt | academic_app.py:415-418 | One `add_opt` call gives the options de-duplicated from the offers so far plus its own. |
| PiOptions.PaperOptions | academic_app.py:411-423 | One paper: skipped without authors, a failure where its title cannot be cut, otherwise its calls' offers. |
| PiOptions.AddPaperOptions | academic_app.py:420-423 | The nested calls offer the first, last, second-last and third-last authors, in that order, as far as they exist. |
| PiOptions.PiOptionsOf | academic_app.py:408-423 | The definition of the options: the first-wins de-duplication of the offers of ancestors, hero and descendants, in that order, failing where a title raises. PiOptionsSpec states its properties. |
| PiOptions.BuildPiOptions | academic_app.py:408-423 | The loop over ancestors, hero and descendants gives exactly the first-wins options of all offers, or fails where a title raises. |
| PiOptions.FirstWinsSpec | academic_app.py:409-418 | Each offered label is listed once, and no unoffered label appears. Each label keeps the author it was first offered with. |
| PiOptions.FirstWinsOfUnique | academic_app.py:418 | De-duplicating a list without repeated labels changes nothing. |
| PiOptions.FirstWinsIdempotent | academic_app.py:418 | De-duplicating twice is de-duplicating once. |
| PiOptions.FirstWinsFrom | academic_app.py:418 | Every kept option is one of the offers. |
| PiOptions.AllOffersFromPapers | academic_app.py:408-423 | Every offer comes from an `add_opt` call for some paper of the lineage. |
| PiOptions.PiOptionsSpec | academic_app.py:408-423 | The built options have unique labels and are unchanged by further de-duplication. Each is an offer of some paper of the lineage. |

## Left out

- Streamlit: widgets, CSS, session restore from a file, charts, exports and `st.session_state`. The miner's session state is the explicit class `LineageMiner`.
- HTTP and model calls: Semantic Scholar, Cofacts, Tavily, Gemini, the `tenacity` retry and the thread pool. Their answers are parameters: the search outcome, the fact-check text, the batch responses, the found skeleton record.
- The DOI and arXiv regular expressions: their matches are parameters, and only their precedence is modelled. `unquote` is a parameter too (`CleanInput` takes the unquoted text). The paper and search lookups of `fetch_network_skeleton` are replaced by the record they produced.
- `get_domain_name`: the table takes the domain function as a parameter, because it is a thin wrapper over `urlparse`.
- `float` and the random jitter: the parsing of a number is a parameter that may fail. It yields a `Float`, which holds a finite value, an infinity or a NaN, as Python's `float` can return each of these. The jitter is not added.
- ReplyParser.SpectrumRecord: it stores the parsed numbers without the jitter `random.uniform` adds, because that is nondeterministic.
- `str.lower` and `str.isdigit` are modelled on ASCII only; other code points are left as they are. `str.strip` uses Python's full whitespace set.
- ReplyParser.MermaidBlock: it bounds what `text.replace(group(0), "")` removes from below. The removal of further, later copies of the block (all occurrences go) is modelled in `RestOf` but not characterised further.
- Enrichment.EnrichSegment: it is modelled on values. In the source, two records with the same id share one returned dict, and setting `code` on it changes it for both; that sharing is not modelled.
- Mining.AssignCodes: it returns new records rather than setting `p['code']` in place on the dicts the lineage already shares.
- Mining.LineageMiner.Init: it does not model the reset of chat history and analysis results, or the status messages, because these are UI state.
- Mining.LineageMiner.Init, Mining.LineageMiner.Older, Mining.LineageMiner.Newer, Mining.LineageMiner.ExpandBoth: none models the `generate_deep_analysis_classic` call and the `deep_dive_result` write that follow every paging step (academic_app.py:353-360), because that is a call to a language model.
- The prompt assembly around `format_paper` and the other prompts, the chat, the author-profile lookup, the stance analysis and the detective panel are left out: they are calls into language models.
- `search.py` is not part of this model: it wraps a search and a model call.
- `classify_media_name` is not called anywhere in `news_app.py`; it is modelled for its own sake.

## Findings

| source | as written | input that shows it | evidently intended | confidence | as-written member | corrected member |
|---|---|---|---|---|---|---|
| news_app.py:66-76 | Only the name is lower-cased (`n = name.lower()`). The keyword "TVBS" stays upper-case, so it can never occur in `n`. | `classify_media_name("TVBS")` returns "OTHER" | Compare case-insensitively, so that a TVBS outlet is BLUE | high; not executed | MediaNames.TvbsClassifiedOther | MediaNames.CorrectedTvbsIsBlue |
