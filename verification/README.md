# Literature-review pipeline: a Dafny model of its deterministic kernels

The repository automates a literature review in five Python scripts:

1. a keyword search against OpenAlex that writes one record per work, keyed by a generated APA-like citation;
2. relevance screening by a language model, in batches, after a local pre-flight check;
3. PDF download, with an open-access lookup for rows without a link;
4. a formatted sheet: downloaded papers, a separator row, then link-only papers;
5. per-paper methodology classification, fed by fuzzy matching of sheet rows to local PDFs and run on a worker pool that writes back under a lock and can resume.

This project models the decisions each script makes. Every network service, every file and every clock is outside the model. Each service becomes a parameter:

- OpenAlex pages;
- the outcomes of the screening calls;
- the Unpaywall answer and the HTTP outcome per row;
- the fuzzy-matching score;
- the outcome of each analysis call.

The model covers what the scripts compute from those values: the citation text, the rebuilt abstract, pre-flight, the retry policy, batching, the merge, file-name sanitising, download status, row triage, the author regex, the sheet layout, text normalisation, best-match selection, the resume filter, and the write-back of results. Two of these are only partly specified: for file-name sanitising and text normalisation, the contracts state the shape of the result and its idempotence, not which characters or words of the input survive. The prompt text sent to the screening service is not modelled (see "Left out").

Modules, one per script plus two shared ones:

- `Values` holds optional cells and JSON fields.
- `Text` holds Python's `isspace`, `strip`, `in`, `lower` on ASCII, `join` and `str(int)`.
- `Citation` is step 1, `Screening` is step 2, `Download` is step 3, `Formatting` is step 4 and `Analysis` is step 5.

A pandas cell that can be empty is an `Option<string>`: `None` is NaN, and `str()` of it is `"nan"` (`Values.CellText`). A JSON lookup `obj.get(key, default)` distinguishes an absent key (the default) from a `null` value (Python's `None`) through `Field`, and `Values.JsonGet` gives the value Python stores in each case. Steps 2 and 5 both read their replies this way.

Three behaviours of the code are easy to misread:

- Resuming step 5 does re-run some finished analyses. A row whose reply lacked a `methodology` gets "Unknown" written into it, and "Unknown" is one of the values the resume filter treats as "not analysed". A `null` methodology, which is written back as an empty cell and read again as NaN, is treated the same way. For the table held in memory, `Analysis.ResumeEligibility` and `Analysis.ResumeRequeues` state exactly which rows come back. The CSV round trip between runs can re-queue more: pandas reads back texts such as "NA", "N/A" or "null" as missing, so a Method written as one of them also comes back. That round trip is not modelled.
- Step 2 merges decisions into every row whose id the reply mentions, including rows that failed pre-flight. So a decision for such an id replaces its "Auto-Reject" reason (`Screening.ScreenTableRows`).
- The reason returned by each step-5 analysis is never written to the sheet. Only the Method column changes.

Step 4 also drops some rows without saying so. A row that step 3 kept only for its DOI has no link and no download, so it lands in neither group and does not reach the sheet (`Formatting.GroupsPartition` counts these rows).

## Model

| member | source | states |
|---|---|---|
| Values.CellText | Scraping_Github_Files/step5_analysis.py:170-172 | a missing cell reads as "nan" and a present one as itself |
| Values.FieldText | Scraping_Github_Files/step1_keyword_match.py:40-41 | a JSON field read with a default gives the default when absent and "None" when null |
| Citation.AuthorString | Scraping_Github_Files/step1_keyword_match.py:28-38 | no authorships gives "Unknown Author", one gives the name, two or three give the names joined by " & ", more than three give the first name and " et al."; a null author object raises, and a null name raises only in the join |
| Citation.FormatCitation | Scraping_Github_Files/step1_keyword_match.py:23-53 | the citation starts with "auth (year). title." and ends with " journal." exactly when the journal is non-empty; any raise gives "Unknown Paper (id)" |
| Citation.CitationDefaults | Scraping_Github_Files/step1_keyword_match.py:40-47 | the citation of a work with no year and no title begins with "auth (n.d.). Untitled." |
| Citation.Sort | Scraping_Github_Files/step1_keyword_match.py:61 | the sorted (position, word) list is a permutation of its input and ordered by Python's tuple order |
| Citation.SortIsUnique | Scraping_Github_Files/step1_keyword_match.py:61 | every sorted permutation of the pairs, including the one `list.sort` produces, equals the model's sort |
| Citation.ReconstructAbstract | Scraping_Github_Files/step1_keyword_match.py:55-62 | an absent or empty index gives no abstract; otherwise the sorted words joined by single spaces |
| Citation.AbstractWordsOrdered | Scraping_Github_Files/step1_keyword_match.py:57-62 | the abstract has one word per (word, position) pair, in ascending position order |
| Citation.DenseAbstract | Scraping_Github_Files/step1_keyword_match.py:55-62 | when the positions are exactly 0..n-1, word p of the abstract is the word listed at position p |
| Citation.CollectResults | Scraping_Github_Files/step1_keyword_match.py:66-94 | the collected records are those of the first min(max, total) works in paging order, none when max is not positive |
| Screening.PreFlight | Scraping_Github_Files/step2_relevancy_filter.py:48-60 | a paper passes exactly when its abstract text has at least 50 characters and no placeholder phrase; a short abstract is rejected as too short before the phrase test |
| Screening.ScreenBatch | Scraping_Github_Files/step2_relevancy_filter.py:62-89 | at most three calls; every call before the last hit the rate limit; the batch stops early only on a non-retryable outcome; only a reply yields decisions |
| Screening.RateLimitExhaustion | Scraping_Github_Files/step2_relevancy_filter.py:69-89 | three rate-limited calls give up with no decisions |
| Screening.OtherFailureStops | Scraping_Github_Files/step2_relevancy_filter.py:79-86 | a failure that is not a rate limit stops the batch after that call with no decisions |
| Screening.BatchesPartition | Scraping_Github_Files/step2_relevancy_filter.py:114-117 | batches are non-empty, hold at most 20 papers, and concatenate back to the queue in order |
| Screening.Queue | Scraping_Github_Files/step2_relevancy_filter.py:100-107 | a row is queued exactly when its paper passes pre-flight, and the queue keeps table order |
| Screening.BatchesHoldOnlyPassing | Scraping_Github_Files/step2_relevancy_filter.py:97-117 | every paper in a batch passed pre-flight, and every paper that passed is in some batch |
| Screening.ResultsMap | Scraping_Github_Files/step2_relevancy_filter.py:124-125 | every entry is a decision of the batch stored under its own id |
| Screening.ResultsMapLatest | Scraping_Github_Files/step2_relevancy_filter.py:124-125 | every id some decision carries is a key, mapped to the last decision with that id |
| Screening.MergeRow | Scraping_Github_Files/step2_relevancy_filter.py:129-134 | a decided row takes Included (false when absent, None when null) and Reason ("Unknown" when absent, None when null), and counts as included exactly when the reply said true; an undecided row is unchanged |
| Screening.ScreenTable | Scraping_Github_Files/step2_relevancy_filter.py:92-134 | the table keeps one row per paper, in input order, with Temp_ID equal to its position |
| Screening.ScreenTableRows | Scraping_Github_Files/step2_relevancy_filter.py:100-134 | an undecided row keeps its auto-rejection or stays not included with an empty reason; a decided row takes the latest decision for its id |
| Screening.ExhaustedBatchContributesNothing | Scraping_Github_Files/step2_relevancy_filter.py:116-125 | a batch that is rate-limited on every attempt contributes no decision to the merge |
| Screening.IncludedRows | Scraping_Github_Files/step2_relevancy_filter.py:137 | the output holds exactly the rows whose Included is True, in table order |
| Screening.ScreenedOutput | Scraping_Github_Files/step2_relevancy_filter.py:137-138 | the written rows are exactly the included rows of the table, ordered by Temp_ID |
| Download.Sanitize | Scraping_Github_Files/step3_download_pdfs.py:26-36 | a missing citation gives "Unknown_File"; otherwise the name is ASCII, has no forbidden character, newline or carriage return, is at most 200 characters and has no surrounding whitespace |
| Download.SanitizeIdempotent | Scraping_Github_Files/step3_download_pdfs.py:26-36 | sanitising a sanitised name changes nothing |
| Download.DownloadPdf | Scraping_Github_Files/step3_download_pdfs.py:51-73 | success exactly for a 200 response that looks like a PDF and is saved; otherwise the reason names the content type, the 401/403/404/other status, or the timeout or exception type of the request or of the save |
| Download.TriageStatus | Scraping_Github_Files/step3_download_pdfs.py:84-127 | a kept row with a link ends "Success" exactly when its download succeeds and "Failed (Link Exists)" otherwise; a kept row without a link ends "Link Only (No PDF URL)"; only its link column changes |
| Download.Triage | Scraping_Github_Files/step3_download_pdfs.py:84-134 | the kept indices are, in order, exactly the rows that have a link or a DOI after the lookup, each with its own triage decision |
| Formatting.ExtractAuth | Scraping_Github_Files/step4_formatting.py:16-28 | a missing citation or one without a reachable year marker gives "Unknown"; otherwise the stripped text before the leftmost match |
| Formatting.ExtractAuthRoundTrip | Scraping_Github_Files/step4_formatting.py:22-27 | the author regex applied to a citation composed by step 1 gives back the author string, stripped, when the year is four digits or "n.d." and the author string has no newline or year marker |
| Formatting.FormattedCitationRoundTrip | Scraping_Github_Files/step4_formatting.py:37-39 | the Auth column of a step-1 citation with a four-digit or missing year is that work's author string, stripped |
| Formatting.ToSheetRow | Scraping_Github_Files/step4_formatting.py:37-46 | a data row keeps the citation, link, year and abstract, takes the extracted author, and starts with an empty Method |
| Formatting.Group | Scraping_Github_Files/step4_formatting.py:48-56 | a group is the rows that satisfy its condition, in input order, each with an empty Method |
| Formatting.IndicesFromComplete | Scraping_Github_Files/step4_formatting.py:51-56 | no row that satisfies a group's condition is missing from the group |
| Formatting.LayoutShape | Scraping_Github_Files/step4_formatting.py:61-72 | the sheet is group A, one separator row, then group B; the separator is the only row whose Method is "---" |
| Formatting.GroupsDisjoint | Scraping_Github_Files/step4_formatting.py:51-56 | no row is in both groups |
| Formatting.GroupsPartition | Scraping_Github_Files/step4_formatting.py:48-56 | every row is in group A, in group B, or (not downloaded, no link) in neither, and the three counts add up to the input size |
| Analysis.RemovePdfSplit | Scraping_Github_Files/step5_analysis.py:59 | every ".pdf" occurrence is removed, whatever surrounds it |
| Analysis.Normalize | Scraping_Github_Files/step5_analysis.py:58-62 | the normalised text holds only lower-case ASCII letters, digits and single inner spaces |
| Analysis.NormalJoinWords | Scraping_Github_Files/step5_analysis.py:62 | splitting a normalised text on whitespace and joining with single spaces gives it back |
| Analysis.NormalizeIdempotent | Scraping_Github_Files/step5_analysis.py:58-62 | normalising twice is normalising once |
| Analysis.BestMatch | Scraping_Github_Files/step5_analysis.py:64-74 | no files give (None, -1); otherwise a listed file whose score is the maximum of all scores |
| Analysis.BestMatchFirstMaximum | Scraping_Github_Files/step5_analysis.py:68-73 | the strict comparison keeps the first file that reaches the maximum score |
| Analysis.LocalMatch | Scraping_Github_Files/step5_analysis.py:64-74 | with no files the result is (None, -1); otherwise the match is a listed file, its score is the ratio of the normalised citation and file name, no file scores higher, and every file before it scores strictly less |
| Analysis.BestMatchFirst | Scraping_Github_Files/step5_analysis.py:68-73 | the best match sits at an index before which every file scores strictly less than the best score |
| Analysis.PdfFiles | Scraping_Github_Files/step5_analysis.py:164 | a directory entry is a candidate exactly when its lower-cased name ends in ".pdf", and each entry appears at most as often as in the listing |
| Analysis.PdfFilesAppend | Scraping_Github_Files/step5_analysis.py:164 | the candidates of a concatenated listing are those of each part in turn, so listing order is kept |
| Analysis.Pick | Scraping_Github_Files/step5_analysis.py:169-183 | a row gets a file exactly when it passes the resume and row filters and its best score exceeds 85, and the file is its best match |
| Analysis.Tasks | Scraping_Github_Files/step5_analysis.py:164-183 | with `files` the candidate list of `PdfFiles`, the task list holds, in row order, exactly the queued rows, each with its best-matching file |
| Analysis.TasksFromComplete | Scraping_Github_Files/step5_analysis.py:169-183 | no queued row is missing from the task list |
| Analysis.SeparatorNeverQueued | Scraping_Github_Files/step5_analysis.py:178-179 | the separator row of step 4 is never queued |
| Analysis.FreshSheetUnresolved | Scraping_Github_Files/step5_analysis.py:174-176 | on a sheet fresh from step 4 every data row's Method is unresolved and the separator's is not |
| Analysis.MapOutcome | Scraping_Github_Files/step5_analysis.py:97-132 | a failed ingest or any exception gives Method "Error"; a reply gives its methodology, "Unknown" when the key is absent and null when it is null |
| Analysis.ResumeEligibility | Scraping_Github_Files/step5_analysis.py:175 | after a run, a row's Method reads as unresolved exactly when the reply's methodology was absent, null or one of "nan", "", "None", "Unknown" |
| Analysis.Apply | Scraping_Github_Files/step5_analysis.py:207 | one completion sets the Method of its row and changes nothing else |
| Analysis.ApplyAll | Scraping_Github_Files/step5_analysis.py:202-211 | applying completions changes only Method cells |
| Analysis.ApplyAllEffect | Scraping_Github_Files/step5_analysis.py:202-211 | with at most one completion per row, each named row ends with its completion's Method and every other row is unchanged |
| Analysis.CompletionOrderIrrelevant | Scraping_Github_Files/step5_analysis.py:194-211 | the final table is the same for every arrival order of the completions |
| Analysis.Completions | Scraping_Github_Files/step5_analysis.py:196-203 | one completion per task, for that task's row, carrying the Method its outcome maps to |
| Analysis.RunEffect | Scraping_Github_Files/step5_analysis.py:194-214 | in any completion order, each queued row ends with the Method its own outcome maps to, and rows that were not queued are unchanged |
| Analysis.ResumeRequeues | Scraping_Github_Files/step5_analysis.py:169-183 | a second run queues exactly the first run's rows whose new Method is unresolved, and nothing when every outcome resolved its row |

## Left out

- Network services are parameters, not models: the OpenAlex client and its paging, the Unpaywall lookup, the HTTP download, the language-model calls, and the file upload with its wait loop in step 5. An exception while paging in step 1 is a shorter page list.
- Files and CSV round trips: reading and writing tables (including pandas reading texts such as "NA", "N/A" or "null" back as missing, which makes a second step-5 run re-queue rows whose Method is one of them), writing PDF bytes, copying and deleting temporary files, listing the PDF folder (a parameter), and choosing between the resume file and the fresh input in step 5.
- pandas type coercion: every cell is a string or missing. How pandas renders a Year column that holds missing values ("2020.0") is not modelled; Year passes through as an opaque cell.
- Sleeps, progress messages, the per-step report tables, argument parsing and the API-key check.
- Concurrency: the worker pool is modelled as the set of completions applied one at a time in any order, which is what the lock around each write guarantees. The save after every write is I/O.
- The fuzzy score is a parameter with range 0..100, not an implementation of `token_set_ratio`.
- Unicode: lower-casing covers ASCII letters only, and `\d` matches ASCII digits only. Python lower-cases a few non-ASCII characters to ASCII letters (the Kelvin sign to "k"), and its `\d` also matches other decimal digits.
- Step 1: an authorship element that is itself null, or a non-object JSON value where an object is expected, is not modelled.
- Step 2: a reply that parses to an empty object (`{}`) or an empty string (`""`) yields no decisions, as an empty list does, and is modelled as one. Any other reply that is not a list of objects is not modelled: a non-empty object or string, a number, `null`, or a list holding a non-object all raise in the merge loop, outside the retry loop, and abort the run. A decision ID is modelled as the integer it equals under Python's `==` (so 5.0 and true match rows 5 and 1), or as matching no row when it is absent, null, a string, or a number equal to no integer. An ID that is a list or an object is not modelled: it cannot be a dict key, so storing the decision raises and aborts the run. An "Included" value other than a boolean or null, and a "Reason" other than a string or null, are not modelled.
- Step 2: the prompt text built for each batch (the instructions, and each paper's title and abstract cut to 2000 characters) is not modelled; the service's outcomes are parameters.
- Step 3: a dropped row whose citation and title are both missing makes the progress message raise and end the run; messages are not modelled.
- Step 5: a reply whose methodology is a JSON value other than a string or null is not modelled.
- Orchestration across the five scripts (master_file.py) is not part of this model.
- Download.Sanitize: states the properties of the name and its idempotence, not which characters of the citation survive.
- Analysis.Normalize: states the shape of the result and its idempotence, not which words of the input survive.
