# Data import mapping assistant — a Dafny model

This project models the mapping engine of the data-import page
(`client/pages/DataImportMap.tsx`) and the local mock matcher behind its
assistant endpoint (`netlify/functions/ai-chat-mock.ts`).

- **The page.** It parses an uploaded CSV file and analyses its columns. It then
  suggests which column fills each caption slot of the import table, from two
  sources: the mock service and its own heuristic engine. It splits the
  suggestions into certain ones, which it confirms at once, and uncertain ones,
  which it only proposes.
- **The table.** It can be edited and confirmed from chat.
- **Validation.** Once every caption is confirmed, the mapped values are checked.
- **Export.** The confirmed slots are exported as a new CSV file, with the
  captions as headers.
- **The mock service.** It has its own normaliser, token Jaccard, containment
  and synonym-group scores. Its greedy matcher takes the columns in order and
  gives each caption out once at most.

Everything is modelled as pure functions over immutable datatypes:

- strings are `seq<char>`;
- confidences are `real`;
- the table is a `seq<MappingRow>`.

Modules follow the program's parts:

| module | part of the program |
|---|---|
| `Common`, `Text` | sequences, filtering, counting, and the string operations the code relies on: trim, lower-case, split, join, substring search |
| `Csv` | `parseCSV` and `escapeCSV` |
| `Columns` | `analyzeCSVData` |
| `Normal` | the page's `normalize` |
| `Synonyms` | the caption synonym table |
| `Heuristic` | `computeHeuristicSuggestions` |
| `Certainty` | the merge of the two suggestion sources, `isCertain` and the certain/uncertain partition |
| `Slots` | the caption slots and their transformers: the upload reset and application, the chat and quick confirms, and the row edits |
| `Ordering` | the stable sort by `order` |
| `Validation` | the validation pass, with its per-caption checks |
| `Export` | `handleGenerateCSV` |
| `Mock` | the mock engine and `generateMockResponse` |
| `Upload` | `handleFileUpload` as one pipeline |

Inputs the code gets from the browser or the network are parameters:

- the file's name and text;
- whether the service answered;
- the `Number()` test;
- the date format and the header setting.

## Model

| member | source | states |
|---|---|---|
| Csv.ParseLine | client/pages/DataImportMap.tsx:193-210 | a line yields one field more than it has delimiters outside quotes; every field is trimmed and quote-free; a line without a line break gives fields without one |
| Csv.ScanShape | client/pages/DataImportMap.tsx:197-209 | the quote-toggling scan appends exactly one trimmed, quote-free field per delimiter outside quotes, plus the last one |
| Csv.ScanSingleLine | client/pages/DataImportMap.tsx:197-209 | a scan of a line without line breaks closes only fields without one |
| Csv.Lines | client/pages/DataImportMap.tsx:190 | the lines kept are non-blank and contain no line break |
| Csv.Parse | client/pages/DataImportMap.tsx:188-213 | one row per non-blank line, each with 1 + (delimiters outside quotes) fields, every field trimmed, quote-free and single-line |
| Csv.ParseEmptyIffBlank | client/pages/DataImportMap.tsx:190 | the parse is empty exactly when every line of the text is blank |
| Csv.DoubleQuotes | client/pages/DataImportMap.tsx:934 | every `"` becomes two: the value grows by exactly its number of quotes, its other characters stay in order, and a quote-free value is left alone |
| Csv.UndoubleDoubleQuotes | client/pages/DataImportMap.tsx:934 | reading each `""` back as one `"` restores the value, so the doubling loses nothing |
| Csv.EscapeField | client/pages/DataImportMap.tsx:932-936 | a value with no `"`, `,` or line break is written as is; otherwise it is wrapped in quotes |
| Csv.ScanEscaped | client/pages/DataImportMap.tsx:932-936 | the parser's scan reads an escaped clean field back as that field |
| Csv.ScanSerialized | client/pages/DataImportMap.tsx:939-942 | scanning a serialised clean row yields exactly its fields |
| Csv.RoundTrip | client/pages/DataImportMap.tsx:932-942 | a row of trimmed, quote-free, single-line fields that is not one empty field parses back from its comma-joined escaped form unchanged |
| Csv.EscapeAllNoNewline | client/pages/DataImportMap.tsx:932-936 | escaping a single-line field introduces no line break |
| Csv.NotBlank | client/pages/DataImportMap.tsx:939-942 | such a serialised row is never a blank line that the parser would drop |
| Columns.MaxWidth | client/pages/DataImportMap.tsx:224 | the width bounds every row and is reached by some row; 0 for no rows |
| Columns.ColumnValues | client/pages/DataImportMap.tsx:229 | every value is non-empty, every non-empty cell of the column is among the values, and nothing else is |
| Columns.ColumnValuesInOrder | client/pages/DataImportMap.tsx:229 | the k-th value is the cell of the k-th row whose cell is non-empty, so row order and repeated values are kept |
| Columns.InferType | client/pages/DataImportMap.tsx:232-240 | number iff every value is numeric and non-empty (vacuous when there are none); else email iff some value has `@`; else date iff some value holds a d/d/dddd date; else text |
| Columns.AllNumericIff | client/pages/DataImportMap.tsx:234 | the numeric test holds exactly when every value passes `Number()` and is non-empty |
| Columns.AnyHasAtIff | client/pages/DataImportMap.tsx:236 | the email test holds exactly when some value contains `@` |
| Columns.AnyHasDateIff | client/pages/DataImportMap.tsx:238 | the date test holds exactly when some value contains a `\d{1,2}/\d{1,2}/\d{4}` match |
| Columns.Analyze | client/pages/DataImportMap.tsx:218-253 | no columns for no rows; else one column per index below the widest row, each satisfying `ColumnOf`: `index == i`, the sample is the first ≤3 non-empty data-row values, the name is the non-empty header cell or `Column i+1`, the kind is inferred from the data rows |
| Columns.AnalyzeColumn | client/pages/DataImportMap.tsx:222-251 | column `i` alone satisfies `ColumnOf` |
| Columns.SampleFromDataRows | client/pages/DataImportMap.tsx:222-230 | every sample value is a non-empty cell of a data row, never of the header row |
| Columns.EmptyColumnIsNumber | client/pages/DataImportMap.tsx:229-235 | a column empty in every data row is typed number and has no sample |
| Normal.StripGroups | client/pages/DataImportMap.tsx:265 | no parenthesised group is left, no new character but a space appears, and text without `(` or without `)` is unchanged |
| Normal.StripKeepsPlain | client/pages/DataImportMap.tsx:265 | the text before the first `(` is kept as it is |
| Normal.StripReplacesGroup | client/pages/DataImportMap.tsx:265 | a `(`, text without `)` and the `)` that closes it become one space, and the scan resumes after that `)` |
| Normal.Collapse | client/pages/DataImportMap.tsx:266-267 | the result holds only `[a-z0-9 ]` with no double space, is empty exactly for empty text, and starts with a space exactly when the text starts with a separator; the lemmas below pin down each run |
| Normal.CollapsePlain | client/pages/DataImportMap.tsx:266-267 | text without a character outside `[a-z0-9]` is left as it is |
| Normal.CollapseRun | client/pages/DataImportMap.tsx:266-267 | a non-empty run of characters outside `[a-z0-9]`, followed by text not starting with one, becomes exactly one space before the collapsed rest |
| Normal.CollapseConcat | client/pages/DataImportMap.tsx:266-267 | a prefix that is empty or ends in a letter or digit collapses independently of what follows, so runs are replaced one by one and nothing else changes |
| Normal.SkipKeepsAlnum | client/pages/DataImportMap.tsx:266 | skipping a run of separators drops no letter or digit |
| Normal.CollapseKeepsAlnum | client/pages/DataImportMap.tsx:266-267 | the letters and digits of the result are those of the input, in the same order; only separators change |
| Normal.Normalize | client/pages/DataImportMap.tsx:262-268 | the result holds only `[a-z0-9 ]`, is single-spaced and trimmed |
| Normal.NormalFixed | client/pages/DataImportMap.tsx:262-268 | a string already in that form normalises to itself |
| Normal.NormalizeIdempotent | client/pages/DataImportMap.tsx:262-268 | normalising twice is normalising once |
| Normal.NormalizeIgnoresCase | client/pages/DataImportMap.tsx:264 | lower-casing first does not change the result |
| Normal.TrimNormal | client/pages/DataImportMap.tsx:266-268 | trimming a single-spaced string over `[a-z0-9 ]` leaves the normal form the scorer compares |
| Heuristic.Clamp | client/pages/DataImportMap.tsx:364 | the clamped score lies in [0, 1] and equals the raw score when that already does |
| Heuristic.SynonymFold | client/pages/DataImportMap.tsx:330-334 | the synonym loop never lowers the score and lifts it at most to 0.98 |
| Heuristic.SynonymFoldExact | client/pages/DataImportMap.tsx:332 | a column equal to a non-empty normalised synonym reaches at least 0.98 |
| Heuristic.Jaccard | client/pages/DataImportMap.tsx:337-342 | the token overlap lies in [0, 1] and is 1 for equal names |
| Heuristic.BoostKindSpec | client/pages/DataImportMap.tsx:292-306 | a type boost is found for an index exactly when some column carries that index, and it is that column's kind |
| Heuristic.KindBoost | client/pages/DataImportMap.tsx:295-305 | a type boost lies in [0, 0.3] |
| Heuristic.Score | client/pages/DataImportMap.tsx:322-364 | every clamped score lies in [0, 1] |
| Heuristic.BoostedLowerBound | client/pages/DataImportMap.tsx:344-361 | the boosts take at most 0.05 off, and that only for Org Unit against a department-like name that is not org-like |
| Heuristic.ExactMatchScoresOne | client/pages/DataImportMap.tsx:326-364 | a column whose normalised name equals the normalised caption scores exactly 1 |
| Heuristic.SynonymMatchScoresHigh | client/pages/DataImportMap.tsx:316-364 | a column whose normalised name equals a non-empty normalised synonym of the caption scores at least 0.98 |
| Heuristic.EmptyNameScoresHigh | client/pages/DataImportMap.tsx:327-364 | a name that normalises to nothing is contained in every caption and scores at least 0.9 |
| Heuristic.EmptyBoosted | client/pages/DataImportMap.tsx:344-364 | the empty name keeps a base score of at least 0.9 through the type and department boosts |
| Heuristic.BoostFromOwnKind | client/pages/DataImportMap.tsx:292-306 | with distinct indices, as the analyser produces them, a column is boosted by its own kind |
| Heuristic.Best | client/pages/DataImportMap.tsx:319-368 | the first position with the strictly highest positive score, or -1 when no score is positive |
| Heuristic.Round2Bounds | client/pages/DataImportMap.tsx:371-372 | rounding an accepted score keeps it in [0.72, 1] |
| Heuristic.Round2Close | client/pages/DataImportMap.tsx:372 | rounding moves a value by at most half a hundredth |
| Heuristic.Round2Monotone | client/pages/DataImportMap.tsx:372 | rounding is monotone |
| Heuristic.Round2Exact | client/pages/DataImportMap.tsx:372 | rounding leaves two-decimal values alone |
| Heuristic.Pick | client/pages/DataImportMap.tsx:319-373 | a caption gets a candidate exactly when some column wins with score ≥ 0.72; the candidate is the first column with the strictly highest score, at its rounded score in [0.72, 1] |
| Heuristic.ScoreMatrix | client/pages/DataImportMap.tsx:314-369 | one row of scores per caption, one score per column, each in [0, 1] |
| Heuristic.Candidates | client/pages/DataImportMap.tsx:314-374 | at most one candidate per caption, each for a listed caption and a listed column, with confidence in [0.72, 1] |
| Heuristic.CandidatesArePicks | client/pages/DataImportMap.tsx:314-374 | the candidates are the winners (`Pick`) of the captions that have one, in caption order |
| Heuristic.CandidatesOrigin | client/pages/DataImportMap.tsx:314-374 | the k-th candidate is the winner of the caption at position `w[k]`; the positions strictly increase, and every caption that has a winner appears among them |
| Heuristic.DedupeSpec | client/pages/DataImportMap.tsx:376-382 | after collision removal no two entries share a column, every candidate's column is kept, and each kept entry is the first candidate with the highest confidence for its column |
| Heuristic.SuggestSpec | client/pages/DataImportMap.tsx:257-383 | no two suggestions share a column; each is for a listed caption and an existing column, with confidence in [0.72, 1]; nothing comes out of no columns or no captions |
| Heuristic.SuggestWinners | client/pages/DataImportMap.tsx:314-383 | every suggestion that survives the collision pass is the winning match of some caption |
| Certainty.AnyNormalizesToIff | client/pages/DataImportMap.tsx:488 | the synonym test holds exactly when some synonym normalises to the column |
| Certainty.IsCertainIff | client/pages/DataImportMap.tsx:482-491 | certain iff both names normalise to something and they are equal, or the column equals a normalised synonym of the caption, or confidence ≥ 0.97 |
| Certainty.IsCertainMonotone | client/pages/DataImportMap.tsx:482-491 | raising the confidence never makes a certain suggestion uncertain |
| Certainty.WeakNeedsNames | client/pages/DataImportMap.tsx:482-491 | below 0.97 the confidence plays no part in the decision |
| Certainty.FirstNameCertainForForename | client/pages/DataImportMap.tsx:461-491 | a "First Name" column is certain for "Forename(s)" at any confidence |
| Certainty.EmailAddressCertainForEmail | client/pages/DataImportMap.tsx:461-491 | an "Email Address" column is certain for "Email" at any confidence |
| Certainty.Partition | client/pages/DataImportMap.tsx:493-501 | the certain list and the uncertain list are the merged suggestions filtered by the test and by its negation, each in order |
| Certainty.PartitionIsSplit | client/pages/DataImportMap.tsx:493-501 | the two lists together are exactly the merged suggestions, the certain ones on one side and the rest on the other |
| Certainty.Fresh | client/pages/DataImportMap.tsx:440-444 | the local suggestions kept are exactly those whose key the service did not give, as an order-preserving filter of the local list |
| Certainty.FreshInOrder | client/pages/DataImportMap.tsx:440-444 | the k-th kept suggestion is the local one at the k-th position whose key is new, so order and repeats are kept |
| Certainty.Merge | client/pages/DataImportMap.tsx:424-444 | the service's list comes first and unchanged; after it come exactly the local suggestions whose `column::caption` key it did not give, in their local order |
| Certainty.MergeKeyAmbiguous | client/pages/DataImportMap.tsx:440-442 | two different pairs can share a merge key, so a local suggestion can be dropped for a pair the service never made |
| Slots.FindRow | client/pages/DataImportMap.tsx:516 | the first slot with the caption, or none when no slot has it |
| Slots.FindColumn | client/pages/DataImportMap.tsx:517 | the first column with the name, or none when no column has it |
| Slots.FirstSample | client/pages/DataImportMap.tsx:520 | never empty: the first sample when there is one and it is non-empty, else `N/A` |
| Slots.Reset | client/pages/DataImportMap.tsx:505-514 | same slots; confirmed slots untouched; every unconfirmed slot back to `N/A`, no confidence, not suggested |
| Slots.Confirm | client/pages/DataImportMap.tsx:764-776 | same slots, no confirmation withdrawn, only the first slot with the caption changes (pointed at the column with that column's first sample, confirmed, suggested, with the confidence); a no-op when the caption or the column is unknown |
| Slots.Propose | client/pages/DataImportMap.tsx:527-537 | like a confirm, with the same column and sample, but unconfirmed, and a confirmed slot is never touched |
| Slots.ConfirmIdempotent | client/pages/DataImportMap.tsx:803-817 | confirming the same suggestion twice is confirming it once |
| Slots.ConfirmEach | client/pages/DataImportMap.tsx:515-525 | same slots, no confirmation withdrawn, a slot no suggestion names untouched |
| Slots.ConfirmAll | client/pages/DataImportMap.tsx:830-849 | confirming a list (the empty list included) is confirming each item in turn; the slots stay the same, no confirmation is withdrawn, and the slot of every item whose caption and column exist ends confirmed |
| Slots.ProposeEach | client/pages/DataImportMap.tsx:527-537 | same slots, confirmations unchanged, confirmed slots and slots no suggestion names untouched |
| Slots.ApplyUploadFrame | client/pages/DataImportMap.tsx:504-539 | after an upload: same slots, no confirmation withdrawn, every unconfirmed slot no suggestion names reset to `N/A` |
| Slots.ProposalsSpareConfirmed | client/pages/DataImportMap.tsx:530 | the uncertain suggestions never modify a slot the certain ones confirmed |
| Slots.FindRowSkeleton | client/pages/DataImportMap.tsx:516-528 | tables with the same slots find the same slot for a caption |
| Slots.ConfirmEachConfirms | client/pages/DataImportMap.tsx:515-525 | every suggestion whose caption and column exist leaves its slot confirmed, whatever follows it in the list |
| Slots.AllConfirmedIff | client/pages/DataImportMap.tsx:909-912 | the mapping is complete exactly when some slot is captioned and every captioned slot is confirmed |
| Slots.UpdateRow | client/pages/DataImportMap.tsx:863-867 | every slot with the id gets the edit on the one field; its id, order, sample, confidence, suggested and confirmed flags and every other slot stay as they were |
| Slots.RemoveRow | client/pages/DataImportMap.tsx:869-871 | exactly the slots without the id remain, in their order: the k-th is the k-th slot without the id |
| Slots.AddRow | client/pages/DataImportMap.tsx:873-886 | the old slots unchanged, then one new slot with the given id and order equal to the old row count: no caption, header and sample `N/A`, not a key field, not matched by id, no confidence, not suggested, not confirmed |
| Slots.RemoveUndoesAdd | client/pages/DataImportMap.tsx:869-886 | removing a freshly added slot restores the table |
| Ordering.Insert | client/pages/DataImportMap.tsx:907 | inserting adds exactly the one slot |
| Ordering.InsertSorted | client/pages/DataImportMap.tsx:907 | inserting into a sorted table keeps it sorted |
| Ordering.SortByOrder | client/pages/DataImportMap.tsx:905-907 | the result is a sorted permutation of the slots |
| Ordering.SortStable | client/pages/DataImportMap.tsx:905-907 | slots with the same order keep their relative order |
| Ordering.SortKeepsSorted | client/pages/DataImportMap.tsx:905-907 | a table already in order comes back unchanged |
| Validation.RuleFor | client/pages/DataImportMap.tsx:983-1013 | exactly six captions have a rule; Start Date uses the chosen format (the DD/MM/YYYY pattern unless YYYY-MM-DD) with "Expected date format …"; Email, Phone and Employee ID get their own checks and Reference and Username a presence check, each with "Invalid <lower-cased caption>" |
| Validation.EmailParts | client/pages/DataImportMap.tsx:984 | any `a@b.c` with non-empty single-line parts passes the email check |
| Validation.EmailNeedsDotAfterAt | client/pages/DataImportMap.tsx:984 | a value with no `.` after an `@`, such as `abc@x`, fails it |
| Validation.PhoneIgnoresNonDigits | client/pages/DataImportMap.tsx:985 | only digits count towards the seven a phone needs |
| Validation.SlashDateIsDate | client/pages/DataImportMap.tsx:991-995 | a value passing the slash date check is also seen as a date by the analyser |
| Validation.DateFormatsDisjoint | client/pages/DataImportMap.tsx:992-994 | no value passes both the slash and the ISO date check |
| Validation.EmployeeIdAsWrittenNarrower | client/pages/DataImportMap.tsx:986 | what the pattern as written accepts, the corrected one accepts too |
| Validation.EmployeeIdAsWrittenCaseSensitive | client/pages/DataImportMap.tsx:986 | as written, `AB` passes but `ab` fails, while the corrected check accepts `ab` |
| Validation.EmployeeIdIgnoresCase | client/pages/DataImportMap.tsx:986 | the corrected Employee ID check does not depend on letter case |
| Validation.EmployeeIdPassRejectsLowerCase | client/pages/DataImportMap.tsx:986 | the pass accepts `EMP01` and flags `emp01`, which the corrected check accepts |
| Validation.FlaggedBelowSpec | client/pages/DataImportMap.tsx:1019-1028 | the flagged rows are exactly the offending rows below the bound, in increasing order |
| Validation.FlaggedBelowEmptyIff | client/pages/DataImportMap.tsx:1019-1030 | nothing is flagged exactly when no row offends |
| Validation.Scan | client/pages/DataImportMap.tsx:1016-1029 | the loop's count is the number of flagged rows, and its samples and values are those of the first five, in order |
| Validation.ScanColumn | client/pages/DataImportMap.tsx:1016-1029 | a column's count is its number of present, failing values; the samples are the first ≤5 of them, numbered `r+1+(1 if header)` with their values alongside |
| Validation.EffectiveRows | client/pages/DataImportMap.tsx:974-976 | the captioned, assigned slots, as a sorted permutation |
| Validation.IssueOf | client/pages/DataImportMap.tsx:1000-1033 | an issue only for a slot whose header names a column and whose caption has a rule, with that caption and rule text, a positive count and min(count, 5) samples |
| Validation.IssuesOf | client/pages/DataImportMap.tsx:1000-1034 | at most one issue per slot, each with a positive count and the caption of one of the slots |
| Validation.Validate | client/pages/DataImportMap.tsx:967-1034 | the pass yields, in display order, the issue of each effective slot |
| Validation.ShouldValidateIff | client/pages/DataImportMap.tsx:967-971 | the pass runs exactly after an upload that has not prompted yet, when some slot is captioned and every captioned slot is confirmed |
| Validation.PresentNeverFlagged | client/pages/DataImportMap.tsx:987-1021 | a presence check never flags a value, since empty values are skipped first |
| Validation.PresentCaptionsNoIssue | client/pages/DataImportMap.tsx:987-1021 | Reference and Username never yield an issue |
| Validation.IssueIff | client/pages/DataImportMap.tsx:1015-1032 | a slot with a column and a rule yields an issue exactly when one of its values is present and fails the rule |
| Validation.LowerCaseIdReported | client/pages/DataImportMap.tsx:986-1032 | an Employee ID slot whose column holds `emp01` in some data row yields an issue |
| Export.ExportedRows | client/pages/DataImportMap.tsx:905-907 | the captioned, confirmed, assigned slots, as a sorted permutation |
| Export.SourceIndex | client/pages/DataImportMap.tsx:927-930 | the index of the first column with the slot's header, or -1 when there is none |
| Export.Project | client/pages/DataImportMap.tsx:941 | one cell per output column: the source cell, or empty for an unknown column |
| Export.Table | client/pages/DataImportMap.tsx:926-943 | a header line of captions, then one line per data row with exactly one cell per header |
| Export.SerializeAll | client/pages/DataImportMap.tsx:939-942 | each line is its row escaped and comma-joined |
| Export.Generate | client/pages/DataImportMap.tsx:900-945 | no file without data; `Incomplete` carries the confirmed and total counts; a file only for a complete mapping with some exported slot, and then it is the serialised table joined by line breaks |
| Export.GenerateIff | client/pages/DataImportMap.tsx:905-912 | given data, a file is produced exactly when every captioned slot is confirmed and some slot is captioned, confirmed and assigned |
| Export.InitialTableRefused | client/pages/DataImportMap.tsx:115-179 | nothing can be exported from the initial table |
| Export.LinesOfOutput | client/pages/DataImportMap.tsx:942-945 | splitting the file at line breaks gives back its lines when no cell holds a line break |
| Export.LineRoundTrip | client/pages/DataImportMap.tsx:932-945 | each line of the file parses back, through the page's own parser, as the row it was written from |
| Mock.ReplaceSymbols | netlify/functions/ai-chat-mock.ts:29 | every character outside `[a-z0-9\s]` becomes a space, the rest are kept |
| Mock.MockNormalize | netlify/functions/ai-chat-mock.ts:28-30 | the result holds only `[a-z0-9 ]`, is single-spaced and trimmed |
| Mock.MockNormalizeIdempotent | netlify/functions/ai-chat-mock.ts:28-30 | normalising twice gives the same as normalising once |
| Mock.MockNormalizeCollapse | netlify/functions/ai-chat-mock.ts:28-30 | the mock's normaliser is the page's collapse-and-trim of the lower-cased text |
| Mock.AgreesWithPage | netlify/functions/ai-chat-mock.ts:28-30 | for text without `(`, the mock and the page normalise alike |
| Mock.Tokenize | netlify/functions/ai-chat-mock.ts:32-34 | tokens are never empty and hold no space |
| Mock.TokensJoin | netlify/functions/ai-chat-mock.ts:32-34 | the tokens joined by spaces give back the normalised text |
| Mock.SetJaccard | netlify/functions/ai-chat-mock.ts:36-42 | the similarity lies in [0, 1]; it is 0 for two empty token sets and 1 for equal non-empty ones |
| Mock.SetJaccardSymmetric | netlify/functions/ai-chat-mock.ts:36-42 | the similarity is symmetric |
| Mock.Containment | netlify/functions/ai-chat-mock.ts:44-51 | the boost is 0, 0.35 or 0.6; 0.6 exactly for equal non-empty normalised names; positive exactly when both are non-empty and one contains the other |
| Mock.BoostFromIff | netlify/functions/ai-chat-mock.ts:65-71 | the group loop returns 0.25 exactly when some group is mentioned by both names |
| Mock.SynonymBoostIff | netlify/functions/ai-chat-mock.ts:62-72 | the boost is 0 or 0.25, and 0.25 exactly when both names contain a member of one group |
| Mock.SynonymBoostSymmetric | netlify/functions/ai-chat-mock.ts:62-72 | the boost is symmetric |
| Mock.ScorePair | netlify/functions/ai-chat-mock.ts:74-79 | the score lies in [0.05, 0.88], so the cap at 1 never binds |
| Mock.ScoreSymmetric | netlify/functions/ai-chat-mock.ts:74-79 | the score is symmetric |
| Mock.SameNameScore | netlify/functions/ai-chat-mock.ts:74-79 | a name with a word in it scores at least 0.83 against itself |
| Mock.Best | netlify/functions/ai-chat-mock.ts:86-95 | an untaken caption with the highest score among the untaken ones, at a position before which every untaken caption scores strictly less; `""` when none scores above 0 |
| Mock.BestFindsIff | netlify/functions/ai-chat-mock.ts:86-95 | with every score positive, no caption is chosen exactly when every caption is already taken |
| Mock.TargetsHas | netlify/functions/ai-chat-mock.ts:82-97 | a caption is in the taken set exactly when some suggestion targets it |
| Mock.BuildFacts | netlify/functions/ai-chat-mock.ts:81-104 | the taken set is the set of suggested captions, no caption is given twice, and every suggestion pairs a column with a non-empty listed caption at confidence in [0.55, 0.88] |
| Mock.SuggestionsWellFormed | netlify/functions/ai-chat-mock.ts:81-104 | no more suggestions than columns, never the same caption twice, each for a listed column and a listed non-empty caption, with confidence in [0.55, 0.88] |
| Mock.BuildPositions | netlify/functions/ai-chat-mock.ts:81-104 | the k-th suggestion is for the column at position `w[k]`, and these positions strictly increase: at most one suggestion per column, in column order |
| Mock.BuildCount | netlify/functions/ai-chat-mock.ts:81-104 | with no empty caption, the number of suggestions is min(#columns, #distinct captions) |
| Mock.Respond | netlify/functions/ai-chat-mock.ts:139-172 | an initial request carries the list and no single mapping; a chat reply carries a mapping exactly when the named column and caption are both known, with confidence max(0.6, score) in [0.6, 0.88]; the initial list is exactly the matcher's `BuildSuggestions` of the two lists |
| Upload.Captions | client/pages/DataImportMap.tsx:411-412 | the captions sent are exactly the non-empty captions of the table |
| Upload.CaptionsInOrder | client/pages/DataImportMap.tsx:412 | the k-th caption sent is the caption of the k-th captioned slot, in table order, repeats kept |
| Upload.ReplyList | client/pages/DataImportMap.tsx:429 | the reply's list if it has one, else its single mapping as a list, else nothing |
| Upload.Upload | client/pages/DataImportMap.tsx:387-541 | refused exactly when the name does not end in `.csv`, or when every line is blank; otherwise the outcome of the parsed, analysed file |
| Upload.SuggestionsValid | client/pages/DataImportMap.tsx:411-444 | both sources only suggest columns of the file for captions of the table |
| Upload.ProviderValid | client/pages/DataImportMap.tsx:424-434 | the service's list only pairs the column names and captions it was sent |
| Upload.MergeValid | client/pages/DataImportMap.tsx:436-444 | the merged list adds nothing that neither the service's nor the local list held |
| Upload.ApplySplits | client/pages/DataImportMap.tsx:493-501 | the certain and uncertain lists split the merged suggestions |
| Upload.AcceptSuggestions | client/pages/DataImportMap.tsx:411-501 | every suggestion applied names a column of the file and a non-empty caption of the table |
| Upload.ApplyFrame | client/pages/DataImportMap.tsx:503-539 | the same slots, no confirmation withdrawn, every unconfirmed slot no suggestion names reset |
| Upload.UnnamedUnset | client/pages/DataImportMap.tsx:505-537 | an unconfirmed slot that no merged suggestion names is left unset whatever parts of the merged list are applied |
| Upload.CertainConfirmed | client/pages/DataImportMap.tsx:515-537 | a certain suggestion for a known slot and column leaves that slot confirmed after the whole upload |
| Upload.UploadConfirmsCertain | client/pages/DataImportMap.tsx:411-539 | after an upload the slot of every certain suggestion is confirmed |
| Upload.UnservedIsLocal | client/pages/DataImportMap.tsx:424-444 | when the service does not answer, the suggestions are the local engine's alone |

## Left out

- **Rendering and the Netlify `handler`.** The JSX, the handler's latency and its
  HTTP status codes are left out. They are presentation and transport.
- **Chat messages.** The chat texts, ids, timestamps, percentages and
  `buildMockChatContent` are left out. They are display strings, and
  `buildMockChatContent` uses `Math.random`.
- **The regular expressions that read a chat message.** "map X to Y" and the
  data-fix command are left out. The pair a message names is a parameter of
  `Mock.Respond`.
- **`fixDataValidationIssue`.** It is not part of this model.
- **The download.** The Blob, the anchor element and the output file name are
  left out. `Export.Generate` returns the text.
- **`fetch`.** Its answer is the parameter `served` of `Upload.Upload`.
  `served = false` models only a response that is not ok
  (client/pages/DataImportMap.tsx:432-434), after which the local suggestions
  are applied alone. A `fetch` that rejects is not modelled. It goes to the
  catch at client/pages/DataImportMap.tsx:600-603, which applies no
  suggestions at all; the data and columns stored at 406-408 stay.
- **Character semantics are ASCII.** Lower-casing, `trim` and `\s` follow ASCII,
  where the code follows Unicode. `trim` removes space, tab, line feed, carriage
  return, vertical tab and form feed.
- **`Number()`** is the parameter `isNumeric` of the analyser.
- **`toFixed(2)`.** It is modelled as rounding half up to hundredths on exact
  reals, not on binary floating point.
- **Arithmetic.** All confidence arithmetic is exact `real` arithmetic.
- Heuristic.Score: lists the boosts and their effect in lemmas rather than as
  an exact value for every input. The exact-match, synonym, empty-name and
  lower-bound lemmas are what is proved.
- **Chat-side single mapping.** The page applies it with the same code as a quick
  confirm, and `Slots.Confirm` models both. The page's chat plumbing around it
  is left out.
- **The `provider` and `model` strings.** The merge appends "+local" to the
  provider name. These strings only label the chat summary.
- **Mock handler with missing lists.** Given a missing `csvColumns` or `captions`
  list, the mock handler treats it as empty for the initial request and for
  the chat content. A chat request fails only when its message names a pair:
  `csvColumns.includes` and then `captions.includes` run only inside the match
  branch (netlify/functions/ai-chat-mock.ts:157-160), so a missing column list
  fails there, and a missing caption list fails once the named column is found.
  The model always passes lists.
- Upload.Upload: reads one table for both the captions it asks about and the
  slots it updates. The page takes the captions from the `mappingRows` closed
  over by `handleFileUpload` (client/pages/DataImportMap.tsx:412 and 438, with
  `mappingRows` among the callback's dependencies at 607), but after its
  awaits applies the suggestions to the current table `prev` (504). A slot
  edited while an upload is in flight gets suggestions made for its old
  caption; the model has no such interleaving.
- Synonyms.Lookup: answers `None` for every caption not in the table. In the
  page, `captionSynonyms[caption]` for a caption such as `toString` or
  `constructor` finds an inherited member of the object, a function. The local
  engine's `syns.map` then throws (client/pages/DataImportMap.tsx:316-317),
  which the catch at 448 turns into no local suggestions for any caption. If
  the service suggests a pair with such a caption, `syns.some` in the certainty
  test throws (487-488) and the catch at 600 applies no suggestions at all.
- Validation.RuleFor: gives no rule to any caption outside the six. In the
  page, `validators[cap]` (client/pages/DataImportMap.tsx:1010-1011) for
  `__proto__` or `hasOwnProperty` is an inherited member. Calling it throws
  inside the validation effect. For `toString` or `constructor` it returns a
  truthy value for every cell, so no issue is reported, as in the model.
- Columns.MaxWidth: is defined for any number of rows. The page's
  `Math.max(...data.map(...))` (client/pages/DataImportMap.tsx:224) throws a
  `RangeError` once the row count passes the engine's limit on call arguments.

## Quirks kept as written

- The synonym table lists "First Name" for "Forename(s)" and "Email Address"
  for "Email", so the certainty test accepts these pairs at any confidence.
- The email check needs a `.` somewhere after an `@`, so `abc@x` is flagged.
- A column empty in every data row is typed number. The "every value is
  numeric" test holds vacuously.
- The heuristic's org-like test looks for the substring `org`, so it also fires
  on names such as "george".
- A column name that normalises to nothing is contained in every caption, so it
  scores at least 0.9 against all of them.
- The merge key joins the two names with `::`, so different pairs can collide.
- **One caption per column.** Only the heuristic engine's collision pass
  enforces it. The merged suggestions and the table after an upload can point
  two slots at the same column, and no invariant over the slots claims
  otherwise.
- **The mock matcher skips a column whose best caption is empty.** When the
  empty caption scores highest, the column gets nothing and the empty caption is
  not marked taken. `Mock.BuildCount` therefore assumes no empty caption. The
  page itself filters empty captions out before calling the service.
- **The mock normaliser keeps parenthesised text.** The page's normaliser removes
  it. `Mock.AgreesWithPage` states that the two agree on text without `(`.
- **A new slot's order is the row count.** After a removal, that order can
  equal the order of a slot still in the table.

## Findings

| source | as written | input that shows it | evidently intended | confidence | as-written member | corrected member |
|---|---|---|---|---|---|---|
| client/pages/DataImportMap.tsx:986 | after the first character the class `[0-9A-ZaZ\-_.]` admits digits, `A`–`Z`, `a`, `Z`, `-`, `_` and `.` only, so lower-case IDs fail | `ab` (and `emp01`): the first character is accepted, the next lower-case letter is not | `[0-9A-Za-z\-_.]`, the same class as the first character plus `-`, `_` and `.` | not executed | Validation.EmployeeIdAsWrittenCaseSensitive | Validation.EmployeeIdIgnoresCase |

The validation pass follows the code: its Employee ID check is the pattern as
written (`Validation.EmployeeIdAsWritten`). `Validation.EmployeeIdPassRejectsLowerCase`
and `Validation.LowerCaseIdReported` show that the pass flags `emp01`.
`Validation.EmployeeIdOk` is the corrected check. `Validation.EmployeeIdIgnoresCase`
proves the intended property for it, and `Validation.EmployeeIdAsWrittenNarrower`
shows that the pattern as written accepts only values the corrected one accepts.
