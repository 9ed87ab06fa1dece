# Chunkwise core, modelled in Dafny

Chunkwise is a platform for comparing document-chunking strategies. A user
uploads a document, picks a chunker and its configuration, sees the chunks
highlighted over the text, evaluates them and deploys the chosen strategy.
This project models the computational core of that platform and proves what it
promises:

- **The chunk-span visualiser** (`Visualizer` in `server/utils/visualization.py`).
  It covers theme resolution, colour cycling, colour darkening, reconstruction
  of the text from chunks, and the sweep in `get_html` that turns overlapping
  chunk ranges into styled HTML segments.
  Modules: `Themes`, `HexColor`, `Reconstruction`, `SpanSweep`, `HtmlView`.
- **Chunk relocation** (`chunking/helpers.py`). It is the three-stage search
  (exact, whitespace-insensitive, fuzzy sentence) that recovers offsets for
  chunkers returning bare strings. It also covers `get_chunks`.
  Module: `ChunkRelocation`.
- **Chunk statistics** (`calculate_chunk_stats`). Module: `ChunkStats`.
- **Document normalisation**, both copies. Modules: `Normalize`, `ProcessingNormalize`.
- **The embedding pipeline's pure parts** (`processing/utils.py`): the blank-chunk
  filter, the greedy token/item batcher and the attempt logic of
  `retry_with_backoff`. Module: `ProcessingUtils`.
- **S3 keys and corpus ids**, both copies of the key functions.
  Modules: `CorpusId`, `S3Keys`, `LegacyS3Keys`.
- **Server helpers**: the exception-to-status mapping of
  `handle_endpoint_exceptions`, the RDS secret name, and the server-sent-event
  frame. The frame is read back by a model of the receiving side of section 9.2.6
  ("Interpreting an event stream") of the WHATWG HTML Living Standard.
  Modules: `ExceptionHelpers`, `DeployHelpers`.
- **Client logic**: the comparison and workflow reducers, the workflow-name
  validation, the request-body construction, the slider bounds and the mock
  endpoint host.
  Modules: `ComparisonReducer`, `WorkflowReducer`, `WorkflowList`,
  `RequestBody`, `ConfigSlider`, `DeployService`.

The code that works step by step is modelled as methods with loop invariants:
- `get_html`'s three loops;
- `_reconstruct_text_from_chunks`;
- `calculate_chunk_stats`;
- `get_chunks`;
- the batching loop;
- the retry loop;
- `createRequestBody`'s in-place completion of the body.

Most methods are proved equal to a specification function, and the properties
are proved about that function. `ProcessingUtils.RetryWithBackoff` and
`RequestBody.CreateRequestBody` instead state the attempt semantics and the
built body directly in their ensures. The rest is functions and lemmas.

Some shared pieces live in their own modules:
- `Wrappers` holds `Option` and `Result`.
- `TextUtil` holds Python's and JavaScript's whitespace classes, `str.find`,
  decimal rendering and ASCII lower-casing.

## Model

| member | source | states |
|---|---|---|
| Themes.GetTheme | server/utils/visualization.py:123-130 | a name resolves iff it is a dark or light theme; the dark family is consulted first and gives the dark text colour; any other name is a `ValueError` with "Invalid theme: " + name |
| Themes.NewVisualizer | server/utils/visualization.py:104-120 | a colour list is taken as the palette with empty text colour and name "custom"; a theme name succeeds iff it resolves, and then stores the resolved palette, its text colour and the name |
| Themes.GetColor | server/utils/visualization.py:132-134 | a colour is returned iff the palette is non-empty (an empty custom palette divides by zero), and it is a member of the palette |
| Themes.FamiliesDisjoint | server/utils/visualization.py:13-84 | no theme name is in both families, so the lookup order never matters |
| Themes.ResolvedPaletteNonEmpty | server/utils/visualization.py:13-84 | every built-in palette a name resolves to is non-empty |
| Themes.ColorCycles | server/utils/visualization.py:132-134 | colours repeat with the period of the palette |
| Themes.ColorAtOwnPosition | server/utils/visualization.py:132-134 | an id below the palette size takes the colour at its own position |
| Themes.BuiltinColorsParse | server/utils/visualization.py:13-84 | every built-in colour is six-digit hex that the darkening parses, so it never falls back to grey |
| HexColor.StripHashes | server/utils/visualization.py:176 | `lstrip("#")`: the result is a suffix, does not start with '#', and only '#'s were removed |
| HexColor.SixDigits | server/utils/visualization.py:177-181 | digits are read iff the stripped text has 3 or 6 characters, and there are always six of them |
| HexColor.ParseRgb | server/utils/visualization.py:182 | every parsed channel lies in 0..255 |
| HexColor.DarkenColor | server/utils/visualization.py:173-187 | an unparsable colour gives the fallback "#808080" |
| HexColor.ScaleBounds | server/utils/visualization.py:183 | `max(0, int(c * amount))` for a factor in [0, 1] stays within 0..c |
| HexColor.RgbToHexRoundTrip | server/utils/visualization.py:182-184 | the `{:02x}` formatting parses back to the same channels |
| HexColor.DarkenFormat | server/utils/visualization.py:182-184 | a parsable colour darkened by a factor in [0, 1] is '#' and six lower-case hex digits |
| HexColor.DarkenChannels | server/utils/visualization.py:182-184 | every channel of the result is the scaled channel of the input |
| HexColor.DarkenByOneKeepsColour | server/utils/visualization.py:173-184 | darkening by 1 keeps the colour |
| HexColor.ShorthandExpands | server/utils/visualization.py:176-182 | the 3-digit shorthand, with or without '#', is the same colour as its doubled 6-digit form |
| Reconstruction.Pieces | server/utils/visualization.py:142-150 | complete chunks give one piece each, with their text and start |
| Reconstruction.SortByStart | server/utils/visualization.py:139 | the result is sorted by start and is a permutation of the input |
| Reconstruction.SortByStartStable | server/utils/visualization.py:139 | chunks with equal start keep their order, as Python's stable `sorted` does |
| Reconstruction.Merge | server/utils/visualization.py:156-168 | merging a chunk keeps the text built so far as a prefix, and what it adds is the chunk's text past the covered end |
| Reconstruction.ReconstructText | server/utils/visualization.py:136-170 | fails iff some chunk lacks text, start or end; otherwise returns the merge of the chunks sorted by start |
| Reconstruction.ReconstructRecoversDocument | server/utils/visualization.py:156-170 | chunks that are true slices of a document, gapless from offset 0, rebuild the document up to their furthest end |
| Reconstruction.FirstChunkWhole | server/utils/visualization.py:159-162 | a first chunk at or after offset 0 is taken whole |
| SpanSweep.SpanOf | server/utils/visualization.py:218-241 | a chunk keeps at most one span, with its position as id, a non-empty range inside the text and its token count |
| SpanSweep.SpanIsClippedRange | server/utils/visualization.py:218-241 | a position lies in a chunk's span iff it lies in the chunk's range clipped to the text |
| SpanSweep.Validated | server/utils/visualization.py:218-241 | the validated spans lie in the text, with strictly increasing ids that index the chunks |
| SpanSweep.ValidatedMatchesChunks | server/utils/visualization.py:218-241 | every kept span is its chunk's own span, and every chunk with a non-empty clipped range is kept |
| SpanSweep.SortEvents | server/utils/visualization.py:252 | `events.sort()`: the events are in tuple order and form a permutation of the input |
| SpanSweep.SweepCoversText | server/utils/visualization.py:279-303 | the segments cut at sorted event positions concatenate to the whole text, in order |
| SpanSweep.SweepEventsOrdered | server/utils/visualization.py:248-252 | in the sorted events no chunk's end precedes its start |
| SpanSweep.ActiveIsStartedMinusEnded | server/utils/visualization.py:296-300 | the active set is exactly the chunks started and not yet ended |
| SpanSweep.NoneActiveAtEnd | server/utils/visualization.py:296-303 | after the last event no chunk is active |
| SpanSweep.DisjointSpansNeverOverlap | server/utils/visualization.py:257-300 | with pairwise disjoint spans at most one chunk is ever active |
| SpanSweep.FindSpan | server/utils/visualization.py:266-268 | finds a span with the id, or none exists |
| HtmlView.TokensText | server/utils/visualization.py:276-277 | inside the sweep a falsy count shows the notice; after it the raw value is shown, "None" included |
| HtmlView.Title | server/utils/visualization.py:277 | a hover title ends in " (Overlap)" iff more than one chunk is active |
| HtmlView.Escape | server/utils/visualization.py:283 | no markup character survives escaping |
| HtmlView.EscapeRoundTrip | server/utils/visualization.py:283 | decoding the entities gives the text back: escaping loses nothing |
| HtmlView.ValidateSpans | server/utils/visualization.py:218-241 | the validation loop computes exactly the validated spans |
| HtmlView.CollectEvents | server/utils/visualization.py:248-252 | the event loop and sort compute exactly the sorted start and end events |
| HtmlView.Sweep | server/utils/visualization.py:257-331 | the sweep loop and the final segment render exactly the segments of the specification, or fail exactly when it does |
| HtmlView.GetHtml | server/utils/visualization.py:189-339 | `get_html` returns or raises exactly what the specification function prescribes |
| HtmlView.RenderingCoversText | server/utils/visualization.py:248-303 | the segments rendered for any chunk list cover the text, each character once, in order |
| HtmlView.HtmlOutcome | server/utils/visualization.py:204-216 | it raises "no chunks" iff the list is empty, and a missing attribute iff there is no full text and reconstruction fails; with chunks and a non-empty palette it succeeds |
| HtmlView.EmptyPaletteFails | server/utils/visualization.py:132-134 | an empty custom palette raises as soon as one span is kept |
| HtmlView.SegmentStyle | server/utils/visualization.py:260-277 | a segment's colour is that of its smallest active id, darkened iff more than one chunk is active |
| HtmlView.NoOverlapNoDarkening | server/utils/visualization.py:260-277 | with disjoint spans no segment is darkened or titled as overlap |
| HtmlView.FinalSegmentPlain | server/utils/visualization.py:301-331 | the text after the last event is rendered unstyled |
| HtmlView.AdjacentChunksNotOverlapping | server/utils/visualization.py:248-252 | two chunks that meet, [a,b) and [b,c), never count as overlapping, since end events sort before start events |
| ChunkRelocation.Words | chunking/helpers.py:38-41 | the words of the query are non-empty and free of whitespace |
| ChunkRelocation.WordsSplitAtSpace | chunking/helpers.py:38-41 | like `str.split()`, the words on the two sides of any whitespace character are found independently and concatenated |
| ChunkRelocation.WordsOfWord | chunking/helpers.py:38-41 | a non-empty string with no whitespace is exactly one word; with the two rows beside it this fixes the words of every query |
| ChunkRelocation.MatchAt | chunking/helpers.py:41-45 | a match tried at i ends inside the document |
| ChunkRelocation.MatchAtSound | chunking/helpers.py:41-45 | what the matcher finds matches the pattern: the words in order, case-insensitively, with any whitespace run between |
| ChunkRelocation.MatchAtComplete | chunking/helpers.py:41-45 | every match starting at i is the one the matcher finds |
| ChunkRelocation.FindQueryDespiteWhitespace | chunking/helpers.py:36-50 | a found range lies inside the document |
| ChunkRelocation.SearchFromLeftmost | chunking/helpers.py:45-50 | the search finds the leftmost matching start, and finds none only when nothing matches |
| ChunkRelocation.WhitespaceSearchLeftmost | chunking/helpers.py:36-50 | the whitespace stage returns a real match with no earlier one, or none exists |
| ChunkRelocation.BlankQueryAtZero | chunking/helpers.py:38-50 | a whitespace-only query matches at (0, 0) |
| ChunkRelocation.SentenceSpans | chunking/helpers.py:83 | the sentence split gives at least one segment, each inside the document and free of separators |
| ChunkRelocation.SentenceSpansShape | chunking/helpers.py:83 | as `re.split`, the segments start at 0 and end at the document's end, and between consecutive segments lies exactly one separator match: a sentence mark with the whole whitespace run after it, or one newline |
| ChunkRelocation.FuzzySearch | chunking/helpers.py:83-96 | a fuzzy result lies inside the document |
| ChunkRelocation.FuzzySearchFindsBestSentence | chunking/helpers.py:86-96 | the result is None iff the best score is below 98; otherwise it is the first occurrence of the first best-scoring sentence |
| ChunkRelocation.StripOneDot | chunking/helpers.py:70-71 | exactly one trailing '.' is removed, and only when present |
| ChunkRelocation.RigorousSearch | chunking/helpers.py:53-96 | every result lies inside the document |
| ChunkRelocation.ExactStageFirstOccurrence | chunking/helpers.py:73-76 | an occurring target is found at its first occurrence, and the range spans it |
| ChunkRelocation.EmptyTargetAtZero | chunking/helpers.py:70-76 | "" and "." are found at (0, 0) |
| ChunkRelocation.WhitespaceStageBeforeFuzzy | chunking/helpers.py:77-96 | without an exact occurrence a whitespace match wins; the fuzzy stage runs only when it fails |
| ChunkRelocation.GetChunks | chunking/helpers.py:99-131 | chunk records pass through unchanged; bare strings become the chunks located by the search, in order |
| ChunkRelocation.LocatedOrigins | chunking/helpers.py:109-126 | the chunks come from the pieces in order, each with its located range, and only unlocatable pieces are dropped |
| ChunkRelocation.LocatedInBounds | chunking/helpers.py:109-126 | every located chunk lies inside the document |
| ChunkStats.LargestAtIsFirstLongest | server/utils/calculate_chunk_stats.py:32-42 | the index of a longest text, and the first such, since replacement needs a strictly longer text |
| ChunkStats.SmallestAtIsFirstShortest | server/utils/calculate_chunk_stats.py:32-42 | the index of a shortest text, and the first such |
| ChunkStats.Expected | server/utils/calculate_chunk_stats.py:9-51 | a 400 "Invalid input" iff the input is not a list or a chunk's text is missing, not a string or empty; otherwise statistics counting every chunk |
| ChunkStats.CalculateChunkStats | server/utils/calculate_chunk_stats.py:9-51 | the single pass computes exactly the expected outcome |
| ChunkStats.EmptyListStats | server/utils/calculate_chunk_stats.py:44-48 | the empty list gives zero chunks, average 0 and no extremes |
| ChunkStats.TotalBetween | server/utils/calculate_chunk_stats.py:17-30 | the total lies between count times the least and count times the greatest length |
| ChunkStats.AverageBetweenExtremes | server/utils/calculate_chunk_stats.py:26-46 | for a non-empty valid list, 1 <= smallest <= average <= largest |
| Normalize.NormalizeDocument | server/utils/normalize_document.py:5-12 | the six-step replace chain keeps the length; per character it is `NormalizeChar`, see NormalizePointwise, NormalizeIdempotent and CopiesAgree |
| Normalize.NormalizeChar | server/utils/normalize_document.py:5-10 | curly quotes and dashes map to their ASCII forms; every other character is kept |
| Normalize.NormalizePointwise | server/utils/normalize_document.py:5-12 | the replace chain keeps the length and maps every position by the character map |
| Normalize.NoSmartCharsRemain | server/utils/normalize_document.py:5-10 | none of the six code points remains |
| Normalize.NormalizeIdempotent | server/utils/normalize_document.py:5-12 | normalising twice is normalising once |
| Normalize.NormalizeConcat | server/utils/normalize_document.py:5-12 | normalisation distributes over concatenation |
| ProcessingNormalize.NormalizeDocument | processing/services.py:57-65 | the table-driven copy of the replace chain keeps the length; it equals Normalize.NormalizeDocument by CopiesAgree |
| ProcessingNormalize.CopiesAgree | processing/services.py:57-65 | the second copy agrees with the first on every input |
| ProcessingNormalize.ProcessingNormalizeProperties | processing/services.py:57-65 | the second copy keeps the length, removes the six code points and is idempotent |
| ProcessingUtils.KeepNonBlank | processing/utils.py:30 | only non-blank chunks of the input are kept |
| ProcessingUtils.KeepNonBlankSplits | processing/utils.py:30 | the filter works element by element, so the order is kept |
| ProcessingUtils.Prepared | processing/utils.py:82-91 | prepared chunks have 1 to 8191 tokens; empty ones are skipped |
| ProcessingUtils.PreparedSplits | processing/utils.py:82-91 | preparation works chunk by chunk, so the kept chunks stay in their order |
| ProcessingUtils.PreparedSingle | processing/utils.py:84-91 | a chunk with no tokens is dropped; any other becomes one item, truncated and charged 8191 tokens when it is longer |
| ProcessingUtils.BatchChunks | processing/utils.py:78-101 | the loop produces exactly the texts of the specified batches of the prepared chunks |
| ProcessingUtils.PackChunks | processing/utils.py:82-98 | skipping and truncating chunk by chunk gives the packing of the prepared chunks |
| ProcessingUtils.BatchedTextsInOrder | processing/utils.py:93-101 | the batches concatenate to the prepared chunk texts in order: nothing is lost, reordered or duplicated |
| ProcessingUtils.BatchesPartition | processing/utils.py:93-101 | the batches concatenate to the items, and none holds more than 2048 |
| ProcessingUtils.BatchesWithinBudget | processing/utils.py:93-101 | with a budget of at least 8191 tokens no batch is empty or over budget |
| ProcessingUtils.BatchesAreGreedy | processing/utils.py:93-96 | a batch is closed only when the next chunk would exceed the budget or the batch already has 2048 items |
| ProcessingUtils.RetryWithBackoff | processing/utils.py:34-58 | at most `retries` calls; only rate limits are retried; the last rate limit is re-raised; other errors propagate at once; 0 retries returns None without a call |
| CorpusId.CanonicalCorpusId | evaluation/services/evaluation.py:131-143 | one trailing ".txt" is removed, and only when present |
| CorpusId.DocExamples | evaluation/services/evaluation.py:131-140 | "my_doc" and "my_doc.txt" both give "my_doc" |
| CorpusId.CanonicalIsPrefix | evaluation/services/evaluation.py:141-143 | the id is a prefix of the input, equal to it or four characters shorter |
| CorpusId.CanonicalFixedPoints | evaluation/services/evaluation.py:141-143 | the id equals the input iff the input does not end in ".txt" |
| CorpusId.NotIdempotent | evaluation/services/evaluation.py:141-143 | "a.txt.txt" shows the function is not idempotent |
| S3Keys.DocumentKey | evaluation/services/s3_utils.py:258-262 | "documents/" + the canonical id + ".txt" |
| S3Keys.QueriesKey | evaluation/services/s3_utils.py:275-279 | "queries/" + d + "/llm_queries_" + d + ".csv", with the same canonical d |
| S3Keys.ExtensionIrrelevant | evaluation/services/s3_utils.py:258-279 | an id without ".txt" and the same id with it give the same keys |
| S3Keys.OneSuffixOnly | evaluation/services/s3_utils.py:259-260 | "a.txt.txt" maps to "documents/a.txt.txt" |
| LegacyS3Keys.CopiesAgree | evaluation/s3_utils.py:156-187 | both key functions agree with their namesakes on every input |
| LegacyS3Keys.ExtensionIrrelevant | evaluation/s3_utils.py:166-187 | adding ".txt" to an id without it changes neither key |
| ExceptionHelpers.Classify | server/utils/exception_helpers.py:23-49 | every failure maps to one status in {400, 401, 403, 404, 500, 502, 503}: 503 iff a request error without response, 500 iff neither kind |
| ExceptionHelpers.HandleEndpoint | server/utils/exception_helpers.py:7-51 | a value is returned unchanged, awaited first for an async handler; a failure is translated |
| ExceptionHelpers.ValueErrorFirst | server/utils/exception_helpers.py:23-25 | a `ValueError` gives 400 "Invalid input", even when it is also a request error |
| ExceptionHelpers.UpstreamStatuses | server/utils/exception_helpers.py:27-43 | an upstream 400/401/403/404 keeps its status, with the detail "Upstream service returned a client error"; any other upstream status, 502 and 503 included, gives 502 "Upstream service error" |
| ExceptionHelpers.StatusFourHundredOrigins | server/utils/exception_helpers.py:23-35 | a 400 comes from a `ValueError` or an upstream 400 |
| ExceptionHelpers.OwnHttpExceptionBecomes500 | server/utils/exception_helpers.py:45-49 | an `HTTPException` raised by the handler becomes a 500 |
| DeployHelpers.SecretNameForInstance | server/utils/deploy_helpers.py:4-5 | the instance id can be read back from its secret name |
| DeployHelpers.SecretNamesDistinct | server/utils/deploy_helpers.py:4-5 | distinct instances never share a secret |
| DeployHelpers.SseEvent | server/utils/deploy_helpers.py:8-12 | every frame ends with the blank line that ends one event |
| DeployHelpers.SseFrameLines | server/utils/deploy_helpers.py:8-12 | the frame's lines are "event: E" only for a non-empty name, then one "data: P" line and the blank line |
| DeployHelpers.SseRoundTrip | server/utils/deploy_helpers.py:8-12 | an event-stream reader dispatches exactly one event with the payload as data and the name as type ("message" when none) |
| DeployHelpers.EmptyEventNameOmitted | server/utils/deploy_helpers.py:10-12 | `None` and "" give the same data-only frame |
| ComparisonReducer.Without | client/src/reducers/comparisonReducer.ts:33-39 | the filter keeps exactly the other ids |
| ComparisonReducer.Reduce | client/src/reducers/comparisonReducer.ts:13-53 | ENTER/EXIT set the mode and clear the selection; toggle filters a selected id out of the list, appends an unselected one at the end below the cap of 4, and at the cap returns the state unchanged, keeping the mode; unknown actions change nothing |
| ComparisonReducer.ReduceKeepsValid | client/src/reducers/comparisonReducer.ts:11-49 | every action keeps at most 4 ids and no duplicate |
| ComparisonReducer.WithoutKeepsOrder | client/src/reducers/comparisonReducer.ts:33-39 | removing a selected id keeps the others in order |
| ComparisonReducer.ToggleTwiceRestores | client/src/reducers/comparisonReducer.ts:33-47 | toggling an unselected id twice below the cap restores the selection |
| ComparisonReducer.ToggleAtCapUnchanged | client/src/reducers/comparisonReducer.ts:41-43 | at the cap, toggling an unselected id returns the state as it was |
| WorkflowReducer.Merge | client/src/reducers/workflowReducer.ts:31-37 | each property the patch carries, the id included, replaces the workflow's own; each one it lacks is kept; an empty patch changes nothing |
| WorkflowReducer.MergeTwice | client/src/reducers/workflowReducer.ts:31-37 | applying two patches in turn is applying their spread `{ ...p, ...q }` once |
| WorkflowReducer.MergeIdempotent | client/src/reducers/workflowReducer.ts:31-37 | applying the same patch twice is applying it once |
| WorkflowReducer.UpdateMatching | client/src/reducers/workflowReducer.ts:31-37 | same length; exactly the entries with the id are patched |
| WorkflowReducer.Remaining | client/src/reducers/workflowReducer.ts:38-45 | keeps exactly the workflows with another id |
| WorkflowReducer.Reduce | client/src/reducers/workflowReducer.ts:15-49 | INIT replaces the list and selects the first; CREATE prepends and selects; SELECT sets unchecked; UPDATE patches in place keeping length and selection; DELETE removes the id and moves a deleted selection to the first remaining one |
| WorkflowReducer.ReduceKeepsSelectionValid | client/src/reducers/workflowReducer.ts:15-49 | INIT, CREATE, DELETE and an id-preserving UPDATE keep the selection on a listed workflow or empty |
| WorkflowReducer.SelectMayInvalidate | client/src/reducers/workflowReducer.ts:29-30 | SELECT can select an id no workflow has |
| WorkflowReducer.UpdateOfIdMayInvalidate | client/src/reducers/workflowReducer.ts:31-37 | a patch carrying a new id can invalidate the selection |
| WorkflowReducer.DeleteKeepsOrder | client/src/reducers/workflowReducer.ts:38-45 | DELETE leaves exactly the other workflows, in order |
| WorkflowList.Trim | client/src/components/WorkflowList.tsx:34 | `trim()`: empty iff all whitespace, otherwise the slice between the outer whitespace runs, with no whitespace at either end |
| WorkflowList.TrimIdempotent | client/src/components/WorkflowList.tsx:34 | trimming twice is trimming once |
| WorkflowList.HandleCreate | client/src/components/WorkflowList.tsx:33-58 | a workflow is created iff the trimmed name is non-empty, at most 50 characters long and alphanumeric-or-space; it gets the trimmed name and the form resets; otherwise one of the three messages is set and nothing else changes |
| WorkflowList.CheckOrder | client/src/components/WorkflowList.tsx:36-52 | the checks run empty, then length, then charset, and the first failure is shown |
| WorkflowList.BlankNameIsEmpty | client/src/components/WorkflowList.tsx:34-40 | a whitespace-only name is reported empty |
| WorkflowList.CreatedNameShape | client/src/components/WorkflowList.tsx:34-54 | a created name has 1 to 50 characters and starts and ends with a letter or digit |
| RequestBody.CreateRequestBody | client/src/utils/createRequestBody.ts:22-72 | succeeds iff the selection is handled, else "Unhandled chunker selected"; the body is valid, has exactly the seven keys, the provider and type of the selection, and the form values unchanged |
| RequestBody.HandledSelections | client/src/utils/createRequestBody.ts:46-64 | exactly four of the eight selections are handled, each giving a different provider/type pair |
| RequestBody.ValidityIgnoresOptionalFields | client/src/utils/createRequestBody.ts:3-20 | the check reads only the five required properties |
| RequestBody.MissingFieldInvalid | client/src/utils/createRequestBody.ts:3-20 | a missing or `undefined` required property makes the body invalid |
| ConfigSlider.CurrentChunkSize | client/src/components/ConfigSlider.tsx:19-25 | the workflow's chunk size, else the chunk_size option's default, else none |
| ConfigSlider.EffectiveBounds | client/src/components/ConfigSlider.tsx:27-36 | only the two bounded options with a chunk size get `max` capped at `max(0, s-1)`, and the min stays at or below the max |
| ConfigSlider.ClampedValue | client/src/components/ConfigSlider.tsx:38-41 | the shown value is in range when min <= max, and is the raw value when that is already in range |
| ConfigSlider.HandleChange | client/src/components/ConfigSlider.tsx:43-55 | the emitted value is at least the effective min, and at most `max(0, s-1)` for bounded options |
| ConfigSlider.BoundedBelowChunkSize | client/src/components/ConfigSlider.tsx:30-55 | with chunk size s >= 1 a bounded option's max and every emitted value are below s |
| ConfigSlider.UnboundedOptionsIgnoreChunkSize | client/src/components/ConfigSlider.tsx:27-36 | other options keep their own range whatever the chunk size |
| ConfigSlider.HandleChangeInRange | client/src/components/ConfigSlider.tsx:43-55 | inside the range the emitted value is the slider position |
| DeployService.OrDefault | client/src/services/deploy.ts:63-64 | `undefined` and "" fall back to the default |
| DeployService.DashWhitespace | client/src/services/deploy.ts:65 | no whitespace is left and the string does not grow |
| DeployService.SanitizeHost | client/src/services/deploy.ts:66-68 | the host holds only `[a-z0-9.-]` |
| DeployService.ConnectToS3 | client/src/services/deploy.ts:70-73 | the bucket name is unchanged; the endpoint is "postgres://" + id + "." + a sanitised host + ".rds.local" |
| DeployService.SanitizeHostIdempotent | client/src/services/deploy.ts:66-68 | sanitising twice is sanitising once |
| DeployService.DefaultsApply | client/src/services/deploy.ts:63-64 | a missing or empty provider and chunker type mean "chunkwise" and "strategy" |
| DeployService.PlainPartsJoined | client/src/services/deploy.ts:65-68 | parts that are already host strings are joined by dots unchanged |
| DeployService.SpacesBecomeOneDash | client/src/services/deploy.ts:65 | a maximal run of whitespace in the bucket name, however long, becomes exactly one dash |

## Left out

- Case-insensitive matching and lower-casing are ASCII only. Python's `re.IGNORECASE` and JavaScript's `toLowerCase` also fold other letters (the Kelvin sign, U+0130 and the like), and the model does not.
- HexColor.DarkenColor and HexColor.ParseRgb: `int(pair, 16)` is modelled for two ASCII hexadecimal digits. On a two-character pair Python also accepts a sign or a space beside one digit (`+f`, `-f`, ` f`) and any Unicode decimal digit (U+0660 to U+0669, U+FF10 to U+FF19 and the other decimal ranges). For those inputs the model falls back to grey where Python parses: `#٠٠٠٠٠٠` darkens to `#000000` in the source and to `#808080` in the model.
- Floating point is modelled with `real`: the darkening factor, the average, the slider values and JavaScript numbers. Rounding is not modelled, and neither is `NaN` from `Number()`.
- The fuzzy scorer `fuzz.token_sort_ratio` is a parameter. `process.extractOne` is modelled as picking the first sentence with the highest score, which is what `max` picks among equal scores.
- The regex engine is replaced by a deterministic matcher of the one pattern `find_query_despite_whitespace` builds. Lemmas prove it finds exactly the leftmost match.
- `re.split` on sentences is modelled by the offsets of its pieces.
- Tokenizer counts and truncations are inputs of the batcher. The OpenAI calls and the embedding mapping are not part of this model.
- `retry_with_backoff`'s delays, jitter and sleep are left out. Only the attempt logic is modelled.
- `html.escape` is a per-character map of the five characters it replaces.
- The SSE payload (`json.dumps` output) is a string without line breaks. The reader side models the LF-only part of the event-stream format.
- `_reconstruct_text_from_chunks` recovers the document only for chunks starting at 0 without gaps. Other inputs are merged but not related to a document.
- Reconstruction.Complete: a chunk whose `text`, `start_index` or `end_index` is present but `None` counts as incomplete, like a missing one, so Reconstruction.ReconstructText and HtmlView.HtmlOutcome report `MissingAttributes`; the source refuses only missing attributes (server/utils/visualization.py:141-149): a present `end_index` of `None` is merged and later skipped at span validation (line 237), so `get_html` still renders; a present `text` of `None` fails while merging, giving the `ValueError` of line 216; a present `start_index` of `None` fails in the sort. The chunk record (core/chunkwise_core/types/chunk.py:4-8) types `text` as a string and both indices as integers, so validated chunks never carry `None` there.
- Chunker construction (`create_chunker_from_config`) and the chunkers themselves are not part of this model. Their output is an input of `get_chunks`.
- WorkflowReducer.Merge: a patch property present with the value `undefined` is treated as absent, whereas the spread would copy the `undefined`.
- WorkflowReducer.ReduceKeepsSelectionValid: it is not claimed for SELECT or for an UPDATE whose patch changes an id, since neither keeps it (see SelectMayInvalidate and UpdateOfIdMayInvalidate).
- LegacyS3Keys.DocumentKey and LegacyS3Keys.QueriesKey have no contract of their own. They are described through LegacyS3Keys.CopiesAgree.
- Logging in the exception wrapper and the `print` warnings elsewhere are left out. They do not change a result.
- The client components' rendering, React state hooks and `setTimeout` are not part of this model. Only the computations named above are.
- The UI text "Select up to 3" next to the comparison list is not modelled. The reducer's cap of 4 is.
- I/O is not part of this model: S3, the database, the HTTP services and the CDK stacks.
