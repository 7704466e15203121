# flist-walker core, modelled in Dafny

flist-walker is a fast file finder. It indexes the files and directories below a root, either
from a manifest (`FileList.txt`, one path per line) or by walking the tree. It answers
fuzzy/literal/regex queries against that index, ranks the hits and shows them in a GUI whose
searches, previews, index builds and manifest writes all run on worker threads.

This project models that core in Dafny. It covers the Rust implementation (`search.rs`,
`indexer.rs`, `ui_model.rs` and the coordinator in `app.rs`), the Python prototype's `search`,
`indexer` and `ui_model` modules, and the legacy Python `indexer`. It proves properties of the
model. The modules follow the program's structure:

| module (file) | what it models |
|---|---|
| `Text`, `Seqs` (text.dfy) | whitespace splitting, `trim`, `lines`/`splitlines`, ASCII lower-casing, substring tests, first-seen de-duplication |
| `Paths` (paths.dfy) | paths as components: `join`, `strip_prefix`/`relative_to`, printing and parsing, `Ord for Path` |
| `FileSystem` (filesystem.dfy) | the disk as data: kinds, file texts, directory listings, canonical forms |
| `Subsequences` (subsequence.dfy) | `is_subsequence` and the reference meaning of "in-order subsequence" |
| `Query` (query.dfy) | `split_anchor` and `parse_query` (both implementations) |
| `Matcher` (matcher.dfy) | the term matchers and `matches_spec`; the Python prototype's matchers (prototype/python/src/fast_file_finder/search.py lines 40-127) follow the same rules and share these definitions |
| `Ranking` (ranking.dfy) | scoring bonuses, stable descending sort, truncation, `search_entries` (both implementations) |
| `Highlight` (highlight.dfy) | `find_match_positions`, `highlight_terms`, `display_path_with_mode`, `match_positions_for_path`, `has_visible_match`, `truncate_chars` |
| `Walker` (walker.dfy) | the Rust `walk` (WalkDir pre-order) and the stack walks of both Python packages |
| `Indexer` (indexer.dfy) | `find_filelist`, `parse_filelist`, `build_index_with_metadata`, `build_filelist_text`, `write_filelist` |
| `Workers` (workers.dfy) | the four worker threads of `app.rs`: request coalescing, result filtering, index streaming in batches, manifest creation |
| `Coordinator` (coordinator.dfy) | `FlistWalkerApp`: the request/response streams with their ids and every handler |
| `TextEdit` (textedit.dfy) | the query box's Ctrl+H handling |

The model is built from immutable datatypes and pure functions. The handful of loops the source
runs are methods on sequences with loop invariants. Outside effects are parameters:

- the disk is a `FileSystem` value;
- the regex engine is a `RegexEngine` record of functions;
- the external fuzzy scorer is a `BaseScore` function;
- the frame clock is an `expired` oracle and the batch flush timer a `due` oracle;
- whether a worker thread is still alive is a flag.

## Model

| member | source | states |
|---|---|---|
| Text.SplitWhitespaceKeepsText | rust/src/search.rs:32 | splitting at whitespace loses exactly the whitespace: the tokens glued together are the input's non-space characters in order |
| Text.SplitWhitespaceEmptyIffBlank | rust/src/search.rs:32 | a query yields no tokens exactly when it is all whitespace |
| Text.SplitJoinRoundTrip | rust/src/search.rs:32 | space-free tokens joined by single spaces split back into the same tokens |
| Text.Trim | rust/src/search.rs:177-178 | `trim` is empty exactly for a blank string, otherwise starts and ends with a non-space and occurs inside the input |
| Text.TrimBounds | rust/src/search.rs:177-178 | the leading-space run reaches the trailing-space run exactly when the string is all whitespace |
| Text.TrimOfWord | rust/src/indexer.rs:49 | a string with no whitespace at either end is its own trim |
| Text.TrimEmptyIffNoTokens | rust/src/search.rs:177-178 | a query is blank after trimming exactly when it has no tokens, so the two emptiness tests of the source agree |
| Text.LinesOfTerminated | rust/src/indexer.rs:48 | `lines()` of lines each ended by a newline gives the lines back |
| Text.SplitLinesOfTerminated | prototype/python/src/fast_file_finder/indexer.py:37 | `splitlines()` of newline-terminated lines free of line boundaries gives the lines back |
| Text.ContainsIffOccurs | rust/src/search.rs:80-81 | the substring scan succeeds exactly when the pattern occurs at some position |
| Text.LowerStrAt | rust/src/search.rs:129-132 | ASCII lower-casing works character by character and keeps the length |
| Seqs.Dedup | rust/src/indexer.rs:45-68 | the first-seen de-duplication has no repeats and keeps exactly the input's elements |
| Seqs.DedupSnoc | rust/src/indexer.rs:65-67 | one more element is appended exactly when it was not seen before |
| Seqs.DedupOfNoDups | rust/src/indexer.rs:45-68 | a list without repeats is left unchanged |
| Seqs.DedupOrder | rust/src/indexer.rs:65-67 | the de-duplicated list is in the order of first occurrence: an earlier element first occurs before a later one |
| Paths.Join | rust/src/indexer.rs:54 | `join` of an absolute path is that path; otherwise the components are appended to the base |
| Paths.StripThenJoin | rust/src/indexer.rs:151-154 | stripping a prefix and joining it back gives the path again |
| Paths.JoinThenStrip | rust/src/indexer.rs:151-154 | joining a relative path onto a base and stripping the base gives the relative path again |
| Paths.StripSelf | rust/src/indexer.rs:151-154 | a path stripped of itself leaves the empty relative path |
| Paths.ParseToString | rust/src/indexer.rs:53 | printing a well-formed path and reading it back gives the same path |
| Paths.Segments | rust/src/indexer.rs:53 | reading a path text keeps only normal components |
| Paths.SegmentsOfJoin | rust/src/indexer.rs:53 | normal components joined with '/' read back as the same components |
| Paths.PathLessIsStrictTotalOrder | rust/src/app.rs:988 | the component-wise path order used by `sort` is irreflexive, transitive and total |
| FileSystem.WriteText | rust/src/indexer.rs:170 | writing succeeds exactly when the target is not a directory, its parent is an existing directory and the system does not refuse it; then the text is stored there and no other path's existence or text changes |
| Subsequences.IsSubsequenceScan | rust/src/search.rs:52-61 | the one-pass scan answers true exactly when the query is an in-order subsequence of the text |
| Subsequences.GreedyIffSubsequence | rust/src/search.rs:52-61 | the greedy scan consumes the whole query exactly when some in-order embedding exists |
| Subsequences.GreedyFromComplete | rust/src/search.rs:52-61 | if any embedding of the rest of the query exists, the greedy choice completes it |
| Subsequences.OccurrenceIsSubsequence | rust/src/search.rs:63-67 | a contiguous occurrence is an in-order embedding |
| Query.SplitAnchor | rust/src/search.rs:13-25 | the flags say whether the term starts with '^' and ends with '$', and the flags plus the core give the term back |
| Query.Classify | rust/src/search.rs:33-43 | a lone "!" or "'" is ignored; a marked token contributes its text after the marker; anything else is kept verbatim as an include term |
| Query.ClassifyPrototype | prototype/python/src/fast_file_finder/search.py:26-32 | the prototype never ignores a token |
| Query.ParseTokensAppend | rust/src/search.rs:32-43 | parsing is compositional: the terms of two token runs are those of the first followed by those of the second, class by class |
| Query.ParseQuery | rust/src/search.rs:27-50 | no exact or exclude term is empty, and no include term is empty or a lone marker |
| Query.LoneMarkerIgnored | rust/src/search.rs:33-35 | inserting a lone marker anywhere among the tokens changes nothing |
| Query.PrototypeKeepsLoneMarker | prototype/python/src/fast_file_finder/search.py:26-32 | the prototype turns a lone marker into an include term |
| Query.PrototypeAgreesWithoutLoneMarkers | prototype/python/src/fast_file_finder/search.py:22-37 | on tokens without lone markers the Rust and Python parsers agree |
| Query.MarkedTokensParse | rust/src/search.rs:36-39 | tokens marked with "'" and "!" parse to exactly those exact and exclude terms, in order |
| Query.RenderParses | rust/src/search.rs:32-43 | the rendered tokens of any renderable spec parse back to the spec |
| Query.ParseRenderRoundTrip | rust/src/search.rs:27-50 | rendering a spec as a query string and parsing it gives the spec back |
| Matcher.FuzzyMatchIffSubsequence | rust/src/search.rs:63-67 | a fuzzy match is exactly an in-order subsequence after lower-casing (the substring test is subsumed) |
| Matcher.AnchoredLiteralIffOccurrence | rust/src/search.rs:69-84 | an anchored literal matches exactly when its non-empty core occurs at a position its anchors allow |
| Matcher.FuzzyIncludeMeaning | rust/src/search.rs:96-125 | a non-regex include term needs a non-empty core, the anchored first/last character at the start/end of name or path, and the core as a subsequence of one of them |
| Matcher.MatchesIncludeTerm | rust/src/search.rs:96-125 | in regex mode a pattern that does not compile matches nothing and one that compiles must be found in name or path; otherwise the fuzzy rule applies |
| Matcher.ScanExclusions | rust/src/search.rs:133-137 | the exclusion loop passes exactly when no exclude term matches |
| Matcher.ScanExacts | rust/src/search.rs:139-143 | the exact-term loop passes exactly when every exact term matches |
| Matcher.ScanIncludes | rust/src/search.rs:145-150 | the include loop passes exactly when every include term matches |
| Matcher.MatchesSpec | rust/src/search.rs:127-154 | `matches_spec` returns true exactly when the path is accepted: no exclusion matches, every exact and include term does |
| Matcher.AcceptsMonotone | rust/src/search.rs:127-154 | adding terms to a query can only shrink the accepted set |
| Matcher.EmptySpecAcceptsAll | rust/src/search.rs:127-154 | a query without terms accepts every path |
| Ranking.FallbackScore | rust/src/search.rs:156-170 | 0 for an empty query; otherwise the shorter length, plus 25 for an occurrence and 30 more for a prefix |
| Ranking.FallbackPrefersPrefix | rust/src/search.rs:156-170 | among texts of one length a text starting with the query scores highest and one not containing it lowest |
| Ranking.RustBase | rust/src/search.rs:224-231 | the skim score when the matcher finds a match, else the non-negative fallback score |
| Ranking.SortDesc | rust/src/search.rs:251 | the sort returns a permutation of its input in descending score order |
| Ranking.SortStable | rust/src/search.rs:251 | among hits of equal score the sort keeps the input order |
| Ranking.InsertStable | rust/src/search.rs:251 | inserting one hit into a sorted list puts it after every earlier hit of its score |
| Ranking.Ranked | rust/src/search.rs:251-252 | sorted, truncated to `min(limit, n)` hits, every hit one of the input |
| Ranking.RankedKeepsBest | rust/src/search.rs:252 | a hit cut off by truncation scores no higher than any kept hit, and `limit` hits were kept |
| Ranking.RankedKeepsBestAll | rust/src/search.rs:252 | whenever any hit is cut off, `limit` hits were kept and each scores at least as high as it |
| Ranking.ScoringQuery | rust/src/search.rs:194-212 | the scoring query is empty exactly when no include term has a non-empty core and there is no non-empty first exact term |
| Ranking.ScoringQueryPrototype | prototype/python/src/fast_file_finder/search.py:140-186 | the prototype's scoring query is empty exactly when there are no include terms and no non-empty first exact term |
| Ranking.CountMatching | rust/src/search.rs:240-244 | at most one bonus per exact term, and all of them exactly when every exact term matches |
| Ranking.AcceptedEarnsEveryExactBonus | rust/src/search.rs:234-244 | every accepted path earns the 800 bonus once per exact term, on top of the 1000/900 name/path bonus |
| Ranking.NameMatchBonusDominates | rust/src/search.rs:234-238 | a file name equal to the scoring query earns 1000, else a whole path equal to it 900, else nothing |
| Ranking.AcceptedEntries | rust/src/search.rs:183-188 | the filtered entries are exactly the input entries the query accepts |
| Ranking.SearchEntries | rust/src/search.rs:172-254 | a blank query or a zero limit gives nothing; otherwise at most `limit` hits, sorted best first |
| Ranking.SearchResultsAccepted | rust/src/search.rs:172-254 | every result is an input entry the query accepts, carrying its own score |
| Ranking.SearchKeepsBest | rust/src/search.rs:172-254 | an accepted entry is missing from the results only when `limit` results were returned, each scoring at least as high |
| Ranking.SearchEntriesPrototype | prototype/python/src/fast_file_finder/search.py:140-186 | the prototype gives nothing for a blank query or a non-positive limit, otherwise at most `limit` sorted hits with distinct paths |
| Ranking.PrototypeResultsAccepted | prototype/python/src/fast_file_finder/search.py:140-186 | every prototype result is an input entry its query accepts |
| Ranking.DistinctPathsRanked | prototype/python/src/fast_file_finder/search.py:140-186 | ranking de-duplicated paths never returns one path twice |
| Highlight.CharsEqualIffLower | rust/src/ui_model.rs:70-76 | `chars_equal` is equality of the ASCII-lower-cased characters |
| Highlight.MatchesAtIffLowerOccurrence | rust/src/ui_model.rs:78-91 | a window match is an occurrence of the lower-cased query in the lower-cased text, as the prototype's `find` looks for |
| Highlight.FirstMatch | rust/src/ui_model.rs:78-91 | the window loop finds the first start where the whole query matches, or none |
| Highlight.GreedyScan | rust/src/ui_model.rs:93-99 | the greedy pass consumes exactly the greedy subsequence positions of the lower-cased strings |
| Highlight.ScanIsGreedy | rust/src/ui_model.rs:93-99 | comparing with `chars_equal` consumes the same positions as the greedy scan of the lower-cased strings |
| Highlight.FindMatchPositions | rust/src/ui_model.rs:58-105 | the method computes the reference positions: the first occurrence, else the complete greedy scan, else nothing |
| Highlight.MatchPositions | rust/src/ui_model.rs:58-105 | no positions, or exactly one per query character, all inside the text |
| Highlight.MatchPositionsNonEmptyIff | rust/src/ui_model.rs:58-105 | a non-empty query highlights something exactly when it is a case-insensitive in-order subsequence of the text |
| Highlight.MatchPositionsOfOccurrence | prototype/python/src/fast_file_finder/ui_model.py:30-32 | the leftmost occurrence wins and its whole range is highlighted |
| Highlight.StripAnchors | rust/src/ui_model.rs:123-128 | the highlight stripping keeps the same core as the query compiler's `split_anchor` |
| Highlight.HighlightTerm | rust/src/ui_model.rs:109-131 | a token contributes a non-empty piece of itself, and an exclusion contributes nothing |
| Highlight.HighlightTermClassified | rust/src/ui_model.rs:107-134 | each token's highlight term is read off the query compiler's classification: exclusions and lone markers give none, exact terms their core, include terms their core (the whole token in regex mode) |
| Highlight.HighlightTerms | rust/src/ui_model.rs:107-134 | no highlight term is empty |
| Highlight.BlankQueryHasNoTerms | rust/src/ui_model.rs:107-134 | a blank query has no highlight terms |
| Highlight.DisplayReadsBack | rust/src/ui_model.rs:44-56 | the displayed text names the path again: joined to the root when shown relative, on its own otherwise |
| Highlight.DisplayPrototypeReadsBack | prototype/python/src/fast_file_finder/ui_model.py:9-14 | a relative display joined to the resolved root is the resolved path, the root's "." included |
| Highlight.DisplayEndsWithName | rust/src/ui_model.rs:144-152 | a display that has a file name ends with it |
| Highlight.ShiftedHitsAlign | rust/src/ui_model.rs:149-163 | a file-name hit shifted by `start` lands on the same character of the display |
| Highlight.NameStart | rust/src/ui_model.rs:149-152 | when the display ends with the name, `start` is where the name begins |
| Highlight.TermPositions | rust/src/ui_model.rs:154-170 | a term highlights nothing exactly when it hits neither the file name nor the display |
| Highlight.PositionsOf | rust/src/ui_model.rs:154-172 | the highlighted positions are the union of every term's positions |
| Highlight.PositionsEmptyIff | rust/src/ui_model.rs:136-173 | a row has no highlighted position exactly when no term hits its file name or its display |
| Highlight.VisibleMatchMeaning | rust/src/ui_model.rs:175-184 | `has_visible_match` holds exactly when there are no highlight terms or some term hits the file name or the display |
| Highlight.AnyTermVisible | prototype/python/src/fast_file_finder/ui_model.py:66-72 | the prototype's loop succeeds exactly when some term hits the name or the display |
| Highlight.VisibleMatchAgrees | prototype/python/src/fast_file_finder/ui_model.py:61-72 | the Rust and Python `has_visible_match` agree whenever they display the path the same way |
| Highlight.HighlightedIffVisible | prototype/python/src/fast_file_finder/ui_model.py:75-86 | a prototype row with highlight terms is visible exactly when its HTML highlights something |
| Highlight.TruncateChars | rust/src/ui_model.rs:337-346 | short text is kept; long text becomes a prefix of itself followed by "...", `max` characters long (3 when `max` < 3) |
| Walker.RustFilesAreReachedFiles | rust/src/indexer.rs:72-85 | the walk lists as files exactly the entries it meets that are not real directories, links included |
| Walker.RustDirsAreReachedDirs | rust/src/indexer.rs:72-85 | the walk lists exactly the real directories it meets |
| Walker.Walk | rust/src/indexer.rs:72-85 | an unreadable root yields nothing; otherwise files and directories are exactly the reachable entries of each kind |
| Walker.WalkEntries | rust/src/indexer.rs:95-105 | the files when asked for, then the directories when asked for, and nothing else |
| Walker.LinkFreeWalksAgree | prototype/python/src/fast_file_finder/indexer.py:57-78 | without symbolic links the Python classification is the Rust one |
| Walker.LinkToDirClassified | prototype/python/src/fast_file_finder/indexer.py:68-74 | a link to a directory is a file for Rust and a directory (its target) for Python, and neither enters it |
| Walker.StackWalk | prototype/python/src/fast_file_finder/indexer.py:61-77 | the stack loop records every reachable entry once, as the same multisets as the recursive walk |
| Walker.Drain | prototype/python/src/fast_file_finder/indexer.py:66-77 | reading one popped listing moves what it accounts for onto the recorded lists and the stack |
| Walker.Visit | prototype/python/src/fast_file_finder/indexer.py:67-77 | one child moves what it accounts for from the listing to the recorded lists and the stack |
| Walker.WalkPrototype | prototype/python/src/fast_file_finder/indexer.py:57-78 | a missing root raises; an unreadable root yields nothing; otherwise the reachable files and directories |
| Walker.WalkEntriesPrototype | prototype/python/src/fast_file_finder/indexer.py:90-97 | the prototype's entries are the selected kinds of the walk, with the same error case |
| Walker.WalkEntriesLegacy | src/fast_file_finder/indexer.py:37-53 | the legacy walk lists every reachable entry, files and directories together |
| Walker.DrainLegacy | src/fast_file_finder/indexer.py:42-51 | reading one popped listing in the legacy walk moves what it accounts for onto the items and the stack |
| Indexer.FirstManifest | rust/src/indexer.rs:27-33 | the first listing entry that is a regular file named like a manifest in any ASCII case, or none when no entry is |
| Indexer.FindFileList | rust/src/indexer.rs:20-35 | "FileList.txt" first, else "filelist.txt", else a case-insensitive match from the listing; none exactly when none of these exists |
| Indexer.FindFileListPython | prototype/python/src/fast_file_finder/indexer.py:14-25 | the same search, except that an unlistable root without the two fixed names raises |
| Indexer.KeepMembers | rust/src/indexer.rs:55-64 | a path is kept exactly when some line names it and it passes the existence and kind filters |
| Indexer.KeptInOrder | rust/src/indexer.rs:48-67 | the kept paths come out in the order of the first line naming each |
| Indexer.ParseFileList | rust/src/indexer.rs:37-70 | an unreadable manifest is an error; otherwise no repeats, a path is returned exactly when some line names it and it passes the filters, and of two returned paths the first line naming the earlier one comes before the first line naming the later one |
| Indexer.BuildIndexWithMetadata | rust/src/indexer.rs:107-135 | nothing without kinds; an error exactly when the manifest found and wanted cannot be read; the manifest is the source exactly when one is wanted and found, and then the entries are exactly its parsed entries; otherwise the walk is the source and a path is indexed exactly when the walk reaches it with a wanted kind |
| Indexer.FromManifestPrototype | prototype/python/src/fast_file_finder/indexer.py:125-131 | a found manifest gives its parsed entries, or the read error |
| Indexer.FromWalkPrototype | prototype/python/src/fast_file_finder/indexer.py:132-142 | the walk gives the wanted kinds of the reachable entries, or raises for a missing root |
| Indexer.BuildIndexWithMetadataPrototype | prototype/python/src/fast_file_finder/indexer.py:115-142 | as the Rust version, except that the manifest search and the walk raise where Rust finds nothing |
| Indexer.BuildIndexLegacy | src/fast_file_finder/indexer.py:56-61 | the manifest's entries when one is found, else the whole walk |
| Indexer.LineForRoot | rust/src/indexer.rs:151-154 | the root's own line is "." in Python and the empty line in Rust |
| Indexer.FileListLines | rust/src/indexer.rs:146-159 | the lines have no repeats, a line is written exactly when some canonical entry gives it, and of two lines the earlier one is first given by an earlier entry |
| Indexer.BuildFileListText | rust/src/indexer.rs:146-165 | the text is empty exactly when there are no entries, ends with a newline otherwise, and is the file-list lines each followed by a newline |
| Indexer.FileListTextReadsBack | rust/src/indexer.rs:146-165 | when no line holds a line boundary, splitting the text into lines gives exactly the file-list lines |
| Indexer.WriteFileList | rust/src/indexer.rs:167-172 | the write fails exactly when `WriteText` refuses the target; otherwise the built text is stored there and no existing path disappears |
| Indexer.WrittenLinesReadBack | rust/src/indexer.rs:162-164 | the reader splits the written text back into exactly the lines written, whenever no line holds a line boundary |
| Indexer.LineTargetOfLineFor | rust/src/indexer.rs:151-154 | reading a written line back names the entry it was written for, whenever the line is not empty, not a comment, has no whitespace at either end and no line boundary |
| Indexer.LineSeenIffEntrySeen | rust/src/indexer.rs:155-157 | when lines name their entries, a line was already written exactly when its entry was already seen |
| Indexer.RoundTripCore | rust/src/indexer.rs:146-165 | writing the lines of the entries and reading them back gives the entries without repeats, in first-seen order |
| Indexer.WriteThenParse | rust/src/indexer.rs:146-172 | writing a manifest and parsing it back from the same root gives the canonical entries without repeats, in first-seen order, whenever each entry's line is one the reader takes back unchanged |
| Indexer.SkippedLineReadsBackEmpty | rust/src/indexer.rs:50-52 | a manifest for one entry whose line the reader skips reads back empty |
| Indexer.CommentLikeEntryIsLost | rust/src/indexer.rs:151-154 | an existing entry whose relative line starts with '#' is written and then read back as nothing |
| Indexer.RootEntryIsLostRust | rust/src/indexer.rs:151-154 | the root written by Rust as the empty line is read back as nothing |
| Indexer.LeadingSpaceEntryIsLost | rust/src/indexer.rs:151-154 | the file `/r/ x` under the root `/r` is written as " x", which the reader trims and reads as `/r/x`, so the file is not read back |
| Indexer.TrailingSpaceEntryIsLost | rust/src/indexer.rs:151-154 | with either writer, the file `/r/x ` under the root `/r` is written as "x ", which the reader trims and reads as `/r/x`, so the file is not read back |
| Indexer.LineForCorrected | rust/src/indexer.rs:151-154 | for an absolute entry the repaired line is never empty, a comment or led by whitespace, and it equals the original line whenever that one is none of these |
| Indexer.CorrectedLineIsSafe | rust/src/indexer.rs:151-154 | the repaired line of an absolute entry without line boundaries and not ending in whitespace is one the reader takes back unchanged |
| Indexer.WriteThenParseCorrected | rust/src/indexer.rs:146-172 | with the repaired lines every existing canonical absolute entry is read back, the root and names led by '#' or whitespace included, whenever no component holds a line boundary and the name does not end in whitespace |
| Workers.TakeNewest | rust/src/app.rs:176-186 | a wake-up serves the newest queued request, or stops when nothing is queued |
| Workers.ServedInOrder | rust/src/app.rs:172-202 | coalescing serves at each wake-up the newest queued request, at strictly increasing positions of the request stream |
| Workers.NewestIsServed | rust/src/app.rs:172-202 | the last request sent is always served |
| Workers.ServedIsNewest | rust/src/app.rs:176-186 | each wake-up serves the last request of the burst that arrived before it |
| Workers.FilterSearchResults | rust/src/app.rs:91-107 | in regex mode results pass unchanged; otherwise exactly the visible ones are kept, and a sorted list stays sorted |
| Workers.ServeSearch | rust/src/app.rs:186-199 | the answer carries the request id and at most `limit` sorted hits of the search; a hit of the search is answered exactly when regex mode is on or its row is visible |
| Workers.ServePreview | rust/src/app.rs:204-228 | the answer carries the request's id and path and the preview built for them |
| Workers.FlushBatch | rust/src/app.rs:263-278 | an empty buffer sends nothing; otherwise exactly its entries go out as one batch |
| Workers.FlushStep | rust/src/app.rs:263-278 | flushing keeps the stream well batched and appends the buffer's entries |
| Workers.StreamStep | rust/src/app.rs:300-312 | one push-then-maybe-flush turn keeps the batching loop's invariant |
| Workers.StreamBatches | rust/src/app.rs:280-363 | the batches carry exactly the entries in order, each non-empty and at most `BatchSize` long, all but the last full when no timer flush happened |
| Workers.PreOrderSplits | rust/src/app.rs:319-363 | the interleaved pre-order stream's directories and files are the walk's, each in the same order |
| Workers.WantedOneKind | rust/src/app.rs:340-347 | asking for one kind keeps exactly that kind's paths, in order |
| Workers.WalkerStreamIsWalk | rust/src/app.rs:319-363 | the walker stream indexes the same paths as the snapshot walk, only in another order |
| Workers.ServeIndexRequest | rust/src/app.rs:365-436 | a dropped receiver ends the worker; no kinds gives an empty run; a build error gives one `Failed`; otherwise a complete run whose paths are the index (in order for a manifest) |
| Workers.ServeFileList | rust/src/app.rs:230-261 | the walked entries are written as "FileList.txt" under the root and their count reported; the answer is a failure exactly when `WriteText` refuses that path |
| Coordinator.ClampLimit | rust/src/app.rs:486 | the limit is kept within 1..=1000 and unchanged when already inside |
| Coordinator.NewApp | rust/src/app.rs:484-538 | the new state is valid, with manifests and both kinds on, regex off and a first index request with id 1 sent |
| Coordinator.RequestIndexRefresh | rust/src/app.rs:726-759 | a fresh index request goes out under the next id and everything derived from the old index is dropped |
| Coordinator.HandleIndexMessage | rust/src/app.rs:769-815 | messages of other requests are skipped; `Started` records the source, `Batch` appends its paths, `Finished` publishes the index and ends the wait, `Failed` only ends the wait |
| Coordinator.HandleIndexKeepsValid | rust/src/app.rs:769-815 | handling any one index message keeps the state invariant |
| Coordinator.PollIndexResponse | rust/src/app.rs:761-825 | messages are read in order, stopping after 12 relevant ones or once the frame budget ran out; the grown index is searched when a batch arrived and the refresh is due |
| Coordinator.RunDelivers | rust/src/app.rs:761-825 | a complete run for the awaited request publishes exactly the streamed paths in order with the run's source and ends the wait |
| Coordinator.AbsorbKeepsValid | rust/src/app.rs:761-825 | reading any run of index messages keeps the state invariant |
| Coordinator.BatchesGrowIndex | rust/src/app.rs:779-790 | `Started` and the batches grow the index by exactly the streamed paths, in order |
| Coordinator.RefreshThenRunIndexes | rust/src/app.rs:726-825 | after a refresh, the worker's run becomes exactly the searched entries, with nothing left from the old index |
| Coordinator.OldIndexMessagesSkipped | rust/src/app.rs:769-773 | after a refresh, messages of every earlier request change nothing |
| Coordinator.ApplyResults | rust/src/app.rs:827-841 | results are replaced; the selection is kept when still in range, moved to the last row when not, the first when there was none, and dropped with no results |
| Coordinator.EnqueueSearch | rust/src/app.rs:843-865 | the query, the entries and the settings go to the search worker under a fresh id, which becomes the awaited one |
| Coordinator.FirstEntries | rust/src/app.rs:898-908 | the blank-query results are the first `min(limit, n)` entries, in order, each with score 0 |
| Coordinator.UpdateResults | rust/src/app.rs:897-912 | a blank query shows the first `limit` entries at once and awaits nothing; any other query is sent to the search worker |
| Coordinator.FirstAwaitedSearchWins | rust/src/app.rs:867-876 | the first queued answer with the awaited id is shown and ends the wait |
| Coordinator.SearchAnswerShown | rust/src/app.rs:867-876 | the search worker's answer to the awaited request is what the window shows |
| Coordinator.SupersededSearchIgnored | rust/src/app.rs:867-876 | after a newer search is sent, answers to every earlier request change nothing |
| Coordinator.PollSearchResponse | rust/src/app.rs:867-876 | with no answer carrying the awaited id the state is unchanged |
| Coordinator.PreviewFor | rust/src/app.rs:920-957 | no selection clears the preview; a cached preview is shown; an unknown kind shows nothing; otherwise a request goes out and a loading text is shown |
| Coordinator.RequestPreviewForCurrent | rust/src/app.rs:920-957 | only the preview and the preview stream change, to what `PreviewFor` gives for the selected row |
| Coordinator.PollPreviewResponse | rust/src/app.rs:878-895 | with no answer carrying the awaited id the state is unchanged, and results and selection are never touched |
| Coordinator.PreviewAnswerShown | rust/src/app.rs:878-895 | the preview worker's answer to the awaited request is cached for its path and shown |
| Coordinator.RecordKinds | rust/src/app.rs:785-788 | every path of the batch is recorded with its kind, the last occurrence winning, and other paths keep theirs |
| Coordinator.CurrentResultKind | rust/src/app.rs:914-918 | the kind of the selected row exactly when it is recorded |
| Coordinator.ClampRow | rust/src/app.rs:964 | the row stays within the results and is unchanged when already inside |
| Coordinator.MoveRow | rust/src/app.rs:959-969 | without results nothing happens; otherwise the selection moves by `delta` from the current row (or row 0), clamped to the ends |
| Coordinator.TogglePin | rust/src/app.rs:971-980 | the selected row's path flips in or out of the pins, and no other pin changes |
| Coordinator.TogglePinTwice | rust/src/app.rs:971-983 | toggling twice without moving restores the pins |
| Coordinator.TogglePinAndMove | rust/src/app.rs:971-983 | the pins are toggled for the selected row and then the selection moves as `MoveRow` moves it |
| Coordinator.InsertSorted | rust/src/app.rs:987-988 | inserting into a strictly sorted list keeps it strictly sorted with one more element |
| Coordinator.SelectedPaths | rust/src/app.rs:985-994 | the pins sorted by path, each once, when any are pinned; else the selected row's path; else nothing |
| Coordinator.ClearQueryAndSelection | rust/src/app.rs:1043-1051 | the query and pins are cleared and the first `limit` entries are shown with the first selected |
| Coordinator.CreateFileList | rust/src/app.rs:1053-1076 | ignored while a creation runs; otherwise a request with the root and kind switches goes out under a fresh id |
| Coordinator.PollFileListResponse | rust/src/app.rs:1078-1109 | with no answer carrying the awaited id the state is unchanged |
| Coordinator.HandleFileListAnswer | rust/src/app.rs:1078-1109 | only the awaited answer is handled; it ends the wait, and a successful one re-indexes when manifests are in use |
| Coordinator.AwaitedFileListAnswerHandled | rust/src/app.rs:1078-1109 | the awaited answer ends the wait; a created manifest triggers a re-index with the next id when manifests are in use |
| Coordinator.FileListAnswerHandled | rust/src/app.rs:1078-1109 | the file-list worker's answer to the awaited request ends the wait |
| Coordinator.UpdateResultsKeepsValid | rust/src/app.rs:897-912 | updating the results keeps the state invariant (limit in range, well-formed streams, selection in range, preview of the selected row) |
| Coordinator.PollSearchKeepsValid | rust/src/app.rs:867-876 | polling search answers keeps the invariant |
| Coordinator.PollPreviewKeepsValid | rust/src/app.rs:878-895 | polling preview answers keeps the invariant |
| Coordinator.PollIndexKeepsValid | rust/src/app.rs:761-825 | every frame's index polling keeps the invariant, refresh or not |
| Coordinator.MoveRowKeepsValid | rust/src/app.rs:959-969 | moving the selection keeps the invariant |
| Coordinator.TogglePinKeepsValid | rust/src/app.rs:971-983 | toggling a pin and moving keeps the invariant |
| Coordinator.ClearQueryKeepsValid | rust/src/app.rs:1043-1051 | clearing the query keeps the invariant |
| Coordinator.CreateFileListKeepsValid | rust/src/app.rs:1053-1076 | requesting a manifest keeps the invariant |
| Coordinator.PollFileListKeepsValid | rust/src/app.rs:1078-1109 | polling manifest answers keeps the invariant |
| TextEdit.RemoveCharRange | rust/src/app.rs:1138-1147 | an empty or reversed range removes nothing; otherwise the clamped range is removed and returned, and no character is lost |
| TextEdit.InsertAtChar | rust/src/app.rs:1149-1152 | the value is inserted before the clamped position and the rest of the text is kept around it |
| TextEdit.RemoveThenInsert | rust/src/app.rs:1138-1152 | putting the removed characters back where they were taken restores the text |
| TextEdit.SelectionRange | rust/src/app.rs:1158-1164 | no selection when cursor and anchor coincide, otherwise the two as an ordered range |
| TextEdit.ApplyCtrlHDelete | rust/src/app.rs:1166-1194 | nothing when the widget already changed the text or at the start; otherwise the selection or the previous character is deleted and the cursor moves to its start |
| TextEdit.CharIndex | rust/src/app.rs:1128-1136 | the `i`-th character's position, or the end of the text when it has fewer characters |
| TextEdit.CtrlHIsUndoable | rust/src/app.rs:1166-1194 | inserting what Ctrl+H deleted at the new cursor restores the query |
| TextEdit.CtrlHExamples | rust/src/app.rs:1713-1752 | "abcd" with the cursor at the end becomes "abc"; nothing is deleted when the widget already changed the text |

## Left out

- Windows paths: drive letters, `\\?\` and UNC prefixes, and the display normalisation of `normalize_windows_display`/`normalize_path_for_display` are not modelled. Paths are '/'-separated components.
- Unicode: lower-casing and whitespace are the ASCII versions. Rust uses `to_ascii_lowercase` but Unicode `White_Space` for `split_whitespace`/`trim`, and Python's `lower()` and `split()` are full Unicode. Characters stand for Unicode scalar values, so a character index is a position in the sequence.
- Regular expressions: the regex engine (`RegexBuilder`, Python `re`) is a `RegexEngine` parameter that says which patterns compile and where they match. `find_regex_match_positions` is the `regexPositions` parameter of `MatchPositionsForPath`.
- External scoring: the skim matcher and the prototype's rapidfuzz/difflib scorers are a `BaseScore` parameter. Scores are integers rather than `f64`, so only the integer bonuses and `fallback_score` are modelled exactly.
- Preview text: `build_preview_text_with_kind`, `read_preview_lines`, `should_skip_preview` and the directory preview read the disk and check Windows attributes. They are the `build` parameter of `ServePreview`; only `truncate_chars` is modelled.
- Clocks: the 4 ms frame budget, the 50 ms incremental-refresh interval and the 100 ms batch flush are the oracles `expired`, `refreshDue` and `due`.
- Threads: the worker threads and channels are modelled as sequences of requests and answers. A worker's liveness is a flag, and a receiver closing in the middle of a stream is modelled only at the start of a request (`open`).
- The window: egui layout, fonts, key handling other than Ctrl+H (`apply_emacs_query_shortcuts`, `handle_shortcuts`), the status line, notices, the kill buffer, saved roots, the clipboard text, `execute_selected` and the actions module are not modelled.
- Coordinator.MoveRow: the `isize` arithmetic of `move_row` is unbounded integer arithmetic here, so an overflow of `row + delta` is not modelled.
- Coordinator.PollIndexResponse: the frame budget splits a run's messages over several frames. The model proves each frame's effect and the effect of a whole run (`RunDelivers`), not the interleaving of a run with other user actions between frames.
- FileSystem.WriteText: a newly created file is not added to any directory listing. Listings are a fixed snapshot of the disk as the walk saw it, so a walk after the write does not see the new manifest.
- Indexer.WriteThenParseCorrected: an entry whose name ends in whitespace, or whose components hold a line boundary, is not covered. The reader trims every line and splits at line boundaries, so no line either writer can produce names such an entry again (`Indexer.TrailingSpaceEntryIsLost`).
- Paths: ".." is kept as an ordinary component. Rust's `Ord for Path` sorts a `ParentDir` component before every normal one, and `file_name` of a path ending in ".." is `None`; here ".." is ordered as the string and is its own file name.
- Workers.ServeIndexRequest: for a walk, the streamed paths are stated to be the snapshot's paths as a multiset. The exact order is the pre-order of `PreOrder`, which `PreOrderSplits` relates to the grouped walk.
- Walker.StackWalk: the Python walks are stated as multisets, because their stack order differs from the pre-order used as reference.
- `build_index` (Rust) and `walk_files`/`walk_dirs` are thin wrappers over the modelled functions and have no members of their own.

Where the repository's written design and the code differ, the model follows the code:

- A fresh index request resets the incremental-refresh timer, so the first batch after a refresh waits for the interval like any other.
- Manifest lines are only trimmed. There is no quote stripping, no Windows path translation, and no resolution against the manifest's own directory; relative lines are taken from the root.
- The preview cache is an unbounded map, cleared on refresh, not a bounded FIFO.
- An invalid regular expression makes that one term match nothing; it is not an error for the whole query.
- A manifest that cannot be read makes the index worker send a lone `Failed`, with no `Started` before it.

## Findings

| source | as written | input that shows it | evidently intended | confidence | as-written member | corrected member |
|---|---|---|---|---|---|---|
| rust/src/indexer.rs:151-154 | an entry under the root is written relative to it, so a name starting with '#' becomes a line the reader takes for a comment | the existing file `/r/#notes` under the root `/r`: the manifest holds `#notes`, which reads back as nothing | every written entry reads back | not executed | Indexer.CommentLikeEntryIsLost | Indexer.WriteThenParseCorrected |
| rust/src/indexer.rs:151-154 | the root itself strips to the empty relative path and is written as an empty line, which the reader skips | a manifest for the entries `[/r]` under the root `/r` holds one empty line and reads back as `[]` | the root reads back like any other entry | not executed | Indexer.RootEntryIsLostRust | Indexer.WriteThenParseCorrected |
| rust/src/indexer.rs:151-154 | an entry under the root whose name starts with whitespace is written as a relative line starting with whitespace, which the reader trims off | the existing file `/r/ x` under the root `/r`: the manifest holds ` x`, which reads back as `/r/x` | every written entry reads back | not executed | Indexer.LeadingSpaceEntryIsLost | Indexer.WriteThenParseCorrected |

The corrected writer is `Indexer.LineForCorrected`. It writes the absolute path whenever the relative line would be skipped or trimmed at its start by the reader. The file-list worker model (`Workers.ServeFileList`) takes the line style as a parameter, so either writer can be plugged in.
