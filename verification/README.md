# SignKit: diffs, document sets and their neighbours, proved

This project models six parts of SignKit and proves what they promise. Functions and lemmas say what a
result means; methods with loops, arrays and objects follow the code step by step and are proved against
those functions.

- **Line diffs** (`Text`, `EditScript`, `ScriptOrder`, `LineDiff`, `Hunks`, `Patch`, `FinalNewline`,
  `Decimal`, `LastLines`, `UnifiedFormat`, `UnifiedDiff`): a table of common subsequences, the backtracked edit script, its hunks
  and the printed unified diff. The chain ends in one statement: parsing and applying the printed text
  turns the old text into the new one exactly when a condition on the two texts holds.
- **Bounded revision diffs** (`Utf8`, `Leaves`, `Changes`, `ChangeFacts`, `RevisionChanges`, `DiffBudget`,
  `RevisionDiff`, `HeaderFacts`): which documents changed and how, told from their leaves, which are returned under the file limit, and how much of each
  diff fits the byte limit. The contracts determine every modelled field of the result.
- **Document sets** (`DocumentSet`, `ManifestEdits`, `Merkle`, `Hex`, `LeafJson`, `InclusionProof`): the manifest
  invariant and the laws of its edits, and the Merkle tree of section 2.1 of RFC 6962. SHA-256 is any
  function to 32 bytes; a wrong proof or a second preimage exhibits two inputs, both actually hashed, with
  one digest.
- **The in-memory filesystem** (`Paths`, `FileTree`, `FileTreeCalls`, `FileTreeRuns`, `Archives`,
  `MemoryFs`): a flat map of paths with an index of names in every directory. Each call is modelled with
  the entries it leaves behind when it throws, so that its precondition is an if and only if.
- **Upload nonces** (`Octets`, `Crc32`, `CrcPolynomial`, `Png`, `UploadNonce`): the bitwise CRC-32 as
  polynomial division, and the chunk put behind a PNG header.
- **Recipients on the command line** (`Replacement`, `Redaction`, `RecipientErrors`, `Regex`,
  `RecipientEmail`, `RecipientTrim`): removing a token from any JSON tree, and a scanner that accepts the
  language of a regular expression.

Text is a sequence of Unicode scalar values with UTF-8 as in section 3 of RFC 3629. A thrown error is a
value (`Result` or `Option`). Random ids and SHA-256 are parameters.

## Where the code and its comments differ

- `src/lib/domain/revision-diff.ts:285` speaks of a change within twice the context width. A hunk closes
  only after `c` trailing lines and looks `2c` further, so changes up to `3c - 1` lines apart share a hunk;
  a width of zero or less still keeps one trailing context line.
- The one "No newline" marker of a shared last line stands for both texts (`:360-364`). Text-level
  faithfulness therefore has the exact condition `LastLines.TextsAgree` on the two texts. It holds when both
  end in a newline, when one is empty, and above the cell limit; it can fail when both lack the newline, as
  for "a" and "a", newline, "b".
- `src/lib/domain/revision-diff.ts:377-382` promises truncation at whole characters. On its own the decoder
  would also drop a leading byte order mark that the cut keeps (`Utf8.LongestPrefixExactlyWhen`). No caller
  reaches that case: diffs start with a dash, parts with `diff`, and the marker with a newline
  (`DiffBudget.CutTextKeepsLongest`, `RevisionDiff.CutPieceKeepsLongest`).
- `cli/src/client.rs:678-682` promises that the token is stripped from an error. Nested errors of a usage
  error and three local kinds of error are passed on as they are
  (`RecipientErrors.SanitizedHoldsExactlyWhen`). At its three call sites (`:410`, `:494`, `:586`) usage errors
  carry no nested errors, so that case is one of the function alone.
- `src/lib/components/signature-draft.ts:69` asks for a well-formed IHDR chunk; its checksum is not read
  (`UploadNonce.WellFormedExactlyWhen`).
- The request schema (`src/lib/http/envelope-ready.ts:29`) trims U+FEFF and not U+0085, the command line the
  other way round (`RecipientTrim.AgreeExactlyWhen`).

## Model

| member | source | states |
|---|---|---|
| `Text.TextLinesOfUnlines` | src/lib/domain/revision-diff.ts:121-126 | lines written one per line are read back by the line splitter unchanged |
| `Text.TextFromLines` | src/lib/domain/revision-diff.ts:121-126 | a non-empty text is its lines joined plus the final newline it has or lacks |
| `Text.TextDetermined` | src/lib/domain/revision-diff.ts:121-126 | two texts with the same lines and the same final newline are equal, so the final newline is all the line view hides |
| `Text.ConcatChunks` | src/lib/domain/revision-diff.ts:121-126 | the lines with their terminators concatenate to exactly the text |
| `EditScript.LcsBounds` | src/lib/domain/revision-diff.ts:184-198 | no common subsequence is longer than the value the recurrence computes |
| `EditScript.LcsReached` | src/lib/domain/revision-diff.ts:184-198 | some common subsequence is exactly that long |
| `EditScript.LcsStep` | src/lib/domain/revision-diff.ts:190-196 | one more line on either side raises the length by at most one |
| `EditScript.FewestChanges` | src/lib/domain/revision-diff.ts:131-225 | every script turning old into new lines has at least m + n - 2*LCS changes |
| `EditScript.BacktrackTransforms` | src/lib/domain/revision-diff.ts:200-224 | the backtracked script reads as the old lines and writes the new lines |
| `EditScript.BacktrackMinimal` | src/lib/domain/revision-diff.ts:200-224 | the backtracked script has exactly m + n - 2*LCS changes, the fewest of all scripts |
| `EditScript.NothingInCommon` | src/lib/domain/revision-diff.ts:166-182 | the LCS is empty exactly when no line is in both lists |
| `ScriptOrder.PreferredUnique` | src/lib/domain/revision-diff.ts:200-224 | two lists of lines have at most one script that is shortest and, read from its end, takes a context line whenever the two last lines are equal and otherwise an addition whenever a shortest script can end in one |
| `ScriptOrder.BacktrackPreferred` | src/lib/domain/revision-diff.ts:200-224 | the backtracked script is that one |
| `ScriptOrder.AdditionExactlyWhen` | src/lib/domain/revision-diff.ts:212-220 | a shortest script can end in an addition if and only if leaving out the last new line does not shorten the longest common subsequence |
| `ScriptOrder.BacktrackDeletionsFirst` | src/lib/domain/revision-diff.ts:200-224 | in the backtracked script no addition stands directly before a deletion |
| `LineDiff.FillTable` | src/lib/domain/revision-diff.ts:184-198 | every cell of the flat 32-bit table holds the LCS of its two prefixes, without overflow and within the array |
| `LineDiff.CellInjective` | src/lib/domain/revision-diff.ts:185-196 | different cells have different places in the flat array |
| `LineDiff.LastLine` | src/lib/domain/revision-diff.ts:207-220 | one backtracking turn reads only filled cells, emits the last script line of the remaining prefixes and shrinks i + j |
| `LineDiff.AssembleScript` | src/lib/domain/revision-diff.ts:200-224 | the walk over the filled table yields the backtracked script and counts its additions and deletions |
| `LineDiff.EditLinesTransform` | src/lib/domain/revision-diff.ts:131-225 | on every branch, the replacement fallback included, the script turns the old lines into the new ones |
| `LineDiff.EditLinesOrder` | src/lib/domain/revision-diff.ts:131-225 | on every branch deletions come before the additions next to them; within the limit the script is the preferred one, above it every old line is deleted and then every new line added |
| `LineDiff.EditLinesMinimal` | src/lib/domain/revision-diff.ts:166-224 | up to 4,000,000 cells no script has fewer changes |
| `LineDiff.MinimalExactlyWhen` | src/lib/domain/revision-diff.ts:166-182 | the result has the fewest changes if and only if the texts are within the limit, or equal, or share no line |
| `LineDiff.ComputeLineDiff` | src/lib/domain/revision-diff.ts:131-225 | returns that script with its counts; it turns the old lines into the new, and no addition stands directly before a deletion; within the limit no script has fewer changes and ties are broken as the source breaks them, above it all deletions come before all additions |
| `Hunks.BuildUnifiedHunks` | src/lib/domain/revision-diff.ts:230-314 | the loop returns the right cut for the width: contiguous slices, in order, all changes inside, min(c, available) leading and exactly c trailing context lines unless the script ends, with line numbers and counts of the slice |
| `Hunks.HunkingUnique` | src/lib/domain/revision-diff.ts:230-314 | a script and a width have only one right cut, so the previous contract determines the hunks |
| `Hunks.RightCutUnique` | src/lib/domain/revision-diff.ts:230-314 | and so the hunks themselves are determined |
| `Hunks.ChangeHasSpan` | src/lib/domain/revision-diff.ts:230-314 | every change is in exactly one hunk |
| `Hunks.ShareHunkExactlyWhen` | src/lib/domain/revision-diff.ts:280-303 | neighbouring changes share a hunk if and only if fewer than max(1, 3c) context lines separate them |
| `Hunks.NextChangeDistance` | src/lib/domain/revision-diff.ts:285-295 | the look-ahead finds the nearest change within twice the width, or reports none |
| `Hunks.CloseOpen` | src/lib/domain/revision-diff.ts:297-302 | a hunk that closes has exactly the trailing context the width asks for |
| `Patch.HunkingCovers` | src/lib/domain/revision-diff.ts:230-314 | a right cut leaves only context lines outside its hunks |
| `Patch.ApplyYieldsNew` | src/lib/domain/revision-diff.ts:131-314 | applying the hunks at their recorded numbers and counts to the old lines gives exactly the new lines |
| `Patch.ApplyReverseYieldsOld` | src/lib/domain/revision-diff.ts:131-314 | applying them in reverse to the new lines gives exactly the old lines |
| `Patch.ApplyConserves` | src/lib/domain/revision-diff.ts:320-371 | hunks that apply to any lines change their length by exactly their additions minus deletions |
| `FinalNewline.AgreeingSides` | src/lib/domain/revision-diff.ts:354-368 | if the final lines agree, the script with its markers reads and writes exactly the two texts, terminators included |
| `FinalNewline.AppliesExactlyWhen` | src/lib/domain/revision-diff.ts:354-368 | the marked hunks turn the old text into the new text if and only if the final lines agree |
| `UnifiedFormat.ReadShowRange` | src/lib/domain/revision-diff.ts:345-348 | a printed range, with ",1" left out and the start lowered for an empty side, is read back as start and count |
| `UnifiedFormat.ReadShowHeader` | src/lib/domain/revision-diff.ts:344-349 | a printed hunk header is read back as its four numbers |
| `UnifiedFormat.ReadShownLines` | src/lib/domain/revision-diff.ts:352-368 | printed hunk lines and their no-newline markers are read back line by line |
| `UnifiedFormat.ReadShownHunks` | src/lib/domain/revision-diff.ts:343-370 | printed hunks are read back with every position, count, line and marker |
| `UnifiedDiff.PrintHeader` | src/lib/domain/revision-diff.ts:344-349 | the printed header line is the one the reader understands |
| `UnifiedDiff.PrintLine` | src/lib/domain/revision-diff.ts:352-365 | a line is printed with its prefix and with the marker its line numbers call for |
| `UnifiedDiff.PrintHunk` | src/lib/domain/revision-diff.ts:343-369 | a hunk is printed as header and lines, counting line numbers as it goes |
| `UnifiedDiff.PrintDiff` | src/lib/domain/revision-diff.ts:341-371 | the file headers and all hunks are printed in order |
| `UnifiedDiff.ReadShownDiff` | src/lib/domain/revision-diff.ts:341-371 | the whole diff, headers included, is read back as the hunks it was printed from |
| `UnifiedDiff.ReadBackHunks` | src/lib/domain/revision-diff.ts:343-370 | read back, the hunks are the slices of the script, with and without terminators |
| `UnifiedDiff.UnifiedDiffUnique` | src/lib/domain/revision-diff.ts:320-371 | two texts, their paths and a width determine the diff |
| `UnifiedDiff.UnifiedDiffIsFaithful` | src/lib/domain/revision-diff.ts:320-371 | for newline-free paths the diff, parsed and applied, turns the old lines into the new and back, and the old text into the new text if and only if a condition on the two texts holds (LastLines.TextsAgree); it is empty only if no line changed |
| `UnifiedDiff.PrintedNamesFiles` | src/lib/domain/revision-diff.ts:340-347 | the first line of a printed diff is "--- a/" and the old path, or "--- /dev/null" for an empty old text; the second is "+++ b/" and the new path, or "+++ /dev/null" for an empty new text |
| `UnifiedDiff.FormatUnifiedDiff` | src/lib/domain/revision-diff.ts:320-372 | prints that diff at the width asked for, with the counts of the script; for newline-free paths its first two lines name the old and the new file, or the null device for an empty text |
| `LastLines.BacktrackKeepsLast` | src/lib/domain/revision-diff.ts:200-224 | which last lines the backtracked script keeps as context, told from the two lists of lines alone |
| `LastLines.FinalLinesAgreeExactlyWhen` | src/lib/domain/revision-diff.ts:354-368 | the marker is right for both texts if and only if they are equal, or above the cell limit, or each text without a final newline keeps its last line exactly when the other one does |
| `LastLines.EqualLastLinesAgree` | src/lib/domain/revision-diff.ts:354-368 | texts with equal last lines agree if and only if both end alike |
| `LastLines.ReplacedTextsAgree` | src/lib/domain/revision-diff.ts:169-182 | different texts above the cell limit always agree |
| `LastLines.TerminatedTextsAgree` | src/lib/domain/revision-diff.ts:354-368 | texts that both end in a newline or are empty agree |
| `LastLines.AppendedLineDisagrees` | src/lib/domain/revision-diff.ts:354-368 | the texts "a" and "a", newline, "b" do not agree |
| `LastLines.EmptyTextAgrees` | src/lib/domain/revision-diff.ts:354-368 | a text and the empty text agree, however the text ends |
| `UnifiedDiff.OnlyFinalNewlineDiffers` | src/lib/domain/revision-diff.ts:121-126 | texts that differ only in the final newline give an empty diff and never agree |
| `UnifiedDiff.AppendedLinesDisagree` | src/lib/domain/revision-diff.ts:354-368 | a family of pairs that both lack the final newline and yet do not agree: lines appended after a different last line |
| `Utf8.DecodeEncode` | src/lib/domain/revision-diff.ts:374-376 | decoding the UTF-8 bytes of a text gives the text |
| `Utf8.FitIsLongest` | src/lib/domain/revision-diff.ts:384-398 | the kept prefix fits, and no longer whole-character prefix does |
| `Utf8.DecodeCut` | src/lib/domain/revision-diff.ts:391-397 | decoding a cut encoding succeeds exactly at character boundaries |
| `Utf8.TruncateToUtf8Bytes` | src/lib/domain/revision-diff.ts:384-399 | how many cuts are tried, never more than four; the last one succeeds exactly when at least one character fits |
| `Utf8.TruncatedFits` | src/lib/domain/revision-diff.ts:384-399 | the result never exceeds its budget |
| `Utf8.LongestPrefixExactlyWhen` | src/lib/domain/revision-diff.ts:384-399 | the result is the longest fitting prefix if and only if the text does not start with a byte order mark that is kept by the cut |
| `Utf8.UnmarkedKeepsLongest` | src/lib/domain/revision-diff.ts:384-399 | without a byte order mark at the front the result is always the longest fitting prefix |
| `Changes.ChangesAreDistinct` | src/lib/domain/revision-diff.ts:455-669 | with unique ids no document is reported twice |
| `Changes.EveryDocumentClassified` | src/lib/domain/revision-diff.ts:455-669 | every document of either revision has a change, and each change has the right class: added, removed, modified or unchanged by comparing all fields and the Markdown text |
| `Changes.CountsAddUp` | src/lib/domain/revision-diff.ts:455-669 | added plus common is the head size, removed plus common the base size, and total changes plus unchanged the number of entries |
| `ChangeFacts.AllDescribed` | src/lib/domain/revision-diff.ts:455-669 | every field of every change, and the two paths and two texts of its line diff, told from the leaves with its id in the two revisions: the base text is that of the base leaf, the head text that of the head leaf |
| `ChangeFacts.LeafOfUnique` | src/lib/domain/revision-diff.ts:430-433 | with unique ids those leaves are determined |
| `ChangeFacts.ChangesInOrder` | src/lib/domain/revision-diff.ts:455-669 | the changes come in the order of the head documents, then of the base documents that are gone |
| `ChangeFacts.SummaryCounts` | src/lib/domain/revision-diff.ts:812-819 | each count of the summary is the number of changes that are added, removed or modified, or that have moved or have a new title |
| `Leaves.IndexById` | src/lib/domain/revision-diff.ts:430-433 | the map built from the base leaves finds the last leaf of each id |
| `RevisionChanges.DocumentChange.constructor` | src/lib/domain/revision-diff.ts:477-496 | a new change object has no line counts and no diff |
| `RevisionChanges.CollectHead` | src/lib/domain/revision-diff.ts:455-626 | the loop over the head documents records their changes, tasks and counts in order |
| `RevisionChanges.CollectChanges` | src/lib/domain/revision-diff.ts:430-669 | the two loops create one fresh change object per document, its task and the summary counts |
| `RevisionChanges.TasksOfChanges` | src/lib/domain/revision-diff.ts:442-453 | each change object has at most one deferred diff, and it is the one of its document |
| `RevisionChanges.CutKeepsRealChanges` | src/lib/domain/revision-diff.ts:673-686 | the cut respects the limit, repeats and invents nothing, and returns an unchanged document only if no changed one was dropped |
| `RevisionChanges.CutIs` | src/lib/domain/revision-diff.ts:673-686 | the cut keeps the first changes in order: as recorded if all fit, otherwise the changed documents before the unchanged ones, each kind as recorded |
| `RevisionChanges.CutUnique` | src/lib/domain/revision-diff.ts:673-686 | only one list is that cut |
| `DiffBudget.FillOne` | src/lib/domain/revision-diff.ts:691-728 | one deferred diff under the remaining budget: whole if it fits, otherwise a prefix and the marker, with the budget left afterwards |
| `DiffBudget.FilledUnique` | src/lib/domain/revision-diff.ts:691-728 | a task and the budget before it determine its counts, its shown diff and the budget after it |
| `DiffBudget.FilledIsCarried` | src/lib/domain/revision-diff.ts:691-728 | a shown diff that is not marked as truncated is whole, names its files and is faithful to both texts |
| `DiffBudget.FilledFits` | src/lib/domain/revision-diff.ts:712-725 | what is shown plus what is left never exceeds the budget before |
| `DiffBudget.CutTextFits` | src/lib/domain/revision-diff.ts:718-722 | a cut diff with its marker fits the budget |
| `DiffBudget.CutTextKeepsLongest` | src/lib/domain/revision-diff.ts:716-722 | every cut diff is the longest fitting whole-character prefix of the diff before the marker |
| `DiffBudget.CutDiff` | src/lib/domain/revision-diff.ts:718-722 | computes that cut diff |
| `DiffBudget.FillDiffs` | src/lib/domain/revision-diff.ts:688-728 | the deferred diffs of the returned changes are filled in order out of one budget; their UTF-8 lengths total at most that budget; cut exactly when some diff is marked |
| `RevisionDiff.JoinedGrows` | src/lib/domain/revision-diff.ts:730-797 | more changes never make the joined text shorter |
| `RevisionDiff.LastPiece` | src/lib/domain/revision-diff.ts:783-792 | the last piece is part of the text with the marker, or part of the marker, and fits the room left |
| `RevisionDiff.CutPieceKeepsLongest` | src/lib/domain/revision-diff.ts:783-792 | the last piece is the longest fitting whole-character prefix of its part, then the marker |
| `RevisionDiff.AddPart` | src/lib/domain/revision-diff.ts:775-797 | a part is added whole exactly when it and its separator fit; otherwise the last piece is |
| `RevisionDiff.AssembleText` | src/lib/domain/revision-diff.ts:730-797 | the joined text is all parts, or the parts that fit and the last piece, at most the limit in bytes, cut exactly when all parts exceed it |
| `RevisionDiff.AssembledUnique` | src/lib/domain/revision-diff.ts:730-797 | the parts and the limit determine the joined text |
| `RevisionDiff.FilledCarries` | src/lib/domain/revision-diff.ts:688-728 | each returned change carries the diff of its own document |
| `RevisionDiff.ReturnedAreShown` | src/lib/domain/revision-diff.ts:455-728 | each returned change says what the two leaves of its document say, and carries the line diff from the base text of that document to its head text if one is due |
| `RevisionDiff.ClampIs` | src/lib/domain/revision-diff.ts:419-424 | an option in range is taken as it is, any other is moved to the nearer end of the range |
| `HeaderFacts.AddedHeader` | src/lib/domain/revision-diff.ts:737-758 | the printed header of an added document, told from its leaf |
| `HeaderFacts.RemovedHeader` | src/lib/domain/revision-diff.ts:737-758 | the printed header of a removed document, told from its leaf |
| `HeaderFacts.EditedHeader` | src/lib/domain/revision-diff.ts:737-768 | the printed header of a Markdown document in both revisions: old and new path, renaming, similarity, titles and positions, told from the two leaves |
| `HeaderFacts.ReplacedHeader` | src/lib/domain/revision-diff.ts:751-768 | the printed header of a PDF in both revisions: its file name, both digests in order, titles and positions, told from the two leaves |
| `RevisionDiff.SelectChanges` | src/lib/domain/revision-diff.ts:430-686 | all changes, the returned ones after the file limit, and the tasks, with nothing filled in yet |
| `RevisionDiff.PrintChanges` | src/lib/domain/revision-diff.ts:688-797 | filling and printing keep both byte totals within the limit |
| `RevisionDiff.GenerateRevisionDiff` | src/lib/domain/revision-diff.ts:403-825 | the whole result for all inputs and options: schema, generations and commits; the cut of the changes, each saying what the two leaves of its document say and showing the diff from its base text to its head text; counts, diffs under the budget, joined text within the byte limit, and the truncation flag with its reason |
| `DocumentSet.FaultlessIsValid` | src/lib/domain/document-set.ts:426-491 | the first-fault check finds nothing exactly when the manifest is valid: size, leaf fields, contiguous positions, unique ids and paths |
| `DocumentSet.AssertDocumentSet` | src/lib/domain/document-set.ts:426-452 | the loop with its two sets reports exactly that first fault |
| `DocumentSet.SealingValid` | src/lib/domain/document-set.ts:493-500 | renumbering a valid manifest changes nothing |
| `DocumentSet.SealedIs` | src/lib/domain/document-set.ts:493-500 | renumbering succeeds exactly when the renumbered leaves are valid, and then keeps the leaves in order and their ids |
| `DocumentSet.Renumber` | src/lib/domain/document-set.ts:493-500 | computes that renumbered and checked manifest |
| `ManifestEdits.UpsertMarkdownDocument` | src/lib/domain/document-set.ts:206-243 | the edit computes the specified manifest or error, and a result is always valid |
| `ManifestEdits.UpsertTwice` | src/lib/domain/document-set.ts:206-243 | repeating an upsert changes nothing, whatever id the second one mints |
| `ManifestEdits.UpsertKeepsOthers` | src/lib/domain/document-set.ts:206-243 | the document at the path has the new title and digest, its place as position, and its old id or the minted one; every other document stays as it was |
| `ManifestEdits.UpsertExactlyWhen` | src/lib/domain/document-set.ts:206-243 | an upsert succeeds if and only if path, digest and title are valid and the path is known, or there is room and the minted id is valid and new |
| `ManifestEdits.TitleIsWords` | src/lib/domain/document-set.ts:82-89 | the title of a document without one is the words of its file name, split at hyphens and underscores, with one space between them |
| `ManifestEdits.AppendPdfDocument` | src/lib/domain/document-set.ts:245-278 | the edit computes the specified manifest or error, and a result is always valid |
| `ManifestEdits.InsertedAt` | src/lib/domain/document-set.ts:249-277 | the PDF is at its position with every field of the input and its own or the minted id, and the other documents keep their order around it |
| `ManifestEdits.AppendPdfExactlyWhen` | src/lib/domain/document-set.ts:245-278 | inserting succeeds if and only if the position is in range, id, title, digest, size, page count and both page dimensions are valid, the id is new, and there is room |
| `ManifestEdits.InsertThenRestore` | src/lib/domain/document-set.ts:245-309 | inserting a PDF and reordering to the original ids restores the original manifest |
| `ManifestEdits.ReorderDocumentSet` | src/lib/domain/document-set.ts:280-309 | the edit computes the specified manifest or error, and a result is always valid |
| `ManifestEdits.ReorderExactlyWhen` | src/lib/domain/document-set.ts:280-309 | reordering succeeds if and only if the order is a non-empty list of known ids without repeats, and then yields those documents in that order |
| `ManifestEdits.ReorderErrors` | src/lib/domain/document-set.ts:285-304 | a failed reordering reports the empty order, the order that is too long, or the first id that repeats an earlier one or is unknown |
| `ManifestEdits.ReorderToSelf` | src/lib/domain/document-set.ts:280-309 | reordering to the ids a valid manifest has changes nothing |
| `ManifestEdits.ReorderTwice` | src/lib/domain/document-set.ts:280-309 | of two reorderings only the last counts when its ids are among the first one's |
| `Merkle.SplitPointIs` | src/lib/domain/document-set.ts:637-641 | the split is a power of two k with k < n <= 2k |
| `Merkle.SplitPointUnique` | src/lib/domain/document-set.ts:637-641 | no other power of two is |
| `Merkle.LargestPowerOfTwoLessThan` | src/lib/domain/document-set.ts:637-641 | the doubling loop finds it |
| `Merkle.Sha256Parts` | src/lib/domain/document-set.ts:643-654 | the digest is that of the concatenated parts, copied into one buffer |
| `Merkle.HashNode` | src/lib/domain/document-set.ts:632-635 | an inner node is the digest of a one byte, the domain, the left and the right digest, in that order |
| `Merkle.RootOfMore` | src/lib/domain/document-set.ts:577-583 | for every power of two k with k < n <= 2k the root over n hashes is the digest of a one byte, the domain, the root over the first k and the root over the rest |
| `Merkle.AuditPathIs` | src/lib/domain/document-set.ts:585-602 | for that k an audit path is the path in the own half and then the root over the other half |
| `Merkle.TreeHashOfOne` | src/lib/domain/document-set.ts:138-142 | the tree hash of one payload is the digest of a zero byte, the domain and the payload |
| `Merkle.TreeHashOfMore` | src/lib/domain/document-set.ts:577-583 | the tree hash of n payloads is the digest of a one byte, the domain and the tree hashes of the first k and of the rest |
| `Merkle.LeafIsNotNode` | src/lib/domain/document-set.ts:138-142 | no leaf input is a node input |
| `Merkle.GeneratedPathFolds` | src/lib/domain/document-set.ts:585-630 | a generated audit path folds to the root |
| `Merkle.PathLength` | src/lib/domain/document-set.ts:585-602 | an audit path over at most 2^d leaves has at most d hashes |
| `Merkle.PathBinds` | src/lib/domain/document-set.ts:604-630 | a path of any length that folds to the root starts at the right leaf and is the generated one, or two of the inputs actually hashed differ and have the same digest |
| `Merkle.RootBinds` | src/lib/domain/document-set.ts:577-583 | two non-empty payload lists, of any lengths, with the same root are equal, or two of the inputs actually hashed collide |
| `Hex.DecodeHex` | src/lib/domain/document-set.ts:656-666 | hex text of bytes decodes to the bytes |
| `Hex.EncodeHex` | src/lib/domain/document-set.ts:656-666 | lower-case hex text is the encoding of its bytes |
| `Hex.HexDigitsOfByte` | src/lib/domain/document-set.ts:656-658 | each byte is written as its high digit and then its low digit |
| `InclusionProof.VerifyInclusionProof` | src/lib/domain/document-set.ts:172-204 | the verifier throws exactly for an invalid manifest and otherwise decides acceptance, a truncated path being refused |
| `InclusionProof.AcceptsExactlyGenerated` | src/lib/domain/document-set.ts:153-204 | the generated proof is accepted; any other accepted proof exhibits a hash collision among the inputs hashed |
| `InclusionProof.SetHashIs` | src/lib/domain/document-set.ts:144-151 | the hash of a valid manifest is the hex text of the tree hash of its leaves, encoded and in order |
| `InclusionProof.ProofIs` | src/lib/domain/document-set.ts:153-170 | a generated proof holds the index, the size, the hex text of the leaf hash at that index and of its audit path |
| `LeafJson.JsonInjective` | src/lib/domain/document-set.ts:91-114 | different valid leaves have different canonical JSON, string escapes and numbers included |
| `LeafJson.MarkdownJsonIs` | src/lib/domain/document-set.ts:93-101 | the JSON of a Markdown leaf is the object of its six members in their order |
| `LeafJson.PdfJsonIs` | src/lib/domain/document-set.ts:103-113 | the JSON of a PDF leaf is the object of its nine members in their order |
| `LeafJson.ReadEscaped` | src/lib/domain/document-set.ts:91-114 | an escaped character is read back as itself |
| `LeafJson.LeafBytesInjective` | src/lib/domain/document-set.ts:91-141 | and so different bytes are hashed for them |
| `LeafJson.NumeralsExist` | src/lib/domain/document-set.ts:91-114 | the one demand on how page dimensions are printed can be met for all finite doubles |
| `InclusionProof.HashBindsSet` | src/lib/domain/document-set.ts:144-151 | two valid manifests with the same hash of their canonical JSON are equal, or two of the inputs hashed collide |
| `Paths.Normalize` | src/lib/history/memory-fs.ts:84-92 | the push-and-pop loop computes the normal form |
| `Paths.NormalIdempotent` | src/lib/history/memory-fs.ts:84-92 | normalizing is idempotent and keeps the names along the path |
| `Paths.LastSegment` | src/lib/history/memory-fs.ts:84-92 | a name behind a path leads to the entry of that name, two dots to the parent, and one dot or nothing nowhere else |
| `Paths.OnlySegment` | src/lib/history/memory-fs.ts:84-92 | a single name is an entry of the root, and dots never lead above the root |
| `Paths.ParentIs` | src/lib/history/memory-fs.ts:94-102 | parent and base name are all names but the last and the last; the parent is in normal form |
| `Paths.SplitsIntoParentAndBase` | src/lib/history/memory-fs.ts:84-102 | a path other than the root is its parent, a slash and its base name, and the parent is strictly shallower |
| `Paths.ChildIs` | src/lib/history/memory-fs.ts:94-102 | an entry of a directory has that directory as parent and its own name as base name |
| `Paths.ChildInjective` | src/lib/history/memory-fs.ts:94-102 | different directory and name pairs make different paths |
| `Paths.ListingUnique` | src/lib/history/memory-fs.ts:156-158 | a set of names has only one sorted listing |
| `Paths.AtMostIs` | src/lib/history/memory-fs.ts:156-158 | names are ordered by the first unit that differs, a prefix first |
| `FileTree.ChildrenAreNames` | src/lib/history/memory-fs.ts:41-52 | in a well-formed tree each children set is exactly the base names of the keys with that parent |
| `FileTreeCalls.TreeDetermined` | src/lib/history/memory-fs.ts:41-52 | a well-formed tree is determined by its files and its directories |
| `FileTreeCalls.MkdirExactly` | src/lib/history/memory-fs.ts:116-131 | when mkdir throws and what, when it leaves the tree well-formed (if and only if), and that it adds exactly the missing directories and no file |
| `FileTreeCalls.WriteFileExactly` | src/lib/history/memory-fs.ts:133-144 | the same for writeFile: it keeps the tree well-formed if and only if the target is not the root, the nearest existing ancestor is a directory and no non-empty directory is overwritten; then only that file changes |
| `FileTreeCalls.UnlinkExactly` | src/lib/history/memory-fs.ts:160-166 | unlink removes exactly the file, or throws the right error, and always keeps the tree well-formed |
| `FileTreeCalls.RmdirExactly` | src/lib/history/memory-fs.ts:168-174 | rmdir removes exactly an empty directory or throws the right error; it keeps the tree well-formed unless it removes an empty root |
| `FileTreeRuns.StepExactly` | src/lib/history/memory-fs.ts:116-174 | a call keeps a well-formed tree well-formed if and only if its precondition holds |
| `FileTreeRuns.RunExactly` | src/lib/history/memory-fs.ts:116-174 | a run stays well-formed after every call if and only if every call meets its precondition |
| `FileTreeRuns.SafeRunsFromFresh` | src/lib/history/memory-fs.ts:41-174 | from an empty filesystem, every run of calls that meet their preconditions keeps each directory listing equal to the names below it |
| `MemoryFs.MemoryFs.constructor` | src/lib/history/memory-fs.ts:46-52 | a new filesystem is an empty root |
| `MemoryFs.MemoryFs.Mkdir` | src/lib/history/memory-fs.ts:116-131 | updates the map as specified, error and partial insertions included; recursion ends because the parent is shallower |
| `MemoryFs.MemoryFs.WriteFile` | src/lib/history/memory-fs.ts:133-144 | updates the map as specified, error and partial insertions included |
| `MemoryFs.MemoryFs.ReadFile` | src/lib/history/memory-fs.ts:146-154 | returns the bytes of a file exactly when the path is one, and otherwise says whether the path is a directory or nothing |
| `MemoryFs.MemoryFs.Readdir` | src/lib/history/memory-fs.ts:156-158 | returns the sorted base names of all keys with that parent exactly for a directory, and otherwise says whether the path is a file or nothing |
| `MemoryFs.MemoryFs.Unlink` | src/lib/history/memory-fs.ts:160-166 | updates the map as specified |
| `MemoryFs.MemoryFs.Rmdir` | src/lib/history/memory-fs.ts:168-174 | updates the map as specified |
| `MemoryFs.MemoryFs.ImportFiles` | src/lib/history/memory-fs.ts:71-73 | writes files until the first error; on a new filesystem the files of any well-formed tree, in any order, import without error to the same files |
| `MemoryFs.MemoryFs.ExportFiles` | src/lib/history/memory-fs.ts:75-82 | returns every file once, sorted by path |
| `Archives.ExportUnique` | src/lib/history/memory-fs.ts:75-82 | a tree has only one export |
| `Archives.WriteWithin` | src/lib/history/memory-fs.ts:71-73 | a file of a well-formed tree can be written into any part of that tree |
| `Archives.ImportRestores` | src/lib/history/memory-fs.ts:71-82 | importing a tree's files in any order into a new filesystem never fails and gives the same path-to-bytes map and just the directories above the files |
| `Archives.ExportImportExport` | src/lib/history/memory-fs.ts:71-82 | exporting after an import gives the same list of files again |
| `Archives.RestoresTreeExactlyWhen` | src/lib/history/memory-fs.ts:71-82 | the whole tree comes back if and only if it has no empty directory below the root |
| `Crc32.Crc32` | src/lib/components/signature-draft.ts:96-105 | the nested loops compute the checksum of the register model |
| `Crc32.ShiftInjective` | src/lib/components/signature-draft.ts:101 | the one-bit step loses nothing |
| `Crc32.ShiftLinear` | src/lib/components/signature-draft.ts:101 | the one-bit step is linear over the two-element field |
| `Crc32.RegisterInjective` | src/lib/components/signature-draft.ts:98-103 | for every byte string the register map is injective on 32-bit states |
| `Crc32.CollidesExactlyWhen` | src/lib/components/signature-draft.ts:96-105 | two strings of one length share a checksum if and only if their difference leaves a cleared register clear |
| `Crc32.OneByteChangesChecksum` | src/lib/components/signature-draft.ts:96-105 | changing one byte, anywhere in a string of any length, changes the checksum |
| `Crc32.BurstChangesChecksum` | src/lib/components/signature-draft.ts:96-105 | strings that differ only within four consecutive bytes share a checksum if and only if they are equal |
| `CrcPolynomial.BitBurstChangesChecksum` | src/lib/components/signature-draft.ts:96-105 | the same for any 32 consecutive bits of the message, wherever they start |
| `CrcPolynomial.PolynomialIsGenerator` | src/lib/components/signature-draft.ts:101 | the constant 0xedb88320 is the generator polynomial of section 5.5 of the PNG specification |
| `CrcPolynomial.ShiftDivides` | src/lib/components/signature-draft.ts:101 | one step of the register is one step of long division by the generator |
| `CrcPolynomial.ChecksumIsRemainder` | src/lib/components/signature-draft.ts:96-105 | the checksum is the complemented remainder of the message polynomial divided by the generator |
| `Png.ParseEncoded` | src/lib/components/signature-draft.ts:63-70 | parsing encoded chunks gives the chunks back |
| `Png.EncodeParsed` | src/lib/components/signature-draft.ts:63-70 | only the encoding of some chunks parses to them |
| `Png.WellFormedExactlyEncoded` | src/lib/components/signature-draft.ts:63-70 | a stream is well-formed with given chunks if and only if it is the signature and their encoding, the first chunk being a 13-byte header |
| `Png.DamageIsNoticed` | src/lib/components/signature-draft.ts:86 | a chunk whose type and data are changed within four bytes no longer parses |
| `Png.RemoveInserted` | src/lib/components/signature-draft.ts:88-92 | taking the chunk behind the header out again restores the image bytes |
| `Png.InsertInjective` | src/lib/components/signature-draft.ts:88-92 | different chunks inserted into one image make different bytes |
| `Png.InsertedParses` | src/lib/components/signature-draft.ts:71-93 | for every image the code accepts, the result parses if and only if the image does, and then to the same chunks with the new one second |
| `Png.SameCriticalChunks` | src/lib/components/signature-draft.ts:63-70 | the critical chunks, which decide the pixels, stay the same |
| `Png.HighestFirst` | src/lib/components/signature-draft.ts:83-86 | a number in four bytes has its highest byte first |
| `UploadNonce.WriteNonceChunk` | src/lib/components/signature-draft.ts:80-86 | the chunk buffer is a tEXt chunk with length, keyword, nonce and correct checksum |
| `UploadNonce.EncodedIsNonceChunk` | src/lib/components/signature-draft.ts:80-86 | byte by byte what that chunk holds |
| `UploadNonce.HeaderBytes` | src/lib/components/signature-draft.ts:73-78 | byte by byte what is asked of an image |
| `UploadNonce.WithUploadNonce` | src/lib/components/signature-draft.ts:71-94 | succeeds exactly when the eight signature bytes, the length 13, the letters IHDR and the nonce are right; the result is the first 33 bytes, a chunk of length, the letters tEXt, keyword, zero byte, nonce and checksum, and the other bytes |
| `UploadNonce.WellFormedImageKept` | src/lib/components/signature-draft.ts:71-94 | for every well-formed chunk stream and every nonce the code succeeds, adds one chunk, keeps the critical chunks, and removal restores the input |
| `UploadNonce.WellFormedExactlyWhen` | src/lib/components/signature-draft.ts:63-78 | the result is a well-formed stream if and only if the input was, although only the header is read |
| `UploadNonce.BytesAreFresh` | src/lib/components/signature-draft.ts:63-70 | equal results come only from equal images and equal nonces |
| `Replacement.ReplaceFirst` | cli/src/client.rs:684-690 | replacement acts at the leftmost occurrence and continues behind it |
| `Replacement.ReplaceNothing` | cli/src/client.rs:684-690 | a text without the token is unchanged |
| `Replacement.LeakproofIsGone` | cli/src/client.rs:684-690 | for a token that overlaps the mark in no way, left-to-right replacement creates no new occurrence |
| `Replacement.GoneExactlyWhen` | cli/src/client.rs:684-690 | for every token: no text contains it after replacement if and only if the token is not empty and overlaps the mark in no way |
| `Replacement.BracketFreeGoneExactlyWhen` | cli/src/client.rs:684-690 | for bracket-free tokens that condition is: not a part of the inner word of the mark |
| `Replacement.BracketLeaks` | cli/src/client.rs:684-690 | a bracket token that leaks: replacing "]x" in "]xx" |
| `Redaction.JsonCleanExactlyWhen` | cli/src/client.rs:665-709 | no string, key or nested value of any JSON tree contains the token after redaction, if and only if the token is leakproof |
| `Redaction.LookupRedacted` | cli/src/client.rs:701-706 | under a redacted key stands the redacted value of the last entry whose key became that key, and no other key appears |
| `Redaction.CleanUnchanged` | cli/src/client.rs:692-709 | a tree that does not contain the token is left as it is |
| `Redaction.RedactedShape` | cli/src/client.rs:692-709 | redaction replaces texts, keeps the items of an array in place, and leaves numbers, booleans and null |
| `Redaction.RedactTree` | cli/src/client.rs:692-709 | the in-place recursion computes that redaction |
| `RecipientErrors.SanitizeRecipientError` | cli/src/client.rs:683-747 | each text of the result is the redacted text of the same field, the status and the number and order of the errors stay, and an error without the token comes back unchanged; with a leakproof token the result contains it only in places the code does not rewrite |
| `RecipientErrors.SanitizedReplaces` | cli/src/client.rs:711-747 | for every kind of error, each text is replaced by the redacted text of the same field and nothing else changes |
| `RecipientErrors.CleanErrorUnchanged` | cli/src/client.rs:711-747 | and so an error that does not contain the token, with unique keys in its objects, is not changed |
| `RecipientErrors.SanitizedHoldsExactlyWhen` | cli/src/client.rs:711-747 | a sanitized error contains a leakproof token if and only if it is in the nested errors of a usage error or in a configuration, I/O or JSON error; a server problem never does |
| `RecipientErrors.CapabilityLeakproof` | cli/src/client.rs:678-683 | every capability token (skr1_ and 43 characters) is leakproof |
| `Regex.StarDottedIsLabels` | src/lib/domain/recipient-identity.ts:14-15 | repeated dotted words before a last one match exactly what splitting at the dots shows |
| `Regex.PlusDottedIsLabels` | src/lib/domain/recipient-identity.ts:14-15 | the same with at least one dotted word |
| `RecipientEmail.LocalMatches` | src/lib/domain/recipient-identity.ts:14-15 | the local part of the expression matches exactly the strings without misplaced dots, foreign characters or a final apostrophe |
| `RecipientEmail.TrimIs` | cli/src/validation.rs:138 | trimming takes off the white space on both sides, all of it and nothing else |
| `RecipientEmail.PatternMatches` | src/lib/domain/recipient-identity.ts:14-15 | the expression matches exactly when splitting at the at sign gives two parts that match its halves |
| `RecipientEmail.ScanLocal` | cli/src/validation.rs:147-177 | the flag loop over the bytes accepts exactly those local parts |
| `RecipientEmail.ScanDomain` | cli/src/validation.rs:179-202 | the label loop accepts exactly what the domain half of the expression matches |
| `RecipientEmail.IsValidRecipientEmail` | cli/src/validation.rs:137-204 | for all strings, the scanner accepts exactly when the trimmed string has 1 to 320 UTF-16 units and matches the expression |
| `RecipientTrim.AgreeExactlyWhen` | cli/src/validation.rs:138 | the command line and the request schema, which only trims, agree if and only if the string is no address even without every space either removes, or holds both or neither of U+FEFF and U+0085 |
| `RecipientTrim.AgreeWithoutEither` | cli/src/validation.rs:138 | a string with neither character never divides them |
| `RecipientTrim.DisagreeBehindMark` | cli/src/validation.rs:138 | behind U+FEFF every valid address is accepted by the web application and refused by the command line |

## Left out

- Lone surrogates: text is made of scalar values, so a cut inside a surrogate pair cannot be stated.
- Names and paths are sorted by scalar value, not by UTF-16 code units or by locale.
- The source keeps pushing to the lines of one hunk object; here the hunk under construction is a value
  that the loop reassigns. The change objects of a revision diff are objects updated in place.
- The JSON of a whole manifest: parsing, serializing and its canonical check. The JSON of a leaf is modelled;
  how a floating-point number is printed is a parameter, of which only injectivity and two absent characters
  are asked.
- `materializeMarkdownLeaves`: it repeats the upsert.
- Callers that lower-case an address before they check it (`normalizeRecipientEmail`, which turns U+212A into
  an ASCII letter).
- The text a MemoryFs file is decoded to, base64, modification times, stat, chmod and links: a file is its
  bytes, and base64 is an assumed inverse pair. A `children` set is a value in the map; that the code keeps
  the caller's byte array instead of a copy is not modelled.
- Filesystem calls are atomic here; another call that starts while one awaits its recursive mkdir is not
  modelled.
- The platform's sort is an insertion sort here; the sorted listing of a set is unique
  (`Paths.ListingUnique`).
- What a PNG decoder requires beyond signature, header and chunk checksums, such as IDAT and IEND.
- The order of the entries of a redacted JSON object: entries are visited in the order given and put back
  where their key first stood.
- The order of the source's sorted map decides which of two entries whose keys redact to the same key wins;
  here it is the later one in the order given.
- `src/lib/domain/recipient-identity.ts` uses the platform's backtracking matcher; the model uses the
  language of the expression, which is what an anchored match without captures decides.
- Everything around these parts: HTTP routes, services, storage, scheduling, the envelope states, the
  command-line parsing and its schema validators.
