# MediaTailor session viewer — log pairing and highlighting

This project models the core of `src/LogProvider.tsx` of the MediaTailor session viewer. That core takes the CloudWatch
records of one ad-insertion session and turns them into the list of
(origin manifest, generated manifest) pairs the viewer pages through.

- **Ordering** (`EventOrder`): `sortLogs` orders the records in place
  on their array. They go by timestamp, and on equal timestamps an
  origin manifest comes first.
- **Pairing** (`Pairing`): `formatLogs` walks the sorted records with a
  mutable accumulator `Log`. Each `ORIGIN_MANIFEST` or
  `GENERATED_MANIFEST` record writes its body and time into one side;
  other records are skipped. The pass keeps the largest line count of
  any manifest body (`maxRows`). Once both sides are non-empty the
  accumulator is emitted and replaced by a blank one. From the third
  emitted pair on, `highlightChangedPart` first replaces both texts with
  their highlighted difference against the previously emitted pair.
  `useCache` parses a pair's texts once and stores the playlists on the
  `Log`.
- **Highlighting** (`Highlight`, on top of `Hls` and `Text`):
  `highlightDiff` serialises the current playlist through a segment hook.
  The hook opens `<b>` on the first new segment and closes `</b>` on the
  last segment. Then, when the media-sequence or discontinuity-sequence
  base changed, the value after the directive is replaced by the bolded
  new value.
- **Cursor** (`Navigation`): the position the viewer shows, moved by
  `getLog`, `increment` and `decrement` and clamped to the list.

The imperative parts are Dafny methods proved against specification
functions, with the properties of those functions proved as lemmas:

- `Log` is a class whose fields the methods update.
- The sort works in place on an `array`.
- The segment hook writes into the serialiser's line `array`.
- The pairing pass is a `for` loop.
- The cursor is a class.

The two functions that specify the pairing pass are:

- `Reconcile`: the pairing on raw texts, which also yields the row count;
- `Highlighted`: the texts shown for each pair, or the error that
  aborts the pass.

## Model

| member | source | states |
|---|---|---|
| EventOrder.SortLogs | src/LogProvider.tsx:129-137 | The array is sorted in place. Its new contents are the key-ordered insertion sort of the old contents: sorted, and the same multiset of records. |
| EventOrder.SiftDown | src/LogProvider.tsx:130-136 | One insertion step: the first i+1 cells become the old sorted prefix with the old `a[i]` inserted at its key position; the cells after it are unchanged. |
| EventOrder.SortPermutes | src/LogProvider.tsx:129-137 | Sorting neither adds nor loses a record: the multiset is unchanged. |
| EventOrder.SortSorted | src/LogProvider.tsx:131-135 | The result is ordered by (timestamp, origin before other kinds). |
| EventOrder.SortedIsChronological | src/LogProvider.tsx:131-135 | In a sorted list timestamps never decrease. Among records with the same timestamp, no origin manifest comes after a record of another kind. |
| EventOrder.SortStable | src/LogProvider.tsx:130-136 | Records with equal keys keep their input order: the records sharing any given key form the same sequence before and after sorting. |
| EventOrder.SortIdempotent | src/LogProvider.tsx:129-137 | Sorting an already sorted list changes nothing. |
| EventOrder.ComparatorContradicts | src/LogProvider.tsx:135 | As written, the comparator says each of two same-time generated manifests sorts after the other, and each of two same-time origin manifests before the other. |
| EventOrder.ComparatorAgreesOffTies | src/LogProvider.tsx:131-135 | On records whose keys differ, the comparator as written puts `a` first exactly when `a`'s key precedes `b`'s. |
| EventOrder.PrecedesTotalPreorder | src/LogProvider.tsx:131-135 | The key order used for sorting is total and transitive. |
| EventOrder.CompareAsWritten | src/LogProvider.tsx:130-136 | The comparator as written never reports a tie. An earlier timestamp sorts first and a later one last. On equal timestamps it puts `a` first exactly when `a` is an origin manifest. |
| EventOrder.Insert | src/LogProvider.tsx:130-136 | Inserting a record into a list adds exactly one element. `InsertPermutes`, `InsertSorted` and `InsertAt` state where it goes. |
| EventOrder.SortByKey | src/LogProvider.tsx:129-137 | The specification of the sort, an insertion sort by key, keeps the length. `SortPermutes`, `SortSorted` and `SortStable` state the rest. |
| Pairing.Log.constructor | src/LogProvider.tsx:97-101 | A fresh accumulator has empty texts, the current time, and no cached playlists. |
| Pairing.Assign | src/LogProvider.tsx:104-109 | A manifest record sets the accumulator's timestamp to its own. Its body goes into its own side, and the other side is kept. |
| Pairing.ConsumeCases | src/LogProvider.tsx:103-124 | `Consume`, one record of the pass. A record that is not a manifest changes nothing. A manifest record raises the row count to its body's line count if larger. If the written accumulator is complete, it is appended to the pairs and the accumulator is blank again; otherwise the accumulator is the written one and the pairs are unchanged. |
| Pairing.Reconcile | src/LogProvider.tsx:94-126 | The pairing pass on raw texts, record by record, never yields more pairs than there are records. Its other properties are stated by the lemmas below. |
| Pairing.Absorb | src/LogProvider.tsx:104-112 | An origin or generated record writes its body into the matching side and its timestamp into the accumulator, and the method reports it as a manifest. Any other record leaves the accumulator unchanged and is reported as skipped. The caches are untouched. |
| Pairing.UseCache | src/LogProvider.tsx:147-153 | Returns the cached playlist of each side, or parses that side's text when nothing is cached. Each parsed playlist is stored, and a cache that was already filled is never overwritten. A parse failure is the error result, with the origin side checked first. |
| Pairing.HighlightChangedPart | src/LogProvider.tsx:139-145 | Both logs' caches are filled from their own texts. On success `curr`'s two texts become the highlighted diffs against `prev`'s playlists, its timestamp is kept, `prev`'s texts are unchanged, and `curr` itself is returned. Failures come in the source's order. |
| Pairing.Flush | src/LogProvider.tsx:114-118 | Emitting a complete accumulator: with fewer than two emitted pairs it is appended as it is, otherwise highlighted first. The result is what `Highlighted` gives for the raw pairs with this one appended, or that function's error. |
| Pairing.FlushHighlighted | src/LogProvider.tsx:115-118 | With two or more emitted pairs, the new pair is highlighted against the last emitted one and appended. The emitted list again shows `Highlighted` of the extended raw pairs, or the pass fails with that function's error. |
| Pairing.FlushStep | src/LogProvider.tsx:113-123 | A completing record: after the flush the loop state holds for one more record, the list has grown by the accumulator, and the new accumulator is a fresh object. |
| Pairing.FormatStep | src/LogProvider.tsx:103-124 | One loop iteration keeps the loop invariant: the emitted objects show `Highlighted(Reconcile(records so far))`, the accumulator holds `Reconcile`'s pending pair, and the row count is `Reconcile`'s. Otherwise the step returns the pass's error. |
| Pairing.PairLogs | src/LogProvider.tsx:96-126 | The loop's outcome: it succeeds exactly when highlighting the reconciled pairs succeeds. Then it returns the reconciled row count and fresh `Log` objects that show the highlighted pairs; otherwise it returns that function's error. |
| Pairing.FormatLogs | src/LogProvider.tsx:94-127 | The input array ends up key-sorted. The result is `Ok` exactly when `Highlighted(Reconcile(sorted).entries)` is `Ok`, and then it holds the emitted objects for those pairs and `Reconcile`'s row count. |
| Pairing.ReconcileSnoc | src/LogProvider.tsx:103-125 | The pass over `rs + [r]` is the pass over `rs` followed by one loop step on `r`. |
| Pairing.EntriesComplete | src/LogProvider.tsx:114 | Every emitted pair has both texts non-empty, and the accumulator left over at the end never does. |
| Pairing.EntryCountBound | src/LogProvider.tsx:104-118 | The emitted pairs, plus a half-filled accumulator side, number no more than the non-empty origin bodies, and no more than the non-empty generated bodies. |
| Pairing.OtherEventsIgnored | src/LogProvider.tsx:110-112 | Dropping every record that is not a manifest changes neither the pairs, nor the accumulator, nor the row count. |
| Pairing.MaxRowsIsMaximum | src/LogProvider.tsx:113 | The row count is at least the line count of every manifest body and equals the line count of one of them. It is 0 exactly when there is no manifest record. |
| Pairing.LastWriterWins | src/LogProvider.tsx:104-109 | A second record of the same kind before the pair completes overwrites the first: the first one has no effect. |
| Pairing.CompletingRecordStamps | src/LogProvider.tsx:106-118 | The pair that a record completes carries that record's timestamp and its body on the record's side. |
| Pairing.EntriesSourced | src/LogProvider.tsx:103-118 | Each text and timestamp of every pair and of the accumulator comes from some input record of the matching kind. The accumulator's texts may instead be the initial empty string and time. |
| Pairing.OriginThenGenerated | src/LogProvider.tsx:104-123 | From a blank accumulator, a non-empty origin record followed by a non-empty generated record emits exactly the pair (origin body, generated body, generated time) and leaves a blank accumulator. |
| Pairing.AlternatingPairs | src/LogProvider.tsx:103-125 | A strictly alternating origin/generated input of non-empty bodies yields one pair per two records, in order. |
| Pairing.ReconcilePrefix | src/LogProvider.tsx:118 | The pairs emitted for a prefix of the records are a prefix of those emitted for all of them. |
| Pairing.HighlightedShape | src/LogProvider.tsx:115-118 | Pairs 0 and 1 are shown raw, and pair k ≥ 2 is shown highlighted against raw pair k-1. The pass succeeds exactly when every such highlighting succeeds. |
| Pairing.HighlightedOkIff | src/LogProvider.tsx:115-118 | The pass succeeds if and only if every pair from the third on can be highlighted against its predecessor. |
| Pairing.HighlightedValues | src/LogProvider.tsx:115-118 | On success there is one shown pair per raw pair, the first two are raw, and every later one is its highlighting. |
| Pairing.HighlightedKeepsComplete | src/LogProvider.tsx:114-118 | Highlighting keeps every shown pair complete and keeps each pair's timestamp. |
| Pairing.HighlightedErrPersists | src/LogProvider.tsx:116 | Once highlighting a prefix of the pairs fails, the whole pass fails with that same error. |
| Pairing.AbortedPass | src/LogProvider.tsx:103-126 | A failure after the first i records is the failure of the whole pass, whatever records follow. |
| Pairing.ShownUpToIsHighlighted | src/LogProvider.tsx:103-125 | What the loop has shown after i records is `Highlighted` of the pairs reconciled from those records. |
| Pairing.ResolveCases | src/LogProvider.tsx:148-150 | `obj ?? parse(text)`: a cached playlist is used as it is. Without one, the text is parsed: this succeeds exactly when the parser gives a playlist, and returns that playlist. A text the parser rejects is `Unparsable` of that text. |
| Pairing.HighlightSidesCases | src/LogProvider.tsx:140-143 | Failures come in the source's order: `prev` origin, `prev` generated, `curr` origin, `curr` generated. Success holds exactly when all four parse and both diffs succeed, and the two texts are then those diffs. |
| Pairing.HighlightPairComplete | src/LogProvider.tsx:139-145 | A pair highlighted against its predecessor keeps its own timestamp and has both texts non-empty. |
| Pairing.ShowNextCases | src/LogProvider.tsx:115-118 | `ShowNext`: with fewer than two pairs emitted, the new pair is appended raw. Otherwise it succeeds exactly when highlighting against the last raw pair does. On success the pairs shown so far are kept and one pair is appended. |
| Pairing.Highlighted | src/LogProvider.tsx:114-118 | The texts shown for each pair: on success, one shown pair per raw pair. `HighlightedShape` states each value. |
| Highlight.SegmentProcessor | src/LogProvider.tsx:166-173 | Called for segment i of n, the hook prefixes `<b>` to the segment's first line exactly when `i == n - diff`. It suffixes `</b>` to the segment's last line exactly when `i == n - 1`. Every other line of the buffer is unchanged. |
| Highlight.ProcessSegment | src/LogProvider.tsx:166-174 | Serialising one segment through the hook: the lines before the segment are untouched, the segment's lines become their marked form, the lines after it stay plain, and the method returns the start of the next segment. |
| Highlight.StringifyWithProcessor | src/LogProvider.tsx:174 | Serialising with the hook yields the playlist's lines, each marked as `MarkedLines` says, joined by newlines. |
| Highlight.MarkedSegmentLine | src/LogProvider.tsx:166-173 | Line t of segment i in the output is that line with `<b>` exactly when it is the first line of segment n - diff, and with `</b>` exactly when it is the last line of the last segment. |
| Highlight.MarkersWithinSegments | src/LogProvider.tsx:166-173 | Markers fall only on segment lines, never on the header or the trailer. |
| Highlight.MarkedFrame | src/LogProvider.tsx:174 | The header and trailer lines are serialised unchanged, and the output has as many lines as the plain serialisation. |
| Highlight.MarkedSegmentsAreNew | src/LogProvider.tsx:165-168 | With consecutive sequence numbers, segment i is from `|segments| - diff` on exactly when its sequence number exceeds that of the previous playlist's last segment. The bolded segments are the new ones. |
| Highlight.Diff | src/LogProvider.tsx:165 | `diff` is the amount by which the last media sequence number has advanced: `prev`'s last number plus `diff` is `curr`'s. |
| Highlight.MarkedLines | src/LogProvider.tsx:166-174 | The lines the hook leaves behind: as many as the plain serialisation, each marked as `MarkedAt` says. |
| Highlight.MarkedText | src/LogProvider.tsx:174 | The hooked serialisation is never empty. |
| Highlight.WithMediaSequence | src/LogProvider.tsx:175-177 | The text after the media-sequence step is never empty; `MediaSequenceBolded` states what it is. |
| Highlight.HighlightDiffCases | src/LogProvider.tsx:155-182 | A Master playlist on either side gives the plain serialisation of `curr`. The result is an error exactly when both are Media playlists and one has no segments, and that error is `NoSegments`. A successful result is never empty, which keeps a highlighted pair complete. |
| Highlight.HighlightDiff | src/LogProvider.tsx:155-182 | The method computes `HighlightDiffSpec`. A Master side gives the plain serialisation. An empty segment list is the `NoSegments` error. Otherwise the marked serialisation is returned, with the directive values substituted where a base changed. |
| Highlight.MediaSequenceBolded | src/LogProvider.tsx:175-177 | For any two Media playlists with segments, whatever the discontinuity bases: if the media-sequence bases are equal, or the marked text has no `#EXT-X-MEDIA-SEQUENCE:`, the text after this step is the marked text. Otherwise the text up to the end of the directive's first occurrence is kept, and `<b>`new base`</b>` replaces the rest of that line. Everything from the line terminator on is kept. |
| Highlight.DiscontinuitySequenceBolded | src/LogProvider.tsx:178-180 | For any two Media playlists with segments, whatever the media-sequence step did to the text (both bases may have changed): the result is `Ok`. If the discontinuity bases are equal, or that text has no `#EXT-X-DISCONTINUITY-SEQUENCE:`, the result is that text. Otherwise it is that text with the new discontinuity base bolded after the directive's first occurrence, as above. |
| Text.ReplaceDirectiveShape | src/LogProvider.tsx:176 | Replacing at the first occurrence of the directive keeps everything before and including the directive. It then writes the bolded value and resumes at the first line terminator after the directive, as `.*` does. |
| Text.ReplaceDirectiveIdempotent | src/LogProvider.tsx:175-180 | Applying the same one-line substitution twice gives the same text as applying it once. |
| Text.FindFrom | src/LogProvider.tsx:176 | A found position is the leftmost occurrence at or after `from`. No result means there is no occurrence at or after `from`. |
| Text.LineEnd | src/LogProvider.tsx:176 | The end of the `.*` match: no line terminator before it, and a line terminator (or the end of the text) at it. |
| Text.ReplaceDirective | src/LogProvider.tsx:176 | A text without the directive is returned unchanged; `ReplaceDirectiveShape` states what happens at the first occurrence. |
| Text.DecimalRoundTrip | src/LogProvider.tsx:176 | The decimal rendering of a sequence base reads back as the same number. |
| Text.DecimalOnOneLine | src/LogProvider.tsx:176 | A rendered number contains no line terminator. |
| Text.LineCountIsNewlinesPlusOne | src/LogProvider.tsx:113 | `split('\n').length` is the number of newlines plus one. |
| Text.JoinSplit | src/LogProvider.tsx:113 | Splitting a text at newlines and joining the pieces with newlines gives back the text. |
| Text.SplitJoin | src/LogProvider.tsx:113 | Joining a non-empty list of lines that hold no newline and splitting again gives back the lines. |
| Hls.StringifiedLineCount | src/LogProvider.tsx:113 | For a serialised playlist whose lines hold no newline, `split('\n').length` is the playlist's number of lines. |
| Hls.SegmentStartStep | src/LogProvider.tsx:166 | The lines handed to the hook for segment i are exactly that segment's lines, and the next segment starts right after them. |
| Hls.SegmentsEnd | src/LogProvider.tsx:174 | The serialisation is the header, then the segment lines, then the trailer. |
| Hls.StringifyNonEmpty | src/LogProvider.tsx:157 | The serialisation of any playlist is non-empty. |
| Navigation.NextPos | src/LogProvider.tsx:62-64 | One step forward unless at or past the last entry. |
| Navigation.PrevPos | src/LogProvider.tsx:66-68 | One step back unless at or before the first entry. |
| Navigation.SeekPos | src/LogProvider.tsx:54-59 | A requested position inside the list becomes current; any other request keeps the position. |
| Navigation.MovesStayInRange | src/LogProvider.tsx:54-68 | Every move keeps an in-range position in range. |
| Navigation.StepsUndo | src/LogProvider.tsx:62-68 | A step back undoes a step forward, and the reverse holds too, away from the ends. |
| Navigation.ForwardClamps | src/LogProvider.tsx:62-64 | k forward presses from an entry reach k entries on, or stop at the last. |
| Navigation.BackClamps | src/LogProvider.tsx:66-68 | k back presses reach k entries back, or stop at the first. |
| Navigation.EntryAt | src/LogProvider.tsx:57-59 | An entry exists exactly for positions inside the list, and it is a member of the list. |
| Navigation.LogStore.constructor | src/LogProvider.tsx:43-44 | On mount, before any `useLogs`, there are no entries, the row count is 0 (line 44), and the position starts at 0 (line 52). |
| Navigation.LogStore.UseLogs | src/LogProvider.tsx:46-48 | The records are sorted in place. On success the list and the row count become `formatLogs`' result. On failure both are unchanged and the error is the pass's error. The position is kept either way. |
| Navigation.LogStore.GetLog | src/LogProvider.tsx:54-60 | An in-range request moves the position there. The result is the entry at the (new) position, absent when that is outside the list. |
| Navigation.LogStore.Increment | src/LogProvider.tsx:62-64 | The position moves as `NextPos` says; the list and the row count are unchanged. |
| Navigation.LogStore.Decrement | src/LogProvider.tsx:66-68 | The position moves as `PrevPos` says; the list and the row count are unchanged. |
| Navigation.LogStore.GetLength | src/LogProvider.tsx:70 | The length is 0 exactly for an empty list, and positions below it are exactly those with an entry. |
| Navigation.LogStore.GetCurrentPos | src/LogProvider.tsx:72 | Returns the current position, which is never negative and has an entry exactly when it is below the length. |

## Left out

- The React plumbing is not part of this model: `createContext`, `useContext`, the default method set, and rendering the provider. `useLogs` is modelled as one call that replaces the list and the row count (`LogStore.UseLogs`). The position is the component state kept across calls.
- Navigation.LogStore.constructor: before the first `useLogs`, `logs` is `undefined` in the source, and calling `getLength` or `getLog` then would throw. The model starts from an empty list instead.
- `setPos` is asynchronous in React, so a `getLog(p)` is seen by later calls only after a re-render. The model applies it at once.
- `Navigation.LogStore.GetRows`: it only returns the stored row count. What that count means is stated by `UseLogs`, `FormatLogs` and `Pairing.MaxRowsIsMaximum`.
- The `hls-parser` library is not part of this model.
  - `parse` is a parameter, a function from text to an optional playlist; `None` is a thrown parse error.
  - `stringify` is modelled as header lines, then each segment's lines, then trailer lines, joined by newlines. The segment hook receives each segment's line range in the buffer.
  - The library's own rendering of tags is not modelled.
- Timestamps are integers (milliseconds). `new Date(...)` of an ill-formed timestamp string (NaN) is not modelled. The current time `new Date()` of a fresh accumulator is a parameter `now`.
- Exceptions become `Err` results that abort the pass. There are two: a parse failure (`Unparsable`), and a Media playlist with no segments (`NoSegments`), whose missing last segment the source dereferences. As in the source, the array is already sorted and caches already filled stay filled; the list and the row count stay as they were.
- JavaScript number precision is not modelled: sequence numbers, `diff` and line counts are unbounded integers.
- The regular expressions are modelled as two fixed operations. The first finds the leftmost occurrence of the directive. The second replaces everything from there up to the next JavaScript line terminator (`\n`, `\r`, U+2028, U+2029). No general regex engine is modelled.
- EventOrder.SortLogs: sorts by the key the comparator evidently intends, and does so stably; see Findings. The model does not capture the order an engine produces for same-time same-kind records under the comparator as written.
- `SessionViewer.tsx`, `App.tsx` and `main.tsx` (rendering, the file input, the table layout) are not part of this model.

## Findings

| source | as written | input that shows it | evidently intended | confidence | as-written member | corrected member |
|---|---|---|---|---|---|---|
| src/LogProvider.tsx:135 | on equal timestamps the comparator returns -1 whenever `a` is an origin manifest and 1 otherwise, without looking at `b` | two `GENERATED_MANIFEST` records with the same `@timestamp`: `compare(a, b)` and `compare(b, a)` are both 1 (and both -1 for two `ORIGIN_MANIFEST` records), so the comparator is inconsistent and the order of such records is left to the engine | origin before generated on equal timestamps, other ties kept in input order | medium, not executed | EventOrder.ComparatorContradicts | EventOrder.SortLogs |
