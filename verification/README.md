# nlstruct offset engine, in Dafny

This project models the offset-mapping core of nlstruct, a Python library
for preparing NLP corpora. When a text is rewritten, by regular-expression
substitutions or by transliteration, the library records the rewrite as a
`DeltaCollection`. That is a list of intervals `[begin, end)` of the original
text, each with the signed change of length (`delta`) its replacement caused.

A collection maps positions in both directions:

- `apply` maps a position of the original text into the rewritten text.
- `unapply` maps a position back.
- A position strictly inside an edited interval snaps to the interval's
  left or right edge, depending on `side`.
- `+` composes two collections.
- `from_absolute` converts running totals into per-interval deltas.

The producers of collections are modelled too:

- `regex_sub_with_spans` with its back-reference expansion
  `make_str_from_groups`;
- `regex_multisub_with_spans`, which folds `+` over a list of rules;
- `run_unidecode`.

The per-span arithmetic of the two batch transformers is modelled as well
(`apply_deltas`, `reverse_deltas`). Finally, the sequential path of
`mimic_sentencize_` is modelled: it cuts documents into sentences of
`max_sentence_length` tokens, the last sentence of each part taking up to
twice as many (the whole part when the length is negative), and gives their
document offsets.

Modules:

- `Wrappers`: `Option` and `Result`.
- `Deltas`: the collection; `apply`, `unapply`, `from_absolute`.
- `DeltaLaws`: the identity, the snap rule, monotonicity and the conditional
  round trip.
- `Composition`: `+`, as a stable sort of the re-expressed intervals.
- `Substitution`: the substitution functions.
- `Transliteration`: `run_unidecode`.
- `Batch`: `apply_deltas` and `reverse_deltas`. Each has two versions: the
  reduction as written, and a corrected one.
- `Sentencize`: `mimic_sentencize_`.

Three pieces of external behaviour are parameters, not models:

- The regular-expression engine: a search is the list of its matches, in
  ascending order and without overlap.
- The `unidecode` table: a function `char -> string`.
- The separator split and tokeniser of the sentence splitter: functions
  `string -> seq<string>` and `string -> seq<Token>`.

Python's exceptions are modelled as `Failure` values:

- `IndexError` of `match.group` and of `from_absolute` on empty input;
- `TypeError` of `str.replace` with an unmatched group;
- `ValueError` of `range` with a zero step.

A note on "foo bar foo" rewritten to "X bar X":

- `regex_sub_with_spans` lists the intervals from the last match to the
  first, `[(8, 11, -2), (0, 3, -2)]` (`FooBarExample`).
- The span `[8, 11)` remapped against both rows becomes `[6, 7)`
  (`Batch.TableExample`).
- A one-character string whose transliteration has length one records no
  interval. Python 3 measures `len` in characters, not bytes.

## Model

| member | source | states |
|---|---|---|
| Deltas.Apply | nlstruct/core/text.py:42-54 | apply of one position. Its own contract says only that an empty collection maps every position to itself, which extends the code (see Left out). The shift, the snap and the order are stated by DeltaLaws.ApplyOutside, DeltaLaws.ApplySnap, DeltaLaws.ApplySnapLowestIndex and DeltaLaws.Monotone, and its inverse by DeltaLaws.RoundTrip |
| Deltas.Unapply | nlstruct/core/text.py:56-71 | unapply of one position. Its own contract says only that an empty collection maps every position to itself, as for apply. That it undoes apply is stated by DeltaLaws.RoundTrip and DeltaLaws.RoundTripDescending, and where it does not by DeltaLaws.DeletionBreaksRoundTrip |
| Deltas.FromAbsolute | nlstruct/core/text.py:29-35 | from_absolute fails exactly on empty input (the `shift[0] = 0` of an empty array) and otherwise gives one row per input row. Its inverse is the running total: Deltas.FromAbsoluteInvertsToAbsolute and Deltas.ToAbsoluteInvertsFromAbsolute |
| Deltas.FirstContaining | nlstruct/core/text.py:45-49 | the snap interval `argmax` picks contains the position and no earlier interval does; there is none exactly when no interval strictly contains it |
| Deltas.FromAbsolutePrefixSums | nlstruct/core/text.py:29-35 | from_absolute succeeds on non-empty input and keeps each begin and end; the prefix sums of its deltas give back the running totals it was given |
| Deltas.FromAbsoluteInvertsToAbsolute | nlstruct/core/text.py:29-35 | from_absolute applied to the running totals of a collection gives the collection back |
| Deltas.ToAbsoluteInvertsFromAbsolute | nlstruct/core/text.py:29-35 | the running totals of from_absolute's result are its input |
| DeltaLaws.EmptyIsIdentity | nlstruct/core/text.py:42-71 | the model's value for an empty collection, where the code's `argmax` raises ValueError: apply and unapply leave every position unchanged (see Left out) |
| DeltaLaws.ApplyOutside | nlstruct/core/text.py:42-54 | a position strictly inside no interval moves by the sum of the deltas of the intervals ending at or before it, whatever the side |
| DeltaLaws.ShiftBeforeAscending | nlstruct/core/text.py:44 | on an ordered collection the shift of a position is the total delta of the intervals before the first one ending after it |
| DeltaLaws.ApplySnap | nlstruct/core/text.py:45-53 | on an ordered collection a position inside interval i goes to i's new begin (left) or new end (right): its begin or end plus the deltas of the intervals before it, i's own included for right |
| DeltaLaws.ApplySnapLowestIndex | nlstruct/core/text.py:45-53 | with several containing intervals, the lowest-index one gives the edge, at begin (left) or end + delta (right) plus the shift |
| DeltaLaws.SnapExample | nlstruct/core/text.py:45-53 | "foo" to "X" on [0, 3) maps 1 to 0 on the left and to 1 on the right |
| DeltaLaws.Monotone | nlstruct/core/text.py:42-54 | on an ordered collection without negative-length replacements, apply is monotone from positions outside every interval, strictly when every replacement is non-empty |
| DeltaLaws.MappedOutside | nlstruct/core/text.py:56-71 | the image of a position outside every interval lies outside every mapped interval, after the same intervals |
| DeltaLaws.RoundTrip | nlstruct/core/text.py:42-71 | on disjoint intervals ordered left to right with non-empty replacements, unapply undoes apply at every position strictly inside no interval, on both sides |
| DeltaLaws.ReverseInvariant | nlstruct/core/text.py:42-71 | listing an ordered collection backwards changes neither apply at positions outside it nor its mapped intervals, up to order |
| DeltaLaws.RoundTripDescending | nlstruct/core/text.py:56-71 | the round trip also holds for right-to-left collections, the order regex_sub_with_spans records. Left to right and right to left are the only orders the code builds: `+` sorts by (begin, end) (text.py:83-84), regex_sub_with_spans records right to left (text.py:100-106) and run_unidecode left to right (text.py:124-130) |
| DeltaLaws.MappedOutsideOrdered | nlstruct/core/text.py:56-65 | for left-to-right or right-to-left collections with non-empty replacements, the image of a position outside every interval lies outside every mapped interval, after the same intervals |
| DeltaLaws.DeletionBreaksRoundTrip | nlstruct/core/text.py:56-71 | deleting [1, 2) maps 1 to 1 on the left but maps 1 back to 2 |
| Composition.Compose | nlstruct/core/text.py:73-84 | a + b has len(a) + len(b) rows. Which rows, in which order and with which total is stated by Composition.ComposeShape, Composition.ComposeEmpty and Composition.ComposeTotal |
| Composition.Insert | nlstruct/core/text.py:83-84 | inserting a row into a (begin, end)-sorted list keeps it sorted and adds exactly that row |
| Composition.SortByKey | nlstruct/core/text.py:83-84 | the lexsort yields a permutation sorted by (begin, end), with the same total delta, and keeps the input order of rows with equal keys |
| Composition.ComposeEmpty | nlstruct/core/text.py:74-77 | composing with an empty collection on either side returns the other operand |
| Composition.ComposeShape | nlstruct/core/text.py:78-84 | a + b has len(a) + len(b) rows: a's rows unchanged and b's rows re-expressed through a.unapply, deltas kept. It is sorted by (begin, end), the rows of b come before the rows of a on equal keys, and the total delta is the sum |
| Composition.ReexpressTotal | nlstruct/core/text.py:78-82 | re-expressing b's intervals in a's original coordinates keeps b's total delta |
| Composition.ComposeTotal | nlstruct/core/text.py:73-84 | the total delta of a + b is the sum of the totals of a and b |
| Substitution.BackRefs | nlstruct/core/text.py:94 | the group numbers of `re.findall(r"\\([0-9]+)", replacement)`: each takes a backslash and at least one digit, so there are at most half as many as characters. Which numbers, in which order, is stated by Substitution.BackRefsInOrder, Substitution.BackRefsAppend, Substitution.BackRefsLoneBackslash and Substitution.NoBackslashNoBackRefs |
| Substitution.BackRefsAppend | nlstruct/core/text.py:94 | the scan restarts cleanly at a character that is not a digit: the references of u + w are those of u followed by those of w |
| Substitution.BackRefsRef | nlstruct/core/text.py:94 | a backslash, the decimal form of n and then no digit is exactly one reference, to group n |
| Substitution.BackRefsLoneBackslash | nlstruct/core/text.py:94 | a backslash followed by a non-digit, or by nothing, is no reference |
| Substitution.BackRefsInOrder | nlstruct/core/text.py:94 | in any replacement, a reference to group n that no digit follows contributes n in its place, after the references before it and before the references after it |
| Substitution.DigitRun | nlstruct/core/text.py:94 | the run read after a backslash is made only of digits and is maximal |
| Substitution.DecimalRoundTrip | nlstruct/core/text.py:89 | the back-reference text written for group number n reads back as n |
| Substitution.NoBackslashNoBackRefs | nlstruct/core/text.py:94 | a replacement without a backslash asks for no group |
| Substitution.MakeStrFromGroups | nlstruct/core/text.py:87-90 | make_str_from_groups fails with TypeError exactly when a listed group did not take part in the match. Its text is stated by Substitution.MakeStrSubstitutes |
| Substitution.MakeStrSubstitutes | nlstruct/core/text.py:87-90 | with at most nine groups, none holding a backslash, and a replacement without a doubled backslash, the sequential replaces equal the one-pass substitution in which `\k` receives the k-th listed group, that is the group of the k-th back-reference in order of appearance |
| Substitution.ReplaceAllAbsent | nlstruct/core/text.py:89 | str.replace leaves a string without the target's first character alone |
| Substitution.Group | nlstruct/core/text.py:99 | match.group fails with IndexError exactly for a group number beyond the pattern's groups |
| Substitution.Groups | nlstruct/core/text.py:99 | the group list fails exactly when some needed group does not exist; otherwise entry j is match.group(needed[j]) |
| Substitution.ExpandVerbatim | nlstruct/core/text.py:87-99 | a replacement in which `re.findall` finds no back-reference is inserted verbatim, whatever the match |
| Substitution.ExpandMissingGroup | nlstruct/core/text.py:94-99 | a back-reference to a group the pattern lacks makes the substitution fail with IndexError |
| Substitution.SwappedReferencesExample | nlstruct/core/text.py:87-90 | "\\2\\1" with groups b, a gives "ab": \k is replaced by the k-th back-reference in order of appearance, not by group k |
| Substitution.RegexSub | nlstruct/core/text.py:93-106 | regex_sub_with_spans succeeds exactly when every match's replacement can be built; it then records one interval per match, and the deltas add up to the change of length. Substitution.RegexSubShape gives every interval, Substitution.RegexSubRoundTrip the inverse |
| Substitution.SubLoopClosedForm | nlstruct/core/text.py:98-106 | the right-to-left loop succeeds exactly when every replacement does. Its text is then the left-to-right splice of the replacements into the original, and its intervals are the matches in reverse order |
| Substitution.RegexSubShape | nlstruct/core/text.py:93-106 | regex_sub_with_spans succeeds iff every match's replacement does. It records one interval per match, last match first, each the match's original range with delta len(middle) - (end - start). The intervals are proper and descending and their deltas add up to the change of length |
| Substitution.RegexSubSpan | nlstruct/core/text.py:93-106 | for a non-empty match that no later match shares an end with, new[apply(start, left) : apply(end, right)] is its replacement |
| Substitution.RegexSubRoundTrip | nlstruct/core/text.py:93-106 | when no replacement is empty, unapply undoes apply on the recorded collection at every position outside the edits |
| Substitution.FooBarExample | nlstruct/core/text.py:93-106 | "foo bar foo" with "foo" to "X" gives "X bar X" and [(8, 11, -2), (0, 3, -2)]; 8 maps to 6 on the left and 11 to 7 on the right |
| Substitution.MultiSub | nlstruct/core/text.py:109-118 | the fold over the rules has at least as many rows as the starting collection; which rows, in which order, is stated for each step by Composition.ComposeShape. Its total and its base cases are stated by Substitution.MultiSubTotal and Substitution.MultiSubBase |
| Substitution.MultiSubTotal | nlstruct/core/text.py:109-118 | the collection composed over all rules accounts for the total change of length, on top of the starting collection |
| Substitution.MultiSubBase | nlstruct/core/text.py:109-118 | with no rule, the text and the empty collection come back; with one rule and no starting collection, the result is that rule's substitution |
| Transliteration.Transliterate | nlstruct/core/text.py:121-130 | the new text's length is the old length plus the recorded deltas, with at most one interval per character |
| Transliteration.TransliterateShape | nlstruct/core/text.py:124-128 | every recorded interval is [i, i + 1) for a character whose transliteration length is not one, with delta that length minus one, in ascending order |
| Transliteration.TransliterateText | nlstruct/core/text.py:123-129 | the new text is the concatenation of the per-character transliterations |
| Transliteration.TransliterateRecordsChanged | nlstruct/core/text.py:125-128 | a character is recorded iff its transliteration does not have length one |
| Transliteration.TransliterateOutside | nlstruct/core/text.py:126-127 | no position lies strictly inside a recorded interval |
| Transliteration.TransliterateApply | nlstruct/core/text.py:121-130 | position p maps to the length of the transliteration of the first p characters; the old length maps to the new length |
| Transliteration.TransliterateRoundTrip | nlstruct/core/text.py:121-130 | when no character transliterates to the empty string, unapply undoes apply everywhere |
| Batch.FirstByBegin | nlstruct/core/text.py:221-225 | the kept row is admitted, has the lowest begin among admitted rows and is the earliest among equal begins; none iff no row is admitted |
| Batch.LastByEnd | nlstruct/core/text.py:221-225 | the kept row is admitted, has the highest end among admitted rows and is the latest among equal ends; none iff no row is admitted |
| Batch.Pick | nlstruct/core/text.py:221-225 | the row whose between_magnet a reduction keeps is admitted; there is none exactly when no row is |
| Batch.ApplyDeltasWith | nlstruct/core/text.py:207-226 | a span coordinate whose group has no rows keeps its value, and one inside no row is shifted by the sum of the deltas of rows ending at or before it |
| Batch.ApplyDeltasMatchesApply | nlstruct/core/text.py:207-226 | with the snap row chosen among the rows containing the coordinate, apply_deltas computes DeltaCollection.apply on every disjoint group |
| Batch.AsWrittenAgrees | nlstruct/core/text.py:221-226 | as written, apply_deltas agrees with apply when no row contains the coordinate or the kept row is the containing one |
| Batch.AsWrittenDropsSnap | nlstruct/core/text.py:221-226 | otherwise the coordinate is only shifted, and a left coordinate lands past its snap edge |
| Batch.AsWrittenCounterexample | nlstruct/core/text.py:221-226 | in "foo bar foo" to "X bar X", position 9 maps to 7 (apply gives 6) and position 2 on the right to 2 (apply gives 1) |
| Batch.MapOwnBoundaries | nlstruct/core/text.py:240 | the group's own rows are mapped forward one for one, deltas kept; that begin goes through Left and end through Right to DeltaCollection's mapped intervals is stated by Batch.MapOwnBoundariesProper |
| Batch.MapOwnBoundariesMatches | nlstruct/core/text.py:240 | with the corrected reduction the mapped rows are unapply's mapped intervals |
| Batch.MapOwnBoundariesProper | nlstruct/core/text.py:240 | with either reduction, the as-written one included, the mapped rows of a proper, disjoint group are unapply's mapped intervals: no row contains another row's begin or end, so the choice of snap row never matters |
| Batch.ReverseDeltasWith | nlstruct/core/text.py:241-273 | a coordinate whose group has no rows keeps its value (left join, missing shift counted as zero); one inside no mapped row, with either reduction, moves back by the deltas of the mapped rows ending at or before it |
| Batch.ReverseDeltasMatchesUnapply | nlstruct/core/text.py:251-273 | with the corrected reduction, reverse_deltas computes DeltaCollection.unapply whenever the rows and their images are disjoint |
| Batch.ReverseCounterexample | nlstruct/core/text.py:264-273 | with [0, 3) and [8, 11) each shortened by one, rewritten position 8 goes back to 9 as written, where unapply gives 8 |
| Batch.ApplyDeltasTable | nlstruct/core/text.py:195-227 | apply_deltas keeps the row order, the group and every other column of each span, and leaves spans of groups without rows unchanged |
| Batch.ReverseDeltasTable | nlstruct/core/text.py:237-275 | the same for reverse_deltas |
| Batch.TableExample | nlstruct/core/text.py:189-228 | the span [8, 11) against the rows (0, 3, -2) and (8, 11, -2) of its group becomes [6, 7) |
| Batch.SpanRoundTrip | nlstruct/core/text.py:207-226 | with either reduction, the as-written one included, reverse_deltas undoes apply_deltas on one coordinate, on both sides, for a group whose rows are proper, ordered left to right or right to left, with non-empty replacements, and which no row strictly contains |
| Batch.TableRoundTrip | nlstruct/core/text.py:189-275 | with either reduction, reverse_deltas undoes apply_deltas on every span whose group's rows are proper, ordered in either direction, with non-empty replacements, and whose ends lie in no edit |
| Batch.DescendingTableExample | nlstruct/core/text.py:189-275 | rows listed right to left, as regex_sub_with_spans records them: the span [4, 7) goes to [2, 5) and back to [4, 7) with the as-written reduction |
| Sentencize.ChunksFrom | nlstruct/chunking/mimic_sentencize.py:51-69 | the chunking from `last` emits nothing exactly when no token is left |
| Sentencize.ChunksFromTiles | nlstruct/chunking/mimic_sentencize.py:50-69 | the chunks from `last` are consecutive non-empty runs covering the tokens `last .. n - 1` in order |
| Sentencize.ChunksFromSizes | nlstruct/chunking/mimic_sentencize.py:51-69 | every chunk but the last has `size` tokens; the last has at most 2 * size, and more than size when others precede it |
| Sentencize.Chunks | nlstruct/chunking/mimic_sentencize.py:50-69 | chunking fails exactly for a zero step; otherwise the chunks tile the part's tokens |
| Sentencize.ChunkSizes | nlstruct/chunking/mimic_sentencize.py:51-69 | for a positive size, full chunks hold size tokens and the last at most twice as many, more than size when it is not alone |
| Sentencize.ShortPartOneChunk | nlstruct/chunking/mimic_sentencize.py:51-69 | a part of at most 2 * size tokens, or any part when the size is negative, is one sentence, and an empty one none |
| Sentencize.ChunksPartition | nlstruct/chunking/mimic_sentencize.py:49-69 | the chunks' token runs, put back together, are the part's token list: every token is in exactly one chunk |
| Sentencize.PySlice | nlstruct/chunking/mimic_sentencize.py:58 | txt[b:e] is the plain slice when the bounds are in range, and never longer than txt |
| Sentencize.PartRows | nlstruct/chunking/mimic_sentencize.py:51-69 | one row per chunk: it begins at the start of the chunk's first token, ends at the end of its last token and holds that slice of the document; the rows carry the document id and the running counter, starting from its value on entry and going up by one per row |
| Sentencize.PartLayout | nlstruct/chunking/mimic_sentencize.py:49-69 | the sentences of a part with ordered tokens are non-empty, lie in the part and do not overlap |
| Sentencize.DocFrom | nlstruct/chunking/mimic_sentencize.py:47-70 | the parts loop fails exactly when the step is zero and a sentence part remains. Otherwise its rows carry the document id, are numbered on from the counter's value on entry, one more per row, and hold the document slice at their offsets. They are, one for one and in order, the chunks of the sentence parts that `Sentencize.Origins` lists: chunk c of part i gives the row from o + the start of the chunk's first token to o + the end of its last token, where o is the loop's starting offset plus the lengths of parts 0 .. i-1, separators included. With well-tokenised parts the rows lie within the remaining parts, in document order |
| Sentencize.DocSentences | nlstruct/chunking/mimic_sentencize.py:44-70 | one document fails exactly when the step is zero and it splits into at least one part; otherwise its rows carry its id and are numbered 0, 1, ... |
| Sentencize.SentencesAreSlices | nlstruct/chunking/mimic_sentencize.py:44-70 | when the parts put back together are the document, the sentences are, one for one and in order, the chunks of the even-numbered parts. Each begins at its part's document offset plus its first token's start and ends at that offset plus its last token's end. Its text is the part's text between those two token offsets, which is also the document slice at its own offsets. Sentences are numbered from 0, in increasing, non-overlapping order |
| Sentencize.MimicSentencize | nlstruct/chunking/mimic_sentencize.py:44-70 | the table fails exactly when the step is zero and some document has a part; otherwise every row belongs to an input document and its sentence_id is 0 or follows the previous row of the same document by one |

## Left out

- `transform_text`, `process_text` and the other DataFrame helpers of `nlstruct/core/text.py` (tag schemes, `partition_spans`, `split_into_spans`, `preprocess_ids`, `join_cols`): table plumbing around the engine. `merge_with_spans` and `make_merged_names_map` live in `nlstruct/core/pandas.py`, which is not part of this model.
- The regular-expression engine and the `unidecode` table: foreign code, taken as parameters. A search is the list of its matches. The back-reference scan `re.findall(r"\\([0-9]+)", …)` is not a parameter: `Substitution.BackRefs` models it.
- numpy broadcasting, dtypes and the in-place mutation of the caller's array by `from_absolute`: representation details. Its `IndexError` on empty input is kept, as `Failure(EmptyAbsolute)`.
- A `side` other than "left" or "right": `Side` has only the two values. `DeltaCollection.apply` and `unapply` accept another value and add no snap. `apply_deltas` and `reverse_deltas` (nlstruct/core/text.py:210-221 and 255-266) would instead add the kept row's containment flag itself, 0 or 1, with the `last` order.
- Deltas.Apply: on an empty collection the code raises ValueError, because `between.argmax(axis=1)` is taken over an axis of length zero (nlstruct/core/text.py:49). The model returns the position unchanged instead.
- Deltas.Unapply: the same ValueError at nlstruct/core/text.py:58 and 65 on an empty collection; the model returns the position unchanged.
- DeltaLaws.EmptyIsIdentity: it states the model's extension above, not a promise of the code. Through it, Transliteration.TransliterateApply, Transliteration.TransliterateRoundTrip and Substitution.RegexSubRoundTrip also cover rewrites that record no interval, where the code would raise.
- Substitution.ExpandIn: it returns `Failure(NoSuchGroup)` for a match outside the searched text. That case cannot arise from a real search and is only there to make the function total.
- The batch join: each span is paired with every delta row of its group, in table order. This is what `merge_with_spans` is assumed to do; pandas' float arithmetic, `fill_value` and `astype(int)` are taken as exact integer arithmetic; custom `position_columns` are not modelled.
- Batch.ReverseDeltasMatchesUnapply: it requires the group's mapped rows to be disjoint. `Batch.BoundariesDisjoint` shows that this holds for ordered rows with non-negative replacement lengths.
- Batch.ApplyDeltasWith: its own contract covers only groups without rows and coordinates inside no row. The snap case is stated by `Batch.AsWrittenAgrees`, `Batch.AsWrittenDropsSnap` and `Batch.ApplyDeltasMatchesApply`.
- Batch.ReverseDeltasWith: its own contract covers groups without rows and coordinates inside no mapped row. The snap case is stated by `Batch.ReverseDeltasMatchesUnapply`, `Batch.SpanRoundTrip` and `Batch.ReverseCounterexample`.
- Associativity of `+`: the code does not promise it, and it is not stated here.
- The `ProcessPool` fan-out of `mimic_sentencize_`, `@cached`, tqdm and the final DataFrame: concurrency and I/O. The model is the sequential loop.
- Sentencize.MimicSentencize: it states the numbering and that each row belongs to an input document, not that documents appear in input order. The rows of each document are described by `Sentencize.SentencesAreSlices`.
- Sentencize.DocFrom: the layout is promised only when every sentence part's tokens lie inside the part, which is what a tokenising regex that never matches the empty string yields.
- Substitution.MakeStrSubstitutes: it needs a group list of at most nine entries, groups without a backslash and a replacement without `\\`. Beyond nine, `\1` also matches the first two characters of `\10`. A group holding a backslash can create a new reference for a later replace. A doubled backslash can form a new reference once the group text after it is replaced. In those cases the sequential result is only given by `Substitution.MakeStrFromGroups` itself.
- Substitution.RegexSubSpan: it needs the match to be non-empty and no later (empty) match to end where it ends. Without that, `apply(end, right)` also counts the insertion made at that point.

## Findings

| source | as written | input that shows it | evidently intended | confidence | as-written member | corrected member |
|---|---|---|---|---|---|---|
| nlstruct/core/text.py:221-226 | apply_deltas keeps the between_magnet of the first row by begin (left) or last row by end (right) among ALL rows of the group | rows (0, 3, -2) and (8, 11, -2) of "foo bar foo" to "X bar X"; begin 9 becomes 7 and end 2 stays 2 | the snap of DeltaCollection.apply: begin 9 to 6, end 2 to 1, from the row that contains the coordinate | not executed | Batch.AsWrittenCounterexample | Batch.ApplyDeltasMatchesApply |
| nlstruct/core/text.py:264-273 | reverse_deltas keeps the between_magnet of the first or last mapped row among all rows of the group | rows (0, 3, -1) and (8, 11, -1), mapped to [0, 2) and [7, 9); rewritten begin 8 goes back to 9 | DeltaCollection.unapply: 8 goes back to 8, the begin of the containing row | not executed | Batch.ReverseCounterexample | Batch.ReverseDeltasMatchesUnapply |
