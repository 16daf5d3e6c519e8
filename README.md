# StrBlockBuffer: a verified model of ReSearch's timestamped text buffer

ReSearch is a logic-analyzer extension. It collects decoded characters as timestamped text
fragments and searches the accumulated text for a regular expression. It reports each match with a
start and end time, interpolated from the times of the fragments the match came from. The heart of
it is `StrBlockBuffer`, a list of blocks. Each block holds some text, a start time, an end time and
`charTime`, the average duration of one of its characters. The buffer has four operations:

- `AddBlock` appends a fragment. It joins the fragment onto the last block when the gap between
  them is at most half a character time (inclusive). Otherwise the fragment becomes a new block.
- `Drop(lastIndex)` deletes the first `lastIndex` characters of the transcript. The transcript is
  the concatenation of all block texts.
- `DropBefore(span)` trims the front of the buffer to a time window of length `span` that ends
  where the last block ends.
- `Match(drop)` concatenates the blocks and takes the pattern's first hit. It maps the hit's indices
  back to times by linear interpolation inside the blocks. With `drop` set, it also consumes the
  transcript up to the end of the hit.

The analyzer's per-frame step (`decode`) adds a frame's text to the buffer. When the frame's handler
asks for a match attempt, it trims to the configured window (a window of 0 means none) and runs a
consuming match.

The project is written in Dafny and has these modules:

- `Blocks` (blocks.dfy): the block datatype and the transcript `Concat`. It also holds the two
  pieces of Python semantics the arithmetic relies on. `PyInt` is `int()` on a float, which
  truncates toward zero. `PySliceFrom` is `s[k:]`, including a negative `k`.
- `Patterns` (patterns.dfy): the search engine as an oracle. A `Finder` maps a string to an
  optional half-open hit `[first, last)`. `IsOracle` says the hit lies inside the string.
  `LiteralFinder` is one instance: leftmost literal-substring search.
- `BlockLaws` (block_laws.dfy): each buffer operation as a function of the block sequence, branch
  for branch, together with the laws proved about it.
- `BlockBuffer` (str_block_buffer.dfy): the class `StrBlockBuffer`. Its `blocks` field is a `seq`
  that the methods reassign, and the methods keep the loops of the original. Each method is proved
  to leave `blocks` exactly as the matching `BlockLaws` function says. Each also keeps `Valid()`:
  the pattern is an oracle (`IsOracle`, which `Match` needs to place the hit inside the transcript),
  and every non-empty block satisfies `charTime * |text| == end - start`.
- `Analyzer` (analyzer.dfy): the per-frame step, with the handler's text and its "attempt a match"
  flag as inputs.
- `Scenarios` (scenarios.dfy): concrete cases of the boundary behaviour.
- `RealFacts` (real_facts.dfy): small facts about real multiplication and division.

Times are `real`. Python raises two exceptions in this core, and each becomes an error outcome
(`Err(ZeroDivision)`, `Err(UnboundStart)`) rather than a precondition:

- `DropBefore` divides by zero when the block straddling the cutoff has `charTime == 0`. The blocks
  deleted before the raise stay deleted.
- `Match` reads an unbound `startEpoch` when the hit is empty and sits at the very end of the
  transcript.

## Model

| member | source | states |
|---|---|---|
| Blocks.Concat | ReSearch.py:114-120 | the search string: the block texts joined in block order, as the accumulation loop builds it; `Concatenate` is proved to build exactly this, and `ConcatSplit`, `ConcatPrefixGrows` and `ConcatAround` give its laws |
| Blocks.CharTime | ReSearch.py:28 | `(end - start) / len(str)`, the charTime of a fragment and of a merged block (ReSearch.py:38-39); `BlockLaws.EvenlySpread` proves that a block built with it is evenly timed |
| Blocks.PyInt | ReSearch.py:105 | Python's `int()` of a float, truncating toward zero in both branches; `PyIntBounds` carries its law |
| Blocks.PyIntBounds | ReSearch.py:105 | `int()` of a float rounds toward zero: down for a non-negative argument, up for a negative one |
| Blocks.PySliceFrom | ReSearch.py:107 | `s[k:]` is a suffix of `s`; for `k >= 0` it is `max(|s| - k, 0)` long, for negative `k` it is `min(-k, |s|)` long |
| Patterns.FindFrom | ReSearch.py:128 | the literal search returns the leftmost occurrence at or after `from`, and returns None only when there is no occurrence |
| Patterns.LiteralFinderIsOracle | ReSearch.py:128-135 | a literal search only reports spans `first <= last <= |s|` inside the searched string |
| BlockBuffer.Concatenate | ReSearch.py:114-126 | the accumulation loop builds exactly the transcript and the index table `IndexOf(blocks)` |
| BlockBuffer.ScanEndingAfter | ReSearch.py:137-156 | the scan over the index table stops at the first entry whose range ends after the bound, or runs off the end exactly when there is none |
| BlockBuffer.StrBlockBuffer.constructor | ReSearch.py:17-19 | a new buffer is empty and valid and holds the given pattern |
| BlockBuffer.StrBlockBuffer.SetMatch | ReSearch.py:21-22 | replaces the pattern and leaves the blocks alone |
| BlockBuffer.StrBlockBuffer.AddBlock | ReSearch.py:24-44 | the new blocks are `Added(old blocks, ...)`, the transcript grows by exactly the text, and every block stays evenly timed |
| BlockBuffer.StrBlockBuffer.Drop | ReSearch.py:46-80 | the while loop over `blockStartIndex` leaves exactly `Dropped(old blocks, lastIndex)` and keeps every block evenly timed |
| BlockBuffer.StrBlockBuffer.DropBefore | ReSearch.py:82-108 | the loop against the fixed cutoff leaves exactly `DroppedBefore(old blocks, span)` and returns its exception, if any; blocks stay evenly timed |
| BlockBuffer.StrBlockBuffer.Match | ReSearch.py:110-166 | the hit lies inside the transcript; the result is `MatchSpec` of the old blocks and the hit; the blocks afterwards are `AfterMatch`, so they are unchanged without `drop` |
| BlockLaws.Merges | ReSearch.py:30-34 | the merge test: a last block exists and `prevEnd + charTime / 2 >= start_time`, inclusive; `Added` states that the block count stays the same exactly when it holds |
| BlockLaws.Added | ReSearch.py:24-44 | an empty fragment changes nothing; the block count stays the same exactly when the inclusive half-character test passes; a merge keeps the last block's start, takes the new end and spreads the joined text over it; otherwise one block is appended and earlier blocks are untouched |
| BlockLaws.AddedTranscript | ReSearch.py:24-44 | in both branches the transcript becomes the old transcript followed by the fragment's text |
| BlockLaws.AddedKeepsTimed | ReSearch.py:28-43 | a merged or appended block spreads its text evenly over its interval, so evenly timed buffers stay evenly timed |
| BlockLaws.TrimFront | ReSearch.py:75-79 | the trim of the block holding `lastIndex`: start moved by `charTime * delChars`, text sliced from `delChars`; `CharsRemovedKeepsTimed` and `DroppedKeepsTimed` carry its laws |
| BlockLaws.DropFrom | ReSearch.py:57-80 | the while loop of `Drop` as a recursion on the remaining blocks and `blockStartIndex`, branch for branch: stop past `lastIndex`, delete a block that ends at or before it or is empty, else trim it and stop; `DropFromShape` and `DropFromTranscript` carry its laws, and the loop invariant of `StrBlockBuffer.Drop` ties the method to it |
| BlockLaws.Dropped | ReSearch.py:46-80 | `Drop` as a whole: an empty buffer is unchanged, otherwise `DropFrom` from index 0; `DroppedTranscript` and `DroppedKeepsTimed` carry its laws |
| BlockLaws.DropFromShape | ReSearch.py:57-80 | Drop deletes whole blocks only from the front and trims at most the new first block; that block keeps its end and charTime, its start moves by charTime per removed character, and it is never left empty; the later blocks are unchanged |
| BlockLaws.DroppedTranscript | ReSearch.py:46-80 | a negative index is a no-op; otherwise exactly the first `min(lastIndex, |transcript|)` characters are removed, and the character at `lastIndex` is kept as the new first character |
| BlockLaws.DroppedKeepsTimed | ReSearch.py:75-79 | trimming the first block by whole characters keeps every block evenly timed |
| BlockLaws.DelCount | ReSearch.py:105 | `int(((cutOffTime - start) + charTime) / charTime)`, with `PyInt` for `int()`; `DelCountPassesCutoff`, `DelCountRange` and `EmptiedAtEnd` carry its laws |
| BlockLaws.Advance | ReSearch.py:106-107 | the trim of the straddling block: start moved by `delCount * charTime`, text sliced with Python's `s[delCount:]`; `AdvanceKeepsTimed` and `EmptiedAtEnd` carry its laws |
| BlockLaws.CutBefore | ReSearch.py:90-108 | the while loop of `DropBefore` against a fixed cutoff, branch for branch: stop at a block starting after the cutoff, delete a block ending before it, raise on a zero charTime, else trim with `DelCount` and `Advance`; `CutBeforeShape`, `CutBeforeDeletes`, `CutBeforeTranscript`, `CutBeforeWindow` and `CutBeforeKeepsTimed` carry its laws |
| BlockLaws.DroppedBefore | ReSearch.py:82-108 | `DropBefore` as a whole: an empty buffer is unchanged, otherwise `CutBefore` at the last block's end minus the span; `DroppedBeforeKeepsLast` carries its laws |
| BlockLaws.CutBeforeShape | ReSearch.py:90-108 | DropBefore changes at most the new first block, keeping its end and charTime; it raises only on a zero-charTime block straddling the cutoff, which stays in place with every block after it |
| BlockLaws.CutBeforeDeletes | ReSearch.py:94-101 | every block deleted whole started at or before the cutoff and ended before it |
| BlockLaws.DroppedBeforeKeepsLast | ReSearch.py:82-101 | an empty buffer stays empty; for `span >= 0` the buffer stays non-empty and the last block's end is unchanged |
| BlockLaws.LastBlockKept | ReSearch.py:98-101 | a block that ends at or after the cutoff is never deleted, so the last block survives |
| BlockLaws.CutBeforeTranscript | ReSearch.py:90-108 | the remaining transcript is a suffix of the old one |
| BlockLaws.CutBeforeWindow | ReSearch.py:94-108 | when nothing was raised and the first remaining block has a non-negative charTime, that block starts after the cutoff |
| BlockLaws.DelCountPassesCutoff | ReSearch.py:105-106 | for a forward block that starts at or before the cutoff, `delCount` is at least 1, every removed character starts at or before the cutoff, and the first kept character starts after it |
| BlockLaws.DelCountRange | ReSearch.py:105-107 | on an evenly timed straddling block, `delCount` is between 1 and `|text| + 1`, and it is `|text| + 1` exactly when the cutoff is the block's end |
| BlockLaws.EmptiedAtEnd | ReSearch.py:105-107 | a cutoff at the straddling block's end empties the block and moves its start one charTime past its end |
| BlockLaws.CutBeforeKeepsTimed | ReSearch.py:90-108 | DropBefore keeps every block evenly timed, including a block it empties |
| BlockLaws.IndexOf | ReSearch.py:117-126 | one entry per block, each recording its block's start time, charTime and text length |
| BlockLaws.IndexTiles | ReSearch.py:114-126 | the entries' `[startIndex, endIndex)` ranges tile `[0, |searchStr|)` contiguously in block order |
| BlockLaws.IndexHoldsText | ReSearch.py:117-126 | each entry's range of the search string holds exactly its block's text |
| BlockLaws.FirstEndingAfter | ReSearch.py:137-156 | finds the first entry whose range ends after the bound, and None only when no entry does |
| BlockLaws.Interpolate | ReSearch.py:143-144 | `startTime + offset * charTime` with `offset` counted from the entry's first index, used for both ends of a match (also ReSearch.py:154-155); `InterpolateMonotone` and `InterpolateWithinBlock` carry its laws |
| BlockLaws.EndTime | ReSearch.py:147-156 | the end time: interpolated in the first entry whose `endIndex` is not below `lastIdx`, or the fallback one charTime of the last entry after the start time; `MatchEndInBlock` proves the fallback is never taken |
| BlockLaws.MatchSpec | ReSearch.py:110-161 | no result for an empty buffer or no hit; a returned match's text is `searchStr[first:last]` |
| BlockLaws.MatchRaisesIffEmptyAtEnd | ReSearch.py:133-148 | Match fails exactly when the hit starts at the end of the transcript, which can only happen for an empty hit |
| BlockLaws.MatchStartInBlock | ReSearch.py:137-145 | the start time is interpolated in the block that holds the hit's first character |
| BlockLaws.MatchEndInBlock | ReSearch.py:147-156 | a block whose range reaches the hit's end always exists, so the fallback end time is never used; the end time is interpolated in that block |
| BlockLaws.InterpolateWithinBlock | ReSearch.py:137-156 | inside an evenly timed block that runs forward, interpolation is monotone, stays within the block's interval and is exact at both boundaries |
| BlockLaws.InterpolateMonotone | ReSearch.py:143-156 | with a non-negative charTime, a later index in a block interpolates to a time no earlier |
| BlockLaws.AfterMatch | ReSearch.py:163-164 | without `drop` the blocks are unchanged |
| BlockLaws.MatchConsumes | ReSearch.py:163-164 | after a consuming match the transcript is exactly `searchStr[last:]` |
| Analyzer.AddFragment | ReSearch.py:269 | a handler's optional fragment goes through `AddBlock`; `AddFragmentTranscript` carries its law |
| Analyzer.Windowed | ReSearch.py:272-273 | a non-zero window runs `DropBefore`, a window of 0 changes nothing; `WindowedTranscript` carries its law |
| Analyzer.Decoded | ReSearch.py:269-275 | the decode step branch for branch: add the fragment, stop without an attempt, window when configured and stop on its exception, then a consuming match; `Decode` is proved to follow it, and `DecodeTranscript` and `DecodeErrors` carry its laws |
| Analyzer.Decode | ReSearch.py:269-275 | one decode step leaves the buffer and returns the outcome exactly as `Decoded` says, and keeps the buffer valid |
| Analyzer.AddFragmentTranscript | ReSearch.py:269-270 | adding a handler's fragment extends the transcript by its text |
| Analyzer.WindowedTranscript | ReSearch.py:272-273 | trimming to the window leaves a suffix of the transcript |
| Analyzer.MatchTranscript | ReSearch.py:275 | a consuming match leaves a suffix, and the match followed by what is left is a suffix too |
| Analyzer.DecodeTranscript | ReSearch.py:269-275 | afterwards the buffer holds a suffix of the old transcript plus the new text; with no match attempt it holds exactly that; a returned match followed by the rest is also such a suffix |
| Analyzer.DecodeErrors | ReSearch.py:269-275 | a decode step fails only when a match was attempted: by division by zero at a configured window on a zero-charTime first block, or by an empty hit at the end of the transcript |
| Scenarios.MergeAtHalfCharGap | ReSearch.py:34-39 | "AT" over [0, 0.2] and "+OK" over [0.25, 0.55] merge into one block "AT+OK" with charTime 0.11, because the gap equals half a character |
| Scenarios.AppendBeyondHalfCharGap | ReSearch.py:34-44 | a gap of 0.06 starts a second block |
| Scenarios.DropKeepsIndexedChar | ReSearch.py:66-79 | `Drop(3)` on "AB","CD" deletes the first block and leaves "D", starting one character later |
| Scenarios.WindowAtEndEmptiesBlock | ReSearch.py:88-107 | a zero window on "AB" over [0, 2] leaves an empty block starting at 3 |
| Scenarios.ZeroDurationRaises | ReSearch.py:105 | a zero-duration block at the cutoff raises division by zero |
| Scenarios.EmptyMatchAtEndRaises | ReSearch.py:137-148 | an empty hit at the end of "AB" has no start block |
| Scenarios.MatchOkTimes | ReSearch.py:110-166 | "OK" in "AT+OK\r\n" over [0, 0.7] matches from 0.3 to 0.5, and consuming it leaves "\r\n" |

## Code and comments

- `Drop` keeps the character at `lastIndex`. The slice at ReSearch.py:79 starts at
  `lastIndex - blockStartIndex`. The comment at ReSearch.py:47-49 says "up to and including
  lastIndex". The model follows the code.
  `DroppedTranscript` states the code's behaviour. This is also what `Match` needs, because it
  passes the exclusive end of the hit.
- A `charTime` of 0 on the straddling block in `DropBefore` is not excluded by a precondition. The
  source raises there, so the model returns `Err(ZeroDivision)` and keeps the deletions made before
  the raise.
- `int()` at ReSearch.py:105 truncates toward zero, and `PyInt` models exactly that. On every
  non-empty, evenly timed block that straddles the cutoff, the argument is at least 1
  (`DelCountRange` proves `charTime > 0` and `delCount >= 1` there), so floor would agree there.

## Left out

- The Saleae extension class `ReSearch` (ReSearch.py:169-281) is left out: settings, result types,
  frame construction, the handler dispatch table and its diagnostics. `decode` is kept only for
  its add-trim-match sequence (ReSearch.py:269-275). The dispatch-miss path at lines 265-267 and
  building the output frame at lines 277-281 are host-library plumbing.
- The frame handlers `AddAddress`, `AddData`, `AddResult`, `AddStart` and `AddStop`
  (ReSearch.py:199-239) are left out. They format payloads with `hex()` and ASCII decoding. Their
  effect on the buffer is the optional `Fragment` they add, and their return value is the
  `attempt` flag.
- Regular-expression semantics are left out. `re.search` is a foreign call and is replaced by any
  `Finder` that satisfies `IsOracle`. That it finds the leftmost match is not taken for granted; it is shown
  only for the literal instance `LiteralFinder`. A pattern that does not compile makes `re.search`
  raise `re.error` on every `Match` (ReSearch.py:128). A total `Finder` cannot represent that
  failure, so the constructor's `requires IsOracle(matchStr)` stands for a pattern that compiles.
- Floating point is left out. Times and `charTime` are exact reals, and `GraphTimeDelta`, `datetime`
  and `float()` conversions are not modelled, so rounding effects are not captured.
- `asNum`, `AsObj` and `kTimeZero` (ReSearch.py:7-13) are left out. The first and last are unused,
  and `AsObj` becomes the `Block` and `Entry` datatypes.
- Blocks are values in a `seq`, not shared objects. The source mutates block objects in place, but
  no reference to a block escapes the list, so no aliasing is lost.
- BlockLaws.CutBeforeWindow: the window law is proved for the first remaining block only. A later
  block's start is not tied to the cutoff unless the blocks are in time order, and the source does
  not enforce that order.
