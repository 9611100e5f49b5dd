# hpschd mesostic engine in Dafny

hpschd turns a block of prose into a *mesostic*: a poem whose spine word runs
down the middle of the page in capitals. Each line is cut from the source
around the next letter of the spine. The west part runs up to and including
the capitalised spine letter. The east part runs from there up to the next
spine letter. West parts are right-aligned so that the capitals form one
column.

The repository holds two engines, and both are modelled here.

- `mesosys.dfy` (module `MesoSys`) models the refactored engine of
  `mesosys.go`. The `Mesostic` object is a Dafny `class` with the fields its
  methods update. `ParseSpine` builds the spine, `FormatLine` cuts one
  segment, `BuildMeso` runs every punctuation-separated segment through it,
  and `FormatFullLines` aligns the fragments. Every method is proved against
  a specification function: `Normalize`, `Scan`/`Format`, `Step`/`Build`,
  `FullLines` and `Poem`. Lemmas then prove what those functions mean:
  - the spine runs down one column (`PoemSpine`);
  - the cursor moves once per match, modulo the spine length (`BuildCursor`, `AdvanceMod`);
  - exactly the unmatched segments are recorded as empty (`BuildEmptyLines`);
  - the scanner's hit is the one a declarative description singles out (`ScanHit`, `HitUnique`);
  - the joined poem loses nothing: split at newlines, it gives back every line (`PoemSplit`).
- `mesostic.dfy` (module `MesoLegacy`) models the legacy engine of
  `mesostic.go`. Its package globals (`padCount`, `fragCount`, `fragMents`,
  `ss`, `sca`, `ictus`, `nexus`) are the fields of one `Engine` object. The
  methods keep their loops: `Spine`, `Ictus`, `mesoLine` and its character
  loop, and the tail of `mesoMain`. That tail splits on newlines, lowercases
  each line, drains the fragment map in arbitrary order, runs an in-place
  array sort built from `Less` and `Swap`, then pads. Lemmas prove:
  - the rotation arithmetic (`RotateOne`, `TurnsMod`, `RotateCycle`);
  - how a line is cut (`LegacyCut`);
  - that fragment numbers restore call order (`LinesOrder`);
  - that, from fresh globals, the fragment of line `j` is that line cut around spine position `(ictus + j) mod n`, with the next position as the stop character (`LinesCursor`, `LinesData`, `FreshPoemLines`);
  - that padding is never negative (`LinesSound`, `ByKeyFits`);
  - that the padded poem loses nothing: split at newlines, it gives back each fragment's padded text (`RenderSplit`);
  - that sorting the drained fragments gives the same poem whatever order the map yields them in (`SortedUnique`, `SortAndPad`).
- `text.dfy` (module `Text`) holds ASCII models of the `strings` and
  `unicode` helpers both engines call: `ToLower`, `ToUpper`, `TrimSpace`,
  `Split`, `Repeat` and `IsSpace`.
- `arith.dfy` (module `Arith`) holds three facts about Euclidean division
  that the cursor arithmetic rests on.

Where the documented design of the engine and the code disagree, the model
follows the code. The one exception is the bug listed under Findings:

- **Spine when no override is given.** As written, `ParseSpine` with an
  empty override leaves the spine empty instead of using the title. This is
  a bug; see Findings. The as-written behaviour is kept in `SpineSource` and
  exhibited by `TitleSpineDropped`. `Mesostic.ParseSpine` and the constructor
  use the documented behaviour (`IntendedSpineSource`).
- **Spine cut order.** The spine source is cut to 32 bytes *before*
  whitespace is removed, so a spine can hold fewer than 32 characters even
  when the title is longer (`Truncate`, `Normalize`).
- **Poem joining.** `BuildMeso` puts a newline *before* every line, so a
  non-empty poem starts with a newline (`Poem`).
- **Unmatched segments.** `BuildMeso` records every unmatched segment's
  index in `EmptyLine` (`BuildEmptyLines`).
- **Legacy engine.** The legacy engine has no miss case. A line without the
  spine character still becomes a fragment, its whole text as the west side,
  and still rotates the spine (`LegacyCut`, `Record`).

## Model

| member | source | states |
|---|---|---|
| Text.LowerStr | mesosys.go:141 | `strings.ToLower` keeps the length, leaves no uppercase letter, keeps every non-letter as it was, and changes no character's identity up to case (`Upper` of result and input agree) |
| Text.TrimSpaceCuts | mesosys.go:173-174 | `TrimSpace` returns the stretch of the input that starts at its first non-whitespace character, and only whitespace follows it |
| Text.TrimKeepsLast | mesosys.go:173 | trimming keeps a final non-whitespace character, so a west fragment ending in a capital still ends in it |
| Text.SplitOn | mesosys.go:75-76 | splitting gives at least one piece, and no piece holds a separator |
| Text.SplitRejoin | mesostic.go:172 | splitting loses nothing: the pieces glued back with the separators give the input, and there is one piece more than there are separators |
| MesoSys.Wider | mesosys.go:185-190 | `wider` returns one of its arguments and is at least both |
| MesoSys.Truncate | mesosys.go:226-237 | the spine source is a prefix of the string: the whole string when it has at most 32 bytes, exactly its first 32 bytes otherwise |
| MesoSys.SpineSource | mesosys.go:219-238 | as written, an empty override gives an empty source and a non-empty one gives its 32-byte prefix |
| MesoSys.IntendedSpineSource | mesosys.go:212-230 | the documented source is a prefix of the override when it is set and of the title otherwise, `min(32, len)` bytes long |
| MesoSys.Normalize | mesosys.go:240-245 | the spine holds no whitespace, only lowered characters, and is no longer than its source |
| MesoSys.NormalizeChar | mesosys.go:240-245 | one character adds itself, lowered, to the spine, or nothing when it is whitespace |
| MesoSys.NormalizeAppend | mesosys.go:240-245 | the spine of `a + b` is the spine of `a` followed by the spine of `b`; with `NormalizeChar` this fixes the spine of every source as each non-whitespace character, lowered, in order |
| MesoSys.NormalizeIdempotent | mesosys.go:240-245 | normalizing a spine again changes nothing |
| MesoSys.NormalizeNonEmpty | mesosys.go:240-245 | a source with a non-whitespace character gives a non-empty spine |
| MesoSys.NormalizePrefix | mesosys.go:240-245 | the spine of a prefix is a prefix of the spine |
| MesoSys.NormalizeFirst | mesosys.go:240-245 | the spine starts with the lowered first non-whitespace character |
| MesoSys.NormalizeAllSpace | mesosys.go:240-245 | a whitespace-only source gives the empty spine |
| MesoSys.ParseSpineBounds | mesosys.go:219-245 | `ParseSpine` appends at most 32 non-whitespace characters, and appends nothing exactly when the chosen 32-byte source is all whitespace |
| MesoSys.TitleSpineDropped | mesosys.go:225-231 | as written, the title "music has the rights to children" gives an empty spine, while the intended source gives one starting "musich" |
| MesoSys.IntendedSpineFromTitle | mesosys.go:212-230 | with the intended source, a title with a non-whitespace character in its first 32 bytes gives a spine starting with that character, lowered |
| MesoSys.ScanFrom | mesosys.go:143-165 | from any position and state, the scanner hits exactly when it is already east or an `ssChar` lies ahead, and a hit's west part ends with `ssChar` uppercased |
| MesoSys.Scan | mesosys.go:143-170 | a segment is matched exactly when it holds the spine character, and the west part then ends with it uppercased |
| MesoSys.ScanFromEast | mesosys.go:148-159 | in state east, the scan stops at the first `nxChar` or repeated `ssChar`, or at the end |
| MesoSys.ScanFromWest | mesosys.go:148-163 | in state west, the first `ssChar` switches to east, and the hit is the one `IsHit` describes |
| MesoSys.ScanHit | mesosys.go:143-165 | the scanner's hit is the declarative one: west up to the first `ssChar`, uppercased; east up to the next `nxChar` or repeated `ssChar` |
| MesoSys.HitUnique | mesosys.go:143-165 | that description leaves no choice: at most one west/east pair satisfies it |
| MesoSys.ScanLine | mesosys.go:144-170 | the rune loop reports a hit exactly when the lowered line holds `ssChar`, and returns `Scan`'s fragments |
| MesoSys.Succ | mesosys.go:82 | the next cursor stays inside the spine |
| MesoSys.SuccMod | mesosys.go:82 | the next cursor is `(SpineIdx + 1) % len(Spine)` |
| MesoSys.Advance | mesosys.go:80-82 | `m` cursor moves stay inside the spine |
| MesoSys.AdvanceMod | mesosys.go:80-82 | `m` moves from `c` land on `(c + m) % n` |
| MesoSys.AdvanceFromStart | mesosys.go:80-82 | from the first spine character, `m` moves land on `m % n` |
| MesoSys.Record | mesosys.go:172-181 | recording a hit keeps the fragment lists paired and bounded by `Width` and `WWidth` |
| MesoSys.RecordTight | mesosys.go:176-190 | recording a hit keeps `WWidth` and `Width` at the running maxima `wider` computes: 0 before any fragment, and otherwise reached by some recorded west fragment and some west-plus-east line |
| MesoSys.StepTight | mesosys.go:79-89 | one segment of the loop keeps both widths at the running maxima |
| MesoSys.BuildTight | mesosys.go:79-89 | the build keeps both widths at the running maxima, so from a fresh session each width is exactly the widest fragment, together with the bound from `BuildWellFormed` |
| MesoSys.FlushLine | mesosys.go:107-110 | with the widths at their maxima, some aligned line has no padding: its west fragment starts in column 0 |
| MesoSys.FullLineFlush | mesosys.go:109-110 | a west fragment exactly `WWidth` wide is written with no padding in front |
| MesoSys.Format | mesosys.go:129-183 | `FormatLine` reports a match exactly when the spine is non-empty and the lowered line holds the current spine character; on a match it appends one fragment to each list; on a miss nothing changes; the cursor and the line index are untouched |
| MesoSys.FormatHit | mesosys.go:138-182 | a scanner hit is exactly what `FormatLine` records |
| MesoSys.Step | mesosys.go:79-89 | one segment: the line index moves on; a match moves the cursor to the successor and records the fragments; a miss records the index as empty and moves no cursor |
| MesoSys.Build | mesosys.go:79-89 | the cursor stays a valid spine index through all segments |
| MesoSys.BuildSnoc | mesosys.go:79-89 | one more segment is one more `Step` |
| MesoSys.StepHit | mesosys.go:80-82 | on a match, the session is `FormatLine`'s, with the cursor and line index moved on |
| MesoSys.StepMiss | mesosys.go:83-88 | on a miss, only `EmptyLine` and the line index change |
| MesoSys.BuildWellFormed | mesosys.go:79-89 | the build keeps `LineWest`/`LineEast` paired and bounded by the two widths |
| MesoSys.BuildGrows | mesosys.go:79-89 | the build only appends; each segment adds either a fragment pair or an `EmptyLine` entry; the line index rises once per segment |
| MesoSys.CursorAfterStep | mesosys.go:82 | one more cursor move counts one more |
| MesoSys.CursorStep | mesosys.go:80-85 | a segment moves the cursor once on a match and not on a miss |
| MesoSys.BuildCursor | mesosys.go:79-89 | after a build, the cursor has moved exactly once per new fragment |
| MesoSys.CursorAdvance | mesosys.go:82 | moving a cursor at `a % n` gives `(a + 1) % n` |
| MesoSys.BuildEmptyLines | mesosys.go:83-88 | `MLinesIdx + j` is in `EmptyLine` exactly when segment `j` missed, and every entry is below `MLinesIdx` |
| MesoSys.CapitalAppend | mesosys.go:161-175 | a fragment ending with the capital under the cursor extends the capitals pattern |
| MesoSys.CapitalsStep | mesosys.go:161-175 | each segment keeps fragment `j` ending with the capital of spine position `j` moves on |
| MesoSys.BuildCapitals | mesosys.go:79-89 | read top to bottom, the new west fragments end with the spine characters in rotation order, uppercased |
| MesoSys.FullLine | mesosys.go:108-110 | an aligned line is `WWidth` plus the east fragment's length long |
| MesoSys.FullLines | mesosys.go:104-116 | one line per fragment pair, each `WWidth + len(east)` long |
| MesoSys.FullLinesAt | mesosys.go:107-113 | line `i` is built from fragment pair `i` |
| MesoSys.FullLinesSnoc | mesosys.go:107-113 | one more pair appends one line |
| MesoSys.FullLineColumns | mesosys.go:108-110 | each line is padding spaces, then the west fragment ending exactly at column `WWidth`, then the east fragment |
| MesoSys.FullLineCapital | mesosys.go:108-110 | the last west character lands in column `WWidth - 1` |
| MesoSys.Poem | mesosys.go:95-97 | the poem is empty exactly when there are no lines |
| MesoSys.PoemSplit | mesosys.go:95-97 | the poem loses nothing: split at newlines it gives the empty piece before the first newline and then every line in order, when no line holds a newline |
| MesoSys.PoemSpine | mesosys.go:68-116 | from a fresh session, line `i` of the poem has `Upper(spine[i % len(spine)])` in column `WWidth - 1`: the spine runs down one column |
| MesoSys.SpineColumn | mesosys.go:104-116 | fragments ending with the rotating capitals give lines with the spine in column `WWidth - 1` |
| MesoSys.SpineLine | mesosys.go:107-113 | one line of `SpineColumn` |
| MesoSys.NoMatchNoLines | mesosys.go:79-89 | segments holding no spine character give no fragments and leave the cursor in place |
| MesoSys.Mesostic.constructor | mesosys.go:40-64 | `NewMesostic` starts with empty lists, zero widths and indices, and the spine `ParseSpine` builds from the override |
| MesoSys.Mesostic.ParseSpine | mesosys.go:215-247 | appends `Normalize(IntendedSpineSource(title, ss))` to `Spine` and returns true; that is the code with the line-231 correction of Findings |
| MesoSys.Mesostic.RecordSides | mesosys.go:172-181 | trims and appends both fragments and raises both widths, as `Record`, keeping the widths at their running maxima (`RecordTight`) |
| MesoSys.Mesostic.FormatLine | mesosys.go:129-183 | the flag and new fields are those of `Format` |
| MesoSys.Mesostic.FormatFullLines | mesosys.go:104-116 | appends `FullLines(LineWest, LineEast, WWidth)` to `MLines` and returns true |
| MesoSys.Mesostic.NextSegment | mesosys.go:79-89 | one turn of the segment loop is `Step` |
| MesoSys.Mesostic.RunSegments | mesosys.go:79-89 | the segment loop is `Build` over the segments in order |
| MesoSys.Mesostic.FinishPoem | mesosys.go:91-99 | appends the aligned lines and stores and returns `Poem(MLines)`, leaving the session as it was |
| MesoSys.Mesostic.BuildMeso | mesosys.go:68-100 | splits `SourceTxt` on `[,.;:]`, builds, aligns and returns the poem it stores |
| MesoSys.JoinLines | mesosys.go:94-97 | the join loop returns `Poem(lines)` |
| MesoLegacy.Rotate | mesostic.go:121-135 | `Ictus(i)` keeps the cursor inside the spine whenever the step does not overshoot the end, and `nexus` is always the place after `ictus`, wrapping to 0 |
| MesoLegacy.RotateOne | mesostic.go:121-135 | `Ictus(1)` from a cursor inside the spine gives `(ictus + 1) % len(ss)`, and `nexus` is `(ictus + 1) % len(ss)` of the new cursor |
| MesoLegacy.TurnsMod | mesostic.go:121-135 | `k` calls of `Ictus(1)` move the cursor to `(c + k) % len(ss)` |
| MesoLegacy.RotateCycle | mesostic.go:121-135 | `len(ss)` rotations bring the cursor back to where it started |
| MesoLegacy.CraRotation | mesostic.go:121-135 | on "cra" three rotations read 'r', 'a', 'c' |
| MesoLegacy.LegacyCut | mesostic.go:67-107 | without the spine character the whole line is the west side; otherwise west is the line up to its first spine character, uppercased, and east follows up to, not including, the first next spine character |
| MesoLegacy.LegacyCutAt | mesostic.go:86-98 | the east side stops exactly where the first next spine character, or the end, lies |
| MesoLegacy.EastKeepsSpineChar | mesostic.go:87-95 | for every line, a repeat of the current spine character after the first, with no next spine character before it, stays on the east side |
| MesoLegacy.NewFragCut | mesostic.go:105-115 | the stored fragment is the whole line when the spine character is missing; otherwise the line's own characters with the first spine character capitalised, the west side ending there, and no next spine character in the east side |
| MesoLegacy.Record | mesostic.go:105-117 | `mesoLine` always records one fragment under the old `fragCount`, numbered with the new one, with west-side length as `WChars`; `padCount` becomes the larger of the two; the spine rotates as `Ictus(1)` |
| MesoLegacy.Lines | mesostic.go:172-175 | one fragment per source line, already lowercased by the caller, with the cursors kept inside the spine |
| MesoLegacy.RecordSound | mesostic.go:109-115 | after `mesoLine` every fragment's `WChars` is at most `padCount` and its `LineNum` is its key plus one |
| MesoLegacy.LinesSound | mesostic.go:172-175 | that invariant holds after all the calls of `mesoMain` |
| MesoLegacy.LinesSnoc | mesostic.go:172-175 | one more line is one more `mesoLine` call |
| MesoLegacy.ByKeyRecord | mesostic.go:112-115 | in key order, `mesoLine` appends its fragment at the end, numbered `fragCount + 1` |
| MesoLegacy.LinesStep | mesostic.go:172-175 | each source line adds one fragment at the end, with the line's number as `Index` |
| MesoLegacy.LinesOrder | mesostic.go:112-115 | sorting on `LineNum` restores call order: fragment `j` of the run has `Index` `j + 1` and `LineNum` `fragCount + j + 1` |
| MesoLegacy.LinesCursor | mesostic.go:172-175 | each `mesoLine` call rotates the cursor once: after `k` lines `ictus` has moved `k` places modulo the spine length, and `nexus` is the place after it |
| MesoLegacy.LinesData | mesostic.go:62-118 | line `j` is stored under key `fragCount + j` as the fragment `FragOf` describes: `Index` `j + 1`, `LineNum` `fragCount + j + 1`, and the line cut around spine position `(ictus + j) mod n` |
| MesoLegacy.FreshPoemLines | mesostic.go:172-188 | from fresh globals, the fragments in key order are exactly one per line, in line order, fragment `j` being the cut of line `j` |
| MesoLegacy.ByKeyRemove | mesostic.go:182-185 | deleting a key removes exactly its fragment from the multiset of fragments |
| MesoLegacy.DrainStep | mesostic.go:182-185 | one turn of the drain keeps every fragment accounted for exactly once |
| MesoLegacy.ByKeyIncreasing | mesostic.go:188 | fragments numbered one past their keys have strictly increasing `LineNum` in key order |
| MesoLegacy.ByKeyFits | mesostic.go:193-195 | every fragment fits in `padCount`, so no pad count is negative |
| MesoLegacy.SortedHead | mesostic.go:144-146 | two sorted arrangements of the same fragments with distinct numbers start alike |
| MesoLegacy.SortedUnique | mesostic.go:144-146 | fragments with distinct `LineNum` have a single sorted order |
| MesoLegacy.PadLineColumn | mesostic.go:193-199 | every padded line is spaces, then the fragment, then a newline; its last west character lands in column `padCount - 1` |
| MesoLegacy.PadLine | mesostic.go:193-198 | one padded line is `padCount + len(east) + 1` long, so every west side ends at column `padCount`; it ends with its only newline when the fragment holds none |
| MesoLegacy.Render | mesostic.go:193-200 | the poem is empty exactly when there are no fragments, and ends with a newline otherwise |
| MesoLegacy.RenderSplit | mesostic.go:193-200 | the poem loses nothing: split at newlines it gives every fragment's padded text in order, then the empty piece after the last newline |
| MesoLegacy.PadFrags | mesostic.go:193-200 | the padding loop returns `Render` of the sorted fragments |
| MesoLegacy.LessOrder | mesostic.go:144-146 | `Less` compares `LineNum`: a strict order, total on distinct numbers, and a slice is sorted exactly when no fragment is `Less` than one before it |
| MesoLegacy.Swap | mesostic.go:141-143 | `Swap` exchanges two fragments and changes nothing else |
| MesoLegacy.SortFrags | mesostic.go:144-146 | `sort.Sort` by `Less` leaves the fragments sorted on `LineNum` and a permutation of the input |
| MesoLegacy.SinkDown | mesostic.go:141-146 | one insertion step extends the sorted prefix by one: the first `i + 1` fragments end in order and are the same fragments as before, nothing after them moves, and the whole array is a permutation of the old one |
| MesoLegacy.SortAndPad | mesostic.go:187-200 | however the drain ordered them, the sorted and padded fragments are `Render` of the fragments in key order |
| MesoLegacy.CharLoop | mesostic.go:67-103 | the character loop returns exactly `LegacyCut` |
| MesoLegacy.Engine.constructor | mesostic.go:45-52 | the globals start at zero, with an empty map, `ss = "craque"`, no `sca`, `ictus = 0` and `nexus = 1` |
| MesoLegacy.Engine.Spine | mesostic.go:55-59 | `Spine` appends every byte of `ss` to `sca` |
| MesoLegacy.Engine.Ictus | mesostic.go:121-135 | the new cursors are `Rotate(ictus, i, len(ss))`; for `i = 1` that is `(ictus + 1) % len(ss)` and the next position |
| MesoLegacy.Engine.MesoLine | mesostic.go:62-118 | the globals after `mesoLine(s, c)` are `Record` of the globals before, and the invariant is kept |
| MesoLegacy.Engine.ReadLines | mesostic.go:172-175 | the line loop is `Lines` over the lowercased lines, with `lnc` counting from 1 |
| MesoLegacy.Engine.Drain | mesostic.go:180-185 | after the drain the map is empty and the slice holds exactly the fragments, each once |
| MesoLegacy.Engine.MesoMain | mesostic.go:162-203 | `sca` has `ss` appended; the globals are `Lines` over the lowered newline-split source, with the map drained; the poem is `Render` of the fragments in key order, padded to `padCount` |

## Left out

- File reading, the output channel and logging in `mesoMain` are left out. The model takes the file's contents as the `source` argument. The `ReadFile` error path is not modelled: Go calls `log.Error()` without `Msg` or `Send`, which writes nothing, and carries on with empty contents, which is the same as passing `""`.
- `NewMesostic` reads the spine override from the `HPSCHD_SPINESTRING` environment variable. The model takes that value as the constructor's `newspine` argument.
- The `MU`, `Date`, `Source`, `SourceData` and `MLineCt` fields are left out, as are `ParseSourceJSON` and `isStruct`. They are JSON decoding and locking, not the engine. `SourceTxt` is the model's input.
- The mutex is not modelled. Each method is taken to run alone, which is what holding the lock guarantees.
- Concurrent `mesoMain` runs are not modelled. Each request starts `mesoMain` as its own goroutine, and the package-level note at mesostic.go:8-12 says the shared state should not be global. Those goroutines share `ictus`, `nexus`, `sca`, `fragMents`, `fragCount` and `padCount` (mesostic.go:45-52) without a lock, so two runs can interleave and race. The model runs each `MesoMain` call alone on one `Engine`.
- `FormatLine` logs through `slog.Error` when the spine is empty (mesosys.go:130-136). The log record is not modelled. What it does is modelled: it reports no match and changes nothing.
- MesoLegacy.Record: Go keys each fragment by the SHA-1 hex digest of `fragmentW + string(fragCount)`; the model keys it by the value `fragCount` had before the call, which is fresh on every call, so no fragment is ever overwritten. Go's key is not always fresh: `string(int)` encodes one rune, and every count in 0xD800-0xDFFF or above 0x10FFFF becomes "\uFFFD". Two lines with the same west side at such counts share a key, and the second overwrites the first, so the poem loses a line. `fragCount` is never reset, so a long-running process reaches those counts. The model does not capture this loss, nor SHA-1 itself.
- MesoLegacy.Engine.Drain: Go's `range` over a map visits keys in an unspecified order. The model picks any remaining key with `:|`, so every order is covered. The contract states the multiset of drained fragments, not their order.
- MesoLegacy.SortFrags: `sort.Sort` is Go's pattern-defeating quicksort. The model sorts with insertion sort built from the same `Len`, `Less` and `Swap`. The contract is the one `sort.Sort` promises: sorted by `Less` and a permutation. Since line numbers are distinct, `SortedUnique` shows the result is the same whichever algorithm runs.
- MesoLegacy.Engine.MesoLine: requires both cursors to index `sca` for every line. Go reads `sca[ictus]` (mesostic.go:76) only when the line is not empty, and `sca[nexus]` (mesostic.go:94) only on a byte after a spine hit, without a bounds guard either time. `ss` is the constant "craque" (mesostic.go:49) and is never reassigned, and `sca` only grows, so at every call the program makes both cursors index `sca`. The requires therefore excludes no state the program reaches.
- MesoLegacy.Engine.MesoMain: requires `ictus` and `nexus` inside `ss`. They start at 0 and 1 (mesostic.go:51-52) and `Ictus` keeps them inside, so this holds at every call. The cursors then stay inside `sca` as well, because `sca` only grows.
- MesoSys.Mesostic.FormatFullLines: requires `LineWest` and `LineEast` to have the same length, and `WWidth` to cover every west fragment. Go needs only `LineEast` to be at least as long, and panics otherwise, in the index or in `strings.Repeat`. `FormatLine` always appends to both lists together and keeps both facts (`BuildWellFormed`), so the extra case never arises.
- Text is ASCII. `strings.ToLower`, `strings.ToUpper`, `strings.TrimSpace` and `unicode.IsSpace` are modelled on ASCII only. Byte iteration (`mesoLine`, `Spine`, the 32-byte cut) and rune iteration (`FormatLine`, the `ParseSpine` loop) then agree. Multi-byte UTF-8 input is not modelled.
- `regexp.MustCompile("[,.;:]").Split(s, -1)` is modelled as a split on that character set (`SplitOn`), which is what a one-character class does.
- The package-level BUG note at mesostic.go:5-6 says that when the source has fewer lines than the spine has characters, the rotation is left where it stopped, in memory: `ictus` and `nexus` are globals that the next `mesoMain` call starts from. The `Engine` fields reproduce this persistent cursor, and the model does not correct it. `Spine` also appends `ss` to `sca` on every call; that is reproduced too (`Engine.Spine`).

## Findings

| source | as written | input that shows it | evidently intended | confidence | as-written member | corrected member |
|---|---|---|---|---|---|---|
| mesosys.go:231 | `spine = m.Title[:titleLen]` runs after the 32-byte cut, with `titleLen` still 0, so an empty override always gives an empty spine | title "music has the rights to children", override "" | the title, cut to 32 bytes, is the spine source, as the comment at mesosys.go:223-224 says | high (not executed) | MesoSys.TitleSpineDropped | MesoSys.IntendedSpineFromTitle |
