# Narrative engine of the bunker escape game, modelled in Dafny

This project models the narrative core of the game in Dafny: the logic without rendering, physics or I/O. It also covers the small integer-valued pieces around that core. The parts are:

- **Timeline documents.** A timeline (`src/narrative.rs`) is an ordered list of frames. Each frame has an `index` and a time range written `mm:ss-mm:ss`, with a hyphen or an en dash.
  - The lenient parser (`parse_time_range`, `parse_mmss`) reads a time range.
  - Each frame gets a duration: end minus start, never below 0.01 s.
  - After the YAML has been decoded, the loader validates the document and stops at the first bad frame.
- **Playback session** (`ActiveTimeline`). It holds the frame on screen and a one-shot countdown timer for that frame. Each tick either keeps the frame or moves on to the next one and restarts the timer.
- **Routes and endings.**
  - The route registry (`src/route_mapping.rs`) maps route ids 1..6 to timeline assets and endings.
  - The closed set of endings is in `src/endings.rs`.
  - The progress record (`src/progression.rs`) unlocks the meta-ending `FinalBell` once all six primary endings are complete.
- **Offline timeline checker** (`scripts/validate_timeline.py`).
  - Its time parser is stricter than the loader's.
  - The frame pass reports every problem rather than stopping at the first. Overlaps only produce warnings.
  - The exit code is the bitwise or of the per-file codes.
- **Inventory** (`src/systems/inventory.rs`). It is a map from item kind to stack. It covers the starter kit and the food-slot update made when food is picked up.
- **Save and load** (`src/systems/savegame.rs`). This part covers:
  - the rule that turns a save name into a file name;
  - the snapshot of the inventory slots as a list;
  - the restore that rebuilds the slots from that list.
- **Map-cleaning tool** (`normalize_map_colors.py`). Only its integer parts are modelled:
  - the hex-colour reader and the palette tables built from the legend;
  - the majority (mode) filter, which replaces each cell of a grid of palette indices with the most common index around it.

## Units and representations

- **Time.** Times are whole seconds. Durations and timer values are whole hundredths of a second, so the 0.01 s floor becomes exactly 1 (`Narrative.MinFrameCentis`).
- **Numbers.** A number token is an optional `+` followed by ASCII digits (`Text.ParseNat`). This is the integer form that both Rust's `str::parse` and Python's `int()` accept.
- **Engine timer.** The engine's `Timer` in `Once` mode is modelled as a duration, the elapsed time and a sticky `finished` flag (module `OnceTimer`).
- **Machine integers.**
  - `u32`, `i32` and `u8` are newtypes over `int`.
  - The food-count increment wraps at 2^32 explicitly.
  - The checker's exit code is a `bv8`, so the bitwise or is the real one.
- **Exceptions and errors.** The exceptions the checker catches while reading a time become `None`. A file on which `validate_file` raises (it cannot be opened or decoded, the document is empty or not a mapping, or a frame is not a mapping) is the `Raises` alternative of `TimelineValidator.PyFile`. The loader's errors become a `Result`.

## Behaviour worth knowing

- **Empty timelines.** A timeline with no frames passes the loader, because its loop has nothing to check (`Narrative.EmptyTimelineLoads`). `from_timeline` on it does not fail: it starts a zero-length timer with no frame on screen (`Playback.FromTimeline`).
- **Ending names.** The endings carry the names the game code gives them (`TrueWake`, `SunkLegend`, ...).
- **Past the last frame.** Playback never stops advancing: once past the last frame, each tick still increments `current`, but it reports nothing and no frame is on screen (`Playback.RunPastEnd`).
- **Checker and loader disagree.** The checker and the loader do not always read a time range the same way.
  - The checker trims around each number; the loader does not trim inside `mm:ss`. So `"01 :06-02:00"` passes the checker as 66..120 s, but the loader reads its start as 6 s (`TimelineValidator.SpaceBeforeColonDisagrees`).
  - A lone `"00:05"` is rejected by the checker, but the loader reads it as the range 5..1 s (`TimelineValidator.SingleTimeDisagrees`).
  - On four plain numerals, both read the same values (`TimelineValidator.CheckerAgreesWithLoader`).

## Model

| member | source | states |
|---|---|---|
| Endings.PrimaryEndingsExact | src/endings.rs:1-16 | `is_primary` holds for exactly the six named endings and fails only for `FinalBell`; six of the seven endings are primary |
| RouteMapping.RouteTimelinePath | src/route_mapping.rs:5-15 | an asset path exists exactly for route ids 1..6; any other id resolves to none |
| RouteMapping.RouteResultEnding | src/route_mapping.rs:17-28 | an ending exists exactly for route ids 1..6, and it is always a primary ending |
| RouteMapping.RouteOfEnding | src/route_mapping.rs:17-28 | the inverse table: a route exists exactly for the primary endings, and it is a known route id |
| RouteMapping.RouteEndingBijection | src/route_mapping.rs:17-28 | the route-to-ending table is a bijection between ids 1..6 and the primary endings: both round trips hold and no two routes share an ending |
| RouteMapping.RouteEndingImage | src/route_mapping.rs:17-28 | the endings reachable through a route are exactly the six primary endings |
| RouteMapping.RoutePathsDistinct | src/route_mapping.rs:5-15 | the six timeline assets are pairwise distinct |
| Progression.Default | src/progression.rs:11-18 | the initial record has nothing completed and nothing unlocked, so the unlock predicate is false |
| Progression.RequiredArePrimary | src/progression.rs:26-37 | the `required` array holds exactly the primary endings, so `all_primary_completed` means every primary ending is in the completed set |
| Progression.UpdateUnlock | src/progression.rs:39-43 | the completed set is untouched; the flag afterwards is its old value or the unlock predicate, so it is never lowered |
| Progression.MarkCompleted | src/progression.rs:21-24 | the ending is added to the completed set; the flag never falls back, and it is set exactly when it was set before or every primary ending is now complete |
| Progression.MarkCompletedIdempotent | src/progression.rs:21-24 | marking the same ending twice gives the same record as marking it once |
| Progression.MarkFinalBellKeepsPrimaryStatus | src/progression.rs:21-37 | marking the meta-ending does not change whether all primary endings are complete |
| Progression.MarkAllAccumulates | src/progression.rs:21-24 | after any sequence of marks, the completed set is the old set plus the marked endings; it never shrinks, and the flag never falls back |
| Progression.MarkAllKeepsUnlockConsistent | src/progression.rs:21-43 | from a record whose flag agrees with the unlock predicate, the two agree after every sequence of marks; marking all six primaries in any order unlocks |
| Progression.UnlockFiresOnce | src/progression.rs:39-43 | over any sequence of marks the flag flips at most once, and it flips exactly when the sequence takes the record from locked to unlocked |
| Progression.UnlockNeverAfter | src/progression.rs:39-43 | once unlocked, no later mark counts as an unlock |
| Narrative.ParseMmssMinutesOnly | src/narrative.rs:96-101 | text without ':' is all minutes, and the seconds count as 0 |
| Narrative.ParseMmssPieces | src/narrative.rs:96-101 | "m:s" is m*60 + s, where each piece that is not a number counts as 0 |
| Narrative.ParseMmssIgnoresExtra | src/narrative.rs:96-101 | whatever follows a second ':' is never read |
| Narrative.ParseMmssRoundTrip | src/narrative.rs:96-101 | `parse_mmss` reads back the canonical "mm:ss" rendering of any number of seconds |
| Narrative.ParseTimeRangeDashAgnostic | src/narrative.rs:88-89 | texts that agree once en dashes become hyphens parse to the same range |
| Narrative.ParseTimeRangeFirstTwoPieces | src/narrative.rs:88-93 | after cleaning, only the first two hyphen-separated pieces (each trimmed) are read; later pieces are ignored |
| Narrative.ParseTimeRangeNoSeparator | src/narrative.rs:88-93 | without a separator the whole text is the start and the end defaults to "00:01" |
| Narrative.DefaultEndIsOneSecond | src/narrative.rs:92 | the default end "00:01" is one second |
| Narrative.ParseTimeRangeRoundTrip | src/narrative.rs:87-94 | `parse_time_range` reads back a canonical range written with either separator |
| Narrative.RangeCentis | src/narrative.rs:23-27 | a frame's duration is never below the 0.01 s floor |
| Narrative.FrameDurationsAt | src/narrative.rs:23-30 | the list of frame durations holds, at each position, the duration of that frame |
| Narrative.FrameDurationCentis | src/narrative.rs:23-30 | the duration is positive (at least 0.01 s) exactly for a frame of the timeline, and 0 for a position past the last frame |
| Narrative.FrameFault | src/narrative.rs:75-82 | a frame is faulted exactly when it fails a check; the index check runs first, and the time check is reached only with a correct index |
| Narrative.FirstFault | src/narrative.rs:75-84 | a fail-fast scan: it finds nothing exactly when every element passes, otherwise the first element that fails, with every earlier one passing |
| Narrative.FirstFaultOfFrames | src/narrative.rs:75-84 | the scan over the frames finds nothing exactly when all frames pass; its error names the first faulty frame's position |
| Narrative.LoadTimeline | src/narrative.rs:72-85 | a decode error is passed on; otherwise the timeline is returned unchanged exactly when every frame has its 1-based index and a positive range, else the error names the first faulty frame and all earlier frames passed |
| Narrative.LoadedDurationsExact | src/narrative.rs:23-30 | in a timeline that loaded, the 0.01 s floor never applies: each duration is end minus start |
| Narrative.EmptyTimelineLoads | src/narrative.rs:75-84 | a document without frames passes validation |
| Narrative.IndexGapRejected | src/narrative.rs:76-77 | a second frame whose index is not 2 is rejected with an index mismatch at position 1, whatever its time says |
| Narrative.NonPositiveRangeRejected | src/narrative.rs:79-81 | a correctly numbered first frame whose end is not after its start is rejected with its index and time |
| Narrative.SampleTimeChecks | src/narrative.rs:79-81 | "01:00-01:00" and "01:00–00:30" fail the duration check and "00:00-00:06" passes it |
| OnceTimer.FromDuration | src/narrative.rs:46 | a fresh timer has nothing elapsed, is not finished and has the requested duration |
| OnceTimer.Tick | src/narrative.rs:55-56 | a tick finishes the timer exactly when it was finished or the elapsed time reaches the duration; elapsed never decreases and never passes the duration |
| OnceTimer.TickAdditive | src/narrative.rs:55-56 | two ticks have the same effect as one tick by their sum |
| OnceTimer.TickAllIsSum | src/narrative.rs:55-56 | any non-empty run of ticks acts as one tick by its total |
| Playback.CurrentFrame | src/narrative.rs:50-52 | a frame is on screen exactly when `current` is below the number of frames, and it is that frame |
| Playback.FromTimeline | src/narrative.rs:41-48 | a new session starts at frame 0 with a fresh timer of frame 0's duration (zero for an empty timeline) and satisfies the session invariant |
| Playback.Step | src/narrative.rs:54-69 | a tick moves `current` by at most one, exactly when the timer runs out; it reports true exactly when it lands on a frame, whose timer is restarted; the session invariant is preserved |
| Playback.TickAndMaybeAdvance | src/narrative.rs:54-69 | the same facts with the timeline's own frame durations: the restarted timer has the new frame's duration |
| Playback.ZeroTickHolds | src/narrative.rs:54-68 | a zero-length tick on a frame changes nothing and reports nothing |
| Playback.PastEndStaysEnded | src/narrative.rs:56-65 | once past the last frame, a tick reports nothing and no frame is on screen |
| Playback.RunReportsEachNewFrame | src/narrative.rs:54-69 | over any run, `current` never goes back and moves at most once per tick, and the number of true reports equals the number of new positions within the timeline |
| Playback.RunKeepsCoherent | src/narrative.rs:54-69 | every state reached by a run from a consistent state is consistent |
| Playback.RunPastEnd | src/narrative.rs:62-65 | once past the last frame, no tick of any run reports a frame and no frame comes back |
| Playback.ExactTicksPlayEveryFrame | src/narrative.rs:54-69 | ticking exactly the remaining durations shows every later frame in turn, then runs off the end |
| Playback.PlaysWholeTimeline | src/narrative.rs:41-69 | from the start of a non-empty timeline, ticks of exactly the frame durations report frames 2..n in order and then end, staying consistent |
| TimelineValidator.MmssToSecNeedsOneDash | scripts/validate_timeline.py:8-9 | a cleaned range with no hyphen, or with more than one, fails the two-way unpacking |
| TimelineValidator.PyClockNeedsOneColon | scripts/validate_timeline.py:10-11 | a clock time with no ':', or with more than one, fails the unpacking |
| TimelineValidator.PyNumberOfNumeral | scripts/validate_timeline.py:12 | a plain numeral is read by `int()` as the same value the loader gives it |
| TimelineValidator.MmssToSecHalves | scripts/validate_timeline.py:7-13 | a cleaned range with one hyphen is read as the two clock times around it, or fails if either half does |
| TimelineValidator.ClockPieces | scripts/validate_timeline.py:10-12 | "m:s" made of numerals is m*60 + s for the checker |
| TimelineValidator.CheckerAgreesWithLoader | scripts/validate_timeline.py:7-13 | on "m:s-m:s" with four numerals, the checker accepts the range and reads the same start and end as the game's loader |
| TimelineValidator.MmssToSecRoundTrip | scripts/validate_timeline.py:7-13 | the checker reads back a canonical range written with either separator, as the loader does |
| TimelineValidator.SpaceBeforeColonDisagrees | scripts/validate_timeline.py:11-12 | with a space before the first ':', the checker reads the minutes but the loader loses them |
| TimelineValidator.SingleTimeDisagrees | scripts/validate_timeline.py:9 | a lone clock time is rejected by the checker, but the loader reads it as a range ending at one second |
| TimelineValidator.LastEnd | scripts/validate_timeline.py:20-34 | the last parsed end is at least -1, and it is -1 exactly when no earlier time parsed |
| TimelineValidator.CheckFrameVerdict | scripts/validate_timeline.py:22-37 | a frame passes exactly when its index is its position and its time parses to a range ending after its start, and exactly when it gets no error report; every report names the frame |
| TimelineValidator.CheckFrameDue | scripts/validate_timeline.py:22-37 | a frame's reports are exactly those due for it: order mismatch, unparseable time, non-positive range, or an overlap warning |
| TimelineValidator.ScanVerdict | scripts/validate_timeline.py:19-37 | after any number of frames, `ok` holds exactly when each of them was accepted |
| TimelineValidator.ScanVerdictIsNoError | scripts/validate_timeline.py:19-37 | after any number of frames, `ok` holds exactly when no error has been reported |
| TimelineValidator.ScanReportsDue | scripts/validate_timeline.py:21-37 | after any number of frames, the reports are exactly those due for them |
| TimelineValidator.ScanInOrder | scripts/validate_timeline.py:21-37 | the reports are for the frames seen so far, in frame order |
| TimelineValidator.ScanLastEnd | scripts/validate_timeline.py:20-34 | after any number of frames, `last_end` is the end of the last frame whose time parsed |
| TimelineValidator.ScanFrames | scripts/validate_timeline.py:19-37 | every frame is checked; `ok` holds exactly when all are accepted and exactly when no error was reported; the reports are exactly the due ones, in frame order; `last_end` is the last parsed end |
| TimelineValidator.FileAcceptedFrames | scripts/validate_timeline.py:21-31 | a file is accepted exactly when each frame's index is its position and `mmss_to_sec` reads its time as a range ending after its start |
| TimelineValidator.ValidateFile | scripts/validate_timeline.py:15-41 | the result is 0 or 1; it is 0 exactly when the file is accepted and exactly when no error was reported; the reports are the due ones; a file without `frames` passes silently |
| TimelineValidator.ValidateFiles | scripts/validate_timeline.py:43-50 | the exit status is 0 or 1; a file on which `validate_file` raises stops the run with status 1 and no later file is checked; the status is 0 exactly when no file raises and every file passes |
| Inventory.GiveStarterItems | src/systems/inventory.rs:38-44 | an empty inventory receives exactly a torch (100), a shovel (40) and a hoe (40), one each; a non-empty one is unchanged; nothing but the slots changes |
| Inventory.GiveStarterItemsIdempotent | src/systems/inventory.rs:38-44 | handing out the starter kit twice gives the same result as once |
| Inventory.IncrementCount | src/systems/inventory.rs:60 | the count grows by one below 2^32 and wraps to 0 at the top |
| Inventory.PickupFood | src/systems/inventory.rs:59-61 | the food slot gains one, keeping its durability, or is created as one food with no durability; no other slot, the equipped item and the progress change |
| Inventory.PickupsAccumulate | src/systems/inventory.rs:59-61 | n pickups add n to the food count (without wrap-around) and touch nothing else |
| SaveGame.SaveFileName | src/systems/savegame.rs:30 | the file name always ends with the save extension and starts with the given name; a name that already has the extension is kept as it is |
| SaveGame.SavePath | src/systems/savegame.rs:27-33 | the path is the save directory followed by a file name with the extension |
| SaveGame.SaveFileNameIdempotent | src/systems/savegame.rs:30 | naming an already named file changes nothing |
| SaveGame.AutosaveNameKept | src/systems/savegame.rs:51 | the autosave file already has the extension, so it is used unchanged |
| SaveGame.Snapshot | src/systems/savegame.rs:43 | the list has one entry per slot, with that slot's key, count and durability, in any order, and no key twice |
| SaveGame.RestoreKeys | src/systems/savegame.rs:76-79 | the restored slots are filed under exactly the items the list names |
| SaveGame.RestoreLast | src/systems/savegame.rs:77-79 | each item's restored slot is the stack built from the last entry for that item |
| SaveGame.SnapshotRestoreRoundTrip | src/systems/savegame.rs:76-79 | restoring a snapshot, in whatever order it lists the slots, gives back the original slots when each slot is filed under its own kind |
| SaveGame.Save | src/systems/savegame.rs:43-47 | the save data holds a snapshot of the slots and the mission progress |
| SaveGame.Load | src/systems/savegame.rs:76-80 | after loading, the slots hold exactly the items the saved list names, each with the count and durability of the last entry for it; the progress is the saved one; the equipped item is kept |
| SaveGame.SaveThenLoad | src/systems/savegame.rs:43-80 | saving then loading gives back the same inventory; loading into another inventory keeps that inventory's equipped item |
| MapColors.HexIntRange | normalize_map_colors.py:50 | a two-character piece reads as a number from -15 to 255, negative only when it holds a '-' |
| MapColors.HexToRgbRange | normalize_map_colors.py:48-50 | every component read is from -15 to 255, and all three are bytes when the text has no '-' |
| MapColors.HexToRgbIgnoresHashes | normalize_map_colors.py:49 | a leading '#' makes no difference to the colour read |
| MapColors.HexRoundTrip | normalize_map_colors.py:48-50 | `hex_to_rgb` reads back any byte colour written as '#' followed by three hex pairs |
| MapColors.LegendKeysCanonical | normalize_map_colors.py:26-40 | the legend has 13 entries; each key is the upper-case `#RRGGBB` rendering of a byte colour, and no two keys denote the same colour |
| MapColors.PaletteTablesAgree | normalize_map_colors.py:98-100 | the hex, name and RGB tables have the legend's length and order; each RGB entry is its hex key read back; the colours are distinct |
| MapColors.RowsVotesRowMajor | normalize_map_colors.py:117-120 | the votes list the window row by row, left to right: the cell at (a, b) is vote (a-y0)*(x1-x0) + (b-x0) |
| MapColors.RowsVotesFromWindow | normalize_map_colors.py:117-120 | every vote is a cell of the window |
| MapColors.WindowSize | normalize_map_colors.py:115-120 | the window has at most (2r+1)² cells, and at least one when the centre is inside the grid |
| MapColors.Leader | normalize_map_colors.py:121 | the value chosen is a vote with no fewer votes than any other, and every value first seen before it has fewer |
| MapColors.MostCommon | normalize_map_colors.py:121 | the most common vote exists exactly when there are votes; it is one of them, has the most votes, and wins ties by first appearance |
| MapColors.MostCommonUnique | normalize_map_colors.py:121 | those three properties determine the chosen value: any value having them is the one returned |
| MapColors.MajorityMode | normalize_map_colors.py:115-121 | there is a result exactly when the window has cells, always for a cell inside the grid; the result is the most common index of the window's votes, the first seen winning ties, and it is the index of a cell in the window |
| MapColors.ModePass | normalize_map_colors.py:165-170 | the grid keeps its shape; every new cell is the most common index among the old cells within one step, the first seen winning ties, and so is one of those old indices |
| MapColors.PassIsLocal | normalize_map_colors.py:166-169 | a new cell depends only on the previous grid's cells within one step of it (the pass reads the copy) |
| MapColors.UniformIsFixed | normalize_map_colors.py:165-170 | a grid holding one index everywhere is unchanged by a pass |
| MapColors.PassesKeepPalette | normalize_map_colors.py:165-170 | palette indices stay within the palette through any number of passes |
| MapColors.UniformSurvivesPasses | normalize_map_colors.py:165-170 | a uniform grid is unchanged by any number of passes |
| MapColors.Recolor | normalize_map_colors.py:171-172 | the colour image has the grid's shape, and every pixel is a byte colour from the palette |
| MapColors.RecolorKeepsIndices | normalize_map_colors.py:171-172 | the index grid can be read back from the recoloured image, because the palette colours are distinct |

## Left out

- YAML and JSON decoding (serde, PyYAML) are not modelled. The loader takes the decoder's outcome as a parameter, and the checker takes decoded frames (`PyFrame`, `PyDoc`). Save data is modelled after decoding. Reading and writing files, `ensure_dir` and path joining (the save path is a directory and a file name) are also left out.
- The floats are not modelled:
  - `f32` seconds in the loader and `float()` in the checker. Fractions, exponents, `inf` and `nan` are not number tokens here, so the loader counts them as 0 where Rust would parse them, and the checker fails on them where Python would accept them.
  - The player position, health and hunger in save data.
  - The LAB/XYZ conversion, `find_nearest_palette` and the distance statistics of the map tool.
- Unicode is not handled in full:
  - Whitespace is the six ASCII whitespace characters, whereas Rust's `trim` and Python's `strip` also remove other Unicode whitespace and, in Python, the separators `\x1c`–`\x1f`. So the loader and the checker also differ on those characters.
  - Python's `int()` also accepts non-ASCII digits and `_` separators; neither is modelled.
- Checker input edge cases are left out:
  - a `frames: null` key, a non-string `time` value, and `bool` indices (Python treats `True == 1`);
  - a float `index` equal to its position (`index: 1.0` passes Python's `!=` test), because `PyFrame` holds integer indices only;
  - which of the raising inputs occurred, and the reports printed for earlier frames before a frame that is not a mapping raises: the model treats every raising file as one `Raises` outcome;
  - the usage error that argparse raises without file arguments (exit status 2).
- All printing and logging are left out, including message texts and the `[OK]` summary.
- Engine details are left out:
  - Bevy's timer resolution in nanoseconds, with ticks in hundredths of a second instead;
  - the ECS wiring in `src/main.rs`;
  - the keyboard triggers F5 and F9;
  - the 1.2-unit distance test that triggers a food pickup.
- Inventory.IncrementCount: the wrap-around is what a release build does; a debug build panics on overflow instead, and the model does not distinguish the two.
- Inventory.PickupsAccumulate: states the count only while it stays below 2^32; past that point `Inventory.IncrementCount` describes the wrap.
- SaveGame.Snapshot: the order of the list is any order, because a `HashMap` iterates in an unspecified order. The method chooses an arbitrary key at each step, and its contract holds for every choice.
- MapColors.HexIntRange: does not model a Python `int()` piece that mixes in non-ASCII digits; such a piece reads as no number here.
- The map tool's image loading and saving, the median filter, the diff image and its printed counts are not modelled. The mode passes are modelled on the index grid alone.
