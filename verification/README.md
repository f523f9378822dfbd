# A verified model of swe-mux's packaging, measuring and panel algorithms

swe-mux is a terminal multiplexer for coding agents. This project models the self-contained algorithms that build,
check and measure its releases, and two small concurrent pieces, and proves what they are for. One Dafny module stands
for one source file or one component of it. Code that works step by step is a method with loops, or a class whose
methods update its fields, proved against a specification; code made of expressions is functions. The main results
are lemmas about the specifications, for all inputs, all runs or all interleavings.

| file | models |
|---|---|
| `EncodeHero.dfy` | the compiler from an edit list to an ffmpeg filter graph, with a meaning for graphs as functions of exact time |
| `LockGraph.dfy`, `VoicePins.dfy`, `LicenseAudit.dfy` | dependency closures over `uv.lock`, what ships and what is fetched, the license gate |
| `WheelSelection.dfy`, `SupportedRange.dfy` | the wheel table: filter, selection, the range a refusal names, the digest's pre-image |
| `ReleaseArtifact.dfy` | the hand-written HTML scanner and the asset checks over it |
| `KeymapFixture.dfy` | the tree diff that writes translation patches, and the reader that applies them |
| `TelemetryBenchmark.dfy` | the canonical form of summaries; batched seeding of per-period segments |
| `SmartTurnGolden.dfy` | the linear congruential generator, its exactness in doubles, the audio window |
| `DesktopRelease.dfy` | the release archive, written and read back |
| `TextLines.dfy`, `Changelog.dfy`, `ReleaseNotes.dfy` | the changelog reader, the validator's checks and the generator of release notes |
| `ActionsTab.dfy` | the "newest request wins" guard of the skills panel |
| `LoadSession.dfy` | two threads of numbered hooks against the ingress that orders them |
| `MetricsStore.dfy`, `TrafficWindow.dfy`, `CloudflareHits.dfy` | the upserted history of metrics |
| `Outcomes.dfy`, `Text.dfy`, `Ordering.dfy` | optional results, Python's strings, stable sorting |

Check it with `dafny verify dfyconfig.toml`.

## Where the code and its own words differ

The model follows the code. Each difference is a lemma.

- `_canon` is described as the normalized name of PEP 503, section "Normalized Names", but replaces each separator by
  itself; it is that name exactly when no two separators are adjacent (`LockGraph.CanonIsNormalizedIff`).
- The test for free-threaded interpreters in `_keeps_interpreter` is dead: it comes after a test that every character
  is a digit (`WheelSelection.FreeThreadingIsNotFiltered`). The platform filter drops plain `linux_*` tags, which Linux
  interpreters accept (`WheelSelection.OnlyManylinuxIsKept`, `WheelSelection.UnsupportedTagLosesItsWheel`).
- `build_filter` dissolves every beat over whatever is shown before it. After a beat shorter than its two dissolves that
  is still a dissolve, and three beats show at once. The film is the intended timeline exactly when every beat that is
  dissolved into the next has room for its overlaps (`EncodeHero.TimelineNeedsRoom`,
  `EncodeHero.HalfSecondIsTooShort`); the script does not check that.
- `encode` lets a cut end 0.05 s after its take. The film is as long as the returned duration exactly when every beat
  from the last soft join onwards has all its footage (`EncodeHero.DurationIsExactIff`); a stretch missing before a
  soft join does not show (`EncodeHero.OverrunShortensUnlessDissolved`).
- `truncate_audio_to_last_n_seconds` keeps the whole recording when the budget is zero samples
  (`SmartTurnGolden.TruncateMeetsItsLengthIff`).
- The HTML scanner does not see a tag whose name is ended by a form feed, as HTML allows
  (`ReleaseArtifact.ScannerSeesAllIff`, `ReleaseArtifact.FormFeedHidesScript`), and reads an asset's name after the last
  `assets/` of its address (`ReleaseArtifact.AssetIsReadIff`).
- The message about an unknown license offers an allowlist entry, which has no effect on one
  (`LicenseAudit.Violations`: an unknown license is never acceptable). A license of the GPL family is recognised where a
  word starts and not within one, so `NGPL` passes (`LicenseAudit.CopyleftIff`, `LicenseAudit.GplInsideAWordPasses`).
- The third test of `section_for` never fires (`Changelog.AnswersIff`). The section reader strips HTML comments and the
  link reader does not (`Changelog.CommentedReferenceCounts`); they read the same text exactly when it holds no comment
  (`Changelog.NothingIsStrippedIff`, `Changelog.ReadersAgreeWithoutComments`). The link check accepts a
  longer tag, the generator does not (`ReleaseNotes.ChecksPassAndBuildFails`).
- A release archive's two containers are said to carry the identical member set, a link stored as the link it is. Only
  the tar does so; a zip stores what the link leads to, and packing stops at a link that leads nowhere. They agree
  exactly when nothing packed is a link (`DesktopRelease.ContainersAgreeIff`, `DesktopRelease.EverythingSurvivesIff`).
  The reader takes backslashes for slashes and so refuses some archives of file names that hold one
  (`DesktopRelease.WriterMeetsReaderIff`, `DesktopRelease.BackslashesAreRefused`).
- A metrics run "corrects" a partial day, but the Cloudflare query's window also begins inside a day: a complete count
  is then overwritten by a partial one, for good (`CloudflareHits.OnceCutAlwaysShort`,
  `CloudflareHits.DailyRunsLoseTheMorning`). The day's total is then less than its stored status rows, some of which are
  no longer reported (`CloudflareHits.DayTotalIsTheSumIff`, `CloudflareHits.CutLeavesAStaleStatus`,
  `CloudflareHits.NoonRunLeavesAStaleStatus`).
- Giving hooks sources of their own keeps the ingress from dropping them, unless a post arrives after its thread has
  given up on it (`LoadSession.NothingIsDroppedIff`, `LoadSession.DroppedIffOvertaken`).

## Model

| member | source | states |
|---|---|---|
| EncodeHero.BuildFilter | trailer/encode_hero.py:122-161 | Builds the specified graph and duration; or fails, exactly when a take is not an input, a speed is zero or there are no beats, with the fault of the first beat that has one. |
| EncodeHero.CutIs | trailer/encode_hero.py:127-145 | In the built graph each beat goes from its take's first place among the inputs through exactly these filters, in this order, to its own pad; an empty crop is none. |
| EncodeHero.ChainMeans | trailer/encode_hero.py:129-146 | A beat's chain of filters turns its take into the beat's own content from time 0, for (end - start) / speed seconds. |
| EncodeHero.JoinAt | trailer/encode_hero.py:149-160 | Joining the next beat, by cross-fade or by concatenation, shows at every time that beat dissolving over all that was shown before, or following it. |
| EncodeHero.CompiledMeansFilm | trailer/encode_hero.py:122-161 | For every beat list and set of hard cuts: each pad is defined once and consumed once afterwards, only `[out]` is left, it shows the beats so joined at every time, and it is as long as the returned duration. |
| EncodeHero.CompiledMeansTimeline | trailer/encode_hero.py:122-161 | When every beat but the first that is dissolved into the next has room for its overlaps, `[out]` shows the intended timeline at every time, at most two beats at once, and is as long as the returned duration. |
| EncodeHero.TimelineNeedsRoom | trailer/encode_hero.py:122-161 | For beats that are not empty, cross-fades that begin within the film, and no earlier footage running on into a beat shorter than a dissolve: `[out]` shows the intended timeline exactly when there is that room. |
| EncodeHero.ThreeAtOnce | trailer/encode_hero.py:148-160 | Wherever two dissolves are under way at once, the beats joined so far are not the timeline. |
| EncodeHero.BothDissolveIff | trailer/encode_hero.py:148-160 | That happens exactly around a beat between two dissolves that is not empty and has no room for both. |
| EncodeHero.HalfSecondIsTooShort | trailer/encode_hero.py:148-160 | With beats of 1.0, 0.5 and 1.0 seconds, the first frame of the second dissolve blends all three. |
| EncodeHero.RunningOnNeedsNoRoom | trailer/encode_hero.py:148-160 | A beat shorter than a dissolve, cut hard out of the take it continues, shows the timeline without room. |
| EncodeHero.DurationLosesOneDissolvePerSoftJoin | trailer/encode_hero.py:148-161 | The returned duration is the sum of the beats' lengths less one dissolve per soft join. |
| EncodeHero.DurationIsExactIff | trailer/encode_hero.py:122-182 | For every beat list that the tolerance of 0.05 s lets through and every set of hard cuts, `[out]` is no longer than the returned duration, and as long exactly when every beat from the last soft join onwards has all its footage. |
| EncodeHero.FilmLasts | trailer/encode_hero.py:122-182 | The compiled graph, run on takes of the probed lengths, ends where concatenation and cross-fades at the computed offsets put it. |
| EncodeHero.OverrunShortensUnlessDissolved | trailer/encode_hero.py:122-182 | Tolerated overruns, in the compiled graph: of a single beat it is missing from the film; of two beats both are after a hard cut, only the second after a dissolve. |
| SmartTurnGolden.LcgNoise | tools/smart_turn_golden.py:47-54 | Fills the array with the samples of the generator's successive states from the script's seed. |
| SmartTurnGolden.FirstDraws | tools/smart_turn_golden.py:47-54 | From every seed, each state follows from the one before by the recurrence with its three constants; the first two draws from the script's seed; the ends and the middle of the samples' range. |
| SmartTurnGolden.StateIsReduced | tools/smart_turn_golden.py:47-54 | Reducing at every draw or once at the end gives the same state. |
| SmartTurnGolden.GeometricHalves | tools/smart_turn_golden.py:47-54 | A power of two divides the sum of powers of the multiplier exactly when it divides the number of terms: the number theory behind the period. |
| SmartTurnGolden.FullPeriod | tools/smart_turn_golden.py:47-54 | From every seed, two draws agree exactly when they lie a multiple of 2^32 draws apart. |
| SmartTurnGolden.NoiseNeverRepeats | tools/smart_turn_golden.py:47-54 | No sample repeats in the first 2^32. |
| SmartTurnGolden.ProductsStayBelow53Bits | tools/smart_turn_golden.py:47-54 | Every product plus increment stays below 2^53. |
| SmartTurnGolden.FloatReplayIsExact | tools/smart_turn_golden.py:47-54 | Under every rounding that fixes doubles, the double-precision replay equals the integer generator draw for draw, and every sample is exact and in [-1, 1). |
| SmartTurnGolden.TruncateKeepsTheEnd | tools/smart_turn_golden.py:37-44 | For a positive budget the result has exactly that many samples and ends as the recording does, silence first when the recording is shorter. |
| SmartTurnGolden.TruncateMeetsItsLengthIff | tools/smart_turn_golden.py:37-44 | The promised length is met exactly when the budget is positive, or is zero on an empty recording; a budget of zero returns the whole recording, and a negative one what follows its first so many samples. |
| KeymapFixture.Collector.Collect | frontend/scripts/gen_keymap_fixture.py:77-85 | Appends, below a path, exactly one patch for each string leaf that differs, and nothing else. |
| KeymapFixture.Collector.CollectFields | frontend/scripts/gen_keymap_fixture.py:78-80 | The same for the fields of a dictionary, whatever their order. |
| KeymapFixture.Collector.CollectItems | frontend/scripts/gen_keymap_fixture.py:81-83 | The same for the items of a list, under the numerals of their indices. |
| KeymapFixture.AssignTranslatesOneLeaf | frontend/scripts/gen_keymap_fixture.py:77-85 | Applying one collected patch translates that leaf and nothing else. |
| KeymapFixture.PatchesTranslate | frontend/scripts/gen_keymap_fixture.py:75-87 | Applying the collected patches to the source in any order yields the translation. |
| KeymapFixture.NoPatchIsSpare | frontend/scripts/gen_keymap_fixture.py:75-87 | Without any one of the collected patches, the others do not yield the translation, in whatever order and however often they are applied. |
| KeymapFixture.PathsArePrefixFree | frontend/scripts/gen_keymap_fixture.py:77-85 | No path of a patch is a prefix of another's, so the paths are distinct. |
| TelemetryFigures.FiguresAreCanonical | tools/telemetry_benchmark.py:302-315 | For an injective canonical text, two summaries have equal figures exactly when they differ only in the order of lists, at any depth, and in coverage entries. |
| TelemetryFigures.FiguresHold | tools/telemetry_benchmark.py:302-315 | Figures hold every field of a dictionary but `coverage`, and of a list the figures of each item once, in ascending order of their canonical texts. |
| TelemetryFigures.FiguresAreIdempotent | tools/telemetry_benchmark.py:302-315 | Taking figures twice is taking them once. |
| TelemetrySeeding.Seeder.Flush | tools/telemetry_benchmark.py:153-175 | Moves the pending rows into the period's segment, ignoring repeated runs and turns, and leaves nothing pending. |
| TelemetrySeeding.Seeder.FlushCurrent | tools/telemetry_benchmark.py:180-181 | Flushing the current period completes its segment and loses nothing. |
| TelemetrySeeding.Seeder.TurnTo | tools/telemetry_benchmark.py:177-183 | Pending rows never mix periods and never make a full batch: another period, or a full batch, is flushed before a row would join it, and otherwise nothing is. |
| TelemetrySeeding.Seeder.Append | tools/telemetry_benchmark.py:184-283 | A call's tool row, and the run and turn rows it opens, are accounted to the call's own period. |
| TelemetrySeeding.Seeder.SeedDirect | tools/telemetry_benchmark.py:118-285 | For every call count, batch size and period function: each period's segment ends up as specified and nothing is pending. |
| TelemetrySeeding.ToolsOfIsThePeriodsCalls | tools/telemetry_benchmark.py:177-285 | A specified segment holds each of its period's calls exactly once, in call order, and no other; each row names the run of 200 calls and the turn of 8 that its call falls in, and its backend, tool and outcome. |
| TelemetrySeeding.OpenersKeepCompany | tools/telemetry_benchmark.py:177-285 | Run and turn rows lie in the segment of the call that opened them; every two-hundredth call opens a run, every eighth a turn, and every opening is there. |
| TelemetrySeeding.TurnsStayInTheirRuns | tools/telemetry_benchmark.py:177-285 | Whatever segments the two rows lie in, a call and the turn it names belong to one run. |
| TelemetrySeeding.OpenedOnce | tools/telemetry_benchmark.py:177-285 | Each run and turn is opened by one call, so the ignoring insert ignores nothing. |
| TelemetrySeeding.EvidenceCountsTools | tools/telemetry_benchmark.py:177-285 | A segment has one stamp for each of its tool rows. |
| TelemetrySeeding.Seed | tools/telemetry_benchmark.py:49-97 | The batches are all events once and in order, each call's use directly before its result and in one batch with it, and only the last batch may fall short. |
| TelemetrySeeding.EventsAre | tools/telemetry_benchmark.py:49-97 | Those events are, call by call, its use and then its result. |
| ReleaseArtifact.ScanAttributes | packaging/verify_release_artifact.py:187-213 | The loop over a tag's text returns the specified attribute map, and ends. |
| ReleaseArtifact.AttributesAreRead | packaging/verify_release_artifact.py:187-213 | Printed attributes read back as the map they denote, with valueless ones and values without quotes between quoted ones. |
| ReleaseArtifact.LastNamedIsDenoted | packaging/verify_release_artifact.py:187-213 | That map gives each name, in any case, the value of its last quoted attribute, and holds no other name. |
| ReleaseArtifact.OddValuesAreDropped | packaging/verify_release_artifact.py:201-213 | A quote that is never closed ends the reading with what was found before it; a quoted value without a name is passed over. |
| ReleaseArtifact.ScanTags | packaging/verify_release_artifact.py:216-230 | The loop over a document returns the specified list of attribute maps, and ends. |
| ReleaseArtifact.ScannerUndoesPrinter | packaging/verify_release_artifact.py:187-230 | Scanning a printed document for a name returns exactly the attribute maps of the separated tags of that name, in order; longer names do not count, and a tag cut off at the end of the document is not found. |
| ReleaseArtifact.ScannedTagsAre | packaging/verify_release_artifact.py:216-230 | Scanning a printed document returns, in order, the map of each opening tag of that name, in any case, whose body is empty or begins with a space, a tab, a line feed, a carriage return or a slash; and nothing else. |
| ReleaseArtifact.ScannerSeesAllIff | packaging/verify_release_artifact.py:216-230 | Scanning a printed document returns every tag of a name, in order, exactly when the body of each is empty or begins with a space, a tab, a line feed, a carriage return or a slash. |
| ReleaseArtifact.FormFeedHidesScript | packaging/verify_release_artifact.py:216-230 | A script whose name is ended by a form feed is not seen, whatever it refers to. |
| ReleaseArtifact.ReferencedAssets | packaging/verify_release_artifact.py:233-259 | The result is strictly sorted and holds exactly the assets that some script or link refers to. |
| ReleaseArtifact.PrintedReferencesAreFound | packaging/verify_release_artifact.py:187-259 | A printed document refers to an asset exactly when the last quoted `src` or the last quoted `href` of some opening `script` or `link` points at it, the tag's body being empty or beginning with one of those five characters. |
| ReleaseArtifact.AddAssets | packaging/verify_release_artifact.py:247-258 | One pass over tags adds exactly the assets they refer to, without repetition. |
| ReleaseArtifact.AddAssetsOf | packaging/verify_release_artifact.py:248-258 | The same for the source and then the address of one tag. |
| ReleaseArtifact.AssetIsReadWhateverTheBase | packaging/verify_release_artifact.py:233-259 | A name is read back whatever base precedes `assets/` and whatever query or fragment follows, when no other `assets/` follows. |
| ReleaseArtifact.AssetIsReadIff | packaging/verify_release_artifact.py:233-259 | With or without a query, that is the only case in which it is read back, unless the last `assets/` stands in the query and happens to be followed by the same name. |
| ReleaseArtifact.AssetNameIff | packaging/verify_release_artifact.py:249-258 | A reference points at an asset exactly when its last `assets/` starts a path segment and the name, which is not empty, stands after it up to the first `?` or `#`; any other, as to an icon, points at none. |
| ReleaseArtifact.CheckFrontendConsistency | packaging/verify_release_artifact.py:335-387 | Each verdict exactly: no index; an index that refers to nothing; assets, sorted and without repetition, that are not among the wheel's names under `swe_mux/static/assets/`; and consistent, with the build's identity, when there is one and nothing else is wrong. |
| ReleaseArtifact.BuildIdIff | packaging/verify_release_artifact.py:262-266 | The build's identity is the content of the first tag called `ui-build`; there is none when there is no such tag or its content is empty. |
| LockGraph.ClosedIsReachable | packaging/generate_voice_pins.py:228-238 | A set of reachable names that contains the seeds and follows every edge is the set of reachable names. |
| LockGraph.EdgesAreAsked | packaging/generate_voice_pins.py:201-206 | An edge leads to a name exactly when some requirement has that name and a marker that holds somewhere. |
| LockGraph.ReachableByChain | packaging/generate_voice_pins.py:209-238 | A name is reachable exactly when a chain of lock entries leads to it, the first asked for by the root, an extra or a group, each next by the one before, every time under a live marker. |
| LockGraph.IndexHoldsTheLast | packaging/generate_voice_pins.py:171-173 | Of several lock entries under one name the index holds the last. |
| LockGraph.ReachableFromUnion | packaging/generate_voice_pins.py:209-238 | What a union of seeds reaches is what either reaches. |
| LockGraph.ReachableIsMonotone | packaging/license_audit.py:339-376 | More seeds and more live markers reach no less. |
| LockGraph.CanonIsNormalizedIff | packaging/generate_voice_pins.py:167-168 | The generator's canonical name is the PEP 503 name exactly when no two separators are adjacent. |
| LockGraph.CanonMeetsIff | packaging/generate_voice_pins.py:167-168 | Two names have one canonical name exactly when they agree but for the case of letters and the choice of separators; a canonical name is its own. |
| VoicePins.Closure | packaging/generate_voice_pins.py:209-238 | Exactly the names to which a chain of live requirements leads from the root and the named extras and groups, missing entries being leaves, on every lock, cyclic or not. |
| VoicePins.Drain | packaging/generate_voice_pins.py:226-238 | The worklist loop ends with exactly the names to which a chain leads from its seeds, whatever order it pops them in. |
| VoicePins.WholeIsKeptOrVoice | packaging/generate_voice_pins.py:241-248 | The whole closure is the base closure together with what the voice seeds reach. |
| VoicePins.AcquiredPackages | packaging/generate_voice_pins.py:241-248 | Sorted and without repetition, exactly the packages to which a chain leads with the extra `voice-local` and the group `g2p-model`, none without them, and which are not `en-core-web-sm`. |
| VoicePins.KeptNeedsNothingAcquired | packaging/generate_voice_pins.py:241-248 | No shipped package has an edge to an acquired one. |
| VoicePins.AcquiredNeedsAreCovered | packaging/generate_voice_pins.py:241-248 | Every edge out of an acquired package ends in an acquired, shipped or separately owned one. |
| WheelSelection.FreeThreadingIsNotFiltered | packaging/generate_voice_pins.py:135-150 | Apart from `abi3`, the ABI never decides: a free-threaded wheel is kept exactly when the ordinary one is. |
| WheelSelection.KeptInterpreters | packaging/generate_voice_pins.py:135-150 | `py` and anything after it is kept; `cp`, a digit and a minor version are kept for minor versions 12 to 14, and with the stable ABI for any up to 14. |
| WheelSelection.OtherInterpretersAreDropped | packaging/generate_voice_pins.py:135-150 | Every other interpreter tag is dropped. |
| WheelSelection.KeepsIff | packaging/generate_voice_pins.py:115-164 | A wheel is kept exactly when its name can be parsed and one of its tags has a kept interpreter and a platform that begins and ends in the listed ways. |
| WheelSelection.OnlyManylinuxIsKept | packaging/generate_voice_pins.py:127-132 | Plain Linux and musl platforms are never kept. |
| WheelSelection.RowsOf | packaging/generate_voice_pins.py:262-291 | One distribution's rows are its kept wheels in the lock's order; refused exactly when it has wheels and the filter keeps none, or keeps one whose hash is not SHA-256. |
| WheelSelection.WheelRows | packaging/generate_voice_pins.py:251-307 | The table holds exactly the kept wheels, ordered by lower-cased distribution and then by file name; refused exactly when a name has no entry or a distribution cannot be tabulated, with the fault of the first such name. |
| WheelSelection.TableHoldsIff | packaging/generate_voice_pins.py:265-291 | A row is in the table exactly when it carries the name, version, last part of the address, address, bare SHA-256 hash and size of a kept wheel of a named distribution. |
| WheelSelection.WheelsForThisInterpreter | packaging/generate_voice_pins.py:431-486 | Refused, naming them, exactly when some distribution has no loadable wheel; otherwise the least-ranked wheel of each distribution, once, ties to the first row, sorted by file name. |
| WheelSelection.SelectionIsUnique | packaging/generate_voice_pins.py:456-468 | A distribution has at most one selection. |
| WheelSelection.SelectsIff | packaging/generate_voice_pins.py:456-468 | A wheel is selected exactly when, of its distribution's wheels, it has the best place among the accepted tags, counting the last place of each tag, and comes first of those that share it. |
| WheelSelection.FilterPreservesSelectionIff | packaging/generate_voice_pins.py:153-164 | Selecting from kept rows and from all rows agree exactly when the wheel selected from all rows is kept. |
| WheelSelection.SupportedInterpreterLosesNothing | packaging/generate_voice_pins.py:127-164 | For an interpreter that accepts only tags the filter keeps, filtering changes no selection on any table. |
| WheelSelection.EmittedTableSelectsAsLock | packaging/generate_voice_pins.py:251-307 | From every lock, such an interpreter selects from the emitted table exactly what it would select from all wheels of the lock. |
| WheelSelection.UnsupportedTagLosesItsWheel | packaging/generate_voice_pins.py:127-164 | An accepted tag that the filter drops loses a loadable wheel. |
| WheelSelection.KeptOfSorted | packaging/generate_voice_pins.py:265-307 | Filtering and sorting commute, for all rows. |
| WheelSelection.TableForgetsOrderIff | packaging/generate_voice_pins.py:307-307 | Every rearrangement of the rows gives the same table exactly when no two different rows share distribution and file name. |
| WheelSelection.DigestInput | packaging/generate_voice_pins.py:311-321 | The digest consumes the specified pre-image. |
| WheelSelection.PreImageOfNext | packaging/generate_voice_pins.py:311-321 | A further row adds its file name, hash and size to the end of the pre-image, each followed by a line feed. |
| WheelSelection.PreImageIsDecodable | packaging/generate_voice_pins.py:311-321 | For newline-free names and hashes, two tables have one pre-image exactly when their file names, hashes and sizes agree in order. |
| SupportedRange.SupportedPythonRange | packaging/generate_voice_pins.py:377-428 | The range runs from the least to the greatest version for which every version-bound distribution has a wheel; it fails exactly on a tag whose interpreter is a bare `cp`. |
| SupportedRange.BoundVersionIs | packaging/generate_voice_pins.py:405-413 | A tag names a version exactly as written: `cp`, a digit, a numeral that zeros may precede, and an ABI of CPython's. |
| SupportedRange.OtherTagsNameNoVersion | packaging/generate_voice_pins.py:405-413 | Every other tag names none. |
| SupportedRange.FreeIff | packaging/generate_voice_pins.py:405-408 | A distribution is free exactly when a wheel of it has a tag whose interpreter or ABI is not CPython's. |
| SupportedRange.Gather | packaging/generate_voice_pins.py:396-415 | The first loop gathers which distributions some wheel frees from versions, and the versions of the others. |
| SupportedRange.Intersect | packaging/generate_voice_pins.py:416-420 | The second loop intersects the versions of the bound distributions only. |
| SupportedRange.ServedInterpreterIsInRange | packaging/generate_voice_pins.py:377-428 | An interpreter for which the selector finds every distribution is never outside the range that a refusal names. |
| LicenseAudit.PythonClosure | packaging/license_audit.py:324-381 | Maps exactly the names to which a chain of live requirements leads, with the extra `voice-local` and the group `g2p-model`, to their locked versions; raises exactly when the root or a group is missing or such a name has no entry. |
| LicenseAudit.Walk | packaging/license_audit.py:364-381 | The worklist loop ends with exactly the names to which a chain leads from its seeds, or stops at one without an entry. |
| LicenseAudit.CanonicalIndexesAgree | packaging/license_audit.py:334-334 | On canonical names, indexing the lock by name and by canonical name are one. |
| LicenseAudit.AuditCoversVoiceClosure | packaging/license_audit.py:324-381 | On canonical names and one marker predicate, what the audit walks is exactly the voice generator's whole closure. |
| LicenseAudit.ClassIgnoresCase | packaging/license_audit.py:236-298 | Texts that differ only in the case of letters have one class. |
| LicenseAudit.CopyleftNeverPasses | packaging/license_audit.py:236-298 | A text with a GPL-family abbreviation at the start of a word, or one of the family's titles anywhere, is classed as copyleft, whatever surrounds it; LGPL as weak copyleft, although it contains GPL. |
| LicenseAudit.CopyleftIff | packaging/license_audit.py:236-298 | A text is classed as copyleft exactly when it has one of the family's titles, or a GPL that starts a word or follows an A or L that does; as weak exactly when a lesser or library title, or such an L, is among them. |
| LicenseAudit.FileLevelIff | packaging/license_audit.py:238-298 | A text outside the GPL family is file-level copyleft exactly when `MOZILLA PUBLIC` or `ECLIPSE PUBLIC` stands in it, or `MPL`, `EPL` or `CDDL` as a word, in any case; otherwise it is permissive, or unknown when blank. |
| LicenseAudit.GplInsideAWordPasses | packaging/license_audit.py:236-298 | GPL after any other character of a word, as in `NGPL`, passes as permissive. |
| LicenseAudit.Violations | packaging/license_audit.py:526-554 | One problem for each package, in order, whose license is blank, or names the GPL family while the package is in no list; so none exactly when every license says something and every such package is listed. |
| LicenseAudit.AcceptableIff | packaging/license_audit.py:526-554 | The gate by categories and the gate by what the license says agree on every package. |
| LicenseAudit.KnownIsRecorded | packaging/license_audit.py:593-597 | The recorded map has exactly the names recorded for the ecosystem, each with the version of its last record. |
| LicenseAudit.DriftOf | packaging/license_audit.py:598-614 | Exactly the differences between recorded and locked, so none exactly when they agree. |
| LicenseAudit.Check | packaging/license_audit.py:820-835 | The exit code is 0 exactly on a record that has the locked names and versions, only licenses that say something, every package of the GPL family in a list, and the notices it renders to on disk; it stops exactly without a record, root, group or entry. |
| LicenseAudit.AuditIsSound | packaging/license_audit.py:820-835 | Exit code 0 means that every package to which a chain leads is recorded at its locked version, under a license that says something and, if it names the GPL family, in a list. |
| DesktopRelease.SplitOfPosix | packaging/package_desktop_release.py:107-127 | Splitting a member's name at its slashes gives back the path it was made from. |
| DesktopRelease.SplitHolds | packaging/package_desktop_release.py:107-127 | The parts of a name are exactly what stands in it between slashes and ends. |
| DesktopRelease.Members | packaging/package_desktop_release.py:107-127 | Under distinct names, exactly the files and links of a tree at every depth, each as root, slash and path, but for the app's own root-level `files.json`. |
| DesktopRelease.SiblingBundles | packaging/package_desktop_release.py:130-143 | Finds exactly `swe-mux-supervisor` and `swe-mux-cli` beside the app, and nothing the archive would refuse. |
| DesktopRelease.WriteTar | packaging/package_desktop_release.py:228-232 | The tar branch stores every listed file, and every link as a link. |
| DesktopRelease.WriteZip | packaging/package_desktop_release.py:234-238 | The zip branch stores a link to a file as that file's contents and a link to a directory as an entry for a directory, and fails at the first link that leads nowhere. |
| DesktopRelease.BuildArchive | packaging/package_desktop_release.py:168-244 | Refused with each fault exactly when it is there; otherwise a reader finds under the app's root the new manifest and every other file and link of the app, under each sibling's root every file and link of the sibling, as the container keeps them, and nothing else. |
| DesktopRelease.ContainersAgreeIff | packaging/package_desktop_release.py:107-238 | Tar and zip hold the same list of members exactly when nothing packed is a link. |
| DesktopRelease.ArchiveNamesAreDistinct | packaging/package_desktop_release.py:168-238 | The new manifest comes first and no two members of an archive share a name, in either container. |
| DesktopRelease.ArchiveRoundTrip | packaging/package_desktop_release.py:168-244 | For each container: splitting by root gives back exactly what the container stores of every tree, but for the app's root-level manifest, in whose place the new one stands; deeper files of that name survive. |
| DesktopRelease.ArchiveHolds | packaging/package_desktop_release.py:107-238 | The same on the trees alone: at every path, whatever its depth, a file as its contents, a link as the link in a tar and as what it leads to in a zip, and nothing else but the manifest. |
| DesktopRelease.EverythingSurvivesIff | packaging/package_desktop_release.py:107-238 | Everything packed comes back as the file or link it was exactly when the container is a tar or nothing packed is a link. |
| DesktopRelease.WriterMeetsReaderIff | src/swe_mux/bundle_archive.py:136-173 | The reader's validation admits what the writer packs exactly when no packed path has a component that climbs once backslashes are read as slashes. |
| DesktopRelease.PassesIff | src/swe_mux/bundle_archive.py:136-173 | The reader admits a name exactly when, with backslashes read as slashes, it is one of the three roots or lies under one, and `..` stands nowhere in it. |
| DesktopRelease.BackslashesAreRefused | src/swe_mux/bundle_archive.py:136-173 | An archive with a component `a\..\b`, an ordinary name where backslashes separate nothing, is refused. |
| TextLines.LinesOfTerminated | packaging/verify_release_unit.py:433-433 | Splitting printed lines gives back the lines. |
| TextLines.LinesOfEnded | packaging/verify_release_unit.py:433-433 | Each line is read up to its own ending: one of ten characters, or a carriage return and a line feed together. |
| TextLines.LinesOfJoin | packaging/verify_release_unit.py:462-463 | Splitting joined lines gives back the lines when the last is not empty. |
| TextLines.StripIff | packaging/verify_release_unit.py:463-463 | What is left of a stripped text is exactly the part with whitespace around it and none at its own ends. |
| TextLines.StripOfJoin | packaging/verify_release_unit.py:463-463 | Stripping joined lines is joining the lines that are left when blank ones at the ends go and the outer two are stripped. |
| Changelog.ChangelogSections | packaging/verify_release_unit.py:428-445 | The loop returns the table of the document's sections, labels in first-seen order. |
| Changelog.HeadingLabelIff | packaging/verify_release_unit.py:284-284 | A line is a section's heading exactly when it is two hashes, whitespace and a label in brackets, from its first character on; the label lacks `]` and is not empty. |
| Changelog.ParseIsTheOnlyReading | packaging/verify_release_unit.py:428-445 | Every line falls in the preamble or in exactly one section, in exactly one way. |
| Changelog.TableKeepsAllIff | packaging/verify_release_unit.py:430-445 | The table keeps every section exactly when labels are distinct, and is then the list of sections in order. |
| Changelog.TableIsInFirstUse | packaging/verify_release_unit.py:437-444 | The table has each label once, in the order of first use, with the body of the last section so labelled. |
| Changelog.PrintedChangelogIsRead | packaging/verify_release_unit.py:428-445 | A printed changelog reads back as its sections. |
| Changelog.AnswersIff | packaging/verify_release_unit.py:475-480 | A section answers for a version exactly when its label up to the first space is the version. |
| Changelog.SectionForIsFirst | packaging/verify_release_unit.py:475-480 | The first such section is found; none exactly when there is none; and no label answers for two versions. |
| Changelog.ChangelogLinks | packaging/verify_release_unit.py:466-472 | Maps each name to the address of its last reference. |
| Changelog.LinkForIsLast | packaging/verify_release_unit.py:466-472 | An address is a name's exactly when it is the one on the last line that refers to the name. |
| Changelog.ReferenceOnIff | packaging/verify_release_unit.py:285-285 | A line is a link reference exactly when, within whitespace, it is a name in brackets, a colon and an address without whitespace. |
| Changelog.CommentedReferenceCounts | packaging/verify_release_unit.py:466-472 | A reference inside an HTML comment is no part of any section and yet is the one the link reader returns. |
| Changelog.NothingIsStrippedIff | packaging/verify_release_unit.py:424-425 | Stripping comments leaves a text alone exactly when no opening is followed, beyond its own four characters, by a closing. |
| Changelog.CommentsAreCut | packaging/verify_release_unit.py:424-425 | A comment is cut from its opening to the first closing after it, and what follows is read in the same way. |
| Changelog.ReadersAgreeWithoutComments | packaging/verify_release_unit.py:428-472 | On such a text both readers see the same lines and every name has one address. |
| Changelog.NotesBodyIsIdempotent | packaging/verify_release_unit.py:448-463 | Publishing what is published changes nothing. |
| Changelog.NotesBodyIsEmptyIff | packaging/verify_release_unit.py:448-463 | A section publishes nothing exactly when each of its lines is blank or a link reference. |
| Changelog.NotesBodyIsStripped | packaging/verify_release_unit.py:448-463 | What is published is the lines kept, joined, from the first character that is not whitespace to the last. |
| ReleaseNotes.VersionsAreInk | packaging/verify_release_unit.py:139-139 | A version holds only digits, dots and the letters of its suffix, so neither a space nor a bracket. |
| ReleaseNotes.ReleaseTagIsRead | packaging/verify_release_unit.py:139-139 | The tag of every numbered release is read back as its version. |
| ReleaseNotes.IsVersionIff | packaging/verify_release_unit.py:139-139 | A version is exactly three numerals with dots between them, and perhaps `a`, `b` or `rc` and a fourth. |
| ReleaseNotes.VersionOfIff | packaging/verify_release_unit.py:139-139 | A tag names a version exactly when it is `v` and the version, with at most a line feed after them. |
| ReleaseNotes.EntryVerdictIff | packaging/verify_release_unit.py:985-1054 | Each verdict exactly, by the lines of two sections: the version has none; none of its lines says anything; a line under `Unreleased` does, which fails a release and not development; or all is written. |
| ReleaseNotes.CheckLinksIff | packaging/verify_release_unit.py:1057-1092 | The link check passes exactly when the last reference to the version names its tag after a slash and the last one to `Unreleased` compares from that tag to `HEAD`. |
| ReleaseNotes.BuildSucceedsIff | packaging/release_notes.py:106-136 | Notes are built exactly when the tag is one, the validator's entry check passes at the development stage, and the version's reference ends with the tag's release page; they are that same section and a link into that repository. |
| ReleaseNotes.BuildFailsIff | packaging/release_notes.py:80-136 | Each refusal exactly: the tag is none; the validator's entry check finds no section, or an empty one; the version has no reference; its reference does not end with the tag's release page. |
| ReleaseNotes.BuiltTagIsCanonical | packaging/release_notes.py:80-103 | Although the pattern lets a final line feed pass, a tag that is built is `v` and its version. |
| ReleaseNotes.BuiltReferenceNamesTag | packaging/verify_release_unit.py:1048-1092 | A build implies the release half of the link check. |
| ReleaseNotes.ChecksPassAndBuildFails | packaging/verify_release_unit.py:985-1092 | For every version there are changelogs that pass both checks at either stage and of which no body can be built: their reference is to a longer tag. |
| ActionsTab.Panel.LoadSkills | frontend/src/ActionsTab.tsx:75-76 | Takes the next ticket and sends a request under it. |
| ActionsTab.Panel.RunEffect | frontend/src/ActionsTab.tsx:93-97 | Takes a ticket, blanks the panel, and sends a request when an agent is focused. |
| ActionsTab.Panel.Focus | frontend/src/ActionsTab.tsx:93-97 | A render runs a due effect, and makes one due exactly when what it depends on changed. |
| ActionsTab.Panel.ClickRefresh | frontend/src/ActionsTab.tsx:152-152 | Sends another request and leaves what is shown. |
| ActionsTab.Panel.Settle | frontend/src/ActionsTab.tsx:77-90 | A landing under the newest ticket shows the inventory, or the error, and one under any other changes nothing that is shown. |
| ActionsTab.RefreshKeepsTheDisplay | frontend/src/ActionsTab.tsx:152-152 | Asking again sends a request for what is focused and leaves what is shown; without a focused agent nothing is asked; rendering the same focus changes nothing. |
| ActionsTab.OnlyTheFocusedSessionIsShown | frontend/src/ActionsTab.tsx:71-97 | In every run, with no effect due: without a focused agent the panel is blank; with one, the newest request is for it, an inventory that answered it is what is shown, or the error that did, and until it lands the panel is blank or shows the answer to an earlier request for the same. |
| ActionsTab.StaleUntilTheEffect | frontend/src/ActionsTab.tsx:91-97 | Between a render and its effect another session's answer does stand, whatever the two sessions. |
| ActionsTab.StaleResponseChangesNothing | frontend/src/ActionsTab.tsx:85-88 | A response to any request but the newest changes nothing. |
| ActionsTab.NewestDecides | frontend/src/ActionsTab.tsx:71-90 | Over every sequence of landings the newest request's first outcome alone decides what is shown: its inventory, its error, or what was shown before. |
| ActionsTab.LandingOrderIsIrrelevant | frontend/src/ActionsTab.tsx:71-90 | Two orders of landing with that outcome leave the same panel. |
| LoadSession.Ingress.Ingest | src/swe_mux/routes/agent_ingress.py:295-325 | Raises exactly on a number below 1 or an empty source; otherwise drops a number exactly when it is at or below the last one of its source, whose name is cut to 64 characters. |
| LoadSession.SharesKeyIff | src/swe_mux/routes/agent_ingress.py:295-325 | The ingress takes two names for one exactly when they are equal or share their first 64 characters. |
| LoadSession.HookSource.Post | tools/load_session_generator.py:374-388 | Numbers a hook and posts it, and the post is handled, lost, or given up on while still on its way: two steps of the protocol. |
| LoadSession.DecisionSource.Decide | tools/load_session_generator.py:302-330 | Numbers a request and posts it, to the same three ends, and goes on to its tool exactly when it was handled, accepted and allowed: two steps of the protocol. |
| LoadSession.DecisionSource.Report | tools/load_session_generator.py:331-334 | Numbers and posts the report of the granted tool, to the same three ends: two further steps. |
| LoadSession.NothingIsProcessedTwice | src/swe_mux/routes/agent_ingress.py:295-325 | In every run, with losses and late arrivals, no source's number is processed twice or out of order. |
| LoadSession.NothingIsDropped | tools/load_session_generator.py:302-388 | With names the ingress tells apart, no interleaving of the two threads has a hook dropped. |
| LoadSession.SharedNameDrops | tools/load_session_generator.py:255-267 | With one name, a run drops a decision and its tool never runs. |
| LoadSession.NothingIsDroppedIff | tools/load_session_generator.py:255-267 | No synchronous run drops anything exactly when the cut names differ, or there are no names and every post is refused. |
| LoadSession.GeneratorDropsNothing | tools/load_session_generator.py:199-267 | The generator's own two names are safe. |
| LoadSession.DroppedIffOvertaken | tools/load_session_generator.py:302-388 | With such names, in every run with losses, timeouts and late arrivals: nothing is dropped exactly when no post arrives late after its number or a higher one of its source was processed. |
| LoadSession.OvertakenPostIsDropped | tools/load_session_generator.py:120-138 | Such a run: a post given up on that arrives after its successor is dropped, whatever the names. |
| MetricsStore.Database.WriteObservations | tools/metrics_snapshot.py:211-233 | Upserts the observations in order and returns how many there were. |
| MetricsStore.Database.Snapshot | tools/metrics_snapshot.py:628-676 | Writes what each source collected; records every attempt, a failed one with no rows and a successful one with as many as it wrote; returns the failing sources; and writes nothing in a dry run. |
| MetricsStore.UpsertStoresLastValues | tools/metrics_snapshot.py:211-233 | Upserting stores each key's last value and leaves every other row alone. |
| MetricsStore.HistoryHoldsLastRows | tools/metrics_snapshot.py:211-233 | After any history, each key holds the last row written for it. |
| MetricsStore.LastRowIff | tools/metrics_snapshot.py:211-233 | A row is the last written for a key exactly when it is the last observation of the key in the last successful attempt that has one, with that attempt's time. |
| MetricsStore.NoKeyIsLost | tools/metrics_snapshot.py:211-233 | No stored key is ever lost. |
| MetricsStore.RerunChangesNoValue | tools/metrics_snapshot.py:211-233 | Writing the same observations again changes no value. |
| MetricsStore.FailureCostsNothing | tools/metrics_snapshot.py:628-647 | The table is what the successful sources alone would leave. |
| TrafficWindow.CollectTraffic | tools/metrics_snapshot.py:456-479 | Two observations for each dated row, views before clones; refused exactly when an answer is not an object. |
| TrafficWindow.CollectKind | tools/metrics_snapshot.py:469-478 | The inner loop, for one kind. |
| TrafficWindow.TrafficIsFromRows | tools/metrics_snapshot.py:466-479 | The observations are exactly the count and the uniques of every dated row, under `views.count`, `views.uniques`, `clones.count` and `clones.uniques`. |
| TrafficWindow.StoredDaysAreCovered | tools/metrics_snapshot.py:456-479 | Each of the four metrics of a day is stored exactly when some run's window held the day, with what the last such run read. |
| TrafficWindow.MissedDaysAreTheExcess | tools/metrics_snapshot.py:456-463 | Over every increasing sequence of runs, the days missed number the sum of the excesses of the gaps over the window. |
| TrafficWindow.MissingRowsAreTheExcess | tools/metrics_snapshot.py:456-479 | And so many rows of each of the four metrics are missing from the table. |
| TrafficWindow.NothingIsMissedIff | tools/metrics_snapshot.py:456-463 | Nothing is missed exactly when no gap exceeds the window. |
| TrafficWindow.PartialDayIsCorrectedIff | tools/metrics_snapshot.py:211-219 | A day's stored count was read after that day exactly when a later run came before the window passed it. |
| CloudflareHits.CollectCloudflare | tools/metrics_snapshot.py:373-395 | A status observation for each row, then a total for each day in first-seen order; refused exactly without data. |
| CloudflareHits.CollectedIff | tools/metrics_snapshot.py:378-395 | The observations are exactly each row's hits under its day, from midnight to midnight, and its status without its fraction, and each day's total under `version_check.hits`. |
| CloudflareHits.Accumulate | tools/metrics_snapshot.py:378-390 | The first loop's status rows and running totals. |
| CloudflareHits.StatusKeysDiffer | tools/metrics_snapshot.py:387-390 | Different days or statuses have different keys. |
| CloudflareHits.StatusesAfterRun | tools/metrics_snapshot.py:378-395 | After a run, a day's stored status rows add up to what the run wrote and what was stored before under statuses it did not report. |
| CloudflareHits.DayTotalIsTheSumIff | tools/metrics_snapshot.py:378-395 | A reported day's stored total is the sum of its hits; with distinct statuses, its stored status rows add up to it exactly when every status stored before is reported again; and when every one is, exactly when no two rows of the day round to one status. |
| CloudflareHits.StatusesStayPositive | tools/metrics_snapshot.py:378-395 | Runs that report positive counts keep all stored status rows positive. |
| CloudflareHits.CutLeavesAStaleStatus | tools/metrics_snapshot.py:357-395 | A status of a day that one run counts and the next, whose window begins within the day, does not: the day's stored status rows exceed its stored total. |
| CloudflareHits.NoonRunLeavesAStaleStatus | tools/metrics_snapshot.py:357-395 | Such runs and requests, for every day and every window of whole days. |
| CloudflareHits.TotalReported | tools/metrics_snapshot.py:357-395 | The total that is collected from an answer with a row for each counted status is the number of requests that the query counted, and is absent when there are none. |
| CloudflareHits.StoredTotalIsCompleteIff | tools/metrics_snapshot.py:357-395 | After any runs with such answers, a day's stored total is complete exactly when the window of the last run that saw the day held all its requests. |
| CloudflareHits.OnceCutAlwaysShort | tools/metrics_snapshot.py:357-395 | Once a window begins between two requests of a day, that day's stored total is short, and stays short. |
| CloudflareHits.DailyRunsLoseTheMorning | tools/metrics_snapshot.py:357-395 | Daily runs at one time of day leave every past day short of the requests made before that time. |
| Ordering.SortSorts | packaging/generate_voice_pins.py:307-307 | Sorting returns a permutation in order. |
| Ordering.StringLeIff | packaging/generate_voice_pins.py:307-307 | One string precedes another exactly when they agree up to a place where it ends or has the lesser character. |
| Ordering.SortForgetsOrderIff | packaging/generate_voice_pins.py:307-307 | A stable sort depends only on the elements exactly when no two different elements tie. |
| Text.DecimalIsInjective | packaging/generate_voice_pins.py:311-321 | Different numbers have different numerals. |

## Left out

- The daemon itself: processes, terminals, the supervisor and the update installer, and everything else imported from
  `swe_mux`; the reader of archives and the hook ingress are modelled as far as the properties above need them.
- Orchestration scripts (building, installing, redeploying), rendering, screen capture, network clients, logging and
  argument parsing.
- Byte formats and engines: TOML, JSON, zip and tar encodings, SQLite, SHA-256, environment markers and the parsing of
  wheel file names enter as parsed data or parameters; the regular expressions of the changelog and of the licenses are
  written out as functions on strings.
- ffmpeg's encoding, resampling to 30 frames per second, and the rounding of printed offsets to three decimals: times
  are exact reals.
- Letters and digits beyond ASCII in lower-casing, in `\d` and `int`, and as characters of a word before `\b`: a GPL
  after such a letter passes in the script and is copyleft here.
- The wording of diagnostics: a check is a verdict and the facts behind it.
- `EncodeHero.CompiledMeansTimeline`: a cross-fade before the film begins, as after a first beat shorter than its
  dissolve, is taken to start within its second input; ffmpeg does not document negative offsets.
- `EncodeHero.TimelineNeedsRoom`: leaves out such cross-fades, empty beats, and footage that happens to run on into a
  short beat, where a film without room can be the timeline (`EncodeHero.RunningOnNeedsNoRoom`).
- `TelemetryFigures.FiguresAreCanonical`: assumes that the canonical JSON text is injective, which is `canonical_json`'s
  purpose and is not modelled; atoms are values of one kind.
- `TelemetrySeeding.Seeder.SeedDirect`: rows carry the fields that tie them to a call, a run or a turn; clock arithmetic
  is a parameter giving each call its period.
- `DesktopRelease.Members`: the order in which the tree is visited, which the script sorts, is left open.
- `DesktopRelease.BuildArchive`: the renaming of the finished archive, its two sidecar files and the order of the
  sibling bundles are not stated; what a link leads to is a field of the link; tar's hard links and the extractor's own
  refusals are not modelled.
- `KeymapFixture.PatchesTranslate`: the source is a dictionary or a list, as the fixture is; a lone string would get a
  patch with an empty path, which the reader cannot apply.
- `LicenseAudit.Check`: the npm closure and the rendering of notices are parameters.
- `SupportedRange.SupportedPythonRange`: reports the range, not its text; that a range may name a version between two
  supported ones is the script's own stated limit.
- `ActionsTab.OnlyTheFocusedSessionIsShown`: effects run in order, before the next render at the latest; the search box
  and the other views of the tab are not modelled.
- `LoadSession.Ingress.Ingest`: checks and records a number in one step. The route checks at
  src/swe_mux/routes/agent_ingress.py:307-322 and records at 446-449, with awaits between. It is assumed that no other
  hook of the session is checked meanwhile, which holds as long as none of those awaits suspends for the two event types
  these threads post; `LoadSession.NothingIsProcessedTwice`, `LoadSession.NothingIsDropped` and
  `LoadSession.DroppedIffOvertaken` depend on it.
- `LoadSession.NothingIsDropped`: the random waits between posts, statistics and payloads are left out, as are the
  other load sources; a number that is no integer is not modelled.
- `TrafficWindow.StoredDaysAreCovered`: assumes that an answer holds a row for each day of the window.
- `CloudflareHits.DayTotalIsTheSumIff`: sums are exact reals, and counts are positive, as sums of sampling intervals
  are.
- `CloudflareHits.OnceCutAlwaysShort`: the analytics service is modelled as counting every request in the window;
  sampling is left out.
- The other three metric sources: their observations are stored by the same upsert.
