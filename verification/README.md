# bd2-reroll-bot, modelled in Dafny

bd2-reroll-bot rerolls a gacha game. It captures the screen, finds button
templates by OpenCV template matching, clicks them, and counts five-star
results. The bot comes in three near-duplicate scripts:

- `components/find.cjs` is the current one. It scales templates to the window
  and can be stopped with ESC.
- `index.cjs` is the older CommonJS script.
- `index.mjs` is the older ES-module script.

Small helpers sit beside them: `components/settings.cjs`,
`components/stats.cjs` and `components/log.cjs`.

This project models the logic of all of them that does not depend on the
outside world:

- **Score grid.** `cv.matchTemplate` produces a grid of correlation scores.
  Here that grid is an input (`ScoreGrid`). `cv.minMaxLoc` is modelled as an
  argmax that picks the first maximum in row-major order, which is OpenCV's
  tie rule.
- **Click and count** (`Suppression`, `Matching`). In click mode the script
  clicks the best match. In count mode it runs a non-maximum suppression
  loop. The model covers all three variants:
  - `>` against `>=` when counting;
  - an out-of-range `roi()` in find.cjs and index.cjs, which is an error
    outcome, against the clipped `cv.rectangle` of index.mjs;
  - the loop that never ends when the threshold is not positive.
- **Resolution scaling** (`Scale`). The factor is the window height over 1080
  on both axes. A scaled side is `Math.round(w*H/1080)`, computed exactly.
- **Screen capture** (`Capture`). Padded BGRA rows are converted to packed
  RGBA with alpha 255.
- **Settings file** (`Settings`). The default text is written out, then read
  back by the line parser.
- **Run record** (`Stats`). This covers the hour key, the pull counters and
  the five-star histogram.
- **Console styling** (`Log`). The line `logWithStyle` prints.
- **Pull loops** (`PullCommon`, `PullLoopFind`, `PullCycleCjs`,
  `PullCycleMjs`). Each `pullForMe` is a state machine. It is driven by the
  replies its `findAndClick` / `find` calls meet, one reply per call. A
  reply is the match outcome for the frame captured at that call, plus
  whether ESC was pressed and the hour the clock showed. A run ends:
  - normally;
  - in the `catch`;
  - in a count loop that never returns;
  - or when the replies run out.

Some of the modelled behaviour is surprising. All of it is what the code does:

- In find.cjs, `find("5star.png", settings.fiveStarsToScreenshot, 0.9)`
  passes the setting as the match threshold, because `find` takes
  `(fileName, threshold)`.
- In find.cjs, a positive five-star count reads the undeclared
  `saveImageIfAtLeastNumberFound`. The `ReferenceError` ends the loop through
  the `catch`, and nothing is saved (`PullLoopFind.PullForMeFacts`).
- In index.mjs, `find("5star.png", 2_000)` passes 2000 as the delay, not as
  a threshold.
- In find.cjs, `getScaleFactor` only logs when no window matches. Line 24
  (`targetWindow.bringToTop()`) then throws, so the call fails.

## Model

| member | source | states |
|---|---|---|
| ScoreGrid.GridMax | components/find.cjs:159 | the location `minMaxLoc` reports is a maximum of the grid, and no earlier cell in row-major order reaches it |
| ScoreGrid.FirstMaxUnique | components/find.cjs:159 | the tie rule picks exactly one location |
| ScoreGrid.MinMaxLoc | components/find.cjs:170 | the scan over rows and columns returns the first maximum and its value |
| ScoreGrid.ZeroRect | components/find.cjs:178-185 | cells of the rectangle become 0 and every other cell keeps its value |
| ScoreGrid.ZeroedDecreases | components/find.cjs:169-186 | zeroing cells never adds a non-zero cell, and it removes one whenever the grid changes |
| ScoreGrid.NonZeroBound | components/find.cjs:169-186 | the number of non-zero cells is at most the number of cells |
| Suppression.Erase | components/find.cjs:178-185 | the mask zeroes exactly its footprint: `[y, y+rows) x [x, x+cols)` for `roi().setTo`, and the clipped closed rectangle to `(x+cols, y+rows)` for `cv.rectangle` (index.mjs:109-111); no other cell changes |
| Suppression.CountLoop | components/find.cjs:169-187 | a finished loop counts at most as many maxima as it suppressed, and at most the grid's non-zero cells; it returns a total of 0 with no picks exactly when the first maximum is below the threshold (a maximum equal to the threshold is still erased, and under strict counting not counted); the first pick is the grid's first maximum |
| Suppression.CountLoopTerminates | components/find.cjs:169-187 | with a positive threshold and a footprint that covers the maximum, the loop never runs forever |
| Suppression.NonPositiveThresholdNeverCounts | components/find.cjs:169-187 | with a threshold of 0 or below, a loop that starts never returns a count |
| Suppression.CountLoopPicks | components/find.cjs:170-176 | with a positive threshold, a footprint that covers the matched cell (the filled rectangle, or a template with no zero side under `roi().setTo`) and a loop that returns a count, the picks are distinct cells whose original scores reach the threshold; the count is the number of picks above the threshold (strict) or reaching it (non-strict) |
| Suppression.CountMatches | components/find.cjs:169-187 | the imperative `while (true)` loop computes the same outcome as the recursive definition |
| Scale.FindTarget | components/find.cjs:18 | the first window whose title contains "browndust" (lower-cased), or none when there is none |
| Scale.GetScaleFactor | components/find.cjs:16-39 | fails exactly when no window matches; otherwise x = y and `y * 1080` is the matching window's height |
| Scale.ScaleIgnoresWidth | components/find.cjs:26-36 | changing a window's width never changes the factor |
| Scale.ScaleDoubles | components/find.cjs:33-36 | doubling the window height doubles the factor |
| Scale.ScaledSide | components/find.cjs:136-137 | the integer n with `2160 n <= 2 w H + 1080 < 2160 (n + 1)` |
| Scale.ScaledSideIsRound | components/find.cjs:136-137 | equal to `Math.round(w * (H / 1080))` in exact arithmetic |
| Scale.ScaledSideAtBase | components/find.cjs:136-137 | at height 1080 a template keeps its native size |
| Scale.ScaledSideMonotone | components/find.cjs:136-137 | a taller window never gives a smaller template |
| Matching.Threshold | components/find.cjs:114 | find.cjs defaults to 0.6, index.cjs to 0.85 (index.cjs:128), and index.mjs always uses 0.85 (index.mjs:76); a passed value wins otherwise |
| Matching.PolicyOf | index.mjs:101-112 | index.mjs counts non-strictly behind a rectangle mask; the others count strictly behind `roi().setTo` |
| Matching.SelectFiles | components/find.cjs:122-124 | a target selects itself when it is an existing `.png`, and nothing otherwise; no target selects every `.png` |
| Matching.TemplateSize | index.cjs:145-151 | index.cjs and index.mjs match templates at their native size; a factor of 1 keeps the native size too |
| Matching.TemplateSizeScaled | components/find.cjs:133-137 | in find.cjs each side becomes `Math.round(side * H / 1080)` for the height H of the first window whose title names the game |
| Matching.ClickAt | components/find.cjs:157-166 | a click happens exactly when the maximum reaches the threshold, at the first maximum plus half the template size |
| Matching.MatchFile | components/find.cjs:149-188 | one iteration throws for an empty template exactly when the template size has a zero side; in click mode it clicks exactly the point `ClickAt` decides, and otherwise it misses; in count mode it finds exactly when the suppression loop returns a count, and finds that count |
| Matching.MatchFiles | components/find.cjs:128-192 | clicks only accumulate; in click mode the result is 1 exactly when some file clicked, else 0; in count mode the counts only grow and nothing is clicked |
| Matching.Fold | components/find.cjs:128-192 | the loop stops at the first file that throws or hangs: a call that returns met no empty template, `roi` error or endless loop, and keeps the clicks made before it |
| Matching.FoldCounts | components/find.cjs:167-188 | over count-mode iterations `totalMatches` ends as its start plus every iteration's count, and nothing is clicked |
| Matching.FoldClicks | components/find.cjs:157-166 | over click-mode iterations the clicks are the clicked points in file order, and `totalMatches` ends at 1 exactly when it started at 1 or something was clicked, else 0 |
| Matching.MatchFilesCountSum | components/find.cjs:126-192 | a count-mode call that returns gives the running total plus the sum over the files of their suppression-loop totals; every file had a non-empty size and every loop returned a count |
| Matching.MatchFilesClicks | components/find.cjs:157-166 | a click-mode call that returns adds exactly the files' click points, in file order; every file had a non-empty size |
| Matching.FoundSumIsCountSum | components/find.cjs:167-188 | the iterations' counts add up to the files' suppression-loop totals |
| Matching.ClickedPointsAreClickPoints | components/find.cjs:157-166 | the iterations' clicks are the files' click decisions, in order |
| Matching.MatchTemplates | components/find.cjs:114-199 | click mode returns 0 or 1, and 1 exactly when a click happened; count mode never clicks; no selected file returns 0 |
| Matching.ClickOneFile | index.cjs:156-166 | on one template: 1 and one click at the centre over the first maximum exactly when the maximum reaches the threshold; otherwise 0 and no click |
| Matching.CountOneFile | index.cjs:169-188 | on one template the call returns the suppression loop's count, and it throws or hangs exactly when the loop does |
| Matching.MissingTargetReturnsZero | components/find.cjs:122-126 | a target that is not an existing `.png` returns 0 without clicking |
| Matching.TargetSelectsOneFile | components/find.cjs:122-123 | an existing `.png` target is matched alone |
| Matching.FindCjsNeedsWindow | components/find.cjs:20-24 | with a file to match and no game window, find.cjs throws |
| Capture.ToRgba | components/find.cjs:76-97 | succeeds exactly when every read stays inside the buffer; otherwise it is a RangeError. On success the output is `w*h*4` bytes, and pixel `(x, y)` at `(y*w + x)*4` holds R = `in[i+2]`, G = `in[i+1]`, B = `in[i]`, A = 255, with `i = y*byteWidth + x*bytesPerPixel` |
| Capture.OutputCovered | components/find.cjs:84-92 | every output byte belongs to some pixel and channel |
| Capture.PixelsDisjoint | components/find.cjs:84-92 | no output byte belongs to two pixels or channels, so each is written once |
| Settings.Defaults | components/settings.cjs:6-9 | fiveStarsToPull = 2 and fiveStarsToScreenshot = 1, nothing else |
| Settings.DefaultTextIs | components/settings.cjs:13-15 | the created file reads `fiveStarsToPull=2\nfiveStarsToScreenshot=1` |
| Settings.LoadSettings | components/settings.cjs:4-37 | a missing file gets the default text written and yields the defaults; an existing file is parsed |
| Settings.SplitLines | components/settings.cjs:24 | there is always at least one line, and no line holds a line feed |
| Settings.NonEmptyLines | components/settings.cjs:25 | keeps exactly the non-empty lines; for every key the last valid value among the lines is unchanged |
| Settings.KeyValue | components/settings.cjs:28 | a line without `=` is a trimmed key and no value; a line with `=` has a value |
| Settings.KeyValueParts | components/settings.cjs:28 | the key is the trimmed text before the first `=` and the value the trimmed text before the next; text after a second `=` is ignored |
| Settings.SplitLinesJoin | components/settings.cjs:23-24 | splitting LF-joined lines without line breaks gives the lines back |
| Settings.SplitLinesCRLF | components/settings.cjs:24 | CRLF line ends are split like LF ones |
| Settings.ApplyLine | components/settings.cjs:27-31 | a line changes the settings only if its trimmed key and value are non-empty and the value is numeric, and then only at that key; no key is lost |
| Settings.ApplyLinesLastWins | components/settings.cjs:22-32 | each key ends with the value of the last line that set it, or keeps its value when no line set it |
| Settings.ApplyLines | components/settings.cjs:27-32 | no setting disappears |
| Settings.ParseLastWins | components/settings.cjs:22-32 | a key of an existing file's settings holds the value of the last valid line naming it, blank lines or not; with no such line it is present exactly when it is a default, with the default value |
| Settings.ParseHasDefaults | index.cjs:30-40 | whatever the file says, both default keys are present |
| Settings.ParseNatString | components/settings.cjs:29-30 | `Number(String(n))` is n |
| Settings.SerialiseRoundTrip | components/settings.cjs:13-32 | parsing the `key=val` text of any entries with plain keys yields the defaults overridden by those entries |
| Settings.DefaultRoundTrip | components/settings.cjs:12-32 | reading back the created default file yields the defaults |
| Stats.LoadStats | components/stats.cjs:17-30 | a failed load yields `{pulls: 0, fiveStars: {}, hourlyPulls: {}}` |
| Stats.DisplayHour | components/stats.cjs:13 | the displayed hour lies in 1..12 and agrees with the hour modulo 12 |
| Stats.HourKey | components/stats.cjs:8-15 | the key starts with the date and "-", and ends in "pm" exactly when the hour is 12 or later |
| Stats.HourKeyRoundTrip | components/stats.cjs:11-14 | the hour can be read back from the key |
| Stats.HourKeyInjective | index.cjs:45-52 | different hours of one date give different keys |
| Stats.Bump | components/stats.cjs:35-38 | the bucket gains one (from 0 when absent), the map is created when missing, and every other bucket keeps its value |
| Stats.IncreaseStats | components/stats.cjs:32-39 | pulls grow by exactly one, the current hour's bucket gains one, and the histogram is untouched |
| Stats.RecordFiveStars | components/stats.cjs:41-47 | bucket `String(n)` gains one, and pulls and hourly counts are untouched |
| Stats.BumpSum | components/stats.cjs:38 | bumping a bucket adds exactly one to the total of all buckets |
| Stats.IncreaseKeepsHourlyConsistent | components/stats.cjs:32-39 | if pulls equal the sum over hours, they still do after a pull |
| Stats.RecordAddsOneCycle | components/stats.cjs:41-47 | each saved cycle adds exactly one to the histogram total |
| Log.LogLine | components/log.cjs:1-10 | the line is the style codes, then the message, then the reset code; it begins with the bold code when bold; with no options it is the message plus reset |
| Log.StylesCodes | components/log.cjs:2-6 | the style prefix is a sequence of complete escape codes: the bold code when asked for, then the foreground code, then the background code, each only when its option names a known colour |
| Log.LookupIgnoresCase | components/log.cjs:5-6 | any spelling of a colour name finds the same code as its lower-case form |
| Log.LookupByName | components/log.cjs:5-6 | a name whose lower-case form is a colour's key finds that colour's foreground or background code |
| Log.LookupUnknown | components/log.cjs:5-6 | a name whose lower-case form is no key adds nothing |
| Log.ColourOf | components/log.cjs:12-33 | a key found in the tables is the name of the colour it finds, and a key is found exactly when it names a colour |
| Log.NameRoundTrip | components/log.cjs:12-33 | every one of the eight colour names is a key of both tables and finds its own colour |
| Log.TablesHoldCodes | components/log.cjs:12-33 | the foreground and background entry of every colour is one complete escape code |
| Log.StylesAreCodes | components/log.cjs:4-6 | the style prefix is invisible on a terminal |
| Log.LogLineShowsMessage | components/log.cjs:8-9 | a terminal shows exactly the message, whatever the options |
| Text.NatToStringRoundTrip | components/stats.cjs:46 | `String(n)` is decimal digits that read back as n |
| Text.SplitJoin | components/settings.cjs:28 | `split` undoes a join with the same separator |
| PullCommon.ObservedClicks | components/find.cjs:201-211 | a click-mode call returns 0 or 1, and 1 exactly when it clicked; a count-mode call never clicks |
| PullLoopFind.Step | components/find.cjs:215-240 | ESC clears `isRunning` whatever the call returns; a returned call adds one event for the call the loop is at; an error ends the run with the record unchanged |
| PullLoopFind.Run | components/find.cjs:215-241 | the returned calls only grow: earlier events are never rewritten |
| PullLoopFind.EscEndsRun | components/find.cjs:50-54 | after a call settles with ESC pressed no further call returns and nothing more is recorded; the run ends at the next loop test (line 215, finished) or at the next call's abort check (line 252, aborted) |
| PullLoopFind.RunKeepsInv | components/find.cjs:215-241 | every step of the loop keeps the call order, the pull accounting and the histogram accounting |
| PullLoopFind.PullForMeFacts | components/find.cjs:213-249 | draw retries while it returns 0, and next repeats until it returns 0; pulls grow by exactly the confirms that clicked, each in one hour bucket; only bucket "0" of the histogram changes, once per saved cycle; a positive five-star count is never saved and ends the run with the ReferenceError |
| PullLoopFind.ReferenceErrorAfterFive | components/find.cjs:231-238 | the ReferenceError ending is reached only by a positive five-star count, the last call to return |
| PullLoopFind.CallThresholds | components/find.cjs:201-231 | draw and confirm run at 0.6, next at 0.5, and the five-star count at the `fiveStarsToScreenshot` value (0.6 when missing), which is 1 with the default settings |
| PullCycleCjs.Step | index.cjs:219-254 | a returned call adds one event for the current call; an error ends the chain with the record unchanged |
| PullCycleCjs.Run | index.cjs:217-259 | the returned calls only grow: earlier events are never rewritten |
| PullCycleCjs.PullForMeFacts | index.cjs:217-259 | each cycle draws and confirms once, repeats next until 0, then counts; pulls grow by exactly the confirms that clicked; every count is saved once, in bucket `String(count)`; screenshots are taken exactly for counts reaching `fiveStarsToScreenshot`; the chain stops by itself only after a count reaching `fiveStarsToPull` |
| PullCycleCjs.DefaultDecisions | index.cjs:207-245 | with the defaults, counts 0 and 1 start another cycle and 2 does not; a count of 1 or more takes a screenshot; thresholds are 0.85, 0.85, 0.3 and 0.95 |
| PullCycleMjs.Step | index.mjs:138-157 | a returned call adds one event for the current call; an error ends the chain |
| PullCycleMjs.Run | index.mjs:136-162 | the returned calls only grow: earlier events are never rewritten |
| PullCycleMjs.PullForMeFacts | index.mjs:136-162 | darknext is tried only after next returned 0, and dismissing goes on while either clicked; the five-star count is taken exactly in cycles whose eleanor count is non-zero; the chain stops by itself only after a count of two or more |
| PullCycleMjs.CallThresholds | index.mjs:76 | every call runs at 0.85, whatever it passes |

## Left out

- The correlation itself (`cv.matchTemplate` with `TM_CCOEFF_NORMED`) and template resampling (`drawImage`). These are floating-point work inside a WASM library, so score grids are inputs.
- Floating point. Scores, the scale factor and `Math.round` are exact reals. Near a .5 rounding boundary, `w * (H/1080)` in doubles may round the other way.
- robotjs capture, mouse moves and clicks. Clicks are recorded as points; the screen buffer is an input.
- `node-window-manager`. The window list is an input, and the `bringToTop` calls outside `getScaleFactor` are left out.
- All file system work: the template directory listing (an input), `settings.txt` and `log.txt` reading and writing, JSON formatting, and the screenshots directory. `saveCanvasImage` is recorded only as the count in the screenshot's name.
- Settings.ParseNumber: accepts only the decimal grammar (sign, digits, optional fraction). JavaScript `Number()` also takes exponents, hex, `Infinity` and surrounding whitespace, and maps `""` to 0.
- Text.Trim: trims ASCII whitespace, NBSP and BOM only. It leaves out the other Unicode space characters `String.prototype.trim` removes.
- Text.ToLower: ASCII only.
- Keys such as `__proto__` or `constructor` are not given JavaScript object semantics. This applies to the settings, the histogram and the colour tables.
- `settings.debug` screenshots and logging inside the match, and every `console.log`.
- `Date` and `toLocaleDateString`. The date text and hour are parameters, and the hour key of a pull comes with the reply.
- Scheduling:
  - the `withAbort` race and its 50 ms polling (an aborted race is a reply whose outcome is the 'aborted' error);
  - the keyboard listener (the ESC flag of a reply);
  - `waitForOpenCV`;
  - the `setTimeout` delays (recorded in each call, never waited);
  - the un-awaited recursive `pullForMe` calls (cycles run one after another).
- The unbounded retry loops are unrolled only as far as the replies given. A run without replies left stops where it stands, not at an ending.
- PullCycleCjs.PullForMeFacts: states the histogram for the `String(n)` buckets and the total of all buckets. It does not state separately that keys of any other form are untouched.
- Capture.ToRgba: the output is a sequence. The canvas `putImageData` step is left out.
- A record loaded without a `pulls` field (`undefined + 1` is NaN). Stats holds an integer `pulls`.
- components/keyboardListener.cjs and components/initializeMissingDirectories.cjs are not part of this model. They are stdin and directory I/O.
- Unused imports and `REGION` in index.mjs are left out.
