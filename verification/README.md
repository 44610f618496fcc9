# Typing speed test: session model

This project models the session logic of the browser typing-speed test in
`script.js`. A word list is shown and the user types into a text field:
- Each space scores the last typed word against the current target word.
- A 100 ms interval advances a `[minutes, seconds, tenths]` stopwatch.
- Live statistics are shown: net words per minute and accuracy.
- When the last word is scored, the field is disabled and feedback is given.

The page's global variables become one immutable `Session` record. The
handlers become pure transitions:
- reset
- the interval callback
- the `input` event
- the `keydown` space handler

Modules:
- `Wrappers`: `Option`. A fetch that fails yields `None`.
- `Stopwatch`: the tenths clock. It covers the carry at 10 tenths and at 60
  seconds, and the `MM:SS.t` display with a reference reader (`Parse`) that
  inverts it. The source comment calls the last component "hundredths".
  The interval is 100 ms and the component rolls over at 10, so the model
  counts tenths.
- `Text`: the JavaScript string operations the handlers use:
  - `trim`
  - `split(' ')` and its inverse `join`
  - the last-token extraction of the space handler
  - `replace(/\s+/g, '')`
- `Metrics`: `Math.round` on non-negative rationals, which rounds half up.
  It computes `floor((2n + d) / 2d)` by repeated subtraction. The module
  also holds accuracy, net WPM and the feedback category.
- `TypingTest`: the session record, the event step, runs of events, the
  reachable-state invariant and the end-to-end scenarios.

Four behaviours of the code, modelled as written:
- **No time elapsed.** Net WPM is non-finite, not 0, when a correct word is
  scored before the first timer callback. The first space both starts the
  interval and scores the word. `Math.round(x || 0)` only replaces the NaN
  of `0 / 0`, so `1 / 0` stays `Infinity`. The model returns `Wpm.Infinite`.
- **Completion.** The test completes when the word index reaches the list
  length, whether or not the last word was right.
- **Errors are cumulative.** Each space adds one to `correctWords` or to
  `totalErrors`. The counts are not recomputed from the field's content.
- **Failed fetch.** The code does not disable the field after a failed
  fetch.

## Model

| member | source | states |
|---|---|---|
| Stopwatch.Tick | script.js:61-72 | One callback keeps a valid clock valid (tenths < 10, seconds < 60). It adds exactly one tenth to the elapsed time `minutes*600 + seconds*10 + tenths`, and never lowers the minutes. |
| Stopwatch.TicksElapsed | script.js:61-72 | From the reset clock `[0,0,0]`, after `n` callbacks the components are in range and the elapsed time is exactly `n` tenths. |
| Stopwatch.TicksFromZero | script.js:61-72 | After `n` callbacks from reset, the clock equals the independently defined clock showing `n` tenths: `n / 600` minutes, `(n / 10) % 60` seconds, `n % 10` tenths. |
| Stopwatch.TotalTenthsInjective | script.js:96 | Two valid clocks with the same elapsed time are the same clock. |
| Stopwatch.FromTotalTenths | script.js:96 | Converting a valid clock's elapsed time back with division and remainder gives that clock. |
| Stopwatch.NoTimeIsZero | script.js:96-100 | The elapsed time is 0 exactly on the reset clock `[0,0,0]`, the only clock on which net WPM divides by zero minutes. |
| Stopwatch.NatToString | script.js:75-80 | Number-to-string conversion gives decimal digits whose value is the number. It is one digit exactly for numbers below ten, and it starts with `0` only for zero itself. |
| Stopwatch.NatToStringUnique | script.js:75-80 | Every digit string without a superfluous leading zero is the conversion of its own value, so the contract of `NatToString` determines its result. |
| Stopwatch.ZeroPad | script.js:75-76 | The two-digit padding keeps the value. It yields at least two digits, exactly two below 100, and a leading `0` exactly for numbers below ten. |
| Stopwatch.Format | script.js:74-80 | The display is digits, `:`, two digits, `.`, one digit. It is exactly 7 characters while minutes are below 100, and it starts with `0` exactly while minutes are below ten. |
| Stopwatch.ParseFormat | script.js:74-80 | Reading the display of a valid clock back gives that clock. |
| Stopwatch.FormatInjective | script.js:74-80 | Distinct valid clocks have distinct displays. |
| Stopwatch.FormatZero | script.js:135 | The reset text `00:00.0` is exactly the display of the reset clock. |
| Text.Trim | script.js:156 | The input is leading whitespace, then the result, then trailing whitespace. The result neither starts nor ends with whitespace. |
| Text.TrimIdempotent | script.js:156 | Trimming a trimmed value changes nothing. |
| Text.JoinSplit | script.js:159 | `Text.Split` models `split(sep)`. Joining its pieces with `sep` restores the string. |
| Text.SplitJoin | script.js:159 | Splitting the join of separator-free pieces gives back those pieces. |
| Text.SplitLastPiece | script.js:159-162 | The last piece of a split holds no separator. It is the suffix after the last separator, or the whole string when there is none. |
| Text.TypedWordLastToken | script.js:155-162 | `Text.TypedWord` models the last-token extraction of the space handler. The scored word holds no space. It is a suffix of the trimmed value, preceded there by a space, and it is the whole trimmed value when that has no space. |
| Text.TypedWordOfBlank | script.js:156-162 | An empty or whitespace-only field yields the empty word. |
| Text.RemoveWhitespace | script.js:88 | The result contains no whitespace and is no longer than the input. |
| Text.RemoveWhitespaceKeeps | script.js:88 | Every non-whitespace character survives as many times as it occurs. |
| Text.RemoveWhitespaceAppend | script.js:88 | Whitespace removal distributes over concatenation. |
| Text.RemoveNoWhitespace | script.js:88 | Text without whitespace is left as it is. |
| Text.CharacterCountTrim | script.js:86-88 | Surrounding whitespace does not change the typed-character count. |
| Metrics.RoundDivBand | script.js:100-103 | `Metrics.RoundDiv` models `Math.round` of a non-negative quotient. The rounded quotient `r` of `n / d` satisfies `2dr <= 2n + d < 2dr + 2d`, i.e. it is within one half of `n / d` with ties going up. |
| Metrics.RoundDivUnique | script.js:100-103 | Exactly one number lies in that band, so the band defines the rounding. |
| Metrics.Accuracy | script.js:103 | Accuracy is 0 with no correct words and 100 when every scored word was correct. It never exceeds 100 while correct words do not outnumber scored words. |
| Metrics.AccuracyRounds | script.js:103 | Accuracy is `100 * correct / (wordIndex or 1)` rounded half up. |
| Metrics.AccuracyMonotone | script.js:103 | More correct words never lower the accuracy. |
| Metrics.NetWpm | script.js:95-100 | The result is non-finite exactly when no time elapsed and a word is correct. It is 0 when no time elapsed and no word is correct. |
| Metrics.NetWpmRounds | script.js:95-100 | With time elapsed, net WPM is `correct / (tenths / 600)` rounded half up. |
| Metrics.NetWpmMonotone | script.js:95-100 | More correct words never lower net WPM at a fixed time. |
| Metrics.NetWpmAntitone | script.js:95-100 | With the correct words fixed, net WPM never rises as time passes. |
| Metrics.FeedbackThreshold | script.js:116-120 | `Metrics.FeedbackFor` models the `accuracy < 80` test, and `TypingTest.FinalFeedback` (script.js:110-120) applies it to a state's accuracy. The user gets praise, not the accuracy hint, exactly when `200 * correct >= 159 * wordIndex`, i.e. at least 79.5 % of the scored words were correct. |
| TypingTest.Reset | script.js:123-138 | Reset gives the reset clock, zero counters, no timer, an enabled field and the fetched words (none if the fetch failed). It satisfies the session invariant. |
| TypingTest.Tick | script.js:61-84 | A callback advances the elapsed time by one tenth and recounts the non-whitespace characters of the field, only while the interval is installed; otherwise it changes nothing. It never touches the words, the scores or the timer and field flags, and it preserves the invariant. |
| TypingTest.Input | script.js:86-92 | The `input` event recounts the non-whitespace characters (counted as `Text.CharacterCount` does). It leaves the words, clock, scores and flags as they were and preserves the invariant. |
| TypingTest.StartTimer | script.js:54-59 | The first space installs the interval. Later calls change nothing, and the scores are never touched. |
| TypingTest.ProcessCurrentWord | script.js:172-205 | Scoring moves the word index up by exactly one. In range it adds to exactly one of the correct and error counts, by equality with the target word; past the end it scores nothing. It signals completion exactly when the index reaches the list length, and then the interval stops and the field is disabled. |
| TypingTest.KeyPressed | script.js:149-205 | A non-space key changes nothing. A space starts the timer, moves the word index up by one, and signals completion exactly when the index reaches the list length. No key press changes the word list, the clock or the character count. |
| TypingTest.CorrectSpace | script.js:149-190 | A space after the current target word adds one correct word and no error. |
| TypingTest.WrongSpace | script.js:149-190 | A space after any other word adds one error and no correct word. |
| TypingTest.SpaceInBlankField | script.js:149-190 | A space in a blank field counts an error against a non-empty target word. |
| TypingTest.StepInv | script.js:54-205 | `TypingTest.Step` dispatches one event to the handler registered for it (script.js:219-225). Every event keeps the session invariant and the word list. Only a space moves the word index, by one. |
| TypingTest.RunInv | script.js:172-201 | Along any run the invariant holds and the word index never decreases. Completion is signalled exactly when the index first reaches the end of a non-empty list. |
| TypingTest.ReachableInv | script.js:123-205 | Every state reachable from a reset satisfies the invariant: `correct + errors` equals the smaller of the word index and the list length, the timer runs exactly once a space was pressed, and the flags agree. |
| TypingTest.CompletesOnce | script.js:196-201 | From a reset, completion is signalled at most once, and exactly when the word index has reached the length of a non-empty list. |
| TypingTest.InvCounters | script.js:128-131 | In a valid state the correct words number at most the scored words and at most the target words. |
| TypingTest.StatsInRange | script.js:95-108 | `TypingTest.StatsOf` models `calculateRealtimeStats`. In every valid state accuracy is at most 100, and it is 0 (with WPM 0) before the first space. WPM is non-finite exactly when a correct word was scored before the first callback. |
| TypingTest.PerfectRun | script.js:149-205 | Typing every target word exactly, each followed by a space, scores all words correct and no errors. It signals completion once, stops the interval, disables the field, and ends at accuracy 100 with praise (`TypingTest.FinalFeedback`). |
| TypingTest.FirstWordBeforeFirstTick | script.js:149-204 | A correct first word scored on the key press that starts the timer gives a non-finite WPM and accuracy 100. |
| TypingTest.TypedWordOfPlain | script.js:155-162 | A field holding one word without whitespace scores exactly that word. |

## Left out

- Rendering is not modelled. This covers word spans, the `correct-word`, `incorrect-word` and `current-word` classes (script.js:39-47, 173-187, 207-217), and writing the statistics and feedback into the page.
- The word fetch (script.js:23-52) is network I/O. The word list is a parameter of `Reset`, and a failed fetch is an empty list.
  - In the page, a failed fetch puts its error message into the word display as a text node. The next space then fails when it touches that node's class list, after starting the timer.
  - An empty list from the service takes the same error path.
  - The model instead scores nothing on such a space and moves the word index on.
  - The window between a reset and the fetch's answer, when the old counters are already zero but the word list is empty, is not modelled either.
- `setInterval`, `clearInterval` and listener registration (script.js:57, 124, 198, 219-225) are timer and event plumbing. The `ticking` flag stands for an installed interval, and each event is one explicit `Step`.
- Floating-point artefacts of `timeSpent / 60` and `correct / w * 100` are left out. The model uses exact rational arithmetic, with `Math.round` as round-half-up on non-negative values.
- Text.CharacterCount: the count is in characters (Unicode scalar values), while `.length` at script.js:88 counts UTF-16 code units, so a character outside the Basic Multilingual Plane counts once here and twice in the page. Nothing in script.js reads `characterTyped` after setting it, so no displayed value depends on the difference.
- Text.IsWhitespace: the whitespace set is space, tab, line feed, carriage return, vertical tab, form feed and no-break space, not JavaScript's full Unicode set for `trim` and `\s`.
- TypingTest.FinalFeedback: the feedback is computed from the accuracy after the last word. The page reads the accuracy from the display (script.js:112-116), which was last refreshed before the last word was scored, and compares it as a string coerced to a number.
- TypingTest.Reset: the reset writes `100%` into the accuracy display (script.js:137), but the next recomputation shows 0 until a word is scored. The model has only the computed value.
- TypingTest.KeyPressed: the key step does not check the disabled field. After completion the browser stops delivering key presses to the disabled text area. The invariant holds either way.
- Reset is a pure function of the fetch result. Stopping the old interval and clearing the field's value are part of what it returns: `ticking` is false and the character count is zero.
