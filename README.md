# Psychrometer bot: the two input parsers

The bot turns two thermometer readings, dry bulb and wet bulb, into relative
humidity. This project models the two places where those readings enter the
program as text. Both check the text before it reaches the humidity
calculation.

* **The vision-reply scanner** is in `analyze_photo_test` (test_photo.py). The
  vision service is asked to answer `СУХОЙ: XX.X` and `ВЛАЖНЫЙ: XX.X`, or
  `ОШИБКА: ...` when it cannot read the instrument. The stripped answer is
  split on line breaks, and each stripped line is tested against the three
  markers in order:
  * A marked line sets its reading to the `float` of the text between its
    first and second colon, and a value `float` rejects is skipped.
  * An `ОШИБКА:` line ends the scan with a failure.
  * Any other line is ignored.

  After the scan, both readings must be present and the dry one must not be
  below the wet one.
* **The manual-entry handler** is `process_manual_data` (main.py). The
  operator's message is stripped and split on runs of whitespace. Exactly two
  tokens are required, and `float` must accept both. A dry reading below the
  wet one gets the ordering reply and ends the dialogue. Otherwise the pair
  goes unchanged to `calculate_humidity` and the dialogue ends. The two other
  error replies leave the dialogue waiting for input.

Modules:

* `Wrappers` holds `Option`.
* `PyStr` holds the Python string operations the parsers use: `str.strip()`
  with Python's whitespace set, `str.split(sep)`, `str.split()` and
  `str.startswith`.
* `PyFloat` holds `float()` on plain decimal text. The result is an exact
  `real`, and the `ValueError` path is `None`. It also has a formatter for
  readings in tenths of a degree, which `float` is proved to read back.
* `PhotoReply` holds the scanner:
  * `Classify` is the if/elif chain on one line.
  * `ScanLines` is the loop as a fold over the lines seen so far, stopping at
    `Aborted` on an `ОШИБКА:` line.
  * `Analysis` is the returned dictionary.
  * `AnalyzeReply` is the loop itself, with an early return. It is proved
    equal to `Analysis` through the invariant
    `ScanLines(lines[..i]) == Scanning(Readings(tDry, tWet))`.
* `ManualEntry` holds the handler's outcome: the reply kind, the dialogue
  state afterwards (`state.finish()` or not) and the argument pair passed to
  the calculation, if any.

## Model

| member | source | states |
|---|---|---|
| PyStr.TrimLeft | test_photo.py:84 | `lstrip` never lengthens the text, and the result does not start with whitespace |
| PyStr.TrimRight | test_photo.py:84 | `rstrip` never lengthens the text, and the result does not end with whitespace |
| PyStr.StripInfix | test_photo.py:84 | `strip()` returns a contiguous part of the line, and everything it removes on either side is whitespace |
| PyStr.StripPadded | test_photo.py:84 | whitespace added on either side of a text does not change its `strip()` |
| PyStr.StripIdempotent | test_photo.py:89 | stripping twice is the same as stripping once |
| PyStr.SplitOn | test_photo.py:77 | `split(sep)` gives at least one piece, at least two when `sep` occurs, and no piece contains `sep` |
| PyStr.JoinSplitOn | test_photo.py:77 | joining the pieces of `split(sep)` with `sep` gives back the text |
| PyStr.SplitOnJoin | test_photo.py:77 | splitting pieces that were joined with `sep` (none containing it) gives back the pieces |
| PyStr.SplitOnSecondPiece | test_photo.py:89 | piece 1 of `split(':')` is the text between the first and the second colon, or the end |
| PyStr.SplitWhitespaceTokens | main.py:107 | every token of `split()` is non-empty and free of whitespace |
| PyStr.SplitWhitespaceStrip | main.py:107 | `s.strip().split() == s.split()` |
| PyStr.SplitWhitespaceJoinWords | main.py:107 | `split()` gives back non-empty, whitespace-free tokens joined with single spaces |
| PyFloat.ParseNumBlank | test_photo.py:89 | `float` rejects an empty or all-whitespace string (the `ValueError` branch) |
| PyFloat.ParseNumPadded | main.py:116-117 | whitespace around a number does not change what `float` reads |
| PyFloat.NatToDigitsParses | main.py:116-117 | `float` reads a decimal integer as that integer |
| PyFloat.FormatTenthsChars | test_photo.py:28-29 | a reading written "XX.X" holds only a sign, digits and the point, and has no whitespace at its ends |
| PyFloat.FormatTenthsParses | test_photo.py:28-29 | `float` reads a reading written "XX.X" back as exactly n/10, negative values included |
| PhotoReply.ClassifyByMarker | test_photo.py:84-101 | each kind of line is recognised exactly by its own marker on the stripped line; the markers exclude one another, so the order of the tests does not matter |
| PhotoReply.ClassifyPadded | test_photo.py:84 | whitespace around a line does not change how it is classified |
| PhotoReply.MarkedValueBetweenColons | test_photo.py:87-97 | a marked line's value is `float` of the text between the marker's colon and the next colon (or the end), and the `IndexError` branch cannot occur |
| PhotoReply.ClassifyMarkedLine | test_photo.py:87-97 | a line with a marker, a value and possibly further colon-separated text is classified by its marker and read from its value |
| PhotoReply.MarkerWithoutValue | test_photo.py:87-100 | a marker with nothing after its colon is a marked line without a value |
| PhotoReply.SecondColonExample | test_photo.py:89 | "СУХОЙ: 21:5" sets the dry reading to 21 |
| PhotoReply.StepReading | test_photo.py:87-100 | a loop pass over a non-error line sets a bulb's reading exactly when the line gives one for that bulb, and otherwise keeps it |
| PhotoReply.ScanAbortedIff | test_photo.py:101-109 | the scan aborts if and only if some line is an `ОШИБКА:` line, whatever readings came before it |
| PhotoReply.AbortIsFinal | test_photo.py:101-109 | once aborted, lines after the `ОШИБКА:` line make no difference |
| PhotoReply.IgnoredLineInvisible | test_photo.py:87-101 | a line without a marker, or a marked line whose value `float` rejects, can be inserted anywhere without changing the scan |
| PhotoReply.ScanKeepsLastReading | test_photo.py:87-97 | without an `ОШИБКА:` line, each reading the scan ends with is the last value the lines give for that bulb |
| PhotoReply.LastValueNone | test_photo.py:78-122 | the last value is absent exactly when no line gives a value |
| PhotoReply.LastValueLast | test_photo.py:87-97 | a present last value comes from a line after which no line gives a value for that bulb |
| PhotoReply.Analysis | test_photo.py:103-142 | the raw response is always returned; success holds exactly when there is no error; a failure carries no readings; a success carries both readings with dry >= wet |
| PhotoReply.AnalyzeReply | test_photo.py:77-142 | the loop with its early return computes exactly `Analysis`; each pass keeps the locals equal to the fold over the lines seen so far |
| PhotoReply.AnalysisReportedIff | test_photo.py:101-109 | the service-error failure occurs if and only if some line is an `ОШИБКА:` line |
| PhotoReply.AnalysisSuccessHasNoErrorLine | test_photo.py:101-142 | a successful result comes from a reply without an `ОШИБКА:` line |
| PhotoReply.AnalysisOfLastReadings | test_photo.py:114-142 | without an `ОШИБКА:` line the result depends only on the last dry and wet values: missing-reading failure if either is absent, ordering failure if dry < wet, otherwise success with exactly those two values (equal values pass) |
| PhotoReply.ClassifyNumberLine | test_photo.py:87-97 | a line in the requested "СУХОЙ: XX.X" form is read as its number |
| PhotoReply.WellFormedReplyLines | test_photo.py:77 | the requested two-line answer splits into its dry line and its wet line |
| PhotoReply.ScanTwoLines | test_photo.py:83-100 | a dry line then a wet line, each with a number, leave the scan holding the two numbers |
| PhotoReply.AnalysisOfTwoLines | test_photo.py:77-142 | a reply of a numbered dry line then a numbered wet line gives success with those numbers, or the ordering failure |
| PhotoReply.AnalysisOfWellFormedReply | test_photo.py:77-142 | any answer in the requested form reads back as its two numbers: success if dry >= wet, the ordering failure otherwise |
| PhotoReply.FormatTenthsIsNumberText | test_photo.py:28-31 | readings written "XX.X" meet the requested number form |
| PhotoReply.ReplyExample | test_photo.py:27-29 | the answer "СУХОЙ: 22.0" / "ВЛАЖНЫЙ: 19.0" gives success with dry 22 and wet 19 |
| ManualEntry.ProcessManualData | main.py:107-148 | a calculation is made exactly when the result reply is sent; the dialogue finishes exactly on the ordering reply or the result reply; the calculated pair always has dry >= wet |
| ManualEntry.FormatErrorIff | main.py:107-114 | the format reply is sent if and only if `split()` gives other than two tokens, and the dialogue then keeps waiting |
| ManualEntry.NumberErrorIff | main.py:116-148 | the numeric reply is sent if and only if there are two tokens and `float` rejects either one, and the dialogue then keeps waiting |
| ManualEntry.OrderErrorIff | main.py:116-125 | the ordering reply is sent if and only if both tokens are numbers with dry < wet; the dialogue then finishes and no calculation is made |
| ManualEntry.CalculationIff | main.py:116-130 | `calculate_humidity(t_dry, t_wet)` is called with exactly these values, in this order, if and only if the two tokens read as them and t_dry >= t_wet (equal readings pass) |
| ManualEntry.TwoNumberEntry | main.py:107-141 | two numbers separated by a space reach the calculation unchanged and finish the dialogue, or give the ordering reply when dry < wet |
| ManualEntry.PromptExample | main.py:107-130 | the example in the prompt, "20 15", is passed on as dry 20, wet 15 |

## Left out

- `calculate_humidity` (the psychrometric table and its interpolation) is not part of this model. Its source is not in this repository. The outcome records only the argument pair it is called with. The text of its result, or of its error, is folded into `ResultReply`.
- The reply texts, Markdown formatting, the "calculating..." notice, keyboards and the rest of the aiogram bot are left out. The replies are the four `Reply` kinds, and `state.finish()` is the `Finished` dialogue state.
- The `analyze_photo_with_openai` stub in main.py is left out. It returns a constant pair and has no logic.
- Reading the image file, base64 encoding and the vision-service request are left out. `Analysis` takes the answer text after the `.strip()` at test_photo.py:73.
- Logging, the `main()` driver of test_photo.py and config.py are left out.
- The generic `except Exception` branches (test_photo.py:144-161, main.py:149-151) are left out. They catch faults from code outside this model, such as a missing message text or a calculation that raises something other than `ValueError`.
- ManualEntry.ProcessManualData: assumes `calculate_humidity` returns. If it raises `ValueError`, the handler at main.py:143-148 catches it. The operator then gets the numeric-error reply and the dialogue keeps waiting, although the calculation was called. The model's claim that a calculation is made exactly when `ResultReply` is sent, and that the dialogue then finishes, does not cover that case.
- `ParseNum` models `float()` only on plain decimal text. These are left out: exponents, `_` digit separators, `inf` and `nan`, non-ASCII digits, and rounding to the nearest IEEE double. For these `ParseNum` either gives `None` where Python accepts the text, or gives an exact real where Python rounds. NaN comparisons are left out with them.
- PhotoReply.Analysis: the guarantee that a success has dry >= wet holds only because `ParseNum` rejects `nan` and reads decimals exactly. In the program, `nan < x` is false at test_photo.py:125, so the answer "СУХОЙ: nan" then "ВЛАЖНЫЙ: 5" succeeds with `t_dry` = nan. Two values that round to the same double also pass the check even when the exact decimals are ordered the other way.
- ManualEntry.ProcessManualData: the guarantee that the calculated pair has dry >= wet depends on the same two simplifications. In the program, "nan 15" passes main.py:120 and reaches `calculate_humidity(nan, 15.0)`. For "0.1 0.10000000000000000001", `float` gives the same double twice, so the program calls the calculation where the model gives the ordering reply.
- PhotoReply.Analysis: the error of a failed result is a `PhotoError` kind, not the message text. The missing-reading message embeds the raw answer, which is also kept in `rawResponse`.
