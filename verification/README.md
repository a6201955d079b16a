# elevation_lookups: value types and run-time phrase

A Dafny model of the two self-contained pieces of logic in an early
skeleton of `elevation_lookups`, a tool that computes elevation profiles
for batches of paths:

- **data.py** — the geometric value types `BoundingBox` (edges W, S, E, N)
  and `Coordinate` (x, y). Every attribute is optional: the constructor sets
  only the ones it is given and clears the `empty` flag as soon as one is
  set; `str()` renders either an empty token (`[]`, `()`) or the labelled
  values. Modelled as Dafny classes (module `Data`) whose fields are
  `Option<real>` plus `empty`; the invariant `Valid()` is
  "empty exactly when no field is set".
- **main.py** — `elapsedTime`, which turns the duration of a run into a
  phrase such as `1 hour[s], 2 minute[s] and 5 second[s]`. Modelled as pure
  functions (module `Timing`) that keep the source's arithmetic: division of
  the duration, Python `int()` truncation toward zero, and the four
  branches. Lemmas relate it to the whole number of seconds `t` and show
  that the phrase can be read back.

Module `Text` holds Python's `str()` of an integer (decimal digits) and the
small readers used in the round-trip lemmas; module `Wrappers` holds `Option`.

The constructor does not check W ≤ E or S ≤ N, and neither does the model:
the constructor has no requires.

## Model

| member | source | states |
|---|---|---|
| `Data.BoundingBox.constructor` | data.py:14-29 | each edge is set exactly when it is supplied and holds the supplied value, unsupplied edges stay unset, the box is empty exactly when no edge is supplied (so a box built with no arguments is empty), and no relation between the edges is required |
| `Data.BoundingBox.ToString` | data.py:31-36 | defined when a non-empty box has all four edges set; the text is `[]` exactly when the box is empty, and, for a box whose invariant holds, exactly when no edge is set |
| `Data.BoxText` | data.py:35-36 | the labelled layout of a non-empty box starts with the `W: ` label, so it is never `[]`; its read-back is stated by `Data.ReadBoxText` |
| `Data.ReadBoxToString` | data.py:31-36 | the text of an empty box reads as no edges; the text of a non-empty box gives back the texts of W, S, E and N, in that order, behind their labels |
| `Data.ReadBoxOnlyLayout` | data.py:35-36 | whatever text the box reader accepts is exactly `W: w S: s E: e N: n` for the edge texts it reads, so the read-back of `Data.ReadBoxToString` fixes the rendered text |
| `Data.ReadBoxText` | data.py:35-36 | the labelled layout `W: w S: s E: e N: n` is unambiguous when the edge texts contain no space |
| `Data.Coordinate.constructor` | data.py:44-50 | each coordinate is set exactly when supplied and holds the supplied value; the point is empty exactly when neither is supplied |
| `Data.Coordinate.ToString` | data.py:52-56 | defined when a non-empty point has both coordinates set; the text is `()` exactly when the point is empty, and, for a point whose invariant holds, exactly when no coordinate is set |
| `Data.CoordinateText` | data.py:56 | the layout of a non-empty point has at least four characters, opens with `(` and closes with `)`, so it is never `()`; its read-back is stated by `Data.ReadCoordinateText` |
| `Data.ReadCoordinateToString` | data.py:52-56 | the text of an empty point reads as no coordinates; the text of a non-empty point gives back the texts of x and y, in that order, inside `(`, `, ` and `)` |
| `Data.ReadCoordinateOnlyLayout` | data.py:56 | whatever text the point reader accepts is exactly `(x, y)` for the coordinate texts it reads, so the read-back of `Data.ReadCoordinateToString` fixes the rendered text |
| `Data.ReadCoordinateText` | data.py:56 | the layout `(x, y)` is unambiguous when the x text contains no comma |
| `Timing.Trunc` | main.py:70-72 | Python `int()` of a float truncates toward zero: for a non-negative argument the result is the largest integer not above it, for a negative one the smallest not below it |
| `Timing.Split` | main.py:70-72 | for a non-negative duration none of the three truncations is negative (each truncation's argument is non-negative, so each acts as a floor); their exact values are stated by `Timing.SplitWholeSeconds` |
| `Timing.SplitWholeSeconds` | main.py:70-72 | for a duration of at least one second with whole part `t`: hours is `t / 3600`, minutes is `t / 60 - hours * 60`, seconds is `t - minutes * 60 - hours * 3600`, minutes and seconds lie in [0, 60), and `hours * 3600 + minutes * 60 + seconds == t` |
| `Timing.ElapsedTime` | main.py:66-82 | the text is `less than one second` exactly when the duration is under one second, whatever its sign; the other three shapes are stated by `Timing.ElapsedTimeIsReference` |
| `Timing.ElapsedTimeIsReference` | main.py:66-82 | the returned text is the reference phrase: `less than one second` for any duration below one second (negative included); below 60 whole seconds `t seconds`; below 3600 `t / 60 minute[s] and t % 60 second[s]`; otherwise hours, minutes and seconds in that order |
| `Timing.ReadElapsedTime` | main.py:68-82 | every returned text has exactly one of the four shapes, and reading it back gives the reference phrase for the duration (the reader also accepts leading zeros, so the exact text is stated by `Timing.ElapsedTimeIsReference`) |
| `Timing.RenderInjective` | main.py:73-82 | two different phrases never render to the same text |
| `Timing.ReferenceWholeSeconds` | main.py:70-72 | for a duration of at least one second the phrase's hours, minutes and seconds add up to the whole seconds |
| `Timing.ElapsedTimeSameIff` | main.py:66-82 | two durations give the same text exactly when both are under one second, or both are at least one second with the same whole number of seconds |
| `Text.IntToString` | main.py:74-81 | Python `str()` of an int: a leading `-` exactly for a negative int, followed by a non-empty run of decimal digits whose value is the int's magnitude and which has no leading zero unless it is the single digit `0` |
| `Text.DigitsValueOfNatToString` | main.py:74 | Python `str()` of a non-negative integer reads back as that integer |
| `Text.ReadNatOfNatToString` | main.py:74-81 | a number's digits followed by text that does not start with a digit split off exactly, giving back the number and the text |

## Left out

- `main()` in main.py:15-60 (command-line options, logging set-up, counting the lines of the input file) is input/output plumbing and is not modelled.
- files.py (`InputFile`: opening a file, printing, counting rows, logging) is input/output only and is not part of this model.
- The clock read at main.py:67 is replaced by a parameter: `ElapsedTime(startTime, now)` takes the current time instead of calling `time.time()`.
- Python's `str()` of a float is not modelled: the rendering functions take it as an uninterpreted parameter `show`. The read-back lemmas assume its texts contain no space (box) or comma (point), which holds of Python's float texts.
- Floats are exact reals: the rounding of `seconds / 60 / 60` and of the subtractions at main.py:70-72 is not modelled, and neither are NaN and infinities (for which `int()` raises).
- Data.BoundingBox.ToString: a non-empty box with an unset edge makes the source raise `AttributeError`; the model requires the edges to be set instead of modelling the exception.
- Data.Coordinate.ToString: likewise, a non-empty point with an unset coordinate is excluded by its requires rather than modelled as an `AttributeError`.
- Later assignment of attributes after construction (possible in Python) is not modelled; the classes have only their constructors and `str()`.
- The source catalogue, download cache, raster and contour lookups, elevation profiler and parallel batch tagging are not part of these files and are not part of this model.
