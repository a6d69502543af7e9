# Seconds to hours, minutes and seconds

The script `Day-06/Python-Practice.py` converts a whole number of seconds into
hours, minutes and seconds with floor division and modulus: whole hours are
`n // 3600`, the seconds left over are `n % 3600`, and those split further into
`remaining // 60` minutes and `remaining % 60` seconds. It does this twice, for
3672 seconds and for 5000 seconds, and prints each triple.

This project models that conversion as one pure Dafny function,
`DurationConverter.Decompose`, built from the two steps the script takes
(`SplitHours`, `SplitMinutes`), and proves:

- the triple adds back up to the input, and minutes and seconds are below 60;
- the hour count is the floor of n / 3600, and the minutes and seconds make up
  exactly what is left after the whole hours;
- the decomposition is the only normalized triple for its input, so
  `Decompose` and `TotalSeconds` are inverse to each other on normalized triples,
  and different inputs give different triples;
- `Decompose` agrees with an independent reference, `ReferenceDecompose`,
  that takes away whole hours and then whole minutes one at a time;
- the two inputs of the script give the triples it prints: (1, 1, 12) and
  (1, 23, 20).

For a positive divisor and a non-negative dividend, Dafny's `/` and `%` agree
with Python's `//` and `%`, so the script's operators are written directly.
The second block (lines 28-33) is the same four bindings as the first under
other variable names; both blocks are modelled as calls of the same
`Decompose`, so the second block computes the same function as the first by
construction.

## Model

| member | source | states |
|---|---|---|
| DurationConverter.SplitHours | Day-06/Python-Practice.py:8-11 | the hour count h satisfies h*3600 <= n < (h+1)*3600 (floor division), and the remainder equals n - h*3600 and is below 3600 |
| DurationConverter.SplitMinutes | Day-06/Python-Practice.py:14-17 | minutes*60 + seconds equals the remainder, seconds are below 60, and minutes are below 60 whenever the remainder is below an hour |
| DurationConverter.Decompose | Day-06/Python-Practice.py:8-17 | the result is normalized (minutes and seconds below 60), adds back up to the input, its hours are the floor of n / 3600, and minutes*60 + seconds equals n - hours*3600 |
| DurationConverter.DecomposeTotalSeconds | Day-06/Python-Practice.py:8-17 | every normalized triple is what Decompose gives for the seconds it stands for: Decompose inverts TotalSeconds and its result is the unique normalized decomposition |
| DurationConverter.ReferenceDecompose | Day-06/Python-Practice.py:8-17 | repeated subtraction of whole hours, then whole minutes, yields a normalized triple that adds back up to the input |
| DurationConverter.DecomposeMatchesReference | Day-06/Python-Practice.py:8-17 | floor division and modulus give the same triple as repeated subtraction, for every input |
| DurationConverter.DecomposeInjective | Day-06/Python-Practice.py:8-17 | two inputs have the same decomposition if and only if they are equal |
| DurationConverter.FirstExample | Day-06/Python-Practice.py:5-20 | 3672 seconds decompose to 1 hour, 1 minute, 12 seconds, the triple the first block prints |
| DurationConverter.SecondExample | Day-06/Python-Practice.py:26-35 | 5000 seconds decompose to 1 hour, 23 minutes, 20 seconds, the triple the second block prints |
| DurationConverter.HourBoundaries | Day-06/Python-Practice.py:8-17 | 0 seconds give (0, 0, 0), 3599 give (0, 59, 59) and 3600 give (1, 0, 0) |

## Left out

- The two `print` calls (lines 20 and 35) and their label texts (`hours` versus `hours:`): console output and Python's formatting of integers, not part of the conversion.
- Negative and non-integer inputs: the script only converts the non-negative literals 3672 and 5000, so the input is a `nat` and no validation path is modelled.
- The shared script namespace: the second block rebinds `hours`, `minutes` and `seconds` from the first (line 33 overwrites the input bound at line 5); the model treats the two blocks as two independent calls of `Decompose`.
- Python's unbounded integers are modelled by Dafny's unbounded `nat`, so there is no overflow to capture.
