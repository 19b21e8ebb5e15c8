# Smart Core: frame lookup and attribute-text parsers

This project is a verified Dafny model of the pure logic in the Smart Core
preference app. It covers two pieces:

- **Frame lookup** (`smartcore.py`, `buscar_frame`). A time in seconds becomes
  a frame index of the world camera. The index is the left insertion point of
  the time among the ascending reference timestamps (`WORLD_TIMESTAMPS`,
  loaded once from `world_timestamps.npy`). The result is `None` when those
  timestamps could not be loaded or the time is missing.
- **Attribute parsers** (`app.py`). `_extract_minutes` reads a preparation
  time such as "5 minutos" as a number of minutes. `_to_bool_natural` reads a
  product attribute cell as 1 (natural or organic) or 0.

Files:

- `wrappers.dfy`: the `Option` type. Python's `None` is `None`, and a present
  value is `Some`.
- `frame_lookup.dfy`, module `FrameLookup`:
  - `CountBelow` is the specification: the number of timestamps strictly below
    the time.
  - `FrameFor` is `buscar_frame` as a function.
  - `SearchFrame` is the binary search that `np.searchsorted` performs. It is
    proved equal to `FrameFor`.
- `text.dfy`, module `Text`: `str.lower()`, `str.strip()`, the `in` substring
  test and the `\d` digit class. The whitespace that `strip()` removes is
  exactly the 29 code points for which Python's `str.isspace()` holds.
- `product_attributes.dfy`, module `ProductAttributes`: `_extract_minutes`
  (`ExtractMinutes`), the `re.search(r"(\d+)")` step (`FirstNumber`) and
  `_to_bool_natural` (`ToBoolNatural`).

The loaded timestamp array is a value (`Option<seq<real>>`) passed to the
lookup. The lookup only reads it, so it cannot change it, and equal inputs
always give equal results. An array that was loaded but is empty gives frame
0, not `None`. That is what `np.searchsorted` returns on an empty array, and
`buscar_frame` checks only for a missing array and a missing time. So a loaded
but empty array cannot be told apart from a time before the first frame: both
give 0.

A value that is not a string is passed to `_extract_minutes` as `None`.
`_to_bool_natural` first converts any value to text with `str(x)`, and the
model takes that text as its input.

The experiment state machines, the AOI layout generator, the gaze-attention
aggregator and the results assembler are not part of this model. Their code is
not in `smartcore.py` or `app.py`.

## Model

| member | source | states |
|---|---|---|
| `FrameLookup.CountBelow` | smartcore.py:15 | The number of timestamps below `t` is never more than the length of the array. |
| `FrameLookup.CountBelowPartitions` | smartcore.py:15 | On ascending timestamps, every element before `CountBelow` is `< t` and every element from it on is `>= t`. This is the left insertion point. |
| `FrameLookup.PartitionIsCountBelow` | smartcore.py:15 | Any index that splits the array into "below `t`" and "at least `t`" equals `CountBelow`, so the insertion point is unique. |
| `FrameLookup.FrameFor` | smartcore.py:9-16 | `None` exactly when the array or the time is missing. Otherwise the index is in `[0, len]`, everything before it is `< t` and everything from it on is `>= t`. |
| `FrameLookup.SearchFrame` | smartcore.py:9-16 | A binary search whose loop invariants keep the two partition facts. It returns exactly `FrameFor`, including both `None` guards, and it reads the array without changing it. |
| `FrameLookup.CountBelowMonotone` | smartcore.py:15 | A later time never has fewer timestamps below it. |
| `FrameLookup.FrameForMonotone` | smartcore.py:9-16 | For a fixed array, the frame index never decreases as the time grows. Whether the result is `None` does not depend on the time. |
| `FrameLookup.FrameForEdges` | smartcore.py:15-16 | An empty array gives 0. A time at or before the first timestamp gives 0. A time after the last gives `len`. There is no extrapolation. |
| `FrameLookup.FrameForFirstOccurrence` | smartcore.py:15 | A time equal to a recorded timestamp maps to the first index holding that value. |
| `Text.SpaceIsNeitherDigitNorLetter` | app.py:44 | `IsSpace` is the whitespace set `str.strip()` removes, and no character in it is a digit or an ASCII letter. Stripping therefore cannot touch the digits or the word "listo". |
| `Text.DigitIsKeptByLowerAndStrip` | app.py:47 | `IsDigit` is the `\d` class on ASCII digits. A digit is never whitespace, and lowering leaves it unchanged. |
| `Text.Contains` | app.py:45 | The substring test `k in s` (also used at app.py:56). A word can occur only in a text at least as long as itself, and the empty word occurs in every text, as in Python. |
| `Text.Lower` | app.py:44 | Lowering keeps the length and lowers each character on its own: ASCII capitals become small letters and every other character is unchanged. |
| `Text.Strip` | app.py:44 | The stripped text is no longer than the input, and it neither starts nor ends with whitespace. |
| `Text.StripIsSlice` | app.py:44 | The stripped text is a contiguous slice of the input, and only whitespace lies outside it. |
| `Text.StripKeepsWord` | app.py:44-45 | A word with no whitespace at its ends occurs in the stripped text exactly when it occurs in the unstripped text. |
| `ProductAttributes.FirstNumber` | app.py:47-48 | The search finds nothing exactly when the text has no digit. Otherwise it reads the leftmost maximal run of digits as a number. |
| `ProductAttributes.DecimalValue` | app.py:48 | Reads the captured digits as a number, leading zeros allowed. A run of `k` digits gives a number below 10^k. |
| `ProductAttributes.DecimalRoundTrip` | app.py:48 | Reading back the decimal spelling of any natural number gives that number. |
| `ProductAttributes.NormalizedFindsNumber` | app.py:44-48 | After lowering and stripping, the search finds a number exactly when the original text holds a digit. |
| `ProductAttributes.NormalizedFirstNumber` | app.py:44-48 | Lowering and stripping before the search give the same number as the leftmost digit run of the original text. |
| `ProductAttributes.ExtractMinutes` | app.py:37-48 | A non-string gives 0. Any text whose lowered form contains "listo" gives 0, whatever digits it has. Text with no digit gives 0. Otherwise the result is the value of the leftmost maximal digit run of the text as given. The result is never negative. |
| `ProductAttributes.ExtractMinutesIgnoresCase` | app.py:44 | Lowering the input first does not change the minutes. |
| `ProductAttributes.ExtractMinutesIgnoresSurroundingSpace` | app.py:44 | Whitespace added before or after the text does not change the minutes. |
| `ProductAttributes.ExtractMinutesReadsWrittenMinutes` | app.py:47-48 | For every `n`, the text `n` followed by " minutos" reads back as `n`. |
| `ProductAttributes.ExtractMinutesFiveMinutes` | app.py:39 | "5 minutos" gives 5. |
| `ProductAttributes.ExtractMinutesRange` | app.py:47-48 | "10-12 min" gives 10, the first number of the range. |
| `ProductAttributes.ExtractMinutesIgnoresSign` | app.py:47-48 | "-5 min" gives 5, because the minus sign is not captured. |
| `ProductAttributes.ExtractMinutesReadyToEat` | app.py:39-46 | "Listo para comer" gives 0. |
| `ProductAttributes.ExtractMinutesReadyDespiteDigits` | app.py:44-46 | "LISTO en 5 min" gives 0: the "listo" test comes before the digits and ignores case. |
| `ProductAttributes.AnyKeywordIn` | app.py:56 | `any(k in s for k in ks)` holds exactly when some keyword of the list occurs in the text. |
| `ProductAttributes.ToBoolNatural` | app.py:50-58 | The result is always 0 or 1. It is 1 exactly when the lowered text contains one of "sí", "si", "orgánico", "organico" or "organic". |
| `ProductAttributes.ToBoolNaturalReference` | app.py:51-56 | The flag computed from the five-keyword list of app.py:56 agrees with the four-keyword list of the docstring at app.py:51 ("sí", "si", "organic", "orgánico"), since any text containing "organico" also contains "organic". |
| `ProductAttributes.ToBoolNaturalIgnoresCase` | app.py:53 | Lowering the input first does not change the flag. |
| `ProductAttributes.ToBoolNaturalKeptByAppending` | app.py:56 | Adding text before or after a text flagged 1 keeps it 1. |
| `ProductAttributes.ToBoolNaturalMatchesInsideWords` | app.py:56 | "si" counts inside another word, so "Sin conservadores" gives 1. |
| `ProductAttributes.ToBoolNaturalOrganic` | app.py:51-57 | "ORGANIC" and "organic" both give 1. |
| `ProductAttributes.ToBoolNaturalNoKeyword` | app.py:56-58 | "Natural" contains none of the keywords, so it gives 0. |

## Left out

- Loading the timestamp file with `np.load` and falling back to `None` when that fails (smartcore.py:3-6) is file I/O. The loaded array is a parameter instead.
- The `except Exception` fallbacks (smartcore.py:17-18, app.py:54-55) are only reachable with ill-typed inputs, which the typed model rules out.
- FrameFor: covers ascending arrays only (`requires Sorted`). `np.searchsorted` gives no meaningful answer on unsorted input. The timestamps and times are exact reals, so float64 rounding and NaN are not modelled.
- SearchFrame: covers ascending arrays only, for the same reason as `FrameFor`.
- ExtractMinutes: returns the exact natural number, not the float `float(m.group(1))`. Values above 2^53 may be rounded in Python, and a value of about 1.8·10^308 or more gives `inf`. Neither is modelled.
- Text.Lower: lowers ASCII letters only. Python's `str.lower()` also lowers non-ASCII capitals, so "SÍ" becomes "sí" in Python but "sÍ" here.
- ProductAttributes.FirstNumber: `\d` is ASCII digits only. Python's `\d` also matches other Unicode decimal digits.
- ToBoolNatural: the `str(x)` conversion of non-string cells (numbers, NaN, booleans) is not modelled. The model takes the resulting text.
- The Streamlit page, the questionnaire sliders, weight normalisation, `normalize_minmax`, the SmartScore sum, sorting and top-k ranking (app.py:14-35, 60-175, 236-237) are UI, Excel I/O and floating-point pandas arithmetic.
- Reading, appending and writing the results workbook through the GitHub API (app.py:180-231) is network persistence.
