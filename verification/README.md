# CAPTCHA analysis service: coordinate mapping, result assembly and API keys

This project models the core of a small CAPTCHA analysis service. The service
asks an object detector for the characters on a CAPTCHA image, groups them by
class, and reports the classes that occur more than once. Every detection is
mapped to pixel coordinates in a fixed 502 x 606 browser frame. A CAPTCHA
image of 288 x 179 sits inside that frame, and its offset is derived from a
hard-coded UI layout. Requests are authenticated by API keys kept in a small
table.

The model covers the following parts:

- **Layout** (`layout.dfy`). The UI constants, the derived positions, and the
  `ui_layout` block every successful response echoes.
- **Coordinates** (`coordinates.dfy`). The mapper `convert_coordinates`. It
  rounds the exact quotient half to even, as Python's `round` does. The
  service rounds a floating-point product instead, which can differ by one
  (see "Left out"). It clamps to the frame and raises on a zero image
  dimension.
- **Detections** (`detections.dfy`). The normaliser that turns a raw
  detector record, with optional keys, into the fixed-shape response record.
- **Ranking** (`ranking.dfy`). The stable sort by descending confidence.
- **Grouping** (`grouping.dfy`). The `defaultdict` grouping by class, after
  a missing class has been set to "unknown".
- **Duplicates** (`duplicates.dfy`). The classes with more than one member,
  with their counts, their details and the flat `duplicates` list.
- **Pipeline** (`pipeline.dfy`). `process_image` from the detector's
  response to the result envelope, or to the error envelope when anything
  raises. Both copies of the service are covered. They differ only in the
  error envelope's keys: "error"/"details" in `main.py` and
  "lỗi"/"chi_tiết" in `2.py`. A `Dialect` parameter selects between them.
- **ApiKeys** (`apikeys.dfy`). The `api_keys` table as a map from key to
  row. The model covers key creation, lookup, verification with usage
  counting and automatic deactivation on expiry, listing, and the
  header-before-query key check that answers 403.

Coordinates and confidences are modelled as finite numbers, and under that
reading every exception that `process_image` can raise from its own
arithmetic is a division by zero. The model states exactly when one happens.
Overflow to infinity and non-finite JSON values raise other exceptions in the
service; they are listed under "Left out". The mapper
divides by the image width and height, read with default 0 and truncated by
`int()`. So it raises when there is at least one prediction and either
dimension is missing or truncates to 0 (a width of 0.5 does). The
`coordinate_transform` ratio divides by the raw values, read with default 1.
So it raises when the width or height key is present and exactly 0. A
response without an `image` key is first given a 0 x 0 image, and so always
fails. A detector or image-loading failure is an input
(`DetectorOutcome.Raised`).

## Model

| member | source | states |
|---|---|---|
| Layout.Ui | main.py:92-106 | container centred in the frame; title, image and buttons centred in the container within one pixel; image, confirm and reload each stacked 5 px below the previous block; the concrete positions (95,150), (115,150), (107,197), (107,381), (107,426) |
| Layout.DefaultImageOffset | main.py:99-100 | the default CAPTCHA offset is (107, 197), and the 288 x 179 image at that offset lies inside the 502 x 606 frame |
| Coordinates.RoundHalfEven | main.py:122-123 | Python's `round` of the exact quotient n/d: the result is within half of d of the quotient, and on an exact tie it is even |
| Coordinates.RoundHalfEvenUnique | main.py:122-123 | those two properties single out one integer, so any rounding that satisfies them equals `RoundHalfEven` |
| Coordinates.Clamp | main.py:130-131 | the result lies in [0, hi]; it is the value itself when in range, 0 below the range and hi above it |
| Coordinates.Trunc | main.py:253-256 | `int()` truncates toward zero: the result is the integer part, on the correct side of zero |
| Coordinates.Convert | main.py:108-133 | fails exactly when the width or height is 0; on success the point is in the frame and each coordinate is `offset + round(coord * 288 / width)` (179 and height for y), clamped to the frame |
| Coordinates.OffsetOrDefault | main.py:202-205 | a missing offset becomes the default image position 107 / 197; a given offset is kept |
| Coordinates.MapperExample | main.py:108-133 | the point (150, 75) of a 300 x 150 image with offset (50, 100) maps to (194, 190); the y product 89.5 is a tie that goes to 90 |
| Coordinates.HalfToEvenExample | main.py:118-123 | in a 576 x 358 image the point (1, 5) meets the ties 0.5 and 2.5, which go to the even 0 and 2 (half up would give 1 and 3), so it maps to (107, 199) |
| Detections.Normalize | main.py:319-330 | fails exactly on a zero dimension; browser coordinates are in the frame and are the mapping of the truncated x, y; geometry is truncated; missing class, class_id, confidence and detection_id become "", 0, 0.0 and "" |
| Detections.NormalizeAll | main.py:295-331 | fails exactly when the list is non-empty and a dimension is 0; otherwise one output per input, in order, each the normalisation of its input |
| Detections.NormalizeAllInFrame | main.py:129-131 | every normalised record lies inside the browser frame |
| Ranking.SortDesc | main.py:220-224 | the result is non-increasing in confidence (missing counts as 0), is a permutation of the input, and keeps records of equal confidence in input order |
| Ranking.StableArrangementUnique | main.py:220-224 | two non-increasing lists with the same per-confidence sublists are equal, so a stable descending sort has a unique outcome |
| Ranking.SortDescIsTheStableSort | main.py:220-224 | any non-increasing arrangement that keeps equal confidences in input order is `SortDesc` of the input |
| Ranking.SortDescIdempotent | main.py:242-247 | re-sorting an already sorted list changes nothing, so the per-class re-sort is the identity |
| Ranking.RankingExample | main.py:220-224 | confidences 0.9 then 0.95 come out as 0.95 then 0.9 |
| Grouping.WithLabel | main.py:229-231 | a missing class becomes "unknown"; nothing else in the record changes |
| Grouping.Labelled | main.py:228-231 | the defaulting is applied to every record of the sorted list, in place and in order |
| Grouping.AddTo | main.py:233-234 | a record joins the end of its class's existing group and other groups are untouched; a new class opens a new group at the end |
| Grouping.GroupAll | main.py:227-234 | the group keys are the distinct classes in order of first occurrence |
| Grouping.GroupAllMembers | main.py:227-234 | each group holds exactly the records of its class, in the order of the list grouped |
| Grouping.Labels | main.py:227-234 | the list of group keys has no repeats |
| Grouping.LabelsCoverage | main.py:233-234 | a class is a group key exactly when some record carries it |
| Grouping.GroupsInFirstOccurrenceOrder | main.py:240 | for two groups, the earlier one's class occurs in the input before any record of the later one's class |
| Grouping.LabelsInFirstOccurrenceOrder | main.py:227-234 | for two distinct classes, the one listed first occurs in the input before any record of the other |
| Grouping.GroupCountIsDistinctLabels | main.py:390 | the number of groups is the number of distinct classes of the input |
| Grouping.GroupOfSorted | main.py:240-247 | grouping the sorted list yields, per class, the stable sort of that class's records; a group's size is its class's count in the input |
| Duplicates.DuplicateGroups | main.py:240-241 | keeps exactly the groups with more than one member, as a subsequence of the groups, so in their first-occurrence order |
| Duplicates.CollectDuplicates | main.py:236-292 | fails exactly when some group is a duplicate and a dimension is 0; otherwise one entry per duplicate group, in group order, with its name, count equal to its size and to the number of details, and details equal to its re-sorted, normalised members; the flat list is their concatenation |
| Duplicates.FlattenLength | main.py:286-290 | the flat `duplicates` list is as long as the sum of the entries' counts |
| Duplicates.FlattenInFrame | main.py:287 | every record in `duplicates` lies inside the frame |
| Duplicates.DuplicateGroupsDistinct | main.py:289 | the duplicate groups carry distinct names |
| Duplicates.DuplicateGroupNames | main.py:240-241 | a class names a duplicate group exactly when the input has more than one record of it |
| Duplicates.DuplicateNamesExactly | main.py:236-292 | the entry names have no repeats and are exactly the classes with more than one record |
| Pipeline.ErrorOutput | 2.py:343-351 | the error envelope carries the cause, the fixed details text and empty result lists, under "error"/"details" or "lỗi"/"chi_tiết" depending on the copy of the service |
| Pipeline.Analyse | main.py:304-338 | the analysis raises exactly when a prediction must be mapped against a dimension that is missing or truncates to 0, or when a reported dimension is exactly 0 |
| Pipeline.Process | main.py:199-407 | `process_image` returns the error envelope exactly when the detector raised or the analysis divides by zero; the envelope has the "error"/"details" keys, the fixed details text, the detector's error or the division as cause, and empty lists; otherwise it returns the analysis with the defaulted offsets; the older copy at 2.py:147-352 behaves the same, with the keys "lỗi"/"chi_tiết" |
| Pipeline.Assemble | main.py:334-391 | the envelope carries the two loops' results, `duplicate_count` as the number of entries, ratios that scale the reported width and height onto 288 x 179, the offsets, the fixed geometry and layout, `inference_id` and `time` defaulted to "" and 0, the input count and the group count |
| Pipeline.Loops | main.py:238-331 | the duplicates loop and the all-predictions loop divide by zero exactly when there is a prediction to map and a dimension is 0, and the duplicates loop fails only when the other does |
| Pipeline.MissingImageFails | main.py:214-215 | a response without an `image` key always ends in the error envelope |
| Pipeline.AnalyseParts | main.py:334-391 | a successful envelope holds the duplicates result, the all-predictions list, the offsets, the reported size, the input count, the group count and the fixed layout |
| Pipeline.AllPredictionsCoverInput | main.py:295-331 | `all_predictions` has one record per input prediction, in sorted order, each the normalisation of that prediction with its class defaulted |
| Pipeline.UniqueCharactersCountsClasses | main.py:389-390 | `unique_characters` is the number of distinct classes among the input predictions |
| Pipeline.EnvelopeInFrame | 2.py:91-92 | every browser point in `all_predictions` and in `duplicates` lies inside the frame |
| Pipeline.DuplicateEntriesDetailClasses | main.py:289-292 | each duplicate entry's count is its class's number of input predictions, and its details are the normalised, sorted records of that class |
| Pipeline.DuplicateClassesExactly | main.py:342-343 | the duplicate entries name each class with more than one prediction exactly once, and `duplicate_count` is the number of such classes |
| Pipeline.DuplicatesFlattenEntries | main.py:344 | `duplicates` is the concatenation of the entries' details, and its length is the sum of their counts |
| Pipeline.EmptyPredictionsExample | main.py:216-217 | with no predictions and a 300 x 150 image the envelope is empty and carries the default offsets |
| Pipeline.FractionalWidthExample | main.py:304-338 | a reported width of 0.5 with one prediction raises in the mapper, which divides by `int(0.5) = 0`, although the ratio's divisor is not 0; a width of 300.7 is mapped against 300 |
| Pipeline.MissingWidthWithoutPredictions | main.py:337-338 | an image without a width key and no predictions does not raise, because the ratio divides by 1; the reported width is 0 |
| ApiKeys.EmptyStore | apikey_manager.py:44-56 | the new table is empty and well formed |
| ApiKeys.Create | apikey_manager.py:61-101 | an explicit null lifetime raises; an expiry past 9999-12-31 23:59:59.999999 and a limit outside the signed 64-bit range raise OverflowError; a taken key is refused by the UNIQUE constraint; otherwise exactly one row is added with the next id, usage 0, active, the requested limit, and an expiry `days` later when `days > 0`, else none |
| ApiKeys.CreateRangeExamples | apikey_manager.py:66-87 | from the first instant of 2026 a lifetime of 2912442 days is stored, 2912443 days overflow the calendar, and a limit of 2^64 cannot be bound |
| ApiKeys.Lookup | apikey_manager.py:103-130 | finds a row exactly when the key is in the table, and returns that row |
| ApiKeys.IncrementUsage | apikey_manager.py:157-167 | adds one to the usage count of the key's row and changes nothing else; an unknown key changes nothing |
| ApiKeys.Deactivate | apikey_manager.py:169-182 | reports whether a row matched; clears only that row's active flag |
| ApiKeys.Verify | apikey_manager.py:132-155 | accepts exactly an existing, active, unexpired key under its positive limit; an acceptance increments its usage; an expired active key is deactivated; nothing else changes |
| ApiKeys.ChosenKey | apikey_manager.py:230-231 | a non-empty header key wins over the query key |
| ApiKeys.Authenticate | apikey_manager.py:226-243 | answers 403 without a key or when verification fails; on success returns a non-empty key of an active row |
| ApiKeys.ListKeys | apikey_manager.py:184-215 | returns every selected row (all rows, or the active ones) exactly once and nothing else |
| ApiKeys.CreatePreservesValid | apikey_manager.py:44-56 | creation keeps rows filed under their own key with distinct ids below the next id |
| ApiKeys.UpdatesPreserveValid | apikey_manager.py:157-182 | verification, deactivation and the usage increment keep the table well formed |
| ApiKeys.VerifyKeepsLimits | apikey_manager.py:148-153 | one verification leaves every key with a positive limit within it |
| ApiKeys.LimitsRespected | apikey_manager.py:148-150 | verification, creation and deactivation each keep every key with a positive limit within it |
| ApiKeys.VerifyManyWithinLimits | apikey_manager.py:148-153 | verifications served one after another keep every key within its limit, however many there are |
| ApiKeys.WriteBack | apikey_manager.py:142-165 | the write of a verification that read an earlier snapshot of the row: on the current table it is exactly `verify_api_key`'s write, and an accepted verification adds one to the usage current at write time |
| ApiKeys.RacingVerify | apikey_manager.py:132-165 | two verifications that both read the row before either writes give the same answer, and when they accept, the usage grows by two |
| ApiKeys.RaceExceedsLimit | apikey_manager.py:148-165 | a key limited to one use and used by two requests at once is accepted twice and ends up used twice, past its limit |
| ApiKeys.UsageCountsSuccesses | apikey_manager.py:152-155 | over any sequence of verifications, a key's usage count grows by exactly its number of successful verifications |
| ApiKeys.InactiveIsFinal | apikey_manager.py:138-140 | an inactive key stays inactive and never verifies again |
| ApiKeys.ExpiredKeyRejected | apikey_manager.py:142-146 | a key past its lifetime is refused on its first attempt, is deactivated, and is not counted as used |
| ApiKeys.SubSecondExpiry | apikey_manager.py:142-146 | expiry is decided to the microsecond: a key created at 1000.7 s with a one-day lifetime is refused and deactivated at 87400.8 s, a tenth of a second past its expiry |
| ApiKeys.DefaultLimitNeverExhausts | apikey_manager.py:17-18 | a key created with the default limit of -1 is never refused for its usage |

## Left out

- The HTTP layer is not modelled: FastAPI routes, CORS, logging, uvicorn, the admin and help pages, and form and JSON parsing. It is plumbing around the core.
- `load_image` and the detector call are not modelled, including the retry loop, timeouts and JPEG re-encoding. They are network and file I/O. Their only effect on the result is a response or an exception, which `DetectorOutcome` provides as an input.
- Decoding of base64 and `data:` URLs and writing of temporary files are left out. They are I/O.
- Pipeline.Assemble: the `coordinate_transform` ratios are exact reals, so `x_ratio * width == 288` holds exactly. The service stores `round(288 / width, 4)`, a float rounded to 4 decimal places, for which the equation holds only approximately (width 7 gives 41.1429, and 41.1429 * 7 = 288.0003).
- Coordinates.Convert: rounds the exact rational `coord * 288 / width`. CPython rounds the float product `coord * (288 / width)`, which can differ by one on ties that the float cannot represent exactly. The float product can also overflow to infinity (a coordinate of 1e308 in a 100-pixel-wide image), and `round` then raises OverflowError; an integer coordinate too large for a float raises OverflowError too. The model has unbounded numbers and neither error.
- Pipeline.Analyse: coordinates and confidences are finite numbers. JSON `NaN` and `Infinity` are outside the model: `int()` of them raises ValueError or OverflowError, and a NaN confidence would make the sort order unspecified.
- Pipeline.ErrorOutput: the error text `str(e)` becomes a cause kind: the detector's message, or a division by zero. The exact Python wording of the message is not modelled.
- The SQLite connection handling is not modelled. ISO datetime text becomes microseconds since 0001-01-01 00:00:00, the resolution of `datetime`, supplied by the caller. Token generation becomes a key parameter.
- ApiKeys.Create: an explicit null `usage_limit` is not modelled; `usageLimit` is an integer here. In the service the INSERT stores NULL and is committed (apikey_manager.py:89-90), and then building the `APIKeyResponse` raises, because its `usage_limit` is a plain `int` (line 27). The client never learns the key, and from then on every `list_api_keys` call raises at building `APIKeyDB` with `usage_limit=None` (202-212), whether or not `active_only` is set, since the new row is active.
- Ill-typed JSON values are outside the model, for example a string where a number is expected. They raise at the latest when the ratio is computed: a numeric string such as "640" passes `int()` but makes `288 / "640"` raise a TypeError.
- ApiKeys.ListKeys: the row order is not stated. The query has no ORDER BY.
- ApiKeys.LimitsRespected: verifications are modelled as atomic and one after another. In the service the row is read (apikey_manager.py:133) and its usage incremented (157-165) on separate connections, and the server runs several workers, so concurrent verifications can exceed a limit; see "Findings".
- ApiKeys.IncrementUsage: usage counts are unbounded integers. SQLite would turn a count past 2^63 - 1 into a floating-point value.
- ApiKeys.Create: the AUTOINCREMENT id is unbounded; SQLite refuses new rows once it reaches 2^63 - 1.

## Findings

| source | as written | input that shows it | evidently intended | confidence | as-written member | corrected member |
|---|---|---|---|---|---|---|
| apikey_manager.py:132-165 | `verify_api_key` reads the row, checks the usage limit, and increments the usage in a separate UPDATE on another connection, with no transaction spanning the three; the server runs several workers | two simultaneous requests with a key whose limit is 1 and usage 0: both read usage 0, both are accepted, and the usage becomes 2 | the check and the increment happen atomically, so a key is never used more often than its limit | medium; not executed | ApiKeys.RaceExceedsLimit | ApiKeys.VerifyManyWithinLimits |
