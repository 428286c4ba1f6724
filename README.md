# Hospital transfer intelligence: a verified model of the generator and the ranker

The system suggests where to transfer a patient. A synthetic data generator
builds a table of hospitals, each with specialties, bed and ICU capacity, a
load figure and a distance. It also builds a table of transfer cases, each a
free-text report with a true specialty and a true severity. A decision
engine then scores every hospital for a required specialty and severity and
returns the best few.

This project models those two parts in Dafny:

- `strings.dfy` (module `Strings`) holds the Python string built-ins the code relies on:
  - `str.strip`, `str.split(",")` and `", ".join`;
  - `str(n)` and the zero-padded `f"{n:04d}"`;
  - substring containment.
  Round trips and characterisations are proved for each.
- `records.dfy` (module `Records`) holds the two row types and Python's `max(1, n)` and `range(n)` length.
- `decision.dfy` (module `Decision`):
  - `specialty_match` and `compute_score` are functions: the hard specialty gate, the four weights (0.45, 0.25, 0.15, 0.15) and the reason string.
  - `rank_hospitals` is a method. A loop scores each row, an insertion sort orders the rows by score, and a `head(top_k)` cut keeps the first rows.
- `generator.dfy` (module `Generator`):
  - the constant tables;
  - the three report templates;
  - one row function per table;
  - `generate_hospitals` and `generate_transfers` as loops appending one row per iteration.
- `pipeline.dfy` (module `Pipeline`) states what holds when the generated hospital table is fed to the ranker.

Randomness is not modelled. The values the source draws from its random
generators arrive as a sequence of draw records, one per row. A predicate
requires each record to lie in the half-open range the source asks for.
Python floats are exact reals.

## Model

| member | source | states |
|---|---|---|
| Strings.StripSpec | decision.py:4 | `strip` returns a slice of its input with only whitespace removed on either side and none left at either end |
| Strings.SplitSpec | decision.py:4 | no part of `split(sep)` contains `sep`, and joining the parts with `sep` gives the input back |
| Strings.SplitJoin | generator.py:42 | splitting a `sep`-joined list of separator-free parts gives back exactly those parts |
| Strings.NatStrRoundTrip | generator.py:31 | reading the decimal rendering of a number back gives the number |
| Strings.ZeroPadded | generator.py:62 | the zero-padded rendering is all digits, is exactly the requested width when the plain rendering is shorter, and the plain length otherwise, and reads back as the number |
| Decision.SpecialtyMatch | decision.py:3-5 | the match is always exactly 0.0 or 1.0 |
| Decision.SpecialtyMatchMeaning | decision.py:3-5 | the match is 1.0 if and only if some comma-separated segment, stripped, equals the required specialty |
| Decision.SegmentsOfJoined | decision.py:4 | a `", "`-joined list of comma-free, trimmed names splits and strips back into exactly that list |
| Decision.MatchJoined | decision.py:3-5 | on a `", "`-joined list of such names the match is 1.0 if and only if the required specialty is one of them |
| Decision.CapacityScore | decision.py:21 | the capacity term is at most 1, non-negative for a non-negative free count, and exactly free/total when 0 ≤ free ≤ total |
| Decision.DistanceScore | decision.py:28-29 | the distance term lies in (0, 1] for every non-negative distance |
| Decision.MatchedScore | decision.py:9-34 | a matched, well-formed row scores strictly above 0.45 and at most 1 |
| Decision.MatchedReason | decision.py:36 | the reason contains "Match=" followed by the required specialty, the figures of the pool in use, "Distance={d}km" and "Load={load}" |
| Decision.ComputeScore | decision.py:7-37 | without the specialty: exactly (-1e9, "No specialty match"). With it: a score in (0.45, 1] on a well-formed row, and a reason quoting the specialty, "ICU free a/b" (critical) or "Beds free a/b" (otherwise), "Distance={d}km" and "Load={load}" |
| Decision.DistanceScoreDecreasing | decision.py:29 | the distance term strictly decreases as the distance grows |
| Decision.ScoreDecreasesWithDistance | decision.py:27-34 | changing only the distance, a matched row's score strictly decreases as the distance grows |
| Decision.ScoreDecreasesWithLoad | decision.py:31-34 | changing only the load, a matched row's score strictly decreases as the load grows |
| Decision.CriticalIgnoresBeds | decision.py:19-22 | for a critical case, the bed figures change neither score nor reason |
| Decision.OtherSeverityIgnoresIcu | decision.py:23-25 | for any other severity, the ICU figures change neither score nor reason |
| Decision.CriticalScoreFollowsIcu | decision.py:20-21 | for a critical case, more free ICU beds (up to the pool size) give a strictly higher score |
| Decision.HardGate | decision.py:14-17 | a well-formed row with the specialty outscores every row without it, whatever the severity |
| Decision.AugmentedAt | decision.py:41-43 | row k of the scored table is input row k with its own score and reason |
| Decision.SortByScore | decision.py:45 | the output is a permutation of the input (same length, same multiset) in non-increasing score order |
| Decision.RankHospitals | decision.py:39-46 | the output has `head(top_k)` many rows (all but the last \|k\| for negative k). They are sorted by non-increasing score, each is an input row with its own score and reason, and together they form a sub-multiset of the scored table. Every scored row left out scores no higher than any row kept. With `top_k` ≥ the table size, every row is returned. A well-formed row with the specialty puts a matching row first |
| Decision.MatchOnTop | decision.py:45 | if some well-formed row has the specialty, the first row of a sorted selection that dominates the rest has the specialty and scores above 0.45 |
| Decision.MatchedRankFirst | decision.py:45 | in a sorted selection of scored rows whose matching rows are well-formed, every row that matches comes before every row that does not |
| Generator.ReportNamesConditionAndSpecialty | generator.py:8-12 | each of the three templates, once formatted, contains the condition and the specialty it was given |
| Generator.HospitalRowInvariants | generator.py:33-39 | free beds < beds_total // 4 ≤ beds_total. Free ICU beds < max(1, icu_total // 3) ≤ icu_total. The load is the occupied share, never clipped, in (0.75, 1]. The distance is in [2, 59]. The row is well-formed for scoring |
| Generator.HospitalSpecialtiesDistinct | generator.py:33 | a hospital lists 2 to 4 specialties, all from the vocabulary and pairwise different |
| Generator.HospitalNamesDistinct | generator.py:31 | different rows get different "Hospital_{i+1}" names |
| Generator.GenerateHospitals | generator.py:27-50 | one row per iteration of `range(n)`: row i is built from draw i. Every row satisfies the capacity invariants, and all names are distinct |
| Generator.ConditionTableLabels | generator.py:15-24 | every condition's specialty is in the vocabulary; its severity is a severity level, never "stable" |
| Generator.TransferRowInvariants | generator.py:56-66 | a case's labels are one row of the condition table, and its report names that condition and the specialty |
| Generator.SymptomsDistinct | generator.py:56 | the two sampled symptoms are different |
| Generator.CaseIdShape | generator.py:62 | a case id is "C" followed by digits reading i+1, at least 5 characters, exactly 5 while i+1 < 10000 |
| Generator.CaseIdsDistinct | generator.py:62 | different rows get different case ids |
| Generator.TransferTableAt | generator.py:55-66 | row i of the transfer table is the row built from draw i |
| Generator.GenerateTransfers | generator.py:52-67 | one case per iteration of `range(n)`, equal to the transfer table of the draws. Every case satisfies the label and report invariants, and all case ids are distinct |
| Generator.Clip01 | generator.py:38 | `np.clip(x, 0, 1)` lies in [0, 1] and leaves x unchanged when already inside |
| Pipeline.SpecialtiesArePlain | generator.py:5 | no specialty name contains a comma or surrounding whitespace |
| Pipeline.GeneratedSpecialtiesMatch | generator.py:42 | a generated hospital matches a required specialty if and only if that specialty was picked for it |
| Pipeline.RankingFollowsOffers | decision.py:39-46 | restated over the draws: if some hospital was given the specialty, the top row has it; if none was, every row carries the sentinel score and reason |
| Pipeline.RankForCase | decision.py:39-46 | ranking a generated table for a generated case returns `head(top_k)` many rows. The top row has the case's specialty whenever any hospital does; otherwise every row is the sentinel |
| Pipeline.SingleHospitalScenario | decision.py:39-46 | a one-hospital table ranked for one of its own specialties, in a stable case with `top_k` 1, returns that row. Its score is above -1e9 and its reason contains "Beds free {beds_free}/{beds_total}" |

## Left out

- `app.py` (the user interface) and `analyzer.py` (the text classifier) are not part of this model.
- The random number generators and their seeds are not modelled. The drawn values are parameters, and a range predicate constrains them. The default counts (8 hospitals, 120 cases) become the caller's `n`. Likewise the default `top_k=3` of `rank_hospitals` becomes the required parameter `topK` of `Decision.RankHospitals`.
- pandas `DataFrame`s are sequences of records. Column selection, `iterrows`, `to_dict` and dtype handling are not modelled.
- Python floats are exact reals, so IEEE rounding and overflow are not modelled.
- The `Distance=` and `Load=` parts of the reason render floats. That rendering is the parameter `fmt`. The integer bed and ICU figures are rendered exactly.
- Generator.HospitalRowInvariants: the load it states is the exact occupied share. `round(load, 3)` is not modelled, so the model's load can differ from the source's in the fourth decimal.
- Decision.RankHospitals: the order among rows with equal scores is left open. pandas' default `sort_values` is not a stable sort, so the source does not fix that order either. When ties straddle the `top_k` cut, the contract does not say which tied rows are kept.
- Decision.RankHospitals: the table must be non-empty. On an empty table the source builds a frame with no `score` column, and the sort raises.
- Decision.ComputeScore: a matched row with distance exactly -10 km is excluded by precondition. The source divides by zero there.
- The template strings are written out inside `Generator.Report` rather than kept as a list of format strings. Python's general `str.format` parsing is not modelled.
- The tie-breaking of equal scores by original row order is not modelled. The code does not implement it (see above), so the model follows the code.
- Nothing is left out of the capacity bounds: `beds_free ≤ beds_total` and `icu_free ≤ icu_total` hold for every generated row, and `Generator.HospitalRowInvariants` proves both from the draw ranges.
