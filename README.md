# Treatment-episode reconstruction for survival analysis

This project models, in Dafny, the data preparation of a head-and-neck cancer
survival study.

`prepare_treatment_data.py` turns one row per patient into one row per treatment
episode. Each patient row holds ragged, partly missing column lists: treatment
times, recurrence times, treatment types and responses. The script goes through
these steps:

- `fix_format` converts every list to integers and absent markers, and the
  converted lists are written back to their columns.
- The converted lists are then searched for the `'none'` placeholder, to cut them
  there. They no longer hold that str, so the cut never happens (see Findings).
- Patients with an impossible treatment time (below -5000) are rejected.
- For each remaining patient, responses and treatment types are aligned with the
  present treatment times. A baseline episode at time 0 is inserted when the first
  treatment comes later.
- Each episode gets its running response count (`tnum`), treatment group,
  recurrence time and disease-free time.
- A final pass over the episode table does the rest:
  - it drops the rows whose disease-free time is negative or absent;
  - it derives `response_tmp` and `binary_response`;
  - it sets status 1 on every episode below the patient's largest `tnum`.

`prepare_tcga_data.py` maps clinical columns. It regroups organ sites, stages and
invasion flags with first-match dictionaries. It buckets race. It derives the p16,
status, smoking and alcohol flags. It fills the survival time, converts it with
`toint` and filters it. In place, it bins ages into levels by thresholds, and sets
one gene-mutation flag per patient and gene from a mutation table.

Modules:

- `Values`: Python cells (int, float, NaN, str, None) and what `int()` does to them.
- `FieldExtraction`: `fix_format`, as written and as intended, and the loop that builds its list.
- `Truncation`: the cut at the placeholder.
- `Episodes`: reconstruction for one patient, proved against the spec function `EpisodesOf`.
- `Outcomes`: the pass over the episode table.
- `TreatmentFrame`: the input table as a class. Its methods convert the list columns in
  place, cut them, reconstruct every row and fill the two diagnostic dicts. `Prepare`
  runs the steps in the script's order; `PrepareCorrected` cuts before converting.
- `TcgaMappings`: the per-cell mappings of the clinical script and its survival filter.
- `ClinicalFrame`: the clinical table as a class. It holds the in-place `age_level`
  and gene-flag passes.

In these places the code does something other than what its names and comments suggest. The model follows the code:

- Status is overridden to 1, not 0, on the episodes below the patient's largest `tnum`
  (prepare_treatment_data.py:172).
- A patient is rejected for a time strictly below -5000 (line 72), not at -5000 itself.
- A patient whose first treatment time is absent is not rejected: absent times are
  filtered out first (line 67), so line 76 never fires. A patient with no time at all
  makes `d[0]` raise.
- The disease-free time of episode `i` reads the recurrence list at `i + 1`
  (lines 117-124), not at `i`.
- `binary_response` reads the raw response (line 169), so an absent response gives 0
  even though `response_tmp` is 2. This holds when the response column holds at least
  one response; otherwise line 169 raises (see Left out).
- The treatment group of `tnum` 0 (the baseline, or any episode before the first
  response) is 3, not 1 (lines 129-134).
- A living patient with treatment times 0 and 100, one recurrence at 250 and 400 days
  of survival makes line 137 index past the end of the recurrence list
  (`Episodes.LivingExampleRaises`).
- The lost-time entries of line 86 are never written: `d` holds no absent values
  by then. Only the rejection of line 73 writes `list_of_lost_times`.

## Model

| member | source | states |
|---|---|---|
| Values.PyInt | prepare_treatment_data.py:29-31 | `int()` raises TypeError exactly on None; it raises ValueError on NaN, and on a str exactly when the str is not an optionally signed run of digits; a readable str converts to the value of its digits |
| Values.Trunc | prepare_treatment_data.py:30 | `int()` of a float truncates toward zero (bounds for both signs) |
| Values.ParseShowInt | prepare_treatment_data.py:30 | `int()` reads back every integer written in decimal |
| Values.PlaceholdersAreNotNumbers | prepare_treatment_data.py:31-32 | 'none', 'unknown' and '' raise ValueError, so they reach the placeholder test |
| FieldExtraction.ReportBranchUnreachable | prepare_treatment_data.py:31-35 | as written, every cell is either appended or makes `fix_format` raise; the "Bad element" branch is never taken |
| FieldExtraction.AsWrittenRaisesOnWord | prepare_treatment_data.py:26-36 | as written, a list holding a word such as 'surgery' raises instead of dropping it |
| FieldExtraction.AsWrittenAgreesWhenNoRaise | prepare_treatment_data.py:26-36 | wherever the written `fix_format` returns, it returns the intended list |
| FieldExtraction.IntendedDropsWord | prepare_treatment_data.py:26-36 | the intended `fix_format` drops the word and keeps the integer |
| FieldExtraction.NormaliseLength | prepare_treatment_data.py:26-36 | the output is never longer than the input; the lengths are equal exactly when every cell converts or is a placeholder |
| FieldExtraction.FixFormatAsWritten | prepare_treatment_data.py:26-36 | the written `fix_format` raises exactly when some cell raises in `int()` and is not a placeholder; otherwise it returns one entry per cell |
| FieldExtraction.Normalise | prepare_treatment_data.py:26-36 | the intended `fix_format` never lengthens the list |
| FieldExtraction.NormaliseOne | prepare_treatment_data.py:29-33 | one cell gives None for a placeholder, its `int()` value when that converts, and nothing otherwise |
| FieldExtraction.NormaliseAppend | prepare_treatment_data.py:26-36 | the list is converted cell by cell: converting a concatenation concatenates the conversions |
| FieldExtraction.NormaliseEntries | prepare_treatment_data.py:29-33 | every output entry is an integer `int()` reads from some cell, or absent for a 'none'/'unknown'/NaN cell |
| FieldExtraction.NormaliseKeepsIntsInOrder | prepare_treatment_data.py:29-30 | the integers of the output are exactly the convertible cells' values, in their original order |
| FieldExtraction.Present | prepare_treatment_data.py:67 | filtering out absent entries keeps exactly the present values, and never lengthens the list |
| FieldExtraction.FixFormat | prepare_treatment_data.py:26-36 | the loop that builds `lout` returns the intended list |
| Truncation.IndexOf | prepare_treatment_data.py:53 | `list.index` gives the first position holding the value |
| Truncation.Take | prepare_treatment_data.py:57-59 | `l[:k]` is a prefix of length min(k, len(l)) |
| Truncation.TruncateRow | prepare_treatment_data.py:50-59 | the recurrence list is kept; types, responses and times become prefixes of themselves; a response list holding the placeholder loses it |
| Truncation.TruncateAsWritten | prepare_treatment_data.py:50-59 | run on converted lists, the recurrence list is kept and the other three become prefixes |
| Truncation.LowerLift | prepare_treatment_data.py:37-48 | writing a converted list back to its column and reading it again gives the same list |
| Truncation.ConvertedRowIsNotCut | prepare_treatment_data.py:50-59 | a row whose cells are ints and None has nothing to cut |
| Truncation.TruncateRowCases | prepare_treatment_data.py:50-59 | the recurrence list is never cut; no placeholder means no change; otherwise types, responses and times are cut at the response's first placeholder if it has one, else at the type's, and the list cut at its own placeholder no longer holds it |
| Truncation.ResponsePositionWins | prepare_treatment_data.py:52-55 | when both lists hold the placeholder, the response's position decides the cut |
| Truncation.TruncateAsWrittenIsIdentity | prepare_treatment_data.py:50-59 | run after `fix_format`, as written, the cut never changes a row |
| Truncation.PlaceholderCutExample | prepare_treatment_data.py:50-59 | a row ending in 'none' keeps its length as written, and is cut to one entry when the cut is made on the raw cells |
| Episodes.Align | prepare_treatment_data.py:66-110 | the aligned time, response and type lists have one common non-zero length; the first time is at most 0; a patient who is not deceased has a recurrence for every time |
| Episodes.EpisodesOf | prepare_treatment_data.py:65-147 | a rejected patient has no episodes; otherwise at least one, the first at or before time 0; every episode carries its 1-based position, the patient's id and its status |
| Episodes.Group | prepare_treatment_data.py:129-134 | the treatment group is 1, 2 or 3 |
| Episodes.CollectLists | prepare_treatment_data.py:84-102 | the collected responses and types are the first len(d) entries of their lists, and the lost-response code is `LostCode` |
| Episodes.EmitEpisodes | prepare_treatment_data.py:114-147 | the loop, with rt growing by the survival time, emits exactly `EpisodeAt` for every position of the time axis |
| Episodes.ReconstructPatient | prepare_treatment_data.py:65-147 | the episodes are `EpisodesOf`; a rejected patient gets lost time -1 and no lost-response code; otherwise there is no lost time and the code is `LostCode` over the present times |
| Episodes.EpisodeCount | prepare_treatment_data.py:72-110 | a rejected patient has no episodes; otherwise one per present time, plus one for the baseline |
| Episodes.EpisodeFields | prepare_treatment_data.py:136-146 | `tindex` is the 1-based position, the group follows `tnum`, and status, id and static columns are copied |
| Episodes.BaselineEpisode | prepare_treatment_data.py:103-110 | the first episode starts at or before 0; an inserted baseline has time 0, recurrence 0, no response or type, `tnum` 0 and group 3 |
| Episodes.EpisodeTakesSamePosition | prepare_treatment_data.py:84-102 | after the baseline, episode i takes the k-th present time with the response and type at raw position k, and the k-th present recurrence (or the survival time) |
| Episodes.TnumCounts | prepare_treatment_data.py:127-128 | `tnum` goes up by one exactly on the episodes that carry a response |
| Episodes.TnumMonotone | prepare_treatment_data.py:127-128 | `tnum` never decreases along a patient's episodes |
| Episodes.TnumIsResponsesSoFar | prepare_treatment_data.py:114-128 | `tnum` is the number of responses among the episodes so far, and never exceeds `tindex` |
| Episodes.GroupThresholds | prepare_treatment_data.py:129-134 | group 1 exactly at `tnum` 1, group 2 exactly at 2-3, group 3 otherwise (0 included) |
| Episodes.GroupOrder | prepare_treatment_data.py:129-134 | from `tnum` 1 on the group never decreases; `tnum` 0 has a higher group than `tnum` 1 |
| Episodes.DftChainsToNextEpisode | prepare_treatment_data.py:117-137 | every episode except the last runs until the next episode's recurrence time |
| Episodes.LastEpisodeDft | prepare_treatment_data.py:117-124 | the last episode runs to the recurrence after the last time if there is one; otherwise to death for a deceased patient; otherwise it is censored |
| Episodes.CensoredOnlyAtEnd | prepare_treatment_data.py:117-124 | an episode is censored exactly when it is the last one of a patient who is not deceased and has no later recurrence |
| Episodes.LostCodeMeaning | prepare_treatment_data.py:96-101 | no code exactly when every collected response and type is present; otherwise the code names the last gap, -20-i for a type and -30-i for a response only |
| Episodes.LivingExampleRaises | prepare_treatment_data.py:117-137 | a living patient with times 0 and 100 and one recurrence at 250 is outside the inputs on which the loop completes |
| Episodes.DeceasedExample | prepare_treatment_data.py:114-147 | the same patient, deceased, gives two episodes with disease-free times 400 and 300 |
| Outcomes.Finalize | prepare_treatment_data.py:160-172 | one output row per kept episode, never more than the input; every output row has a present, non-negative disease-free time, and status 1 below the patient's `maxtnum`; on a table where no episode has a response the script raises instead (see Left out) |
| Outcomes.KeepNonNegativeDft | prepare_treatment_data.py:163 | a row is kept exactly when its disease-free time is present and at least 0 |
| Outcomes.KeepIdempotent | prepare_treatment_data.py:163 | filtering twice removes nothing more |
| Outcomes.KeepAllWhenAllNonNegative | prepare_treatment_data.py:163 | a table whose rows all pass is kept whole |
| Outcomes.MaxTnum | prepare_treatment_data.py:171 | the result bounds every `tnum` of the patient and is reached by one of its rows; it is 0 for an absent patient |
| Outcomes.FinalRowContents | prepare_treatment_data.py:160-172 | each output row is the kept episode, with status 1 below `maxtnum` and unchanged otherwise, and with its `response_tmp` and `binary_response` |
| Outcomes.MaxTnumOfPatient | prepare_treatment_data.py:171 | `maxtnum` is the largest `tnum` among the patient's kept rows |
| Outcomes.SomeRowKeepsStatus | prepare_treatment_data.py:171-172 | every patient keeps its original status on a row holding its largest `tnum` |
| Outcomes.BinaryResponseCases | prepare_treatment_data.py:165-169 | every response below 2 gives 1; response 2 gives 1 exactly under 180 days; above 2 gives 0; an absent response (NaN, in a table where some episode has a response) gives 0 with `response_tmp` 2 |
| TreatmentFrame.ReconstructAll | prepare_treatment_data.py:65-147 | the loop over all rows gives the concatenated episodes and the two diagnostic dicts of the spec functions |
| TreatmentFrame.LostTimesMeaning | prepare_treatment_data.py:72-74 | a patient is in `list_of_lost_times` exactly when one of its rows was rejected, and always with -1 |
| TreatmentFrame.EpisodesComeFromAcceptedPatients | prepare_treatment_data.py:72-147 | every episode belongs to a patient that was not rejected, and carries its id |
| TreatmentFrame.EpisodeTableSize | prepare_treatment_data.py:65-147 | the table has one row per present time of every accepted patient, plus one per baseline |
| TreatmentFrame.ConvertRowAsWritten | prepare_treatment_data.py:26-48 | on a row where nothing raises, the conversion is exactly what the written `fix_format` returns for each of the four lists |
| TreatmentFrame.RowsOfConverted | prepare_treatment_data.py:37-71 | the rows the loop reads from the converted columns are the raw rows passed through `fix_format` |
| TreatmentFrame.ConvertedColumnsAreNotCut | prepare_treatment_data.py:37-59 | run after the conversion, the cut leaves every column as it is |
| TreatmentFrame.PlaceholderRowConversion | prepare_treatment_data.py:26-48 | the ints of a row are kept and its str 'none' becomes None, without raising |
| TreatmentFrame.PlaceholderRowExample | prepare_treatment_data.py:37-101 | a deceased patient with times 0 and 30 and 'none' as second type and response: in the script's order two episodes and lost code -21; cut first, one episode and no code |
| TreatmentFrame.Frame.Extract | prepare_treatment_data.py:37-48 | every list column is replaced by its `fix_format` result, and nothing else changes |
| TreatmentFrame.Frame.TruncateAtSentinel | prepare_treatment_data.py:50-59 | every row is replaced by its cut, and nothing else changes |
| TreatmentFrame.Frame.Prepare | prepare_treatment_data.py:37-172 | convert, cut (no effect), reconstruct and finalise give the table and dicts of the uncut rows passed through `fix_format` |
| TreatmentFrame.Frame.PrepareCorrected | prepare_treatment_data.py:37-172 | with the cut moved before the conversion, the table and dicts are those of the cut rows |
| TcgaMappings.ApplyGroupRename | prepare_tcga_data.py:66-69 | None exactly when no list holds x; otherwise the key of the first list, in dict order, that holds it |
| TcgaMappings.RenameDisjoint | prepare_tcga_data.py:66-69 | with disjoint lists, x gets the key of the list that holds it |
| TcgaMappings.StageGroupsDisjoint | prepare_tcga_data.py:62 | no stage is listed under two groups |
| TcgaMappings.StageGroupsExamples | prepare_tcga_data.py:62 | 'Stage IVB' is stage 4 and 'Stage III' is stage 3 |
| TcgaMappings.StageGroupsMissing | prepare_tcga_data.py:84 | an unlisted stage gives None |
| TcgaMappings.StageGroupsNaN | prepare_tcga_data.py:84 | a missing stage gives None |
| TcgaMappings.DiagnosisGroupsExamples | prepare_tcga_data.py:56-60 | tonsil is oropharynx, lip is oral cavity, and an unlisted site gives None |
| TcgaMappings.ViGroupsExamples | prepare_tcga_data.py:63 | the str 'NA' gives 'Unknown', 'YES' gives 'Y', and a missing cell gives None |
| TcgaMappings.RaceGroup | prepare_tcga_data.py:72-80 | the result is one of 'white', 'black', 'other' and 'Unknown', and 'Unknown' for every missing cell |
| TcgaMappings.RaceGroupCases | prepare_tcga_data.py:72-80 | white exactly for 'WHITE', black exactly for 'BLACK OR AFRICAN AMERICAN', 'Unknown' exactly for empty, None or NaN, 'other' otherwise |
| TcgaMappings.P16Cases | prepare_tcga_data.py:39-40 | 'Y' exactly for 'Positive', 'N' otherwise, including missing cells |
| TcgaMappings.StatusCases | prepare_tcga_data.py:50 | status is true exactly for 'Dead', with case significant |
| TcgaMappings.HabitCases | prepare_tcga_data.py:87-88 | smoking is 1 exactly for 'smoker'; alcohol is 1 for 'YES', 0 for 'NO', missing otherwise |
| TcgaMappings.ToInt | prepare_tcga_data.py:129-133 | the result is `int()` of the cell, or -1 where `int()` does not convert |
| TcgaMappings.ToIntCases | prepare_tcga_data.py:129-133 | `toint` is `int()` where it converts, and -1 on None, NaN and every unreadable str |
| TcgaMappings.ToIntShowInt | prepare_tcga_data.py:129-133 | `toint` reads back every integer written in decimal |
| TcgaMappings.SurvivalInDays | prepare_tcga_data.py:46-47 | the result is -1, 1, or `int()` of the filled cell; 0 only when the filled cell is not the str '0' |
| TcgaMappings.SurvivalInDaysCases | prepare_tcga_data.py:46-47 | the death day when present, else the last contact; the str '0' becomes 1; an unreadable value becomes -1 |
| TcgaMappings.NumericZeroIsDropped | prepare_tcga_data.py:47 | a survival read as the number 0 is not replaced and stays 0 |
| TcgaMappings.DeriveRow | prepare_tcga_data.py:39-88 | the barcode is copied; p16, smoking and race take their listed values; status is true exactly for 'Dead'; a stage, when present, is 1 to 4 |
| TcgaMappings.KeepPositiveSurvival | prepare_tcga_data.py:135 | a row is kept exactly when its survival is positive |
| TcgaMappings.PatientTableMembership | prepare_tcga_data.py:134-135 | a row is in the output exactly when it is derived from some record and its survival is positive |
| TcgaMappings.KeepPositiveSurvivalIdempotent | prepare_tcga_data.py:135 | filtering twice removes nothing more |
| ClinicalFrame.AgeLevel | prepare_tcga_data.py:90-103 | the level is at most the number of thresholds; a positive level is a bin that holds the age; a missing age gets 0 |
| ClinicalFrame.InBinIffCount | prepare_tcga_data.py:94-103 | with sorted thresholds, group g writes a row exactly when g thresholds lie below its age |
| ClinicalFrame.AgeLevelIsCount | prepare_tcga_data.py:90-103 | with sorted thresholds, the bins partition the line: each age is written by exactly one group, and its level is the number of thresholds below it |
| ClinicalFrame.AgeLevelBins | prepare_tcga_data.py:94-103 | level 0 at or below t0, j in (t(j-1), tj], k above t(k-1) |
| ClinicalFrame.MissingAgeIsLevelZero | prepare_tcga_data.py:93-103 | a missing age is never written and keeps level 0 |
| ClinicalFrame.StringSortedThresholds | prepare_tcga_data.py:91 | '10' sorts before '9.5' as text, and on that order age 9.7 gets level 2 instead of 1 |
| ClinicalFrame.SymbolsOf | prepare_tcga_data.py:113-118 | a symbol is listed exactly when some sample whose barcode starts with the patient's carries it |
| ClinicalFrame.ClinicalTable.AssignAgeLevels | prepare_tcga_data.py:90-103 | after the loop, every row holds the level of its age |
| ClinicalFrame.ClinicalTable.AssignGeneFlags | prepare_tcga_data.py:107-118 | each flag is true exactly when some sample of the patient carries that gene |

## Left out

- Argument parsing, reading and writing CSV files, and the progression-free survival merge with its '#N/A' replacement: these are I/O and configuration.
- Column discovery by regular expression: the four list columns are inputs.
- Every `print` call, and the verbosity levels.
- The pass-through of the static columns, gene columns and `number_of_mutation` into each episode: one copied map stands for them.
- The float computation of age from `birth_days_to` and the float parsing of the thresholds: ages and thresholds are given as reals.
- An empty `--age_levels` string, which skips the binning and creates no `age_level` column: ClinicalFrame.ClinicalTable.AssignAgeLevels requires at least one threshold.
- The capitalisation of `sex` and the column drops and renames of the clinical script: these are column bookkeeping.
- Whitespace, underscores and non-ASCII digits accepted by Python's `int()` on a str.
- Values.PyInt: a float cell that is infinite is not represented, so `int()` raising OverflowError on it is not modelled.
- Episodes.Reconstructible: the inputs on which the reconstruction raises are excluded by precondition, not modelled as an error result. These are no present time (`d[0]`), too few response or type entries, and a patient who is not deceased with too few recurrences.
- TreatmentFrame.Frame.Extract: a list on which the written `fix_format` raises (a word that is not a placeholder, or None) is excluded by precondition, as the script stops there.
- Outcomes.Finalize: an empty episode table is excluded, because line 163 then raises KeyError on the missing column.
- Outcomes.Finalize: a table in which no episode carries a response, and at least one row survives line 163, is not excluded although the script raises on it: pandas then keeps the response column as None objects rather than NaN, and line 169 raises TypeError on `None < 2.0`. The model returns `binary_response` 0 for such rows.
- Integer widths: pandas int64 columns are modelled as unbounded integers; the values involved are day counts.
- Rows of the mutation table with a missing barcode: barcodes are strings.

## Findings

| source | as written | input that shows it | evidently intended | confidence | as-written member | corrected member |
|---|---|---|---|---|---|---|
| prepare_treatment_data.py:26-36 | for a str that is not a placeholder, `np.isnan` raises TypeError, which is not caught; `int(None)` raises TypeError as well. The "Bad element" branch is dead. | a treatment-type list `[3, 'surgery']` | report the cell and drop it, keeping `[3]` | not executed; high | FieldExtraction.AsWrittenRaisesOnWord | FieldExtraction.IntendedDropsWord |
| prepare_treatment_data.py:50-59 | the cut looks for the str 'none' in lists that `fix_format` has already turned into ints and None, so it never fires | types `['1','none']`, responses `['1','none']`, times `[0, 30]`, deceased: all three keep two entries, giving two episodes and lost code -21 | cut the three lists at the placeholder before converting them, to one entry each: one episode | not executed; high | TreatmentFrame.PlaceholderRowExample | TreatmentFrame.Frame.PrepareCorrected |
| prepare_tcga_data.py:91 | `sorted` orders the threshold strings as text | `--age_levels 9.5,10` sorts to `['10','9.5']`, and age 9.7 gets level 2 | numeric order `[9.5, 10]`, where age 9.7 gets level 1 | not executed; medium | ClinicalFrame.StringSortedThresholds | ClinicalFrame.AgeLevelIsCount |
