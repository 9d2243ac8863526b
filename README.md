# Poll aggregator with iterative outlier filtering

A Dafny model of `agregar_pesquisas_dataframe` and the helpers it calls in
`src/agregar_pesquisas.py`.

The aggregator reads a table of opinion polls, one row per poll and candidate.
It first checks that the six required columns are present. It then fixes one
reference date for the whole table: the latest poll date. For each candidate,
taken in ascending order of name, it runs a loop:

- it weights every poll by recency;
- it computes the weighted mean intention, the weighted mean of the reported
  sigmas, the between-institute sigma and their quadrature sum;
- it flags the polls whose z-score exceeds the limit;
- when removal is enabled, it drops the flagged polls and repeats.

Each candidate yields one aggregate row. The flagged polls of every pass go to
an outlier report.

The model has six modules:

- `Strings` (`strings.dfy`): the ordering of strings as Python compares them.
  It also holds the sorted, duplicate-free listings built on that ordering.
- `Polls` (`polls.dfy`): the records and the schema check `validar_csv`.
- `Weighted` (`weighted.dfy`): recency weights, weighted means, the weighted
  variance, the between-institute sigma and the quadrature sum.
- `Outliers` (`outliers.dfy`): `_linhas_outlier` and the removal of the flagged
  rows.
- `Aggregator` (`aggregator.dfy`): the outlier loop, the loop over candidates,
  and the final tables.
- `Scenarios` (`scenarios.dfy`): worked runs of the outlier loop on polls taken
  on the same day. There every recency weight is 1, so the statistics are exact
  whatever the decay. The runs show detection without removal, removal followed
  by recomputation, and the reset to the original group.

The two loops of `agregar_pesquisas_dataframe` appear twice. `AggregatePolls`
and `RunOutlierLoop` are imperative methods with loops. Each is proved equal to
a specification function: `AggregateTable` and `OutlierLoop`. The lemmas state
the source's promises about those functions.

Numbers are modelled as follows:

- Floats are reals.
- Dates are integer day numbers.
- `exp(-d / 7.0)` and `sqrt` are fields of the `Math` value the caller supplies.
  `Math.Valid` states the only facts the model uses about them:
  - the decay is 1 at zero days, positive, and strictly decreasing;
  - the root of a non-negative number is non-negative and squares back to it.
- The outlier loop is stated over any pass function `evaluate`. Its structural
  facts do not depend on how a pass's statistics are computed. `PassOf` is the
  pass the source actually runs.

One quirk of the code is kept as written. Suppose removal would empty a
candidate's group (lines 97-100). Then the group is reset to the original rows,
so `n_pesquisas` and `amostra_total` describe all the candidate's polls. But
`intencao_voto_pct` and `desvio_padrao_pct` are not recomputed: they come from
the last group evaluated. `CandidateRowGroup` and `OutlierLoop` (fields `group`
versus `evaluated`) state this.

The reset is rarer than the code suggests. With the source's statistics, the
weighted mean of the squared z-scores of a group is exactly 1. So some poll
always has a z-score of at most 1, and every poll can be flagged at once only
when `limite_z` is below 1. At the default of 2.0 the reset never happens
(`ResetNeedsLimitBelowOne`). Below 1 it can happen (`ResetExample`), though not
for every group.

The schema check only asks that the six required columns be present. A table
with more columns is accepted, as the code does.

## Model

| member | source | states |
|---|---|---|
| Polls.RequiredSortedIsSorted | src/agregar_pesquisas.py:16-23 | the ascending listing of the six required names is strictly sorted and holds exactly the required set |
| Polls.ValidateColumns | src/agregar_pesquisas.py:26-29 | no error iff every required column is present; otherwise a schema error whose list is non-empty, strictly ascending, and names exactly the required columns absent from the table |
| Polls.MissingColumns | src/agregar_pesquisas.py:27-29 | the listing is strictly sorted and holds exactly the required names the table lacks |
| Polls.MissingColumnsIsSortedSet | src/agregar_pesquisas.py:29 | any strictly sorted listing of the missing names equals `MissingColumns`; the error message's list is `sorted(faltantes)` and nothing else |
| Weighted.RecencyWeights | src/agregar_pesquisas.py:32-34 | one weight per date, each strictly positive and at most 1 |
| Weighted.RecencyOrder | src/agregar_pesquisas.py:32-34 | a poll dated on or after the reference gets weight exactly 1; of two polls up to the reference, the older gets the strictly smaller weight |
| Weighted.MeanWithinRange | src/agregar_pesquisas.py:79-80 | with positive weights, `np.average` lies between the smallest and the largest value |
| Weighted.MeanOfConstant | src/agregar_pesquisas.py:80 | equal values average to that value whatever the weights |
| Weighted.VarianceProperties | src/agregar_pesquisas.py:38-39 | the weighted variance around the weighted mean is non-negative, and zero iff all values agree |
| Weighted.BetweenInstituteSigma | src/agregar_pesquisas.py:37-40 | `desvio_entre_institutos` is non-negative and squares to the weighted variance |
| Weighted.BetweenSigmaZeroIff | src/agregar_pesquisas.py:37-40 | the between-institute sigma is zero iff every intention in the group is equal |
| Weighted.NotAllBeyondSigma | src/agregar_pesquisas.py:37-40 | some value lies within one between-institute sigma of the weighted mean |
| Weighted.Quadrature | src/agregar_pesquisas.py:82 | the aggregated sigma is non-negative and its square is the sum of the two squares |
| Weighted.QuadratureProperties | src/agregar_pesquisas.py:82 | the quadrature sum is at least the magnitude of either part; with a non-negative first part, it equals that part iff the second part is zero |
| Outliers.Flag | src/agregar_pesquisas.py:52-54 | every returned row is a row of the group with its own z-score, which exceeds the limit; as a multiset it holds exactly the group's rows above the limit |
| Outliers.Kept | src/agregar_pesquisas.py:97 | the rows left after the drop are exactly the group's rows not above the limit, with multiplicity; with the flagged rows they account for the whole group |
| Outliers.FlagSingle | src/agregar_pesquisas.py:52-54 | a single row is flagged, with its own z-score, iff it is above the limit, and kept iff it is not |
| Outliers.FlagConcat | src/agregar_pesquisas.py:53 | flagging a group split in two flags each part in turn, so the flagged rows keep the group's order |
| Outliers.KeptConcat | src/agregar_pesquisas.py:97 | dropping the flagged rows of a group split in two drops them part by part, so the survivors keep the group's order |
| Outliers.OutlierRows | src/agregar_pesquisas.py:43-55 | nothing for a group of fewer than two rows or a non-positive sigma; a non-empty result implies at least two rows and a positive sigma |
| Outliers.OutlierRowsExact | src/agregar_pesquisas.py:49-54 | when the check applies, a row of the group is reported iff its z-score exceeds the limit, and each report carries that row's z-score |
| Outliers.DropPartitions | src/agregar_pesquisas.py:97 | kept and flagged rows together are the group as a multiset; a row survives iff it is in the group and not above the limit |
| Aggregator.EvaluateProperties | src/agregar_pesquisas.py:78-82 | one pass: the mean lies within the intentions' range; the reported-sigma mean lies within the sigmas' range; the between sigma is non-negative, and zero iff all intentions agree; the aggregated sigma squares to the sum of squares and is at least either part; with non-negative reported sigmas it equals the reported part iff the between sigma is zero |
| Aggregator.DisagreementWidensSigma | src/agregar_pesquisas.py:80-82 | when all polls report the same sigma `s`, the weighted reported sigma is `s`; the aggregated sigma exceeds `s` iff the intentions disagree |
| Aggregator.ContinuingPassShrinks | src/agregar_pesquisas.py:84-97 | a pass that flags rows has a positive between sigma and drops exactly the flagged rows: the rest plus the flagged rows is the group, a row stays iff it is not above the limit, and the rest is strictly smaller, so the loop terminates |
| Aggregator.LoopBounds | src/agregar_pesquisas.py:77-100 | the last group evaluated is a non-empty sub-multiset of the start; the final statistics are that group's; the number of passes is between 1 and the group size |
| Aggregator.LoopOutcome | src/agregar_pesquisas.py:94-100 | removal off: exactly one pass, and the group is the starting one; otherwise the loop stops at a group where nothing is flagged, or it was reset to the original because every row of the last group was flagged |
| Aggregator.LoopReportRows | src/agregar_pesquisas.py:84-92 | every report entry is a row of the candidate's group whose z-score, against the entry's own positive between sigma and mean, exceeds the limit |
| Aggregator.LoopReportNoRemoval | src/agregar_pesquisas.py:84-95 | removal off: every entry carries the single pass's mean and between sigma; when the check applies, the entries' polls are, as a multiset, exactly the group's rows above the limit, each as often as it occurs |
| Aggregator.LoopReportPartition | src/agregar_pesquisas.py:84-100 | removal on: the reported polls plus the final group are the starting group as a multiset, so each row is reported once or kept; after a reset the reported polls are the whole starting group |
| Aggregator.LoopReportTags | src/agregar_pesquisas.py:84-92 | every entry carries the mean and between sigma of a pass over some non-empty part of the starting group that holds the entry's poll |
| Aggregator.LoopReportEmpty | src/agregar_pesquisas.py:86-95 | the candidate's report is empty iff the first pass flags nothing |
| Aggregator.Idempotent | src/agregar_pesquisas.py:77-100 | rerunning the loop with removal on the group it settled on (when not reset) is a single pass that flags nothing and keeps the same statistics |
| Aggregator.SomeRowKept | src/agregar_pesquisas.py:84-98 | with the source's statistics and a limit of at least 1, dropping the flagged rows of a group with positive between sigma leaves at least one row |
| Aggregator.ResetNeedsLimitBelowOne | src/agregar_pesquisas.py:97-100 | with the source's statistics, a loop whose limit is at least 1 never resets the group to the original |
| Aggregator.RunOutlierLoop | src/agregar_pesquisas.py:77-100 | the imperative loop ends with the group, statistics and accumulated report of `OutlierLoop` |
| Aggregator.Candidates | src/agregar_pesquisas.py:73 | the group keys are strictly ascending and are exactly the candidate names in the table |
| Aggregator.GroupOf | src/agregar_pesquisas.py:73-74 | a candidate's group holds exactly that candidate's rows, with multiplicity; it is non-empty for every name in the table |
| Aggregator.GroupOfConcat | src/agregar_pesquisas.py:73 | grouping keeps the row order: the group of a concatenation is the group of each part in turn |
| Aggregator.MaxDate | src/agregar_pesquisas.py:68 | the reference date is at least every poll date and is attained by some poll |
| Aggregator.AggregateCandidate | src/agregar_pesquisas.py:74-114 | the imperative body for one candidate yields exactly that candidate's `CandidateRow` |
| Aggregator.AggregatePolls | src/agregar_pesquisas.py:58-135 | the imperative aggregation returns exactly `AggregateTable`: the schema error, the empty-table failure, or the two result tables |
| Aggregator.CandidateRowGroup | src/agregar_pesquisas.py:97-114 | the row names the candidate and carries the global reference date; the count and sample total are those of the final group; that group is the whole group when removal is off or the group was reset, otherwise the survivors, in which nothing is flagged; the mean and sigma are those of the last group evaluated |
| Aggregator.CandidateRowMean | src/agregar_pesquisas.py:108 | the aggregated intention lies between the smallest and largest intention of the last group evaluated (the survivors unless the group was reset), and so within the range of all the candidate's intentions |
| Aggregator.CandidateRowSigma | src/agregar_pesquisas.py:109 | the aggregated sigma squares to `sigma_medio² + sigma_entre²` of the last pass and is at least either of them; with non-negative reported sigmas it equals `sigma_medio` iff `sigma_entre` is zero |
| Aggregator.CandidateRowReport | src/agregar_pesquisas.py:84-103 | every entry of the candidate's report is that candidate's row above the limit; the report is empty iff the first pass flags nothing |
| Aggregator.CandidateRowAccounting | src/agregar_pesquisas.py:84-103 | the candidate's report accounts for its rows: removal off, it holds exactly the rows above the limit of the single pass, with multiplicity, tagged with that pass's statistics; removal on, the reported rows and the rows the aggregate counts are the candidate's rows as a multiset, and after a reset every row is reported; every entry carries the statistics of a pass over a part of the candidate's rows that holds it |
| Aggregator.SummarizeRows | src/agregar_pesquisas.py:105-114 | after the loop over the first `n` candidates there are `n` aggregate rows, the j-th being candidate j's |
| Aggregator.SummarizeQuiet | src/agregar_pesquisas.py:102-103 | the accumulated report is empty iff each processed candidate's report is |
| Aggregator.AllQuiet | src/agregar_pesquisas.py:117-119 | the outlier table is empty iff no candidate's report has anything in it |
| Aggregator.SummaryRows | src/agregar_pesquisas.py:105-116 | over all candidates, the aggregate names are the sorted distinct candidates; each row is that candidate's row, dated with the shared reference |
| Aggregator.SummaryReport | src/agregar_pesquisas.py:117-133 | over all candidates, the outlier table is empty iff every candidate's report is empty |
| Aggregator.AggregateErrors | src/agregar_pesquisas.py:64-116 | the aggregation fails iff a required column is missing or the table has no rows; the schema error comes first and lists the missing columns in order |
| Aggregator.OneRowPerCandidate | src/agregar_pesquisas.py:66-116 | a successful result has one row per distinct candidate, strictly ascending by name; each row is that candidate's `CandidateRow`, dated with the latest poll date of the whole table |
| Aggregator.DefaultsKeepEveryPoll | src/agregar_pesquisas.py:58-62 | with the default arguments (`remover_outliers=False`, `limite_z=2.0`) every aggregate row counts all of its candidate's polls and sums all their samples |
| Aggregator.SummarizeEntries | src/agregar_pesquisas.py:102-103 | over distinct names whose reports hold only their own rows, the accumulated entries for a name are that name's report if it was processed, and nothing otherwise |
| Aggregator.ReportByCandidate | src/agregar_pesquisas.py:102-133 | in a successful result, the outlier table's entries whose poll is candidate `c`'s are exactly `c`'s own report, in order, and a name without rows has none |
| Aggregator.ReportEmptyIff | src/agregar_pesquisas.py:102-133 | the outlier table is empty iff no candidate's first pass flags a row |
| Scenarios.FirstPassStats | src/agregar_pesquisas.py:78-81 | same-day polls at 31, 32 and 45: mean 36 and a between sigma strictly between 4.5 and 7.5 |
| Scenarios.FirstPassFlags | src/agregar_pesquisas.py:49-55 | against mean 36 and such a sigma, only the 45 poll is above a limit of 1.2, and the other two are kept |
| Scenarios.SecondPassStats | src/agregar_pesquisas.py:78-81 | the two remaining polls have mean 31.5 and between sigma 0.5 |
| Scenarios.SecondPassFlags | src/agregar_pesquisas.py:49-55 | against mean 31.5 and sigma 0.5 nothing is above a limit of 1.2 |
| Scenarios.SecondLoop | src/agregar_pesquisas.py:77-95 | the loop resumed on the two remaining polls stops after one pass, flags nothing, and keeps their mean of 31.5 |
| Scenarios.DetectionExample | tests/test_agregar_pesquisas.py:46-79 | without removal at limit 1.2: one pass, the report holds the 45 poll alone, and the group keeps all three polls |
| Scenarios.RemovalExample | tests/test_agregar_pesquisas.py:82-118 | with removal at limit 1.2: two passes, one report entry (the 45 poll, tagged with mean 36), two surviving polls with mean 31.5 (below 33) and a sample total of 4000 |
| Scenarios.ResetExample | src/agregar_pesquisas.py:97-100 | two same-day polls at 30 and 40 with limit 0.5 and removal on: both are flagged, the group is reset to both polls, the report lists both, and the mean 35 and sigma 5 are those of the pass |

## Left out

- `agregar_pesquisas_csv` (lines 138-154) is left out: it reads and writes files and creates directories.
- `_formatar_alertas` (lines 157-165) is left out: it formats floats as text.
- `parse_args` and `main` (lines 168-209) are left out: they handle command-line arguments and printing.
- `src/simulation.py`, `src/simulation_v2.py`, `src/simulation_v2_fixcolors.py` and `src/comparar_v1_v2.py` are not part of this model. They do random sampling, plotting and subprocess calls.
- Date parsing (`pd.to_datetime`, line 67) and its parse error are left out. Dates arrive as day numbers, and `.dt.days` of a difference is their integer difference. Times of day are not modelled.
- The ISO formatting of `data_referencia` (line 112) is left out. The model keeps the day number.
- IEEE floating point is left out. `exp` and `sqrt` are the abstract `Math` fields. The `max(variancia, 0.0)` floor is kept in `BetweenInstituteSigma`, but over the reals it never changes the value.
- Weights that underflow to zero, and the division by zero `np.average` would then raise, are not modelled. The model's weights are always positive.
- The exact test values that depend on `exp` are left out, because `Math` leaves the decay abstract. The tests date their polls on consecutive days, so their weights differ. The mean of 36.9-37.1 is not proved. `DisagreementWidensSigma` gives the "sigma above 2.0" expectation for any decay. `DetectionExample` and `RemovalExample` prove the outlier tests on the same polls dated on one day.
- Outliers.Kept: `grupo.drop(index=outliers.index)` is modelled as keeping the rows that fail the same z-score test. This agrees with the source when index labels are unique, as they are for a freshly read table. Duplicate labels are not modelled.
- An empty table that has all the required columns makes the final `sort_values("candidato")` fail in pandas. The model reports this as the `NoRows` error.
- The outlier table's column layout is not modelled. A non-empty table keeps every input column of the flagged rows, in the input's column order, including columns beyond the six required ones (lines 52-54, 87-91). It then adds `z_score`, `media_ponderada_pct` and `sigma_entre_pct`. An empty table has the fixed column list of lines 120-132. The model's entries carry only the poll, its z-score, and the pass's mean and between sigma.
- The default arguments of lines 60-61 are not defaults in Dafny: every operation takes `remove` and `limit` explicitly, and `AggregateTableDefaults` is the call with `remover_outliers=False` and `limite_z=2.0`.
- The `int(...)` casts of lines 110-111 are identities on the model's integers.
- Rows whose candidate is missing (NaN), which `groupby` would drop, are not modelled.
