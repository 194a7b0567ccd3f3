# Loan-record pipeline model

A Dafny model of the data-processing core of a loan-application dashboard. There are two
scripts. The preparation script (`data_processing/data_preparation.py`) cleans the raw loan
table and adds eight derived columns. It drops exact duplicate records and forward fills
missing cells. The analysis script (`data_processing/data_analysis.py`) bins two ratios into
fixed right-closed segments. It then computes the grouped means that the dashboard charts:

- approval rate per lender;
- approval rate per (lender, FICO group);
- revenue per approved application;
- revenue over high-FICO applications;
- approval rate per (debt-to-income segment, lender);
- revenue per (income-to-loan segment, lender) over high-FICO applications.

Layout:

- `wrappers.dfy`: `Option` and `Result`.
- `tables.dfy`: cells, rows and columns of the data frame. A row maps each column to a cell
  that may be missing. `FirstMissing` gives the column whose lookup raises the key error
  that aborts a script.
- `cleaning.dfy`: duplicate removal and forward fill as specification functions, with their
  properties.
- `features.dfy`: the derived-column formulas, the FICO scale and the loan-reason table. It
  also holds the eight assignment statements as a list of steps (target column and the
  columns it looks up), with the proof that running them in order is the whole derivation.
- `segments.dfy`: interval cutting with right-closed bins, and the two fixed edge lists.
- `grouping.dfy`: selection, group-by-mean as a one-pass tally, and its declarative
  meaning. It also holds the cross-section of a three-level grouping.
- `analysis.dfy`: the views of the analysis script and the properties they satisfy.
- `dataframe.dfy`: the frame as the scripts mutate it. It is a class whose methods run the
  in-place steps and are proved against the functions above. Duplicate removal, forward
  fill and the feature statements are loops.

Three behaviours of the code that are easy to miss:

- `pd.cut` is called without `right=`, so its default `right=True` makes every bin closed
  on the right: 0.2 falls in `'<0.2'`, and a ratio at or below 0 (the first edge) gets no
  segment.
- The FICO group is encoded through a categorical with a fixed category list, so a group
  outside the list gets the categorical code -1.
- Columns are looked up one assignment statement at a time, so a missing raw column stops
  the preparation script with the columns of the earlier statements already written.

## Model

| member | source | states |
|---|---|---|
| `Cleaning.Dedup` | data_processing/data_preparation.py:23 | output is no longer than the input, holds exactly the input's distinct rows, and no two output rows are equal |
| `Cleaning.DedupKeepsFirstOccurrenceOrder` | data_processing/data_preparation.py:23 | survivors appear in the order of their first occurrences in the input |
| `Cleaning.DedupPrefix` | data_processing/data_preparation.py:23 | the survivors of any prefix of the input are a prefix of the survivors of the whole |
| `Cleaning.DedupOfDistinct` | data_processing/data_preparation.py:23 | a table without duplicates is unchanged, so dropping duplicates is idempotent |
| `Cleaning.DedupIdenticalPair` | data_processing/data_preparation.py:23 | two identical records clean to exactly one |
| `DataFrame.Frame.DropDuplicates` | data_processing/data_preparation.py:23 | the in-place loop with a seen-set leaves the rows equal to `Dedup` of the old rows and keeps the columns |
| `Cleaning.LastSeen` | data_processing/data_preparation.py:24 | a value found for a column comes from some row where that column is present |
| `Cleaning.LastSeenNearest` | data_processing/data_preparation.py:24 | the value found is the cell of the latest row in which the column is present |
| `Cleaning.LastSeenNone` | data_processing/data_preparation.py:24 | nothing is found exactly when the column is missing in every row |
| `Cleaning.FFill` | data_processing/data_preparation.py:24 | forward fill keeps the row count and every row's columns |
| `Cleaning.FFillCell` | data_processing/data_preparation.py:24 | a present cell is unchanged; a missing cell takes the nearest earlier present value of its column; with no earlier value it stays missing |
| `Cleaning.FFillNoGapAfterFirstValue` | data_processing/data_preparation.py:24 | after filling, a cell is missing iff its column was missing in all rows up to and including that one |
| `DataFrame.Frame.ForwardFill` | data_processing/data_preparation.py:24 | the in-place scan keeps a per-column last-seen value and leaves the rows equal to `FFill` of the old rows |
| `Features.Ratio` | data_processing/data_preparation.py:27 | the quotient is defined iff both operands are present and the denominator is non-zero, and it then times the denominator gives the numerator |
| `Features.HighFicoFlag` | data_processing/data_preparation.py:28 | the flag is 0 or 1, and it is 1 iff the score is present and strictly above 700 |
| `Features.FicoCode` | data_processing/data_preparation.py:29-30 | the code is in -1..4; a code of 0 or more is the label's position on the scale; -1 means the cell is no label of the scale |
| `Features.IndexOf` | data_processing/data_preparation.py:30 | gives the first position of the label, or -1 iff the label is absent |
| `Features.FicoCodeFollowsScale` | data_processing/data_preparation.py:29-30 | each label encodes to its position, so Poor < Fair < Good < Very Good < Exceptional |
| `Features.EmploymentTypeOf` | data_processing/data_preparation.py:31 | the result is "Unemployed" iff the status is exactly "Unemployed", and "Employed" otherwise |
| `Features.LoanPurposeGroupOf` | data_processing/data_preparation.py:33-42 | a group exists iff the reason is one of the seven keys, and it is that key's entry in the table |
| `Features.EmergencyReasons` | data_processing/data_preparation.py:33-42 | exactly cover_an_unexpected_cost and medical_expense map to Emergency; no other two keys share a group |
| `Features.FinancialHardshipFlag` | data_processing/data_preparation.py:43 | the flag is 0 or 1, and it is 1 iff the bankruptcy/foreclosure cell equals 1 |
| `Features.RevenuePotentialOf` | data_processing/data_preparation.py:45 | defined iff bounty and approval are present; 0 when not approved; the bounty when approved |
| `Features.DeriveRow` | data_processing/data_preparation.py:27-45 | a derived record has its columns plus the eight derived ones, and its other cells are unchanged |
| `Features.DeriveTable` | data_processing/data_preparation.py:27-45 | derivation is row for row: same count, each row gains the derived columns and keeps its other cells |
| `Features.DerivedRatios` | data_processing/data_preparation.py:27-44 | `Debt_to_Income` is housing payment over gross income and `Income_to_Loan_Ratio` is gross income over loan amount, each guarded |
| `Features.DerivedFlags` | data_processing/data_preparation.py:28-43 | the high-FICO, FICO-code and hardship columns of a derived record are the flag functions of its raw columns |
| `Features.DerivedLabelsAndRevenue` | data_processing/data_preparation.py:31-45 | the employment type, loan purpose group and revenue potential columns are the functions of the record's raw columns |
| `Features.DeriveKeepsRaw` | data_processing/data_preparation.py:27-45 | derivation leaves every raw column it reads unchanged |
| `Features.DeriveIdempotent` | data_processing/data_preparation.py:27-45 | re-deriving an enriched record changes nothing |
| `Features.ZeroLoanAmountUndefinedRatio` | data_processing/data_preparation.py:44 | a zero loan amount leaves the income-to-loan ratio undefined |
| `Features.DerivationScenarios` | data_processing/data_preparation.py:27-45 | a score of 700 is not high and 701 is; 1000/5000 gives 0.2; revenue is 500 when approved and 0 when not |
| `Tables.FirstMissing` | data_processing/data_preparation.py:27-45 | nothing is reported iff every required column is present; otherwise the result is the first absent one in lookup order |
| `Tables.FirstMissingAppend` | data_processing/data_preparation.py:27-45 | the key error of two runs of lookups is the first run's when it has one, and otherwise the second's |
| `Tables.FirstMissingIgnores` | data_processing/data_preparation.py:27-45 | adding columns that a run of lookups does not name does not change its key error |
| `Tables.HeaderDeterminesColumn` | data_processing/data_preparation.py:27-45 | two canonically named columns with the same header are the same column, so a lookup by header finds one column |
| `Features.StepsReadRawWriteDerived` | data_processing/data_preparation.py:27-45 | each of the eight statements writes a derived column and reads only raw ones, and no two statements write the same column |
| `Features.RequiredColumnsAreReads` | data_processing/data_preparation.py:27-45 | the statements, in script order, look up exactly `RequiredColumns` |
| `Features.FailingStep` | data_processing/data_preparation.py:27-45 | every statement before the result finds all its columns, and the statement at the result (if any) does not |
| `Features.FirstMissingOfSteps` | data_processing/data_preparation.py:27-45 | the key error of the whole run is the first absent column of the failing statement, and none when no statement fails |
| `Features.StatementLookup` | data_processing/data_preparation.py:27-45 | a statement reached in a run looks up the same columns whatever the earlier statements added; it fails iff it is the failing statement, and then raises the run's key error |
| `Features.NoFailingStatement` | data_processing/data_preparation.py:27-45 | when no statement fails the run raises no key error |
| `Features.Added` | data_processing/data_preparation.py:27-45 | the first n statements add their own target columns, and only derived columns |
| `Features.AddedAll` | data_processing/data_preparation.py:27-45 | all eight statements together add exactly the eight derived columns |
| `Features.Assign` | data_processing/data_preparation.py:27-45 | after the first n statements store their entries of a cell map, the record has exactly their columns added, each holding its entry, and its other cells kept |
| `Features.AssignAll` | data_processing/data_preparation.py:27-45 | storing the entries of all eight statements is merging the whole cell map into the record |
| `Features.DeriveStep` | data_processing/data_preparation.py:27-45 | one statement on one record adds its column and keeps every other cell |
| `Features.DeriveSteps` | data_processing/data_preparation.py:27-45 | the first n statements on one record add the columns `Added(n)`, keep the other cells, and leave the raw cells they read unchanged |
| `Features.DeriveStepsNext` | data_processing/data_preparation.py:27-45 | running statement n after the first n statements is running the first n + 1 |
| `Features.DeriveStepsComplete` | data_processing/data_preparation.py:27-45 | running every statement on a record is `DeriveRow` |
| `Features.DeriveColumn` | data_processing/data_preparation.py:27-45 | one statement on the table keeps the row count and adds its column to every row |
| `Features.DeriveTableSteps` | data_processing/data_preparation.py:27-45 | the first n statements on the table keep the row count and add `Added(n)` to every row |
| `Features.DeriveTableStepsNext` | data_processing/data_preparation.py:27-45 | running statement n over the table after the first n is running the first n + 1 |
| `Features.DeriveTableStepsComplete` | data_processing/data_preparation.py:27-45 | running every statement over the table is `DeriveTable` |
| `DataFrame.Frame.EngineerFeatures` | data_processing/data_preparation.py:27-45 | runs the statements in order; reports the run's first missing raw column, and leaves the rows and columns as the statements before the failing one left them; with no missing column the rows become `DeriveTable` of the old rows and the eight columns are added |
| `DataFrame.Prepare` | data_processing/data_preparation.py:23-45 | cleaning then derivation: the rows are the statements up to the failing one run over the forward fill of the de-duplicated input, and all of them when no column is missing; the columns gain exactly the columns those statements write |
| `Segments.CountBelow` | data_processing/data_analysis.py:202-204 | counts the edges strictly below the ratio; every later edge is at or above it |
| `Segments.Cut` | data_processing/data_analysis.py:202-204 | a bin exists iff the ratio is present and above the first edge, and that bin holds the ratio right-closed |
| `Segments.BinUnique` | data_processing/data_analysis.py:202-204 | no ratio lies in two bins |
| `Segments.CutIsTheBin` | data_processing/data_analysis.py:202-204 | the cut gives the one bin that holds the ratio |
| `Segments.CutMonotone` | data_processing/data_analysis.py:202-236 | if r1 <= r2 and r1 has a bin, then r2 has a bin and its index is at least that of r1 |
| `Segments.DtiSegmentOf` | data_processing/data_analysis.py:202-204 | each of the six labels is given exactly on its interval (0,.2], (.2,.4], (.4,.6], (.6,.8], (.8,1], (1,inf); a missing or non-positive ratio has none |
| `Segments.IncomeToLoanSegmentOf` | data_processing/data_analysis.py:234-236 | each of the five labels is given exactly on its interval (0,.1], (.1,.3], (.3,.5], (.5,1], (1,inf); a missing or non-positive ratio has none |
| `Segments.BoundaryScenario` | data_processing/data_analysis.py:202-236 | 0.2 is in `'<0.2'`, 0 has no segment, and 0.1 is in `'<0.1'` |
| `Segments.WithSegment` | data_processing/data_analysis.py:202-236 | a segment column is added to every row, holding the segment of that row's ratio, and all other cells are unchanged |
| `Analysis.WithDtiSegment` | data_processing/data_analysis.py:202-204 | every row gains the debt-to-income segment of its ratio and keeps its other cells |
| `Analysis.Segmented` | data_processing/data_analysis.py:202-236 | every row gains both segment columns, computed from its ratios, and keeps its other cells |
| `DataFrame.Frame.AddSegment` | data_processing/data_analysis.py:202-236 | the rows become `WithSegment` of the old rows and the target column is added |
| `Grouping.Where` | data_processing/data_analysis.py:131 | a boolean-mask selection is no longer than the input and keeps every row satisfying the predicate as often as the input holds it, and no other row |
| `Grouping.Totals` | data_processing/data_analysis.py:67 | the tally only has keys that some row carries, and no count exceeds the row count |
| `Grouping.TotalsSpec` | data_processing/data_analysis.py:67 | the one-pass tally has a key iff some row carries it, and holds the sum and count of exactly that key's non-missing values |
| `Grouping.GroupMean` | data_processing/data_analysis.py:67 | a key has an entry iff some row carries it, and the entry is the mean of the non-missing values of exactly the rows carrying it |
| `Grouping.MeanWithin` | data_processing/data_analysis.py:67 | a mean lies within any bounds of its values |
| `Grouping.GroupMeanWithin` | data_processing/data_analysis.py:67 | bounds on the value column bound every group mean |
| `Grouping.MatchingFrom` | data_processing/data_analysis.py:67 | every value in a group comes from a row carrying that key |
| `Grouping.GroupMeanAt` | data_processing/data_analysis.py:67 | a key with a non-empty group has that group's mean as its entry |
| `Grouping.GroupMeanWhereKeys` | data_processing/data_analysis.py:131 | after a selection, a key has a group iff some selected row carries it |
| `Grouping.MatchingWhere` | data_processing/data_analysis.py:166 | grouping the selected rows equals grouping all rows with the unselected rows' keys dropped |
| `Grouping.GroupMeanWhereIsMaskedKey` | data_processing/data_analysis.py:131 | grouping the selected rows equals grouping all rows with a key that is absent on the unselected rows |
| `Grouping.GroupMeanWhereRedundant` | data_processing/data_analysis.py:206 | a selection that keeps every keyed row changes no group |
| `Grouping.GroupMeanSameValues` | data_processing/data_analysis.py:131 | value columns that agree on every keyed row give the same view |
| `Grouping.CrossSectionAt` | data_processing/data_analysis.py:242 | the cross-section at level h holds (a, c) iff the view holds (a, h, c), with the same entry |
| `Grouping.CrossSectionEntries` | data_processing/data_analysis.py:242 | for every pair, the cross-section at h holds (a, c) iff the view holds (a, h, c), with the same entry |
| `Grouping.CrossSectionIsSelection` | data_processing/data_analysis.py:238-242 | the cross-section at h of a three-level grouping equals the grouping of the selected rows by the outer keys; level h exists iff some selected row has outer keys |
| `Analysis.ApprovalRatesPerLender` | data_processing/data_analysis.py:67 | a lender has a rate iff some row names it, and the rate is the mean approval over exactly the rows naming it |
| `Analysis.FicoKeys` | data_processing/data_analysis.py:102 | the (lender, FICO group) keys of the grouping are exactly the pairs some row carries |
| `Analysis.ApprovalRatesByFico` | data_processing/data_analysis.py:102 | a (lender, FICO group) pair has a rate iff some row carries both, and the rate is the mean approval over exactly the rows carrying both |
| `Analysis.RevenuePerApprovedApp` | data_processing/data_analysis.py:131 | a lender has an entry iff it has an approved row, and the view is the revenue grouped by the lender of the approved rows only |
| `Analysis.HighValueSegments` | data_processing/data_analysis.py:166 | a lender has an entry iff it has a high-FICO row, and the view is the revenue grouped by the lender of the high-FICO rows only |
| `Analysis.DtiKeys` | data_processing/data_analysis.py:206 | the (segment, lender) keys of the grouping are exactly the pairs some row carries |
| `Analysis.ApprovalRatesByDti` | data_processing/data_analysis.py:206 | a (segment, lender) pair has a rate iff some row carries both, and the rate is the mean approval over exactly those rows |
| `Analysis.SegmentFicoKeys` | data_processing/data_analysis.py:238 | the (segment, flag, lender) keys of the grouping are exactly the triples some row carries |
| `Analysis.RevenueByIncomeLoanFico` | data_processing/data_analysis.py:238 | a (segment, flag, lender) triple has an entry iff some row carries all three, and the entry is the mean revenue over exactly those rows |
| `Analysis.HighFicoSlice` | data_processing/data_analysis.py:240-242 | the slice exists iff some key has High_FICO 1, and then holds (segment, lender) iff the view holds (segment, 1, lender), with the same entry |
| `Analysis.HighFicoPlacedAfterSegmenting` | data_processing/data_analysis.py:234-240 | after segmenting, some row is high-FICO with a segment and a lender iff, before, some row was high-FICO with a lender and a positive income-to-loan ratio |
| `Analysis.ComputeViews` | data_processing/data_analysis.py:67-242 | over the observed key combinations, the high-FICO slice exists iff some high-FICO row has a lender and a positive income-to-loan ratio, and is then the revenue of the high-FICO segmented rows by (segment, lender); every DTI segment key is a label |
| `Analysis.ApprovalRateOfGroup` | data_processing/data_analysis.py:67 | a lender whose approvals are xs has rate mean(xs) |
| `Analysis.TwoLenderRates` | data_processing/data_analysis.py:67 | rows naming only lenders a and b, each with approvals, give rates for exactly a and b, each the mean of its approvals |
| `Analysis.ApprovalRatesExample` | data_processing/data_analysis.py:67 | approvals (A,1), (A,0), (B,1) give exactly {A: 0.5, B: 1.0} |
| `Analysis.ApprovalRatesWithinUnitInterval` | data_processing/data_analysis.py:67-206 | with 0/1 approvals, every rate of the lender, FICO-group and DTI-segment views lies in [0,1] |
| `Analysis.DerivedRowsRevenueConsistent` | data_processing/data_preparation.py:45 | every derived row's revenue potential is bounty times approval |
| `Analysis.RevenuePerApprovedIsMeanBounty` | data_processing/data_analysis.py:131 | a lender has an entry iff it has an approved row, and the view equals the mean bounty per lender over approved rows |
| `Analysis.HighValueSegmentsSpec` | data_processing/data_analysis.py:166 | a lender has an entry iff it has a high-FICO row, and the entry is the mean revenue over its high-FICO rows only |
| `Analysis.ApprovalRatesByDtiIgnoresUnsegmented` | data_processing/data_analysis.py:206 | rows without a segment contribute to no cell; a cell exists iff some row carries that (segment, lender) pair |
| `Analysis.DtiViewKeysAreLabels` | data_processing/data_analysis.py:202-206 | every segment key of the DTI view of segmented rows is one of the six labels |
| `Analysis.HighFicoSliceIsFilteredView` | data_processing/data_analysis.py:238-242 | the High_FICO=1 slice equals the high-FICO rows grouped by (segment, lender), and exists iff such a row has a segment and a lender |
| `Analysis.Analyze` | data_processing/data_analysis.py:67-242 | fails iff a looked-up column is absent, naming the first absent column in the script's lookup order; otherwise gives every view |
| `DataFrame.Frame.Analyze` | data_processing/data_analysis.py:202-242 | returns `Analysis.Analyze` of the old frame and adds the segment columns in place; a frame lacking only the income-to-loan ratio keeps the debt-to-income segment column |

## Left out

- Ratios with a zero denominator: the model gives an undefined value (`None`), so such a
  ratio gets no segment and takes no part in any view. pandas gives +inf for a positive
  numerator, -inf for a negative one and NaN for 0/0. `pd.cut` puts +inf in the last bin
  `'>1.0'` of both cuts (that bin ends at inf and is closed on the right), so in the script
  such rows count toward the `'>1.0'` cells of the debt-to-income view and of the
  income-to-loan view; only -inf and NaN get no segment there.
- The correlation matrix (`data_analysis.py:40-41`): it is floating-point Pearson
  correlation, which needs a square root.
- All plotting, styling, bar labels and figure saving.
- The `describe()` summaries, the text-summary writes, CSV reading and writing, and
  directory creation. These are file I/O and floating-point statistics. The model assumes
  the CSV round trip between the two scripts is lossless.
- The unused `chi2_contingency` import.
- `data_processing/generate_insights.py` and `server/index.js` are not part of this model.
  They are calls to an external text-generation service, and a web server that spawns the
  scripts.
- Floating point: numbers are exact reals, so rounding in ratios and means is not modelled.
- Grouping by a categorical segment: pandas also emits a row for each unobserved segment
  category, and `unstack` shows absent combinations as NaN. Each view is modelled as a map
  over the observed key combinations only, so an absent key stands for such a NaN cell.
  A map also has no order: pandas sorts the group keys and keeps the segment categories in
  label order, which decides the order of the bars.
- `Analysis.HighFicoSliceIsFilteredView`: this follows the observed-keys representation. It
  states that the slice exists when some high-FICO row has a segment and a lender. pandas
  with unobserved categories keeps the High_FICO level whenever any row has the flag 1. The
  plot is then all NaN.
- `Analysis.ComputeViews`: the same gap. It states that the high-FICO slice is present iff
  some high-FICO row has a lender and a positive income-to-loan ratio. The script draws the
  chart whenever any row has High_FICO 1: a single row with lender A, High_FICO 1 and a
  missing income-to-loan ratio gives an all-NaN chart there, and no slice in the model.
- Key errors in the analysis: the analysis is modelled as looking up its columns before it
  computes any view. It does not model the charts already saved before a key error stops
  the analysis script; only the segment column written before the failing lookup is kept.
- Text in a numeric column: `AsNumber` reads a text cell as missing, so a ratio, the
  high-FICO comparison or the revenue product over a text cell is undefined. pandas instead
  raises a `TypeError` at `data_preparation.py:27`, `:28` and `:44`, stopping the script,
  and at `:45` text times a number is an error or a repeated string rather than a number.
  The model does not capture these; it is faithful for numeric columns that hold numbers.
- Column names: a column is `Other(h)` only for a header h that none of the named columns
  carries (`Tables.Canonical`). The frame's invariant does not enforce this; the model's
  tables are built with canonical names, and `Tables.HeaderDeterminesColumn` shows that a
  header then names one column.
