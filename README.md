# Solar data cleaning and cross-country comparison, in Dafny

This project models the analysis core of a solar-irradiance study. Three
countries' weather-station files are cleaned, profiled and compared.

- **Cleaning** (`src/solar_eda.py`, module `SolarClean`). The pipeline
  `clean_solar_df` runs five steps:
  1. Drop the columns that are entirely empty.
  2. Clamp negative GHI/DNI/DHI readings to zero on night rows. A row is a
     night row when all three irradiance values are below the dawn/dusk
     threshold of 1.0.
  3. Remove outlier rows whose z-score on a monitored column exceeds the
     threshold. The step reports how many rows it removed.
  4. Optionally, fill the missing values of the key sensor columns with
     each column's median.
  5. Optionally, add the `HasRain`, `Hour` and `Month` feature columns.

  The pipeline works in place on a copy of the raw frame. It is modelled
  twice:
  - as pure functions on an immutable `Table`, which carry the properties;
  - as the methods of a mutable `Frame` class, each proved to compute
    exactly its function.
- **Profiling** (`src/solar_eda.py`, module `SolarProfile`).
  - `missing_table`: the count and fraction of missing values per column,
    sorted by fraction, highest first, and optionally filtered by a
    threshold.
  - `dup_report`: the rows that agree with another row on the checked
    columns, and their number.
- **Comparison** (`src/comparison_utils.py`, module `ComparisonUtils`).
  The `ComparisonManager` class holds its settings, a dictionary of
  per-country tables filled by `load_data`, and the summary field. From the
  dictionary it derives:
  - the per-country summary table (mean and median);
  - the ranking by mean, numbered 1..n;
  - the records of the box plots;
  - the inputs of the statistical tests, with the guard that needs at least
    two countries.
- **Dashboard helpers** (`app/utils.py`, module `AppUtils`).
  - Country names are derived from the cleaned files' names.
  - `load_all_countries` stacks every cleaned file into one table, with
    each row tagged with its Country.
  - Grouping the stacked table on Country gives the summary, the ranking
    and the guard of the statistical tests.

The shared modules are:
- `Tables`: rows, columns, missing cells, KeyError and ValueError results.
- `Stats`: sum, mean, variance, median and a sort that places NaN last.
- `Strings`: `capitalize`, `str.replace(pat, "")`, `Path.stem`, and the
  code-point order of strings.
- `CountryTables`: `pd.concat` of tagged tables and `groupby("Country")`.

Some modelling conventions apply throughout:
- A missing cell (NaN) is a key that is absent from a row's `cells` map.
- A NaN mean or median is `None`.
- A pandas exception is a `Failure(KeyError(column))` or a
  `Failure(ValueError(reason))` result.
- The timestamp of a row is its `stamp`. It is never missing and it is not
  listed among the value columns.
- File and directory contents are inputs to the model:
  - a map from file name to parsed table for `load_data`;
  - a list of (file name, table) pairs for `load_all_countries`;
  - a list of file names for `get_available_countries`.

Some behaviour of the code is worth stating plainly, since the model
follows it:
- **Night.** A row is night when all three irradiance values are below
  1.0. No clock-hour window is used.
- **Missing columns.** A missing configured column raises KeyError. It is
  not skipped with a warning.
- **Audit report.** There is none. The only count reported is the number of
  outliers removed.
- **Ranking.** There is no tie-break by country name. pandas' default sort
  is not stable, so tied means are in an unspecified order. The ranking is
  therefore specified by sortedness and by its contents.
- **Statistical tests.** The tests run on whatever groups there are. No
  F = 0 / p = 1 result is produced for degenerate input.
- **Night invariant.** "No negative irradiance at night after cleaning"
  holds only when imputation is off. The median fill writes only into
  missing cells. A row with a missing GHI, DNI or DHI reading is not
  night, so the clamp leaves its negative values alone. Once the fill
  completes its readings, such a row can be night. It then carries the
  negative values it already had, and the filled median can itself be
  negative.

## Model

| member | source | states |
|---|---|---|
| SolarClean.DropEmptyColumns | src/solar_eda.py:99-104 | keeps every row and stamp; a column is kept iff its missing fraction (on a table with rows) is below the threshold, and kept columns hold the same cells |
| SolarClean.DropsExactlyAllMissing | src/solar_eda.py:101 | at threshold 1.0 exactly the columns with every cell missing are dropped, and nothing is dropped from a table without rows |
| SolarClean.DropEmptyColumnsKeepsRows | src/solar_eda.py:99-104 | at threshold 1.0 the kept columns are a subsequence of the input's, in order, and the rows are untouched |
| SolarClean.DropEmptyColumnsIdempotent | src/solar_eda.py:99-104 | dropping empty columns twice is the same as once |
| SolarClean.ClampRow | src/solar_eda.py:110-115 | a row changes only if it is night and has a negative irradiance; then each irradiance value becomes max(value, 0); other cells and the stamp are kept |
| SolarClean.NightClamped | src/solar_eda.py:106-116 | KeyError iff an irradiance column is absent; otherwise same columns and row count |
| SolarClean.NoNegativeNightIrradiance | src/solar_eda.py:110-115 | after the clamp no night row has a negative irradiance value |
| SolarClean.ClipOutliers | src/solar_eda.py:118-122 | KeyError iff a monitored column is absent (and names one); otherwise columns kept |
| SolarClean.ClipOutliersSpec | src/solar_eda.py:118-122 | the kept rows are a subsequence of the input, kept count plus removed count is the input count, a row is kept iff it is not an outlier on any monitored column, and the removed count is the number of row indices whose row is an outlier; so with repeated rows exactly the non-outlier rows survive |
| SolarClean.OutlierIndices | src/solar_eda.py:118-122 | an increasing list of exactly the outlier row indices is as long as the removed count |
| SolarClean.OutlierCardinality | src/solar_eda.py:118-122 | the removed count is the number of row indices whose row is an outlier |
| SolarClean.ExceedsZIsZScoreTest | src/solar_eda.py:120-121 | the square-free outlier test equals abs(x - mean) / std > z_thresh for the population standard deviation |
| SolarClean.FilledColumn | src/solar_eda.py:126 | present values kept; every missing value becomes the median of the present ones, leaving none missing; a column with no present value is unchanged |
| SolarClean.FilledColumnIdempotent | src/solar_eda.py:126 | filling twice equals filling once |
| SolarClean.FillColumn | src/solar_eda.py:126 | the filled column is FilledColumn of the old one; every other column, the stamps, columns and row count are unchanged |
| SolarClean.Imputed | src/solar_eda.py:124-127 | KeyError for the first listed column that is absent iff one is absent |
| SolarClean.ImputeAllSpec | src/solar_eda.py:124-127 | each listed column is median-filled from its own values, every other column is unchanged, stamps and row count kept |
| SolarClean.ImputedSpec | src/solar_eda.py:124-127 | per cell: present cells kept, missing cells of a column with some value get that column's median, columns with no value stay missing |
| SolarClean.SetColumn | src/solar_eda.py:130-132 | the old columns stay, in order, and the columns become exactly the old ones plus the name, added once; every row keeps its stamp, reads the given value in the named column and reads as before in every other column |
| SolarClean.WithFeatures | src/solar_eda.py:129-133 | KeyError(Precipitation) iff Precipitation is absent; otherwise the row count is kept |
| SolarClean.WithFeaturesColumns | src/solar_eda.py:130-132 | the old columns are kept in order, and exactly HasRain, Hour and Month are added |
| SolarClean.WithFeaturesKeepsCell | src/solar_eda.py:129-133 | each row keeps its timestamp and every cell outside HasRain, Hour and Month |
| SolarClean.WithFeaturesSpec | src/solar_eda.py:129-133 | HasRain is 1 iff Precipitation is present and positive, else 0; Hour is the stamp's hour in 0..23; Month is the stamp's month in 1..12; other cells unchanged |
| SolarClean.WithFeaturesIdempotent | src/solar_eda.py:129-133 | re-deriving the features from a featured table gives the same table |
| SolarClean.AfterScreenSpec | src/solar_eda.py:178-184 | the optional impute and feature steps keep row count and stamps, leave non-feature columns as imputed, and add only the feature columns |
| SolarClean.CleanSolarRows | src/solar_eda.py:169-191 | the output has the input's row count less the removed outliers, with timestamps in their original order |
| SolarClean.CleanSolarImputesScreenedMedians | src/solar_eda.py:178-180 | with imputation every key column of the output is the median-filled column of the screened table |
| SolarClean.CleanSolarColumns | src/solar_eda.py:169-184 | a column is in the output iff it was in the raw table and not entirely empty, or it is a feature column and features are added |
| SolarClean.WithFeaturesKeepsNightFix | src/solar_eda.py:129-133 | adding features does not bring back a negative night irradiance |
| SolarClean.CleanSolarNoNegativeNight | src/solar_eda.py:169-184 | without imputation no night row of the output has a negative irradiance |
| SolarClean.Frame.constructor | src/solar_eda.py:170 | the frame holds a copy of the given table |
| SolarClean.Frame.Assign | src/solar_eda.py:130-132 | the frame becomes SetColumn of its old state |
| SolarClean.Frame.ZeroNightNegatives | src/solar_eda.py:106-116 | returns the KeyError of the clamp if any, and otherwise leaves the frame in the clamped state; on error it is unchanged |
| SolarClean.Frame.FillMedian | src/solar_eda.py:126 | the frame becomes FillColumn of its old state |
| SolarClean.Frame.ImputeMedian | src/solar_eda.py:124-127 | fills the listed columns in turn; on the first absent column it raises KeyError, with the earlier columns already filled; without error the frame is the imputed table |
| SolarClean.Frame.EngineerFeatures | src/solar_eda.py:129-133 | returns WithFeatures' error if any, and otherwise the frame is the featured table; on error unchanged |
| SolarClean.CleanSolarDf | src/solar_eda.py:136-191 | leaves the raw frame unchanged, fails iff the pure pipeline fails with the same error, and otherwise returns a fresh frame holding the pipeline's result |
| SolarProfile.EntryFor | src/solar_eda.py:62-63 | a column's missing count plus its present count is the row count |
| SolarProfile.KeepReachingSpec | src/solar_eda.py:65-66 | the filter keeps exactly the lines whose fraction reaches the threshold, and keeps the order |
| SolarProfile.MissingTableSpec | src/solar_eda.py:57-67 | the table is sorted by fraction, highest first and NaN last; each line's fraction is missing / rows; with a positive threshold exactly the lines reaching it remain, otherwise all lines (as a multiset) |
| SolarProfile.MissingTableCoversColumns | src/solar_eda.py:57-64 | without a threshold every column has its line |
| SolarProfile.CheckedColumns | src/solar_eda.py:75 | no subset means Timestamp and every column, which cannot fail; a non-empty subset fails iff one of its names is neither Timestamp nor a column, with a KeyError naming such a name, and is used as given otherwise; an empty subset is a ValueError |
| SolarProfile.DupReportFails | src/solar_eda.py:70-77 | dup_report fails iff the table has rows and the subset is rejected, with the subset's error |
| SolarProfile.DuplicatedSpec | src/solar_eda.py:75 | the duplicated(keep=False) flag of a row is set iff some other row agrees with it on the checked columns |
| SolarProfile.MarkedSpec | src/solar_eda.py:75-77 | the count equals the number of returned rows, and a row is returned iff it agrees with some other row |
| SolarProfile.DupReportSpec | src/solar_eda.py:70-77 | the count is the number of returned rows and the number of row indices agreeing with another row on the checked columns; the rows returned are exactly those rows; the count is never 1 |
| SolarProfile.DupReportRows | src/solar_eda.py:75-76 | the returned rows are the duplicated rows in table order, each once: an increasing list of exactly the duplicated indices gives them position by position |
| SolarProfile.MarkedIndices | src/solar_eda.py:75-76 | the scan from any index returns the rows at an increasing list of exactly the duplicated indices from there on |
| SolarProfile.MarkedCardinality | src/solar_eda.py:75-77 | the scan returns as many rows as there are duplicated indices |
| Stats.SortBy | src/solar_eda.py:64 | the result is a permutation of the input, sorted by key in the given direction, with NaN last |
| Stats.MeanWithinRange | src/comparison_utils.py:41 | the mean lies between any lower and upper bound of the values |
| Stats.MedianSplits | src/solar_eda.py:126 | at least half the values are at most the median and at least half are at least the median |
| Stats.MedianWithinRange | src/solar_eda.py:126 | the median lies between any bounds of the values, so a fill never leaves the column's range |
| Stats.VarianceZeroIffConstant | src/solar_eda.py:120 | the variance is nonnegative and zero iff all values are equal, so a constant column has no outlier |
| Strings.CapitalizeSpec | src/comparison_utils.py:29 | first character not lower case; the rest not upper case; each character equal to the input's up to case |
| Strings.CapitalizeIdempotent | src/comparison_utils.py:40 | capitalizing twice is capitalizing once |
| Strings.RemoveAllSuffix | app/utils.py:10 | removing a border-free suffix from stem + suffix gives back the stem when the stem does not contain it |
| Strings.StemOfSuffixed | app/utils.py:21 | the stem of base.suffix is base when the suffix has no dot |
| Strings.SortedDistinct | app/utils.py:30 | the group keys are the distinct labels in strictly increasing order |
| CountryTables.ConcatColumns | src/comparison_utils.py:28-31 | the stacked columns are exactly the union of the parts' columns |
| CountryTables.ConcatRows | app/utils.py:23-25 | the stacked table has the sum of the parts' row counts, and a row is in it iff it is a row of some part tagged with that part's name |
| CountryTables.Groups | app/utils.py:30 | the Country groups are the labels that occur, strictly sorted |
| CountryTables.GroupsOfConcat | src/comparison_utils.py:28-32 | the groups of the stacked table are the names of the parts that have rows |
| CountryTables.GroupOfUniqueLabel | src/comparison_utils.py:28-32 | a part whose name no other part shares has as its group exactly its own present values |
| CountryTables.SummaryOfPart | src/comparison_utils.py:32 | such a part, with rows, gets a summary line with the mean and median of its own values |
| CountryTables.SummarizeMetric | src/comparison_utils.py:32 | mean and median are NaN exactly when the group has no present value |
| CountryTables.Summarize | app/utils.py:30 | KeyError iff a metric is in no table; otherwise one line per group, in sorted order, each aggregating that group's values |
| ComparisonUtils.ComparisonManager.constructor | src/comparison_utils.py:9-14 | a missing or empty country or metric list means the defaults; data is empty and summary is None |
| ComparisonUtils.ComparisonManager.LoadData | src/comparison_utils.py:16-25 | a country is stored iff its file is available, with that file's table; other entries are kept; the insertion order grows by exactly the new keys, in the countries' order; every key is a country and appears once in insertion order |
| ComparisonUtils.NewKeysSpec | src/comparison_utils.py:17-21 | the keys added are distinct, are exactly the countries with a file that were not keys before, and keep the countries' order |
| ComparisonUtils.LoadedDataAt | src/comparison_utils.py:17-21 | after the loop a key is present iff it was or is a country with a file; its table is the file's if it has one and the old one otherwise |
| ComparisonUtils.LoadedConsistent | src/comparison_utils.py:17-21 | the dictionary and its insertion order stay in step: distinct keys, the same key set, only countries |
| ComparisonUtils.ComparisonManager.GenerateCountryRanking | src/comparison_utils.py:35-47 | KeyError("Mean <metric>") iff no table has the metric; otherwise one line per table with the metric, a permutation of those (capitalized key, mean) pairs, sorted by mean (NaN last), ranked 1..n by position |
| ComparisonUtils.RankingEntriesSpec | src/comparison_utils.py:37-42 | one entry per table holding the metric, with its capitalized key and mean; tables without the column are skipped |
| ComparisonUtils.ComparisonManager.MetricBoxplotRecords | src/comparison_utils.py:70-74 | the nested loops build exactly BoxplotRecords of the data in insertion order |
| ComparisonUtils.ComparisonManager.PlotMetricBoxplots | src/comparison_utils.py:69-75 | one record list per metric, each that metric's BoxplotRecords |
| ComparisonUtils.AppendRecords | src/comparison_utils.py:73-74 | appends one (country, value) record per value, in order |
| ComparisonUtils.BoxplotRecordsSpec | src/comparison_utils.py:70-74 | the records are exactly the present values of each table holding the metric, tagged with its capitalized key, their count the sum of those tables' present counts |
| ComparisonUtils.BoxplotValuesOfCountry | src/comparison_utils.py:70-78 | the box of a table holding the metric whose capitalized key is unique holds exactly that table's present values, in order and with multiplicities |
| ComparisonUtils.BoxplotValuesAbsent | src/comparison_utils.py:70-78 | a name that no table holding the metric carries has an empty box |
| ComparisonUtils.StatisticalTests | src/comparison_utils.py:96-100 | no test iff fewer than two tables hold the metric; otherwise the samples are the tables' present values |
| ComparisonUtils.TestGroupsSpec | src/comparison_utils.py:97 | one sample per table holding the metric, being that table's values with missing ones dropped, and every such table's values are a sample |
| ComparisonUtils.TestGroupAt | src/comparison_utils.py:97 | the samples follow insertion order: the table at position k holding the metric gives the sample numbered by how many tables before it hold the metric |
| ComparisonUtils.SummaryOfCountry | src/comparison_utils.py:27-33 | a country with rows whose capitalized key is unique has a summary line with the mean and median of its own table |
| ComparisonUtils.SummaryTableCountries | src/comparison_utils.py:27-33 | the summary has one line per loaded country with rows, named by its capitalized key, in sorted order |
| AppUtils.AvailableCountriesSpec | app/utils.py:8-10 | one name per matched file, each the file name with every "_clean.csv" removed |
| AppUtils.AvailableCountryAt | app/utils.py:8-10 | the names follow the listing: the matched file at position k gives the name numbered by how many matched files precede it, its name with "_clean.csv" removed |
| AppUtils.AvailableCountryOfFile | app/utils.py:9-10 | the file "<country>_clean.csv" matches the glob and its listed name is the country itself |
| AppUtils.CountryLabelOfFile | app/utils.py:21 | the label of "<country>_clean.csv" is the capitalized country, agreeing with the listed name |
| AppUtils.LabelledFilesSpec | app/utils.py:20-24 | the labelled list is empty iff no file matches, has the matched files' total row count, and holds exactly each matched file with its label |
| AppUtils.LabelledFileMember | app/utils.py:20-24 | a (label, table) pair is collected iff some matched file contributes it |
| AppUtils.LoadedFrameSpec | app/utils.py:18-25 | no frame iff no file matches; otherwise the row count is the sum of the matched files' and every row is a matched file's row tagged with that file's label |
| AppUtils.LoadAllCountries | app/utils.py:18-25 | the loop builds exactly LoadedFrame of the listing |
| AppUtils.GenerateSummary | app/utils.py:29-30 | KeyError("Country") for the empty frame; KeyError iff a metric is not a column; otherwise one line per group in sorted order with its values' mean and median |
| AppUtils.SummaryOfLoadedCountries | app/utils.py:29-30 | the summary lines are exactly the labels of matched files with rows, strictly sorted |
| AppUtils.SummaryOfLoadedFile | app/utils.py:29-30 | a matched file with rows and a unique label has a summary line with the mean and median of its own values |
| AppUtils.LoadedGroup | app/utils.py:18-25 | the Country group of a uniquely labelled file holds exactly that file's present values |
| AppUtils.LoadedGroupStep | app/utils.py:20-25 | loading one more file adds its values to its own label's group only, and only if it matches the glob |
| AppUtils.GroupMeansMembers | app/utils.py:73 | a (country, mean) pair is a line iff the country is a Country group and the mean is that group's mean of its present values |
| AppUtils.GroupRanking | app/utils.py:72-73 | KeyError iff there is no frame or the metric is not a column; otherwise one line per group, sorted by mean in the given direction with NaN last |
| AppUtils.GroupRankingMembers | app/utils.py:72-73 | the ranking holds exactly each group's (name, mean) line |
| AppUtils.RunStatisticalTests | app/utils.py:50-53 | KeyError for the empty frame; no test iff the metric is not a column or there are fewer than two groups; otherwise the samples are the groups' present values in group order |
| AppUtils.ComparisonManager.constructor | app/utils.py:64-67 | a missing or empty metric list means the defaults, and the frame is load_all_countries of the listing |

## Left out

- Plotting and printing are not modelled. This covers the heatmaps, line,
  diurnal, monthly, cleaning-impact, wind-rose and bubble plots, the
  seaborn/matplotlib parts of the ranking and the box plots, and every
  console message. They produce figures or text only.
- File I/O is not modelled. This covers reading and writing CSV,
  `save_path`, globbing a directory and `load_clean_data`. Directory
  listings and parsed tables are inputs instead. In `load_data`, a file
  that is missing (FileNotFoundError) or fails to parse (ParserError) is
  one absent from the input map; those are the only errors the code
  catches.
- The ANOVA and Kruskal–Wallis p-values are not computed. They are scipy
  floating-point numerics. Only the guard and the samples are modelled.
  The `try/except` that turns a failing test into None, or into an error
  mapping, is not modelled either.
- The standard deviation of the summary tables, `round(2)` and p-value
  formatting are not modelled, because they need floating-point square
  roots and rounding. Summaries hold only the mean and median.
- Numbers are exact reals, not IEEE doubles. The z-score test compares
  squares, which is exact for reals. Rounding of means, medians and
  z-scores is not modelled.
- Every value column is numeric. The all-empty Comments column is read as a
  float column, so the dtype of a column is not modelled.
- ComparisonUtils.ComparisonManager.LoadData: cannot fail. In the code,
  any other read error escapes the loop, for example the EmptyDataError of
  an empty file, a permission error or a decoding error. The countries read
  before it then stay stored and the rest are not read. The model has no
  such error.
- SolarClean.DropEmptyColumns: the stamp is always kept. With a threshold
  of 0 or below, the source would also drop the Timestamp column. The
  pipeline uses threshold 1.0.
- SolarClean.NightClamped: the irradiance columns are fixed at their
  default GHI, DNI, DHI. The pipeline never passes other columns.
- Strings.Capitalize: case mapping is ASCII only. Python's `capitalize` also
  maps non-ASCII letters and title-cases the first character.
- AppUtils.IsCleanFile: the glob is modelled as "ends with _clean.csv". Its
  case sensitivity and hidden-file rules are not modelled.
- ComparisonUtils.ComparisonManager.GenerateCountryRanking: the ranking's
  Rank column is the position in the sorted list. The relative order of
  equal means is not fixed: pandas' default quicksort is not stable, so
  neither is the model's order.
- ComparisonUtils.SummaryOfCountry: this holds only for a country whose
  capitalized key no other key shares. Two keys that capitalize alike are
  merged into one group by `groupby`.
- A `Country` column already present in a file is not modelled. Such a
  column would be overwritten by the tag.
- The descriptive helpers of `src/solar_eda.py` are not modelled:
  `load_raw`, `profile`, `dtype_summary`, `numeric_overview` and
  `cat_counts`. They are file reading, printing, formatting and
  memory-size reports.
