# Bank marketing pipeline: a Dafny model of its data stages

The repository analyses a bank's term-deposit marketing campaign. It has three
data stages, and this project models each of them as pure functions over data
frames. Each stage's promises are proved as contracts and lemmas.

- **Preprocessing** (`data_preprocessing.py`):
  - load the raw CSV, which fails when the file is missing;
  - drop every row with a missing cell;
  - label-encode the nine categorical columns, where each column's classes are its sorted distinct cells and a cell's code is its position among them;
  - standardize the seven numerical columns;
  - write the result.
- **Feature engineering** (`feature_engineering.py`):
  - drop the `deposit` target from the candidate columns;
  - rank the candidates by a relevance score and keep the five best;
  - write those columns followed by the target.
- **A/B/C testing** (`ab_testing.py`):
  - segment customers: "Returning Customer" when `previous > 0`, else "High Balance" when the balance is at or above the median, else "General";
  - map the segments to campaign groups A, B and C;
  - count group × deposit outcomes in a contingency table;
  - compute each group's outcome proportions;
  - call the difference significant when the chi-square p-value is below 0.05.

A frame (`Tables.Frame`) has ordered, distinct column labels and a sequence of
rows. Every row maps each label to a cell. A cell is a number, a string, or
missing (NaN). A file system is a map from path to the parsed frame, and
writing a file updates that map. Errors the program raises are modelled as
`Result` failures: `FileNotFound`, `KeyError`, `TypeError` and `ValueError`.

Some things the program gets from libraries are inputs to the model:

- the mutual-information scores, as a function from column to score;
- the standard-scaler transform, as a function from column and value to value;
- the chi-square p-value, as a function of the contingency table.

Modules, one per file:

- `Wrappers`: `Option` and `Result`.
- `Seqs`: counting and distinctness on sequences.
- `Tables`: frames, columns and loading.
- `Order`: the order label encoding sorts by, and distinct sorted classes.
- `Preprocessing`: cleaning, encoding, scaling and the stage.
- `FeatureEngineering`: ranking, top-five selection, projection and the stage.
- `Statistics`: insertion sort and the median.
- `Segmentation`: segments and campaign groups.
- `AbTesting`: contingency counts, rates and the decision.

## Model

| member | source | states |
|---|---|---|
| Tables.LoadData | data_preprocessing.py:6-10 | fails with `FileNotFound(path)` exactly when no file exists at the path; otherwise returns that file's frame |
| Preprocessing.CleanData | data_preprocessing.py:12-15 | keeps the columns; no kept row has a missing cell; each complete row keeps its multiplicity and each incomplete row disappears; kept rows stay in their original order; the row count drops by exactly the number of incomplete rows |
| Preprocessing.ColumnListsDisjoint | data_preprocessing.py:38-39 | no column is both categorical and numerical, so encoding and scaling touch different columns |
| Order.Classes | data_preprocessing.py:21-22 | the learned classes are strictly increasing, are exactly the cells that occur in the column, and number its distinct cells |
| Order.ClassesLength | data_preprocessing.py:21-22 | any strictly increasing list of exactly a column's cells has as many entries as the column has distinct cells, and so no more than the column's length |
| Preprocessing.FitEncoder | data_preprocessing.py:21-22 | fails with `TypeError` exactly when the column mixes numbers and strings; otherwise the classes are strictly sorted, are exactly the column's cells, and number its distinct cells |
| Preprocessing.Transform | data_preprocessing.py:22 | a learned cell's code is an integer in `[0, number of classes)` |
| Preprocessing.InverseTransform | data_preprocessing.py:23 | the decoder of the stored encoder: decoding succeeds exactly for an in-range integer code and yields one of the classes |
| Preprocessing.FittedClassCount | data_preprocessing.py:21-22 | an encoder fitted to a column has exactly one class per distinct cell, so its codes lie below the number of distinct cells |
| Preprocessing.TransformRoundTrip | data_preprocessing.py:22 | decoding the code of a learned cell gives the cell back |
| Preprocessing.DecodesProperties | data_preprocessing.py:22 | codes that decode row by row to the original cells are in range and equal exactly where the original cells are equal |
| Preprocessing.EncodeColumn | data_preprocessing.py:20-23 | `KeyError` for an absent column, `TypeError` for a number/string mix, and no failure otherwise; on success every other column is unchanged and every new cell decodes to the old cell in its row |
| Preprocessing.EncodeCategoricalFeatures | data_preprocessing.py:17-24 | fails exactly when some listed column is absent or mixed, naming a listed column; on success there is one encoder per listed column, unlisted columns are untouched, and codes are in range and keep every distinction; with no column listed twice, each encoder's classes are its column's distinct cells in ascending order and each code decodes to the input cell, so a cell's code is its position among the sorted distinct cells |
| Preprocessing.EncodedFromStep | data_preprocessing.py:20-23 | encoding one more column keeps everything the earlier columns' encodings established, and adds an encoder fitted to the new column |
| Preprocessing.ScaleFeatures | data_preprocessing.py:26-30 | fails exactly when a listed column is absent or holds a string, when no column is listed, or when the frame has no row; an absent column gives `KeyError` and the other failures `ValueError`; otherwise each number in a listed column goes through the transform, missing cells stay missing, and every other column is unchanged |
| Preprocessing.ScaledAfterEncoding | data_preprocessing.py:41-42 | scaling the encoded frame fails exactly when, in the cleaned frame, a numerical column is absent or holds a string or no row is left, since encoding leaves those columns and the row count as cleaned |
| Preprocessing.StagesCompose | data_preprocessing.py:41-42 | scaling after encoding leaves the categorical codes decodable to the cleaned cells by encoders fitted to them, the numerical cells as the transform of the cleaned ones, and every other column as cleaned |
| Preprocessing.PreprocessData | data_preprocessing.py:32-49 | fails exactly when the input is missing (with `FileNotFound`) or, once cleaned, has a categorical column absent or mixing numbers and strings, a numerical column absent or holding a string, or no row left; on success only the output path is written, with the result; the result has the input's columns and its cleaned row count, which is positive; each categorical column holds the codes of an encoder fitted to its cleaned cells, sorted, and decodes to them; each numerical cell is the transform of the cleaned one; columns in neither list are the cleaned ones |
| FeatureEngineering.DropColumn | feature_engineering.py:16 | the result has every column but the dropped one, in order, with the same rows and cells |
| FeatureEngineering.Candidates | feature_engineering.py:16 | the candidate features are exactly the non-target columns, each once |
| FeatureEngineering.Rank | feature_engineering.py:23 | the entries are ordered from best to worst with no entry lost or added |
| FeatureEngineering.RankPrefixIsTopK | feature_engineering.py:23-26 | the first `min(5, n)` names of a full ranking are distinct candidates in descending score; each scores at least as high as every candidate left out; of two equally scored candidates the earlier is kept if the later is, and listed first when both are kept |
| FeatureEngineering.SelectFeatures | feature_engineering.py:12-28 | fails with `KeyError("deposit")` exactly when the frame has no target; otherwise the features are the top five candidates, tied candidates in column order, and they are the first five names of the returned ranking, which orders every candidate with its score |
| FeatureEngineering.TopKUnique | feature_engineering.py:23-26 | the top-five rule fixes one list: any two lists meeting it are equal, names and order alike |
| FeatureEngineering.TargetNeverSelected | feature_engineering.py:16-26 | the target is never a selected feature |
| FeatureEngineering.SaveSelectedFeatures | feature_engineering.py:30-38 | a name missing from the frame gives `KeyError` for such a name; otherwise the result has the selected columns in order, then the target; it keeps the row count; selected columns are copied; the target column equals `y` |
| FeatureEngineering.Run | feature_engineering.py:40-51 | a missing input fails with `FileNotFound`, as `load_data` raises; the run fails exactly when the input is missing or lacks the target; otherwise the output file holds the top five features, tied ones in column order, and then the target, with the input's row count and each row's cells carried over |
| FeatureEngineering.EngineeredColumnsDetermined | feature_engineering.py:32-35 | any two files the stage could write for one dataset and one scoring have the same selected features and the same column order |
| Statistics.SortReals | ab_testing.py:18 | the result is sorted, has the input's elements with their multiplicities, and has the input's length |
| Statistics.SortRealsCounts | ab_testing.py:18 | sorting changes no count of elements at or above, or at or below, any threshold |
| Statistics.Median | ab_testing.py:18 | the median is NaN exactly when no value is present |
| Statistics.MedianSplitsInHalf | ab_testing.py:18 | at least half the present values are at or above the median, and at least half are at or below it |
| Segmentation.NumericColumn | ab_testing.py:18-19 | reading `balance` or `previous` gives `KeyError` when the column is absent and `TypeError` when it holds a string; otherwise it gives the column's numbers, with missing cells as NaN |
| Segmentation.SegmentLabels | ab_testing.py:17-19 | the three successive writes leave each row with the label the precedence rule `SegmentOf` gives |
| Segmentation.SegmentCustomers | ab_testing.py:16-20 | fails exactly when `balance` or `previous` is absent or not numeric; otherwise only `customer_segment` is set, and each row's label is the one the precedence rule gives for the row's balance, prior contacts and the median balance |
| Segmentation.SegmentPrecedence | ab_testing.py:17-19 | a row with `previous > 0` is "Returning Customer" whatever its balance; otherwise a balance at or above the median is "High Balance" and any other is "General"; every row gets one of the three labels |
| Segmentation.AssignCampaigns | ab_testing.py:25-29 | fails with `KeyError` exactly when there is no segment column; otherwise only `campaign_group` is set: "High Balance" gives A, "General" gives B, anything else gives C |
| Segmentation.SegmentAndAssignFacts | ab_testing.py:16-31 | the two steps keep the row count and every other column; each row's group is the campaign of its segment |
| AbTesting.Crosstab | ab_testing.py:40 | labels are the sorted distinct groups and outcomes of rows where both are present; each count is the number of rows with that group and outcome; each row of counts adds up to the group's size, which is positive; the total is the number of rows counted |
| AbTesting.ConversionRates | ab_testing.py:34 | grouping the observed rows by campaign group and normalizing each group's outcome counts gives, per group and outcome, hits over the group's size; it is NaN exactly where there are no hits, lies in (0, 1], and each group's shares add up to 1 |
| AbTesting.RateRowFacts | ab_testing.py:34 | a row of counts divided by its own total gives shares in (0, 1] that add up to 1 |
| AbTesting.SharesAreTableRates | ab_testing.py:34-40 | grouping the observed rows and normalizing each group's outcome counts yields, row for row, the pivot table's counts divided by their row totals |
| AbTesting.RatesMatchTable | ab_testing.py:34-40 | the conversion rates computed by grouping and the contingency table computed by pivoting agree: each rate is the table's count over its group's total, NaN exactly where the count is zero |
| AbTesting.Decide | ab_testing.py:44-47 | the verdict is significant exactly when the p-value is below 0.05 |
| AbTesting.AbTest | ab_testing.py:8-47 | a missing dataset fails with `FileNotFound`; the run fails exactly when the dataset is missing, segmentation fails, there is no `deposit` column, or no deposit outcome is known, which leaves the chi-square test an empty table; on success the table and the conversion rates tabulate the assigned groups against `deposit`, the p-value is the chi-square test's on that table, and the verdict is significant exactly when the table's p-value is below 0.05 |
| AbTesting.AbTestCounts | ab_testing.py:22-40 | every customer lands in group A, B or C, so only those groups label the table; the table counts exactly the customers whose deposit outcome is known |

## Left out

- File contents are parsed frames, and reading or writing a CSV is lossless. Paths that do not exist are the only I/O failure modelled.
- Printing, the `reports/figures` directory and the bar plot of `ab_testing.py` are not modelled. The plot's `conversion_rates["yes"]` lookup is therefore left out too.
- The `StandardScaler` arithmetic is a parameter of the model, because the model does not compute floating-point means and deviations. The model does not fail for a constant column: scikit-learn then uses a scale of 1 and raises nothing.
- The mutual-information scores are a parameter of the model, as is the chi-square test behind the p-value.
- Preprocessing.PreprocessData: returns the fitted encoders but not the scaler, whose state is the parameter above.
- FeatureEngineering.Before: equal scores are ranked by original column order. The program's descending sort leaves that order unspecified, and the model fixes one choice.
- FeatureEngineering.SelectFeatures: does not fail where `mutual_info_classif` rejects its input, that is, on a string or missing feature cell, an unusable target, a frame without rows or a frame whose only column is `deposit` (no feature at all), because the scores are a parameter of the model.
- FeatureEngineering.Run: fails exactly when the input is missing or lacks the target, and so inherits the missing `mutual_info_classif` failures of `SelectFeatures`.
- FeatureEngineering.SaveSelectedFeatures: requires distinct selected names. pandas would duplicate a repeated column, and the selection never repeats one.
- Order.CellLess: the order puts numbers before strings and missing cells last. Label encoding never compares a number with a string, because that is a `TypeError`. The contingency labels use this order only if `deposit` mixed numbers and strings.
- Statistics.Median: values are exact reals, so the mean of the two middle values is exact, not rounded as a float.
- Segmentation and testing run on whatever frame is stored at the path. The value `previous > 0` tests is the standardized one the preprocessing wrote, so it means "more prior contacts than average", as in the program.
- Model training, model evaluation, SHAP explanations, campaign optimisation and the automated pipeline are not part of this model.
