# HEAPS categorical encoder, in Dafny

HEAPS is a Streamlit dashboard. Staff upload a CSV of student survey answers.
The dashboard encodes the categorical answers as integer codes and runs a
pre-trained classifier over them. It then labels each student "At Risk" or
"Low Risk". This project models the part with real logic: the mapping table
`category_mappings`, the `preprocess_data` pass that applies it, and the step
that turns predictions into the `Risk_Status` column. It proves what that code
promises.

Modules:

- `Frames` (frames.dfy): a DataFrame as a value. A frame is a row count and a
  sequence of named columns. A cell is text, an integer, a real, or `Missing`
  (pandas' NaN).
- `Rules` (rules.dfy): the two rule kinds of the table and their effect on one
  cell.
  - A `Lookup` is an exact-match dict from label to code. A label that is a key
    gets its code. Anything else becomes `Missing`: an unknown label, a number,
    or NaN. A lookup never raises on a cell, just as `Series.map(dict)` on a
    single column gives NaN and never raises.
  - A `Threshold(cmp, cuts)` is the lambda chain `0 if x cmp cuts[0] else 1 if
    ... else |cuts|`. A number gets the index of the first cut it satisfies.
    NaN satisfies no comparison, so it gets the last code. Text raises, because
    Python cannot compare `str` with `int`; the model returns `None`.
- `Encoder` (encoder.dfy): `preprocess_data` for any mapping table.
  - The table is walked in order. A configured column the frame lacks is
    skipped.
  - Each present column is replaced by its encoded values. The first failing
    column raises, and the pass stops.
  - A separate, order-free reference meaning (`Encodes`) says that each cell
    of the result is its own input cell under its own column's rule.
- `Heaps` (heaps.dfy): the dashboard's own table.
  - `Age` is `Threshold(AtMost, [20, 23])` and `SHS_GWA` is
    `Threshold(AtLeast, [90])`.
  - The other twelve fields are lookups: seven two-label dicts and five
    four-bucket dicts.
- `Risk` (risk.dfy): the `Risk_Status` labels and the assignment of that
  column to the frame.

Two behaviours come straight from the code.

- A missing `Age` is coded 2 and a missing `SHS_GWA` is coded 1. The lambda is
  applied to NaN, and every comparison with NaN is false.
- A label that is not in its dict becomes NaN, and the table itself is never
  validated when the program runs. `Heaps.CategoryMappingsWellFormed` proves
  that the table as written is well formed: its cuts are in evaluation order
  and no dict gives two labels the same code.

## Model

| member | source | states |
|---|---|---|
| Frames.Names | heaps-v4.py:39 | `df.columns`: one label per column, in column order. |
| Frames.HasColumn | heaps-v4.py:39 | `col in df.columns` holds exactly when some column carries that exact label. |
| Rules.FirstMatch | heaps-v4.py:21-25 | The threshold chain gives the index of the first cut the value satisfies: every earlier cut fails, that cut holds, and the result is the number of cuts when none holds. |
| Rules.EncodeCell | heaps-v4.py:40 | Mapping one cell raises exactly when a threshold rule meets text. Otherwise the result is one of the rule's codes, or NaN for a lookup. |
| Rules.LookupHitOrMiss | heaps-v4.py:22-34 | A lookup never raises on a cell. A cell gets a code if and only if it is text that is a key, and then the code is that key's entry. Every other cell becomes NaN. |
| Rules.LookupRoundTrip | heaps-v4.py:22-34 | For a dict with no shared codes, the code of a label decodes back to that same label. |
| Rules.DecodeSound | heaps-v4.py:22-34 | A code decodes to some label if and only if it is one of the dict's values, and the decoded label maps to that code. |
| Rules.FirstMatchMonotone | heaps-v4.py:21-25 | A `<=` chain is non-decreasing in its input and a `>=` chain is non-increasing. |
| Rules.AtMostBand | heaps-v4.py:21 | With increasing cuts, the `<=` chain gives code k exactly on the band cuts[k-1] < x <= cuts[k]. |
| Rules.AtLeastBand | heaps-v4.py:25 | With decreasing cuts, the `>=` chain gives code k exactly on the band cuts[k] <= x < cuts[k-1]. |
| Encoder.RuleFor | heaps-v4.py:38-39 | There is no rule for a column if and only if the table never names it. A rule that is found is one of the table's own entries. |
| Encoder.RuleForEntry | heaps-v4.py:20-35 | In a table with no repeated names, the rule found for a name is the rule of that name's entry, in both directions. |
| Encoder.EncodeCells | heaps-v4.py:40 | `col.map(rule)` succeeds if and only if no cell raises. The result then has the column's length, and each cell is that cell's own encoding. |
| Encoder.EncodeNamed | heaps-v4.py:39-40 | Assigning `df[col] = df[col].map(rule)` raises exactly when a cell of that column cannot be compared, and the error names the column. On success, the labels stay the same, other columns stay unchanged, and the named column holds its encoded cells. |
| Encoder.ColumnFailsCons | heaps-v4.py:40 | A sequence of columns fails if and only if its first column fails or one of the rest does. |
| Encoder.Preprocess | heaps-v4.py:37-41 | A successful pass keeps the row count, the column labels in order, and every column's length. |
| Encoder.AbsentColumnUntouched | heaps-v4.py:39 | A configured column that the frame does not have is skipped. Nothing raises and nothing changes. |
| Encoder.StepKeepsOthers | heaps-v4.py:38-40 | Encoding one entry's column leaves the outcome of every other column as it was. |
| Encoder.PreprocessCorrect | heaps-v4.py:37-41 | The in-order pass succeeds if and only if no cell raises under its column's rule. On success, every cell is its own input cell under its own column's rule, or unchanged when the column has no rule. |
| Encoder.EncodesUnique | heaps-v4.py:37-41 | The per-cell meaning fixes the result: two frames that both satisfy it are equal. |
| Encoder.PreprocessKeepsShape | heaps-v4.py:37-41 | The row count, the column labels and order, and each column's length are preserved. No column is added. Unconfigured columns come back value for value. A rectangular frame stays rectangular. |
| Encoder.PreprocessFailsAtFirst | heaps-v4.py:38-40 | On failure, the error names the first table entry, in table order, whose column holds a value its rule cannot compare. No earlier entry's column fails. |
| Encoder.OtherColumnFails | heaps-v4.py:38-40 | Encoding one column does not change whether a differently named column fails. |
| Encoder.PreprocessOrderIndependent | heaps-v4.py:38-40 | Any reordering of a table with no repeated names succeeds on the same frames and gives the same frame. |
| Encoder.ReencodeErasesLookups | heaps-v4.py:40 | Encoding an encoded frame again cannot raise, and it turns every lookup column into NaN throughout. |
| Encoder.SecondPassCell | heaps-v4.py:40 | After one pass, a configured cell holds a code of its rule or NaN. The second pass applies that rule to it again. |
| Heaps.CategoryMappings | heaps-v4.py:20-35 | The table holds the fourteen entries of `category_mappings` in declaration order: `Age` and `SHS_GWA` as threshold lambdas, the other twelve fields as their dict literals. |
| Heaps.PreprocessData | heaps-v4.py:37-41 | `preprocess_data` with the dashboard's table. On success the row count, the column labels and their order, and every column's length are kept, columns the table does not name come back unchanged, and a rectangular frame stays rectangular. |
| Heaps.CategoryMappingsDistinct | heaps-v4.py:20-35 | No column is named twice in the table. |
| Heaps.TwoLabelDicts | heaps-v4.py:22-34 | Each two-label dict uses exactly the codes {0, 1}, and its labels have distinct codes. |
| Heaps.FourBucketDicts | heaps-v4.py:27-34 | Each four-bucket dict uses exactly the codes {0, 1, 2, 3}, and its labels have distinct codes. |
| Heaps.CategoryMappingsWellFormed | heaps-v4.py:20-35 | Every rule is well formed. Threshold cuts are declared in evaluation order, and no lookup gives two labels the same code. |
| Heaps.ThresholdEntries | heaps-v4.py:20-35 | A table entry is a threshold if and only if it is named `Age` or `SHS_GWA`. |
| Heaps.ThresholdFields | heaps-v4.py:21-25 | The table gives `Age` the `<= 20, <= 23` rule and `SHS_GWA` the `>= 90` rule. |
| Heaps.LookupFieldsAreNotThresholds | heaps-v4.py:20-35 | Neither `Age` nor `SHS_GWA` is among the lookup fields. |
| Heaps.LookupFieldsConfigured | heaps-v4.py:20-35 | Every two-label and four-bucket field has an entry in the table. |
| Heaps.TwoLabelFieldDicts | heaps-v4.py:22-33 | Each two-label field is configured with one of the two-label dicts. |
| Heaps.FourBucketFieldDicts | heaps-v4.py:27-34 | Each four-bucket field is configured with one of the four-bucket dicts. |
| Heaps.LookupFieldRule | heaps-v4.py:20-35 | The rule for every two-label or four-bucket field is a lookup. |
| Heaps.LookupCodomains | heaps-v4.py:22-34 | Two-label fields code to exactly {0, 1} and four-bucket fields to exactly {0, 1, 2, 3}. Within a field, distinct labels have distinct codes. |
| Heaps.AgeBands | heaps-v4.py:21 | An age of at most 20 is 0, above 20 and up to 23 is 1, and above 23 is 2. Integer and real ages agree, and text raises. |
| Heaps.GwaBands | heaps-v4.py:25 | A GWA of at least 90 is 0 and below 90 is 1. Integer and real values agree, and text raises. |
| Heaps.ThresholdsMonotone | heaps-v4.py:21-25 | A higher age never gets a lower code, and a higher GWA never gets a higher code. |
| Heaps.MissingThresholdInputs | heaps-v4.py:21-25 | A missing age is coded 2 and a missing GWA is coded 1, because NaN fails every comparison. |
| Heaps.PreprocessDataFails | heaps-v4.py:37-41 | For a frame with distinct column labels, as `pd.read_csv` produces, `preprocess_data` raises if and only if an `Age` or `SHS_GWA` column holds text. `Age` is reported when both do. A label miss never raises. |
| Heaps.PreprocessDataTwice | heaps-v4.py:37-41 | Running `preprocess_data` on its own output never raises. Every label column becomes NaN, every `Age` code becomes 0, and every `SHS_GWA` code becomes 1. |
| Heaps.SecondPassHeapsCell | heaps-v4.py:37-41 | On the second pass, a cell of a lookup field becomes NaN, an `Age` cell becomes 0 and a `SHS_GWA` cell becomes 1. |
| Heaps.CodeReencodes | heaps-v4.py:21-34 | A code or NaN that a rule produced, met by that rule again, becomes NaN under a lookup, 0 under the age lambda (every age code is at most 20) and 1 under the GWA lambda (every GWA code is below 90). |
| Heaps.ExampleRules | heaps-v4.py:21-23 | `Sex`, `Scholarship` and `Age` get their dict or lambda from the table. |
| Heaps.StudentCells | heaps-v4.py:21-23 | Each cell of the three-student example is its own label's or age's code. |
| Heaps.StudentsUnder | heaps-v4.py:37-41 | Any table that gives the example's columns these rules encodes the example to the expected codes. |
| Heaps.ThreeStudents | heaps-v4.py:20-41 | Three students with Sex Male/Female/Male, Scholarship Yes/No/Yes and Age 19/24/22 come out as [0,1,0], [1,0,1] and [0,2,1]. |
| Risk.RiskLabels | heaps-v4.py:118 | There is one label per prediction, in order. A label is "At Risk" if and only if its prediction is 1; every other label is "Low Risk". |
| Risk.RiskCounts | heaps-v4.py:118 | The number of "At Risk" labels is the number of predictions equal to 1, and the number of "Low Risk" labels is the rest. |
| Risk.Grown | heaps-v4.py:118 | The frame a list of n values is assigned into. A frame with no rows, given a non-empty list, grows to n rows with every existing column filled with NaN, keeping the labels. Any other frame is unchanged. |
| Risk.AddRiskStatus | heaps-v4.py:118 | Assigning the label list raises exactly when the frame has rows and the list's length differs from the row count. On success the frame has one row per prediction. A new `Risk_Status` column is appended last after the (possibly grown) original columns, so `df.columns[:-1]` are the original labels. An existing one is overwritten where it stands. A rectangular frame stays rectangular. |
| Risk.EmptyFrameGrows | heaps-v4.py:118 | A zero-row frame given one prediction of 1 becomes one row: its column holds NaN and `Risk_Status` holds "At Risk". |

## Left out

- Streamlit page routing, widgets, styling, and the `st.session_state` bookkeeping. This is UI glue with no behaviour beyond presence checks.
- Loading the model with joblib, `model.predict` and `feature_importances_`. The classifier is an opaque foreign object, so its predictions are an input sequence of integers.
- CSV parsing with `pd.read_csv`, which is a library call. Frames are given as already-parsed cells. `read_csv` renames a repeated header (`Age`, `Age.1`), so the program only ever sees frames with distinct labels (`Frames.DistinctLabels`).
- Frames with a repeated configured label: there pandas' `df[col]` is a DataFrame and `df[col].map(dict)` raises, while the model deliberately encodes every column carrying that name and succeeds. `Heaps.PreprocessDataFails` is stated only for frames with distinct labels for this reason.
- Plotly charts and report text, which are rendering only.
- IEEE floating point. Numbers are exact integers and reals. NaN is `Missing`, and it fails every comparison. Infinities, rounding and signed zeros are not modelled, and the no-op `int(...)` cast is dropped.
- pandas dtypes. A code is an `Int` cell even where pandas would store it as a float, which it does when NaN shares the column.
- In-place mutation. `preprocess_data` is modelled as a value transform. On an exception, the real DataFrame keeps the columns already encoded; the model returns only the error.
- Predictions are compared with `== 1` as integers. Values such as `1.0` or `True`, which compare equal to 1 in Python, are represented by 1.
- The index of a grown frame. When a zero-row frame takes the `Risk_Status` list, pandas also builds a new row index, and the model keeps only its length. The program cannot reach this case anyway, because `model.predict` raises on zero samples.
