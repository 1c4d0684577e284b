# Used-car price pipeline: a Dafny model

The repository consists of two pandas scripts that share one pipeline:

- `train_model.py` fits a regression model on a listing file of used cars.
- `app.py` serves predictions from that model.

Both scripts run the same steps, in this order:

1. **Clean** six numeric columns.
   - `mileage`, `engine` and `max_power` are cast to text. The first maximal run of digits and dots is extracted and coerced to a number.
   - `km_driven`, `seats` and `year` are coerced as they are.
   - Whatever cannot be coerced becomes NaN.
2. **Drop** incomplete rows (`dropna`).
   - The app drops a row when one of the six numeric columns is NaN.
   - Training also drops a row when `selling_price` is NaN.
3. **Reduce** `name` to its brand: `str(x).split(' ')[0].strip()`.
4. **Encode** the five categorical columns with `pd.factorize`. Codes are dense and follow the order in which labels first appear.
   - Training keeps only the code column.
   - The app also turns `uniques` into a label-to-code dictionary per column.
5. **Assemble and predict.**
   - Training splits the frame into the feature matrix `X`, which has 11 columns in a fixed order, and the target `y`.
   - The app looks up the user's five labels in its dictionaries, builds the 11-entry input row in the same order, calls the model, and floors the price at 10000.

## How the model is organised

- Values are exact decimals (`real`), not floats.
- A cell is `Blank` (NaN from the CSV reader) or `Text(s)`. `str()` of a blank cell is `"nan"`.
- The app loop that builds the dictionaries and the training loop that encodes the columns are methods with loops, and so is `pd.factorize` itself.
- Each method is proved against a specification function (`CatMapsOf`, `Codes`, `Distinct`, `CategoryMap`).
- `App.AppPrepare` is the inference script up to the select boxes: it reassigns its frame the way the script overwrites `df`, then builds the maps. The input row and the model call are `App.BuildInput` and `App.PredictPrice`.
- `Train.TrainPrepare` is the training script up to `model.fit`. It keeps the factorize codes in a map from column to code column next to the frame, and `Train.Matrix` reads them from there.
- The model's `predict` is a function parameter.

### Behaviour worth knowing

- **Numeric extraction.** The shape of the extracted run is not checked before coercion. So `"1.2.3 kmpl"` and `". bhp 82"` both become NaN: their first runs are `"1.2.3"` and `"."`.
- **Brand.** Only U+0020 separates words, and the piece is stripped afterwards. So `" Maruti Swift"` gives `""`, and a tab stays inside the brand.
- **Category maps.** The maps are not saved with the model. The app rebuilds them at start-up from the file on disk, from a frame that keeps unpriced rows. Module `Agreement` states when the app's codes agree with the training codes and exhibits a listing where they do not.

## Model

| member | source | states |
|---|---|---|
| Normalize.FirstRun | app.py:16-18 | no run exactly when the text has no digit or dot; otherwise the result is the leftmost maximal run of digits and dots |
| Normalize.ParseDecimalDefined | app.py:16-18 | coercing an extracted run succeeds exactly when the run has at most one dot and at least one digit |
| Normalize.DecimalLiteralShape | app.py:16-18 | a run is a literal exactly when the parts before and after its first dot are digits and not both empty |
| Normalize.ParseShowDecimal | app.py:16-18 | parsing the decimal text of `m + f/10^k` gives that number back (round trip) |
| Normalize.CellText | app.py:29 | `str(x)`: text is kept as it is and NaN becomes "nan", so a missing value and the text "nan" give the same label |
| Normalize.ExtractNumeric | app.py:16-18 | NaN cells and texts without digits or dots become NaN; every extracted value is non-negative |
| Normalize.ExtractNumericDefined | app.py:16-18 | extraction yields a number exactly when the first run is a well-formed literal |
| Normalize.FirstRunAfterPrefix | app.py:16-18 | a run preceded by text without digits or dots and followed by a non-run character is the one extracted |
| Normalize.ExtractRun | app.py:16-18 | extraction of such a cell is the coercion of that run |
| Normalize.ExtractWithUnit | app.py:16-18 | a number written in decimal and followed by a unit is cleaned to exactly that number |
| Normalize.UnitCellRuns | app.py:16-18 | the pattern takes "23.4" from "23.4 kmpl" and "1197" from "1197 CC" |
| Normalize.MalformedCellRuns | app.py:16-18 | the pattern takes "." from ". bhp" and "1.2.3" from "1.2.3" |
| Normalize.ExtractUnitExamples | app.py:16-18 | "23.4 kmpl" gives 23.4 and "1197 CC" gives 1197 |
| Normalize.ParseDecimal | app.py:16-18 | `pd.to_numeric` of an extracted run: a coerced run is never negative, since the run holds no sign (exactly when it coerces: `ParseDecimalDefined`) |
| Normalize.MalformedRuns | app.py:16-18 | the runs "." and "1.2.3" coerce to NaN |
| Normalize.ExtractMissingExamples | app.py:16-18 | "N/A", a NaN cell, ". bhp" and "1.2.3" become NaN instead of raising |
| Normalize.CoerceNumeric | app.py:19-21 | a NaN cell stays NaN; a negative value comes only from text starting with '-' |
| Normalize.CoerceNumericDefined | app.py:19-21 | direct coercion succeeds exactly when the text is an optionally signed decimal literal |
| Normalize.CoerceShowInt | app.py:19-21 | an integer written as the CSV writes it coerces to its value |
| Listing.Clean | app.py:16-21 | each numeric column is present exactly when its extraction or coercion succeeds; the extracted columns are non-negative; the other columns are unchanged (training, at train_model.py:9-14, runs the same function) |
| Listing.CleanFrame | app.py:16-21 | the column assignments act row by row: one cleaned row per row of the file, in order (training, at train_model.py:9-14, runs the same function) |
| Listing.DropNa | app.py:23-26 | keeps no more rows than it is given, and every kept row is complete on the subset |
| Listing.KeptPositions | app.py:23-26 | the positions of the complete rows: each is complete, they increase strictly, and no complete row is missed |
| Listing.DropNaPositions | app.py:23-26 | the kept rows are exactly the rows at the kept positions, in their original order |
| Listing.DropNaKeepsComplete | app.py:23-26 | a frame that is already complete loses no row |
| Listing.DropNaAppend | app.py:23-26 | dropping distributes over concatenation (the decision is per row) |
| Listing.DropNaNested | train_model.py:16-19 | dropping on a larger subset equals dropping on a smaller one first |
| Listing.DropNaSameRows | train_model.py:16-19 | two subsets that judge every row alike drop the same rows |
| Brand.StripLeft | app.py:29 | `lstrip`: removes exactly the leading whitespace (full `str.isspace` set) |
| Brand.StripRight | app.py:29 | `rstrip`: removes exactly the trailing whitespace |
| Brand.Strip | app.py:29 | the result has no whitespace at either end, and it is the middle of the input between whitespace on both sides |
| Brand.FirstPiece | app.py:29 | `split(' ')[0]`: the prefix before the first space, containing no space |
| Brand.BrandOf | app.py:29 | the brand contains no space and is stripped (training, at train_model.py:22, runs the same function) |
| Brand.BrandUpTo | app.py:29 | when the text before the first space is already stripped, that text is the brand |
| Brand.BrandOfFirstWord | app.py:29 | a word without whitespace followed by a space gives that word |
| Brand.BrandIdempotent | app.py:29 | reducing a brand again changes nothing |
| Brand.BrandExamples | app.py:29 | "Maruti Swift Dzire VDI" gives "Maruti"; a leading space gives ""; a tab is kept inside the brand; NaN gives "nan" |
| Listing.ReduceBrands | app.py:29 | `df['name'].apply(...)` keeps the number of rows (its rows' names: `ReduceBrandsNames`; weaker, see Left out) |
| Listing.ReduceBrandsNames | app.py:29 | after the reduction every `name` is a text with no space and no whitespace at either end |
| Listing.ReduceBrandsIdempotent | app.py:29 | reducing a reduced column again changes nothing |
| Listing.BrandRowKeepsPresence | app.py:29 | the reduced row equals the original with only `name` replaced; so `selling_price` is kept, and every other column keeps its presence, its value and its label |
| Listing.ReduceBrandsKeepsPrice | train_model.py:22 | the brand reduction keeps every row's `selling_price` |
| Listing.ReduceBrandsAppend | app.py:29 | the reduction works row by row |
| Listing.ReduceBrandsDropNa | train_model.py:16-22 | `dropna` on columns other than `name` and the brand reduction commute |
| Listing.Labels | app.py:36 | `astype(str)` of a column: one label per row; a text cell gives its text, a NaN cell gives "nan" (training: train_model.py:26) |
| Encoding.Distinct | app.py:37 | `uniques` has no duplicates and holds exactly the labels of the column |
| Encoding.CodeOf | app.py:37 | a label's code is a valid index of `uniques`, and `uniques` holds the label there |
| Encoding.Codes | train_model.py:27 | one code per row, and `uniques[code] == label` for every row |
| Encoding.Factorize | train_model.py:25-27 | the loop with a seen-labels map returns `uniques == Distinct(labels)` and the codes `Codes(labels)` |
| Encoding.FirstSeenOrder | train_model.py:27 | a label gets a smaller code exactly when it first appears earlier |
| Encoding.CodesDense | train_model.py:27 | the codes used are exactly `0 .. k-1` |
| Encoding.SameCodeSameLabel | train_model.py:27 | two rows share a code exactly when they share a label |
| Encoding.FirstLabelGetsZero | train_model.py:27 | the first row always gets code 0 |
| Encoding.TwoLabels | train_model.py:27 | two different labels are coded 0 and 1 in order of appearance |
| Encoding.CategoryMap | app.py:38 | the map's keys are exactly the column's labels, and each maps to its index in `uniques` |
| Encoding.ZipWithRange | app.py:38 | `dict(zip(uniques, range(len(uniques))))`: keys are the uniques, each mapped to its last position |
| Encoding.ZipIsCategoryMap | app.py:37-38 | zipping factorize's `uniques` with their positions gives the category map |
| Encoding.CategoryMapBijection | app.py:37-38 | the map's values are exactly `0 .. k-1`, `map[uniques[c]] == c`, and distinct labels get distinct codes |
| Encoding.CategoryMapAgreesWithCodes | app.py:37-38 | the map gives every row the code factorize gave it |
| App.AppFrame | app.py:23-29 | the app frame has no more rows than the cleaned file, and every row is complete on the six numeric columns |
| App.CatMapsOf | app.py:33-38 | a dictionary for each of the five categorical columns and no other; each one's keys are exactly that column's labels |
| App.BuildCategoryMaps | app.py:32-38 | the loop over `cat_cols` builds `CatMapsOf(rows)` and each column's code column `Codes(labels)` |
| App.AppPrepare | app.py:16-38 | the app frame is the cleaned file, complete on the six numeric columns, brands reduced; the maps are `CatMapsOf` of that frame |
| App.FirstUnknown | app.py:86-90 | the lookups in order: every column before the result is known, and the result itself is not |
| App.BuildInput | app.py:79-95 | success exactly when all five labels are keys; the row has 11 entries in `input_df` column order; otherwise a `KeyError` for the first unknown column in order |
| App.OfferedChoiceSucceeds | app.py:41-45 | labels taken from the select boxes (the map keys) never raise `KeyError` |
| App.Floor | app.py:98 | the price is at least 10000, equals the prediction when that is at least 10000, and is 10000 otherwise |
| App.PredictPrice | app.py:97-98 | a price exactly when the input row can be built; the price is the prediction when that is at least 10000 and exactly 10000 otherwise; the `KeyError` is passed on |
| Train.TrainFrame | train_model.py:16-22 | the training frame has no more rows than the cleaned file, and every row is complete on the six columns and `selling_price` |
| Train.EncodeCategoricals | train_model.py:24-27 | for exactly the five categorical columns, the codes computed and returned per column equal `Codes` of the column's labels |
| Train.FeatureRow | train_model.py:30-36 | row i of X has 11 entries: the six numbers, then the five codes, in `feature_cols` order |
| Train.Matrix | train_model.py:36 | `df[feature_cols]`: one row of 11 entries per frame row (their values: `MatrixRows`) |
| Train.MatrixRows | train_model.py:36 | selecting `feature_cols` from the encoded frame gives `FeatureRow` for every row |
| Train.Target | train_model.py:37 | `y` has one entry per row and none is NaN |
| Train.TrainPrice | train_model.py:16-22 | training row i carries the price the file gave the i-th row kept by `dropna`, so `y` is the file's prices of the kept rows |
| Train.TrainPrepare | train_model.py:9-37 | X and y have as many rows as the training frame; row i of X is `FeatureRow`, and `y[i]` is that row's price |
| Agreement.SameColumnOrder | train_model.py:30-34 | `feature_cols` equals the app's `input_df` columns, and the categorical column lists agree |
| Agreement.TrainFrameFromAppFrame | train_model.py:16-19 | the training frame is the app frame without its unpriced rows, in the app's order (a subsequence) |
| Agreement.SameFrameWhenPriced | train_model.py:16-19 | when every row the app keeps has a price, both scripts work on the same frame |
| Agreement.MapGivesRowCode | app.py:35-38 | within one frame, the map gives every row the code factorize gives it |
| Agreement.CodesAgree | train_model.py:27 | when every app row has a price, each training row's code equals the app map's code for its label |
| Agreement.InputIsFeatureRow | app.py:79-95 | within one frame, describing row i in the app yields exactly row i of X |
| Agreement.VectorsAgree | app.py:79-95 | when every app row has a price, the app's input row for a training row is that row of X |
| Agreement.TrainLabelKnown | app.py:86-90 | whatever the prices, each label of a training row is a key of the app's map: a missing price can shift a code but never raises `KeyError` |
| Agreement.TwoRowFrames | train_model.py:16-19 | a first row without a price stays in the app frame but leaves the training frame |
| Agreement.CodesDisagreeWithoutPrice | train_model.py:18 | with such a first row and different labels, training codes the second label 0, the app maps it to 1, and the app's input row differs from the row of X |

## Left out

- The Streamlit page: title, select boxes, sliders, number inputs, button, `st.success` and footer. These are presentation. The user's choice is the `Choice` value.
- The slider bounds from `min`, `max` and `median`, and the `int()`/`float()` casts of the widget values. These are float statistics that only bound the widgets.
- `pd.read_csv`, `joblib.load` and `joblib.dump`. These are file I/O; the listing file is a parameter. The reader's NaN strings (empty field, "NA", "N/A" and so on) are all taken to arrive as `Blank`.
- `LinearRegression.fit` and `predict`. These are a floating-point library. `predict` is a function parameter, and `fit` is where `TrainPrepare` stops.
- Floating point itself. Values are exact decimals, so `max(10000, nan)` and rounding are not modelled.
- `pd.to_numeric` forms beyond an optional sign and a decimal literal: exponents, surrounding whitespace, "inf", "nan", and numbers already parsed by the reader.
- Unicode digits matched by `\d`. Only ASCII digits count.
- Normalize.CoerceNumeric: the result's value is stated only as far as its sign. Its exact value is stated by `Normalize.CoerceShowInt` and `Normalize.ParseShowDecimal` for the texts the listing file holds.
- Listing.ReduceBrands: its own contract gives only the length. The brand property of every row is stated by `Listing.ReduceBrandsNames`.
- The app's code columns written back into `df` (`app.py:37`): `App.BuildCategoryMaps` computes and returns them per column, and nothing uses them afterwards, as in the source.
- Train.TrainPrepare: the code columns are not written back into the frame in place of the labels (`train_model.py:27`). They are kept in a separate map from column to codes, which `Train.Matrix` reads. So the model does not capture the frame's intermediate state, in which the categorical columns hold codes; X is the same either way.
- `selling_price` is not coerced by either script. `y` is modelled as the raw cell, which `dropna` guarantees is not NaN.
