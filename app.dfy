/**
 * The inference script: it cleans the listing file, keeps the rows whose six
 * numeric features are present, reduces `name` to the brand, builds one
 * label-to-code map per categorical column, assembles the 11-entry input
 * vector from the user's choices and floors the model's prediction at 10000.
 */
module App {
  import opened Wrappers
  import opened Encoding
  import opened Listing

  /** `cat_cols` */
  const CatCols: seq<Field> := [Name, Fuel, SellerType, Transmission, Owner]

  /** The `dropna` subset of the inference script. */
  const AppSubset: set<Field> := {Year, KmDriven, Mileage, Engine, MaxPower, Seats}

  /** The column names of `input_df`. */
  const InputColumns: seq<Field> :=
    [Year, KmDriven, Mileage, Engine, MaxPower, Seats, Name, Fuel, SellerType, Transmission, Owner]

  /** The lowest price the app shows. */
  const PriceFloor: real := 10000.0

  /** `cat_maps`: one label-to-code dictionary per categorical column. */
  type CatMaps = map<Field, map<Label, nat>>

  /** The frame the app works on, after cleaning, `dropna` and the brand reduction. */
  function AppFrame(df: seq<Row>): (rows: seq<Row>)
    ensures |rows| <= |df|
    ensures forall i :: 0 <= i < |rows| ==> Complete(rows[i], AppSubset)
  {
    var kept := DropNa(df, AppSubset);
    forall i | 0 <= i < |kept| ensures Complete(BrandRow(kept[i]), AppSubset) {
      BrandRowKeepsComplete(kept[i], AppSubset);
    }
    ReduceBrands(kept)
  }

  /** The category maps a frame determines: each column's labels mapped to their first-appearance codes. */
  function CatMapsOf(rows: seq<Row>): (m: CatMaps)
    ensures forall f :: f in m <==> IsCategorical(f)
    ensures forall f :: f in m ==> forall x :: x in m[f] <==> x in Labels(rows, f)
  {
    map f | f in CatCols :: CategoryMap(Labels(rows, f))
  }

  /**
   * The `for col in cat_cols` loop: each column is cast to text and
   * factorized, its code column computed and returned per column, and the
   * column's dictionary built from the uniques.
   */
  method BuildCategoryMaps(rows: seq<Row>) returns (catMaps: CatMaps, codes: map<Field, seq<nat>>)
    ensures catMaps == CatMapsOf(rows)
    ensures forall f :: f in codes <==> f in CatCols
    ensures forall f :: f in CatCols ==> codes[f] == Codes(Labels(rows, f))
  {
    catMaps, codes := map[], map[];
    for k := 0 to |CatCols|
      invariant MapsUpTo(rows, k, catMaps, codes)
    {
      var col := CatCols[k];
      var labels := Labels(rows, col);
      var c, uniques := Factorize(labels);
      var m := ZipWithRange(uniques);
      ZipIsCategoryMap(labels, m);
      MapsStep(rows, k, catMaps, codes, m, c);
      codes := codes[col := c];
      catMaps := catMaps[col := m];
    }
    MapsDone(rows, catMaps, codes);
  }

  /** After `k` turns of the loop, the first `k` columns have their map and their codes. */
  ghost predicate MapsUpTo(rows: seq<Row>, k: nat, catMaps: CatMaps, codes: map<Field, seq<nat>>)
  {
    && k <= |CatCols|
    && MapsFor(rows, CatCols[..k], catMaps)
    && CodesFor(rows, CatCols[..k], codes)
  }

  ghost predicate MapsFor(rows: seq<Row>, cols: seq<Field>, catMaps: CatMaps)
  {
    && (forall f :: f in catMaps <==> f in cols)
    && (forall f :: f in catMaps ==> IsCategorical(f) && catMaps[f] == CategoryMap(Labels(rows, f)))
  }

  lemma MapsStep(rows: seq<Row>, k: nat, catMaps: CatMaps, codes: map<Field, seq<nat>>, m: map<Label, nat>, c: seq<nat>)
    requires MapsUpTo(rows, k, catMaps, codes) && k < |CatCols|
    requires m == CategoryMap(Labels(rows, CatCols[k])) && c == Codes(Labels(rows, CatCols[k]))
    ensures MapsUpTo(rows, k + 1, catMaps[CatCols[k] := m], codes[CatCols[k] := c])
  {
    assert CatCols[..k + 1] == CatCols[..k] + [CatCols[k]];
    MapsForStep(rows, CatCols[..k], catMaps, CatCols[k], m);
    CodesForStep(rows, CatCols[..k], codes, CatCols[k], c);
  }

  lemma MapsForStep(rows: seq<Row>, cols: seq<Field>, catMaps: CatMaps, col: Field, m: map<Label, nat>)
    requires MapsFor(rows, cols, catMaps) && IsCategorical(col) && m == CategoryMap(Labels(rows, col))
    ensures MapsFor(rows, cols + [col], catMaps[col := m])
  {
  }

  lemma MapsDone(rows: seq<Row>, catMaps: CatMaps, codes: map<Field, seq<nat>>)
    requires MapsUpTo(rows, |CatCols|, catMaps, codes)
    ensures catMaps == CatMapsOf(rows)
    ensures forall f :: f in codes <==> f in CatCols
    ensures forall f :: f in CatCols ==> codes[f] == Codes(Labels(rows, f))
  {
    assert CatCols[..|CatCols|] == CatCols;
  }

  /** What the user picked: six numbers from the sliders and inputs, five labels from the select boxes. */
  datatype Choice = Choice(
    year: real, kmDriven: real, mileage: real, engine: real, maxPower: real, seats: real,
    name: Label, fuel: Label, sellerType: Label, transmission: Label, owner: Label)

  function ChoiceNumber(c: Choice, f: Field): real
    requires IsNumeric(f)
  {
    match f
    case Year => c.year
    case KmDriven => c.kmDriven
    case Mileage => c.mileage
    case Engine => c.engine
    case MaxPower => c.maxPower
    case Seats => c.seats
  }

  function ChoiceLabel(c: Choice, f: Field): Label
    requires IsCategorical(f)
  {
    match f
    case Name => c.name
    case Fuel => c.fuel
    case SellerType => c.sellerType
    case Transmission => c.transmission
    case Owner => c.owner
  }

  /** The `KeyError` of a dictionary lookup: the column and the label it did not know. */
  datatype KeyError = KeyError(column: Field, key: Label)

  /** Every categorical column has its dictionary. */
  predicate HasAllMaps(m: CatMaps)
  {
    forall f :: f in CatCols ==> f in m
  }

  /** The chosen label of column `f` is a key of that column's dictionary. */
  predicate Known(m: CatMaps, c: Choice, f: Field)
    requires HasAllMaps(m) && f in CatCols
  {
    ChoiceLabel(c, f) in m[f]
  }

  /** The entry of `input_df` under column `f`: the chosen number, or the chosen label's code. */
  function InputValue(m: CatMaps, c: Choice, f: Field): real
    requires HasAllMaps(m) && f in InputColumns
    requires f in CatCols ==> Known(m, c, f)
  {
    if IsNumeric(f) then ChoiceNumber(c, f) else m[f][ChoiceLabel(c, f)] as real
  }

  /**
   * The one row of `input_df`: the six numbers, then the five codes looked up
   * in order; the first label that is not a key raises `KeyError`.
   */
  function BuildInput(m: CatMaps, c: Choice): (r: Result<seq<real>, KeyError>)
    requires HasAllMaps(m)
    ensures r.Success? <==> forall f :: f in CatCols ==> Known(m, c, f)
    ensures r.Success? ==>
      |r.value| == |InputColumns| &&
      forall k :: 0 <= k < |InputColumns| ==> r.value[k] == InputValue(m, c, InputColumns[k])
    ensures r.Failure? ==>
      exists k :: 0 <= k < |CatCols| && r.error == KeyError(CatCols[k], ChoiceLabel(c, CatCols[k])) &&
        !Known(m, c, CatCols[k]) && forall j :: 0 <= j < k ==> Known(m, c, CatCols[j])
  {
    var k := FirstUnknown(m, c, 0);
    if k < |CatCols| then
      Failure(KeyError(CatCols[k], ChoiceLabel(c, CatCols[k])))
    else
      assert forall f :: f in CatCols ==> Known(m, c, f) by {
        forall f | f in CatCols ensures Known(m, c, f) {
          var j :| 0 <= j < |CatCols| && CatCols[j] == f;
        }
      }
      Success(seq(|InputColumns|, j requires 0 <= j < |InputColumns| => InputValue(m, c, InputColumns[j])))
  }

  /** The lookups of `input_df` from column `CatCols[j]` on: the first one that fails, or `|CatCols|`. */
  function FirstUnknown(m: CatMaps, c: Choice, j: nat): (k: nat)
    requires HasAllMaps(m) && j <= |CatCols|
    ensures j <= k <= |CatCols|
    ensures forall i :: j <= i < k ==> Known(m, c, CatCols[i])
    ensures k < |CatCols| ==> !Known(m, c, CatCols[k])
    decreases |CatCols| - j
  {
    if j == |CatCols| || !Known(m, c, CatCols[j]) then j else FirstUnknown(m, c, j + 1)
  }

  /** `max(10000, price)`: the prediction replaces the floor only when it is larger. */
  function Floor(price: real): (r: real)
    ensures r >= PriceFloor
    ensures price >= PriceFloor ==> r == price
    ensures price <= PriceFloor ==> r == PriceFloor
  {
    if price > PriceFloor then price else PriceFloor
  }

  /** The price the app shows, with the regression model's `predict` as a parameter. */
  function PredictPrice(predict: seq<real> -> real, m: CatMaps, c: Choice): (r: Result<real, KeyError>)
    requires HasAllMaps(m)
    ensures r.Success? <==> BuildInput(m, c).Success?
    ensures r.Success? ==> r.value >= PriceFloor
    ensures r.Success? && predict(BuildInput(m, c).value) >= PriceFloor ==> r.value == predict(BuildInput(m, c).value)
    ensures r.Success? && predict(BuildInput(m, c).value) <= PriceFloor ==> r.value == PriceFloor
    ensures r.Failure? ==> r.error == BuildInput(m, c).error
  {
    match BuildInput(m, c)
    case Success(v) => Success(Floor(predict(v)))
    case Failure(e) => Failure(e)
  }

  /** A choice offered by the select boxes (keys of the maps) never raises `KeyError`. */
  lemma OfferedChoiceSucceeds(rows: seq<Row>, c: Choice)
    requires forall f :: f in CatCols ==> ChoiceLabel(c, f) in Labels(rows, f)
    ensures HasAllMaps(CatMapsOf(rows)) && BuildInput(CatMapsOf(rows), c).Success?
  {
  }

  /**
   * The inference script up to the select boxes: clean, drop incomplete rows,
   * reduce brands, build the category maps.
   */
  method AppPrepare(raw: seq<RawRow>) returns (rows: seq<Row>, catMaps: CatMaps)
    ensures rows == AppFrame(CleanFrame(raw))
    ensures forall i :: 0 <= i < |rows| ==> Complete(rows[i], AppSubset)
    ensures HasAllMaps(catMaps) && catMaps == CatMapsOf(rows)
  {
    var df := CleanFrame(raw);
    df := DropNa(df, AppSubset);
    ghost var dropped := df;
    df := ReduceBrands(df);
    forall i, f | 0 <= i < |df| && f in AppSubset ensures Present(df[i], f) {
      ReduceBrandsKeepsPresence(dropped, i, f);
    }
    var codes;
    catMaps, codes := BuildCategoryMaps(df);
    rows := df;
  }
}
