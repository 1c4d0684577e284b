/**
 * The training script up to the call of the regression library: the same
 * cleaning, `dropna` that also requires `selling_price`, the brand
 * reduction, the factorize codes of each categorical column, computed and
 * returned per column, and the split into the feature matrix X and the target y.
 */
module Train {
  import opened Normalize
  import opened Encoding
  import opened Listing

  /** `categorical_cols` */
  const CategoricalCols: seq<Field> := [Name, Fuel, SellerType, Transmission, Owner]

  /** The `dropna` subset of the training script. */
  const TrainSubset: set<Field> := {Year, KmDriven, Mileage, Engine, MaxPower, Seats, SellingPrice}

  /** `feature_cols`, the column order of X. */
  const FeatureCols: seq<Field> :=
    [Year, KmDriven, Mileage, Engine, MaxPower, Seats, Name, Fuel, SellerType, Transmission, Owner]

  /** The rows training fits on: cleaned, complete on the training subset, brands reduced. */
  function TrainFrame(df: seq<Row>): (rows: seq<Row>)
    ensures |rows| <= |df|
    ensures forall i :: 0 <= i < |rows| ==> Complete(rows[i], TrainSubset)
  {
    var kept := DropNa(df, TrainSubset);
    forall i | 0 <= i < |kept| ensures Complete(BrandRow(kept[i]), TrainSubset) {
      BrandRowKeepsComplete(kept[i], TrainSubset);
    }
    ReduceBrands(kept)
  }

  /**
   * The `for col in categorical_cols` loop: each column is cast to text and
   * its `factorize()[0]` codes are computed and returned per column.
   */
  method EncodeCategoricals(rows: seq<Row>) returns (encoded: map<Field, seq<nat>>)
    ensures forall f :: f in encoded <==> f in CategoricalCols
    ensures forall f :: f in CategoricalCols ==> |encoded[f]| == |rows| && encoded[f] == Codes(Labels(rows, f))
  {
    encoded := map[];
    for k := 0 to |CategoricalCols|
      invariant CodesFor(rows, CategoricalCols[..k], encoded)
    {
      var col := CategoricalCols[k];
      var c, uniques := Factorize(Labels(rows, col));
      assert CategoricalCols[..k + 1] == CategoricalCols[..k] + [col];
      CodesForStep(rows, CategoricalCols[..k], encoded, col, c);
      encoded := encoded[col := c];
    }
    assert CategoricalCols[..|CategoricalCols|] == CategoricalCols;
  }

  /** Entry `f` of row `i` of X: the number, or the row's code in its column. */
  function FeatureValue(rows: seq<Row>, i: nat, f: Field): real
    requires i < |rows| && f in FeatureCols && Complete(rows[i], TrainSubset)
  {
    if IsNumeric(f) then Value(rows[i], f) else Codes(Labels(rows, f))[i] as real
  }

  /** Row `i` of X, by column name. */
  function FeatureRow(rows: seq<Row>, i: nat): (x: seq<real>)
    requires i < |rows| && Complete(rows[i], TrainSubset)
    ensures |x| == |FeatureCols|
    ensures forall k :: 0 <= k < |FeatureCols| ==> x[k] == FeatureValue(rows, i, FeatureCols[k])
  {
    seq(|FeatureCols|, k requires 0 <= k < |FeatureCols| => FeatureValue(rows, i, FeatureCols[k]))
  }

  /** `df[f]` for row `i` of the encoded frame. */
  function Selected(df: seq<Row>, encoded: map<Field, seq<nat>>, i: nat, f: Field): real
    requires i < |df| && f in FeatureCols && Complete(df[i], TrainSubset)
    requires forall g :: g in CategoricalCols ==> g in encoded && |encoded[g]| == |df|
  {
    if IsNumeric(f) then Value(df[i], f) else encoded[f][i] as real
  }

  /** `df[feature_cols]` of the encoded frame. */
  function Matrix(df: seq<Row>, encoded: map<Field, seq<nat>>): (X: seq<seq<real>>)
    requires forall i :: 0 <= i < |df| ==> Complete(df[i], TrainSubset)
    requires forall g :: g in CategoricalCols ==> g in encoded && |encoded[g]| == |df|
    ensures |X| == |df|
    ensures forall i :: 0 <= i < |X| ==> |X[i]| == |FeatureCols|
  {
    seq(|df|, i requires 0 <= i < |df| =>
      seq(|FeatureCols|, k requires 0 <= k < |FeatureCols| => Selected(df, encoded, i, FeatureCols[k])))
  }

  /** Selecting the feature columns of the encoded frame gives the feature rows. */
  lemma MatrixRows(df: seq<Row>, encoded: map<Field, seq<nat>>)
    requires forall i :: 0 <= i < |df| ==> Complete(df[i], TrainSubset)
    requires forall g :: g in CategoricalCols ==> g in encoded && |encoded[g]| == |df| && encoded[g] == Codes(Labels(df, g))
    ensures |Matrix(df, encoded)| == |df|
    ensures forall i :: 0 <= i < |df| ==> Matrix(df, encoded)[i] == FeatureRow(df, i)
  {
    var X := Matrix(df, encoded);
    forall i | 0 <= i < |df| ensures X[i] == FeatureRow(df, i) {
      forall k | 0 <= k < |FeatureCols| ensures X[i][k] == FeatureRow(df, i)[k] {
        assert X[i][k] == Selected(df, encoded, i, FeatureCols[k]);
      }
    }
  }

  /** `df['selling_price']`; no entry is NaN after the training `dropna`. */
  function Target(df: seq<Row>): (y: seq<Cell>)
    requires forall i :: 0 <= i < |df| ==> Complete(df[i], TrainSubset)
    ensures |y| == |df|
    ensures forall i :: 0 <= i < |y| ==> y[i].Text?
  {
    assert forall i :: 0 <= i < |df| ==> df[i].sellingPrice.Text? by {
      forall i | 0 <= i < |df| ensures df[i].sellingPrice.Text? {
        assert Complete(df[i], TrainSubset) && SellingPrice in TrainSubset;
      }
    }
    seq(|df|, i requires 0 <= i < |df| => df[i].sellingPrice)
  }

  /** The price of training row `i` is the price the file gave the `i`-th row kept by `dropna`. */
  lemma TrainPrice(df: seq<Row>, i: nat)
    requires i < |TrainFrame(df)|
    ensures i < |DropNa(df, TrainSubset)|
    ensures TrainFrame(df)[i].sellingPrice == DropNa(df, TrainSubset)[i].sellingPrice
  {
    ReduceBrandsKeepsPrice(DropNa(df, TrainSubset), i);
  }

  /**
   * The training script up to `model.fit`: clean, drop rows missing a
   * feature or the price, reduce brands, encode, and split into X and y.
   */
  method TrainPrepare(raw: seq<RawRow>) returns (X: seq<seq<real>>, y: seq<Cell>)
    ensures |X| == |y| == |TrainFrame(CleanFrame(raw))|
    ensures forall i :: 0 <= i < |X| ==> X[i] == FeatureRow(TrainFrame(CleanFrame(raw)), i)
    ensures forall i :: 0 <= i < |y| ==> y[i] == TrainFrame(CleanFrame(raw))[i].sellingPrice && y[i].Text?
  {
    var df := CleanFrame(raw);
    df := DropNa(df, TrainSubset);
    df := ReduceBrands(df);
    assert df == TrainFrame(CleanFrame(raw));
    var encoded := EncodeCategoricals(df);
    X := Matrix(df, encoded);
    y := Target(df);
    MatrixRows(df, encoded);
  }
}
