/**
 * How the codes the model was trained on relate to the codes the app looks
 * up. The app rebuilds its maps from the listing file at start-up and keeps
 * every row with the six numeric features; training also drops rows without
 * a `selling_price`. Codes follow first appearance, so the two agree when
 * the app's rows all carry a price, and may differ otherwise.
 */
module Agreement {
  import opened Wrappers
  import opened Encoding
  import opened Listing
  import opened App
  import opened Train

  /** Both scripts list the same categorical columns and the same feature order. */
  lemma SameColumnOrder()
    ensures App.CatCols == Train.CategoricalCols
    ensures App.InputColumns == Train.FeatureCols
  {
  }

  /** Training keeps exactly the app's rows that carry a price, in the app's order. */
  lemma TrainFrameFromAppFrame(df: seq<Row>)
    ensures TrainFrame(df) == DropNa(AppFrame(df), {SellingPrice})
  {
    DropNaNested(df, AppSubset, TrainSubset);
    var kept := DropNa(df, AppSubset);
    forall i | 0 <= i < |kept| ensures Complete(kept[i], TrainSubset) == Complete(kept[i], {SellingPrice}) {
      assert Complete(kept[i], AppSubset);
    }
    DropNaSameRows(kept, TrainSubset, {SellingPrice});
    ReduceBrandsDropNa(kept, {SellingPrice});
  }

  /**
   * Whatever the prices, every label a training row carries is a key of the
   * app's map: a missing price can shift a code, but never raises `KeyError`.
   */
  lemma TrainLabelKnown(df: seq<Row>, f: Field, i: nat)
    requires IsCategorical(f) && i < |TrainFrame(df)|
    ensures LabelOf(TrainFrame(df)[i], f) in CatMapsOf(AppFrame(df))[f]
  {
    var app := AppFrame(df);
    TrainFrameFromAppFrame(df);
    DropNaPositions(app, {SellingPrice});
    var p := KeptPositions(app, {SellingPrice});
    assert TrainFrame(df)[i] == app[p[i]];
    assert Labels(app, f)[p[i]] == LabelOf(app[p[i]], f);
  }

  /** Every row of the frame has a `selling_price`. */
  predicate AllPriced(rows: seq<Row>)
  {
    forall i :: 0 <= i < |rows| ==> Present(rows[i], SellingPrice)
  }

  /** When every row the app keeps has a price, both scripts work on the same frame. */
  lemma SameFrameWhenPriced(df: seq<Row>)
    requires AllPriced(AppFrame(df))
    ensures TrainFrame(df) == AppFrame(df)
  {
    TrainFrameFromAppFrame(df);
    var rows := AppFrame(df);
    forall i | 0 <= i < |rows| ensures Complete(rows[i], {SellingPrice}) {
      assert Present(rows[i], SellingPrice);
    }
    DropNaKeepsComplete(rows, {SellingPrice});
  }

  /** In one frame, the map built from a column gives each row the code factorize gives it. */
  lemma MapGivesRowCode(rows: seq<Row>, f: Field, i: nat)
    requires IsCategorical(f) && i < |rows|
    ensures LabelOf(rows[i], f) in CatMapsOf(rows)[f]
    ensures CatMapsOf(rows)[f][LabelOf(rows[i], f)] == Codes(Labels(rows, f))[i]
  {
    var labels := Labels(rows, f);
    assert CatMapsOf(rows)[f] == CategoryMap(labels);
    assert labels[i] == LabelOf(rows[i], f);
    CategoryMapAgreesWithCodes(labels, i);
  }

  /**
   * When every row the app keeps has a price, the code a training row was
   * encoded with is the app's code for that row's label.
   */
  lemma CodesAgree(df: seq<Row>, f: Field, i: nat)
    requires AllPriced(AppFrame(df)) && IsCategorical(f) && i < |TrainFrame(df)|
    ensures LabelOf(TrainFrame(df)[i], f) in CatMapsOf(AppFrame(df))[f]
      && CatMapsOf(AppFrame(df))[f][LabelOf(TrainFrame(df)[i], f)] == Codes(Labels(TrainFrame(df), f))[i]
  {
    SameFrameWhenPriced(df);
    CodesAgreeOn(AppFrame(df), TrainFrame(df), f, i);
  }

  lemma CodesAgreeOn(app: seq<Row>, train: seq<Row>, f: Field, i: nat)
    requires app == train && IsCategorical(f) && i < |train|
    ensures LabelOf(train[i], f) in CatMapsOf(app)[f]
    ensures CatMapsOf(app)[f][LabelOf(train[i], f)] == Codes(Labels(train, f))[i]
  {
    MapGivesRowCode(train, f, i);
  }

  /** The choice a user makes to describe row `r`: its numbers and its labels. */
  function ChoiceOf(r: Row): (c: Choice)
    requires Complete(r, AppSubset)
    ensures forall f :: IsNumeric(f) ==> f in AppSubset && ChoiceNumber(c, f) == Value(r, f)
    ensures forall f :: IsCategorical(f) ==> ChoiceLabel(c, f) == LabelOf(r, f)
  {
    Choice(Value(r, Year), Value(r, KmDriven), Value(r, Mileage), Value(r, Engine), Value(r, MaxPower),
           Value(r, Seats), LabelOf(r, Name), LabelOf(r, Fuel), LabelOf(r, SellerType), LabelOf(r, Transmission),
           LabelOf(r, Owner))
  }

  /** One entry of the app's vector for row `i` is the same entry of row `i` of X. */
  lemma EntryAgrees(rows: seq<Row>, i: nat, f: Field)
    requires i < |rows| && Complete(rows[i], TrainSubset) && f in FeatureCols
    requires forall g :: g in CatCols ==> Known(CatMapsOf(rows), ChoiceOf(rows[i]), g)
    ensures InputValue(CatMapsOf(rows), ChoiceOf(rows[i]), f) == FeatureValue(rows, i, f)
  {
    if IsCategorical(f) {
      MapGivesRowCode(rows, f, i);
    }
  }

  /** In one frame, describing row `i` in the app yields row `i` of X. */
  lemma InputIsFeatureRow(rows: seq<Row>, i: nat)
    requires i < |rows| && Complete(rows[i], TrainSubset)
    ensures Complete(rows[i], AppSubset)
    ensures BuildInput(CatMapsOf(rows), ChoiceOf(rows[i])) == Success(FeatureRow(rows, i))
  {
    var m := CatMapsOf(rows);
    var c := ChoiceOf(rows[i]);
    forall f | f in CatCols ensures Known(m, c, f) {
      MapGivesRowCode(rows, f, i);
    }
    var r := BuildInput(m, c);
    var x := FeatureRow(rows, i);
    forall k | 0 <= k < |FeatureCols| ensures r.value[k] == x[k] {
      assert InputColumns[k] == FeatureCols[k];
      EntryAgrees(rows, i, FeatureCols[k]);
    }
    VectorFromEntries(r, x);
  }

  lemma VectorFromEntries(r: Result<seq<real>, KeyError>, x: seq<real>)
    requires r.Success? && |r.value| == |x| && forall k :: 0 <= k < |x| ==> r.value[k] == x[k]
    ensures r == Success(x)
  {
    assert r.value == x;
  }

  /**
   * When every row the app keeps has a price, describing a training row in
   * the app yields exactly that row of X.
   */
  lemma VectorsAgree(df: seq<Row>, i: nat)
    requires AllPriced(AppFrame(df)) && i < |TrainFrame(df)|
    ensures BuildInput(CatMapsOf(AppFrame(df)), ChoiceOf(TrainFrame(df)[i])) == Success(FeatureRow(TrainFrame(df), i))
  {
    SameFrameWhenPriced(df);
    VectorsAgreeOn(AppFrame(df), TrainFrame(df), i);
  }

  lemma VectorsAgreeOn(app: seq<Row>, train: seq<Row>, i: nat)
    requires app == train && i < |train| && Complete(train[i], TrainSubset)
    ensures Complete(train[i], AppSubset)
    ensures BuildInput(CatMapsOf(app), ChoiceOf(train[i])) == Success(FeatureRow(train, i))
  {
    InputIsFeatureRow(train, i);
  }

  // ---------------------------------------------------------------------------
  // A listing where the codes disagree

  /** The two frames of a listing whose first row has every feature but no price. */
  lemma TwoRowFrames(a: Row, b: Row)
    requires Complete(a, AppSubset) && !Present(a, SellingPrice) && Complete(b, TrainSubset)
    ensures |AppFrame([a, b])| == 2 && AppFrame([a, b])[0] == BrandRow(a) && AppFrame([a, b])[1] == BrandRow(b)
    ensures |TrainFrame([a, b])| == 1 && TrainFrame([a, b])[0] == BrandRow(b)
  {
    var df := [a, b];
    assert Complete(b, AppSubset);
    DropNaKeepsComplete(df, AppSubset);
    assert !Complete(a, TrainSubset) by {
      assert SellingPrice in TrainSubset;
    }
    assert df[1..] == [b] && df[1..][1..] == [];
    assert DropNa(df, TrainSubset) == [b] by {
      assert DropNa(df, TrainSubset) == DropNa([b], TrainSubset);
      assert DropNa([b], TrainSubset) == [b] + DropNa([], TrainSubset);
    }
  }

  /** Where column `f` of `input_df` sits. */
  function SlotOf(f: Field): (k: nat)
    requires IsCategorical(f)
    ensures k < |InputColumns| && InputColumns[k] == f
  {
    match f
    case Name => 6
    case Fuel => 7
    case SellerType => 8
    case Transmission => 9
    case Owner => 10
  }

  /**
   * A listing whose first row has every feature but no price, and whose two
   * rows differ in column `f`: training encodes the second row's label as 0,
   * the app's map gives it 1, and the app's vector for the training row is
   * not the row of X the model was fitted on.
   */
  lemma CodesDisagreeWithoutPrice(a: Row, b: Row, f: Field)
    requires Complete(a, AppSubset) && !Present(a, SellingPrice) && Complete(b, TrainSubset)
    requires IsCategorical(f) && LabelOf(BrandRow(a), f) != LabelOf(BrandRow(b), f)
    ensures |TrainFrame([a, b])| == 1
    ensures Codes(Labels(TrainFrame([a, b]), f))[0] == 0
    ensures LabelOf(BrandRow(b), f) in CatMapsOf(AppFrame([a, b]))[f]
      && CatMapsOf(AppFrame([a, b]))[f][LabelOf(BrandRow(b), f)] == 1
    ensures BuildInput(CatMapsOf(AppFrame([a, b])), ChoiceOf(TrainFrame([a, b])[0])) != Success(FeatureRow(TrainFrame([a, b]), 0))
  {
    TwoRowFrames(a, b);
    CodesDisagreeOn(AppFrame([a, b]), TrainFrame([a, b]), f);
  }

  /** The same, for any app frame of two rows and training frame holding only the second. */
  lemma CodesDisagreeOn(app: seq<Row>, train: seq<Row>, f: Field)
    requires |app| == 2 && |train| == 1 && train[0] == app[1] && Complete(train[0], TrainSubset)
    requires IsCategorical(f) && LabelOf(app[0], f) != LabelOf(app[1], f)
    ensures Codes(Labels(train, f))[0] == 0
    ensures LabelOf(app[1], f) in CatMapsOf(app)[f] && CatMapsOf(app)[f][LabelOf(app[1], f)] == 1
    ensures BuildInput(CatMapsOf(app), ChoiceOf(train[0])) != Success(FeatureRow(train, 0))
  {
    CodesDifferOn(app, train, f);
    var k := SlotOf(f);
    AppSlotIsOne(app, train, f);
    TrainSlotIsZero(train, f);
    VectorsDiffer(BuildInput(CatMapsOf(app), ChoiceOf(train[0])), FeatureRow(train, 0), k);
  }

  lemma AppSlotIsOne(app: seq<Row>, train: seq<Row>, f: Field)
    requires |app| == 2 && |train| == 1 && train[0] == app[1] && Complete(train[0], TrainSubset)
    requires IsCategorical(f)
    requires LabelOf(app[1], f) in CatMapsOf(app)[f] && CatMapsOf(app)[f][LabelOf(app[1], f)] == 1
    ensures var v := BuildInput(CatMapsOf(app), ChoiceOf(train[0]));
      v.Success? ==> SlotOf(f) < |v.value| && v.value[SlotOf(f)] == 1.0
  {
    var m, c := CatMapsOf(app), ChoiceOf(train[0]);
    SlotHoldsCode(m, c, f, LabelOf(app[1], f));
  }

  lemma SlotHoldsCode(m: CatMaps, c: Choice, f: Field, y: Label)
    requires HasAllMaps(m) && IsCategorical(f) && ChoiceLabel(c, f) == y && y in m[f]
    ensures var v := BuildInput(m, c);
      v.Success? ==> SlotOf(f) < |v.value| && v.value[SlotOf(f)] == m[f][y] as real
  {
    var v := BuildInput(m, c);
    if v.Success? {
      var k := SlotOf(f);
      assert v.value[k] == InputValue(m, c, InputColumns[k]);
    }
  }

  lemma TrainSlotIsZero(train: seq<Row>, f: Field)
    requires |train| == 1 && Complete(train[0], TrainSubset) && IsCategorical(f)
    requires Codes(Labels(train, f))[0] == 0
    ensures FeatureRow(train, 0)[SlotOf(f)] == 0.0
  {
  }

  lemma VectorsDiffer(v: Result<seq<real>, KeyError>, x: seq<real>, k: nat)
    requires k < |x| && x[k] == 0.0
    requires v.Success? ==> k < |v.value| && v.value[k] == 1.0
    ensures v != Success(x)
  {
  }

  lemma CodesDifferOn(app: seq<Row>, train: seq<Row>, f: Field)
    requires |app| == 2 && |train| == 1 && train[0] == app[1]
    requires IsCategorical(f) && LabelOf(app[0], f) != LabelOf(app[1], f)
    ensures Codes(Labels(train, f))[0] == 0
    ensures LabelOf(app[1], f) in CatMapsOf(app)[f] && CatMapsOf(app)[f][LabelOf(app[1], f)] == 1
  {
    var x, y := LabelOf(app[0], f), LabelOf(app[1], f);
    LabelPair(Labels(app, f), x, y);
    TwoLabels(x, y);
    FirstLabelGetsZero(Labels(train, f));
    MapGivesRowCode(app, f, 1);
  }

  lemma LabelPair(labels: seq<Label>, x: Label, y: Label)
    requires |labels| == 2 && labels[0] == x && labels[1] == y
    ensures labels == [x, y]
  {
  }
}
