/**
 * The listing frame both scripts load: one row per car, the numeric
 * cleaning of six columns, `dropna` on a subset of columns, the brand
 * reduction of `name` and the label column of a categorical field.
 */
module Listing {
  import opened Wrappers
  import opened Normalize
  import opened Encoding
  import Brand

  /** A line of the listing file as the CSV reader delivers it. */
  datatype RawRow = RawRow(
    name: Cell, year: Cell, kmDriven: Cell, fuel: Cell, sellerType: Cell, transmission: Cell,
    owner: Cell, sellingPrice: Cell, mileage: Cell, engine: Cell, maxPower: Cell, seats: Cell)

  /** A row after the numeric columns were overwritten with their coerced values (`None` is NaN). */
  datatype Row = Row(
    name: Cell, year: Option<real>, kmDriven: Option<real>, fuel: Cell, sellerType: Cell, transmission: Cell,
    owner: Cell, sellingPrice: Cell, mileage: Option<real>, engine: Option<real>, maxPower: Option<real>,
    seats: Option<real>)

  /** The columns of the frame. */
  datatype Field =
    | Name | Year | KmDriven | Fuel | SellerType | Transmission | Owner
    | SellingPrice | Mileage | Engine | MaxPower | Seats

  /** The six columns the scripts coerce to numbers. */
  predicate IsNumeric(f: Field)
  {
    f.Year? || f.KmDriven? || f.Mileage? || f.Engine? || f.MaxPower? || f.Seats?
  }

  /** The five columns the scripts turn into category codes. */
  predicate IsCategorical(f: Field)
  {
    f.Name? || f.Fuel? || f.SellerType? || f.Transmission? || f.Owner?
  }

  function NumberIn(r: Row, f: Field): Option<real>
    requires IsNumeric(f)
  {
    match f
    case Year => r.year
    case KmDriven => r.kmDriven
    case Mileage => r.mileage
    case Engine => r.engine
    case MaxPower => r.maxPower
    case Seats => r.seats
  }

  function CellIn(r: Row, f: Field): Cell
    requires !IsNumeric(f)
  {
    match f
    case Name => r.name
    case Fuel => r.fuel
    case SellerType => r.sellerType
    case Transmission => r.transmission
    case Owner => r.owner
    case SellingPrice => r.sellingPrice
  }

  /** `notna`: the row's value in column `f` is not NaN. */
  predicate Present(r: Row, f: Field)
  {
    if IsNumeric(f) then NumberIn(r, f).Some? else CellIn(r, f).Text?
  }

  /** The number in a present numeric column. */
  function Value(r: Row, f: Field): real
    requires IsNumeric(f) && Present(r, f)
  {
    NumberIn(r, f).value
  }

  /** `astype(str)` of a categorical column's value. */
  function LabelOf(r: Row, f: Field): Label
    requires IsCategorical(f)
  {
    CellText(CellIn(r, f))
  }

  // ---------------------------------------------------------------------------
  // Numeric cleaning

  /**
   * The six column assignments of the cleaning step, applied to one row:
   * `mileage`, `engine`, `max_power` through extraction of the first run,
   * `km_driven`, `seats`, `year` through plain coercion.
   */
  function Clean(raw: RawRow): (r: Row)
    ensures r.mileage.Some? <==> HasNumberRun(raw.mileage)
    ensures r.engine.Some? <==> HasNumberRun(raw.engine)
    ensures r.maxPower.Some? <==> HasNumberRun(raw.maxPower)
    ensures r.kmDriven.Some? <==> raw.kmDriven.Text? && IsNumericText(raw.kmDriven.s)
    ensures r.seats.Some? <==> raw.seats.Text? && IsNumericText(raw.seats.s)
    ensures r.year.Some? <==> raw.year.Text? && IsNumericText(raw.year.s)
    ensures r.mileage.Some? ==> r.mileage.value >= 0.0
    ensures r.engine.Some? ==> r.engine.value >= 0.0
    ensures r.maxPower.Some? ==> r.maxPower.value >= 0.0
    ensures r.name == raw.name && r.fuel == raw.fuel && r.sellerType == raw.sellerType
    ensures r.transmission == raw.transmission && r.owner == raw.owner && r.sellingPrice == raw.sellingPrice
  {
    ExtractNumericDefined(raw.mileage);
    ExtractNumericDefined(raw.engine);
    ExtractNumericDefined(raw.maxPower);
    CoerceNumericDefined(raw.kmDriven);
    CoerceNumericDefined(raw.seats);
    CoerceNumericDefined(raw.year);
    Row(raw.name, CoerceNumeric(raw.year), CoerceNumeric(raw.kmDriven), raw.fuel, raw.sellerType,
        raw.transmission, raw.owner, raw.sellingPrice, ExtractNumeric(raw.mileage),
        ExtractNumeric(raw.engine), ExtractNumeric(raw.maxPower), CoerceNumeric(raw.seats))
  }

  /** The cleaning step over the whole frame: column assignments act row by row. */
  function CleanFrame(raw: seq<RawRow>): (df: seq<Row>)
    ensures |df| == |raw|
    ensures forall i :: 0 <= i < |raw| ==> df[i] == Clean(raw[i])
  {
    seq(|raw|, i requires 0 <= i < |raw| => Clean(raw[i]))
  }

  // ---------------------------------------------------------------------------
  // dropna(subset=..., inplace=True)

  /** None of the columns in `subset` is NaN in row `r`. */
  predicate Complete(r: Row, subset: set<Field>)
  {
    forall f :: f in subset ==> Present(r, f)
  }

  /** `dropna(subset=subset)`: the rows complete on `subset`, in their order. */
  function DropNa(rows: seq<Row>, subset: set<Field>): (kept: seq<Row>)
    ensures |kept| <= |rows|
    ensures forall j :: 0 <= j < |kept| ==> Complete(kept[j], subset)
  {
    if rows == [] then []
    else (if Complete(rows[0], subset) then [rows[0]] else []) + DropNa(rows[1..], subset)
  }

  /** The positions, in increasing order, of the rows complete on `subset`. */
  function KeptPositions(rows: seq<Row>, subset: set<Field>): (p: seq<nat>)
    ensures forall j :: 0 <= j < |p| ==> p[j] < |rows| && Complete(rows[p[j]], subset)
    ensures forall j, k :: 0 <= j < k < |p| ==> p[j] < p[k]
    ensures forall i :: 0 <= i < |rows| && Complete(rows[i], subset) ==> i in p
  {
    if rows == [] then []
    else
      var rest := KeptPositions(rows[1..], subset);
      var p := (if Complete(rows[0], subset) then [0] else []) + Shift(rest);
      KeptPositionsStep(rows, subset, rest, p);
      p
  }

  /** Every position moved one row down. */
  function Shift(p: seq<nat>): (q: seq<nat>)
  {
    seq(|p|, j requires 0 <= j < |p| => p[j] + 1)
  }

  lemma KeptPositionsStep(rows: seq<Row>, subset: set<Field>, rest: seq<nat>, p: seq<nat>)
    requires rows != []
    requires forall j :: 0 <= j < |rest| ==> rest[j] < |rows| - 1 && Complete(rows[1..][rest[j]], subset)
    requires forall j, k :: 0 <= j < k < |rest| ==> rest[j] < rest[k]
    requires forall i :: 0 <= i < |rows| - 1 && Complete(rows[1..][i], subset) ==> i in rest
    requires p == (if Complete(rows[0], subset) then [0] else []) + Shift(rest)
    ensures forall j :: 0 <= j < |p| ==> p[j] < |rows| && Complete(rows[p[j]], subset)
    ensures forall j, k :: 0 <= j < k < |p| ==> p[j] < p[k]
    ensures forall i :: 0 <= i < |rows| && Complete(rows[i], subset) ==> i in p
  {
    var h := if Complete(rows[0], subset) then 1 else 0;
    KeptStepValid(rows, subset, rest, p, h);
    KeptStepCovers(rows, subset, rest, p, h);
  }

  lemma KeptStepValid(rows: seq<Row>, subset: set<Field>, rest: seq<nat>, p: seq<nat>, h: nat)
    requires rows != []
    requires forall j :: 0 <= j < |rest| ==> rest[j] < |rows| - 1 && Complete(rows[1..][rest[j]], subset)
    requires h == (if Complete(rows[0], subset) then 1 else 0)
    requires p == (if Complete(rows[0], subset) then [0] else []) + Shift(rest)
    ensures forall j :: 0 <= j < |p| ==> p[j] < |rows| && Complete(rows[p[j]], subset)
  {
    forall j | 0 <= j < |p| ensures p[j] < |rows| && Complete(rows[p[j]], subset) {
      if j >= h {
        assert p[j] == rest[j - h] + 1;
        assert rows[1..][rest[j - h]] == rows[p[j]];
      }
    }
  }

  lemma KeptStepCovers(rows: seq<Row>, subset: set<Field>, rest: seq<nat>, p: seq<nat>, h: nat)
    requires rows != []
    requires forall i :: 0 <= i < |rows| - 1 && Complete(rows[1..][i], subset) ==> i in rest
    requires h == (if Complete(rows[0], subset) then 1 else 0)
    requires p == (if Complete(rows[0], subset) then [0] else []) + Shift(rest)
    ensures forall i :: 0 <= i < |rows| && Complete(rows[i], subset) ==> i in p
  {
    forall i | 0 <= i < |rows| && Complete(rows[i], subset) ensures i in p {
      if i == 0 {
        assert p[0] == 0;
      } else {
        assert rows[1..][i - 1] == rows[i];
        var j :| 0 <= j < |rest| && rest[j] == i - 1;
        assert p[j + h] == i;
      }
    }
  }

  /**
   * The kept rows are exactly the rows at the kept positions: a row stays
   * if and only if it is complete on `subset`, and the order is kept.
   */
  lemma {:induction false} DropNaPositions(rows: seq<Row>, subset: set<Field>)
    ensures |DropNa(rows, subset)| == |KeptPositions(rows, subset)|
    ensures forall j :: 0 <= j < |DropNa(rows, subset)| ==> DropNa(rows, subset)[j] == rows[KeptPositions(rows, subset)[j]]
  {
    if rows != [] {
      DropNaPositions(rows[1..], subset);
      var keep := Complete(rows[0], subset);
      PositionsStep(rows, if keep then [rows[0]] else [], if keep then [0] else [],
                    DropNa(rows[1..], subset), KeptPositions(rows[1..], subset));
    }
  }

  /** One row in front of a frame whose kept rows sit at positions `pRest`. */
  lemma PositionsStep(rows: seq<Row>, head: seq<Row>, pHead: seq<nat>, keptRest: seq<Row>, pRest: seq<nat>)
    requires rows != []
    requires (head == [rows[0]] && pHead == [0]) || (head == [] && pHead == [])
    requires |keptRest| == |pRest|
    requires forall j :: 0 <= j < |pRest| ==> pRest[j] < |rows| - 1 && keptRest[j] == rows[1..][pRest[j]]
    ensures |head + keptRest| == |pHead + Shift(pRest)|
    ensures forall j :: 0 <= j < |head + keptRest| ==> (head + keptRest)[j] == rows[(pHead + Shift(pRest))[j]]
  {
    var kept := head + keptRest;
    var p := pHead + Shift(pRest);
    forall j | 0 <= j < |kept| ensures kept[j] == rows[p[j]] {
      if j >= |head| {
        var t := j - |head|;
        assert kept[j] == keptRest[t];
        assert p[j] == pRest[t] + 1;
      }
    }
  }

  /** A frame complete on `subset` loses no row. */
  lemma {:induction false} DropNaKeepsComplete(rows: seq<Row>, subset: set<Field>)
    requires forall j :: 0 <= j < |rows| ==> Complete(rows[j], subset)
    ensures DropNa(rows, subset) == rows
  {
    if rows != [] {
      DropNaKeepsComplete(rows[1..], subset);
      assert rows == [rows[0]] + rows[1..];
    }
  }

  /**
   * Dropping on a larger subset is dropping on the smaller one first and
   * then on the larger one: the rows kept for the larger subset are a
   * subsequence of those kept for the smaller.
   */
  lemma {:induction false} DropNaNested(rows: seq<Row>, small: set<Field>, large: set<Field>)
    requires small <= large
    ensures DropNa(rows, large) == DropNa(DropNa(rows, small), large)
  {
    if rows != [] {
      DropNaNested(rows[1..], small, large);
      var h := if Complete(rows[0], small) then [rows[0]] else [];
      DropNaAppend(h, DropNa(rows[1..], small), large);
      if Complete(rows[0], large) {
        assert Complete(rows[0], small);
        assert DropNa(h, large) == [rows[0]] by {
          assert h[1..] == [];
        }
      } else if h != [] {
        assert DropNa(h, large) == [] by {
          assert h[1..] == [];
        }
      }
    }
  }

  /** `dropna` row by row: it distributes over concatenation. */
  lemma {:induction false} DropNaAppend(a: seq<Row>, b: seq<Row>, subset: set<Field>)
    ensures DropNa(a + b, subset) == DropNa(a, subset) + DropNa(b, subset)
  {
    if a != [] {
      DropNaAppend(a[1..], b, subset);
      assert (a + b)[1..] == a[1..] + b;
    } else {
      assert a + b == b;
    }
  }

  // ---------------------------------------------------------------------------
  // Brand column

  /** One row after the brand reduction of its `name`. */
  function BrandRow(r: Row): Row
  {
    r.(name := Text(Brand.BrandOf(CellText(r.name))))
  }

  /** The `name` column after the brand reduction; `str(NaN)` is "nan". */
  function ReduceBrands(rows: seq<Row>): (r: seq<Row>)
    ensures |r| == |rows|
  {
    seq(|rows|, i requires 0 <= i < |rows| => BrandRow(rows[i]))
  }

  /** After the reduction every `name` is one stripped word: no space, no whitespace at either end. */
  lemma ReduceBrandsNames(rows: seq<Row>, i: nat)
    requires i < |rows|
    ensures var n := ReduceBrands(rows)[i].name; n.Text? && ' ' !in n.s && Brand.IsStripped(n.s)
  {
  }

  /** Reducing a reduced column again changes nothing. */
  lemma ReduceBrandsIdempotent(rows: seq<Row>)
    ensures ReduceBrands(ReduceBrands(rows)) == ReduceBrands(rows)
  {
    var once := ReduceBrands(rows);
    forall i | 0 <= i < |rows| ensures ReduceBrands(once)[i] == once[i] {
      Brand.BrandIdempotent(CellText(rows[i].name));
    }
  }

  /** The brand reduction touches no column other than `name`. */
  lemma BrandRowKeepsPresence(r: Row, f: Field)
    requires f != Name
    ensures BrandRow(r) == r.(name := BrandRow(r).name)
    ensures BrandRow(r).sellingPrice == r.sellingPrice
    ensures Present(BrandRow(r), f) == Present(r, f)
    ensures IsNumeric(f) && Present(r, f) ==> Value(BrandRow(r), f) == Value(r, f)
    ensures IsCategorical(f) ==> LabelOf(BrandRow(r), f) == LabelOf(r, f)
  {
  }

  /** The brand reduction keeps every row's `selling_price`. */
  lemma ReduceBrandsKeepsPrice(rows: seq<Row>, i: nat)
    requires i < |rows|
    ensures ReduceBrands(rows)[i].sellingPrice == rows[i].sellingPrice
  {
    BrandRowKeepsPresence(rows[i], SellingPrice);
  }

  /** A subset without `name` sees the same completeness before and after the brand reduction. */
  lemma BrandRowKeepsComplete(r: Row, subset: set<Field>)
    requires Name !in subset
    ensures Complete(BrandRow(r), subset) == Complete(r, subset)
  {
    forall f | f in subset ensures Present(BrandRow(r), f) == Present(r, f) {
      BrandRowKeepsPresence(r, f);
    }
  }

  lemma ReduceBrandsKeepsPresence(rows: seq<Row>, i: nat, f: Field)
    requires i < |rows| && f != Name
    ensures Present(ReduceBrands(rows)[i], f) == Present(rows[i], f)
    ensures IsNumeric(f) && Present(rows[i], f) ==> Value(ReduceBrands(rows)[i], f) == Value(rows[i], f)
    ensures IsCategorical(f) ==> LabelOf(ReduceBrands(rows)[i], f) == LabelOf(rows[i], f)
  {
    BrandRowKeepsPresence(rows[i], f);
  }

  /** `dropna` on columns other than `name` and the brand reduction can be done in either order. */
  lemma {:induction false} ReduceBrandsDropNa(rows: seq<Row>, subset: set<Field>)
    requires Name !in subset
    ensures ReduceBrands(DropNa(rows, subset)) == DropNa(ReduceBrands(rows), subset)
  {
    if rows != [] {
      var x, tail := rows[0], rows[1..];
      assert rows == [x] + tail;
      ReduceBrandsDropNa(tail, subset);
      DropNaAppend([x], tail, subset);
      ReduceBrandsAppend(DropNa([x], subset), DropNa(tail, subset));
      ReduceBrandsAppend([x], tail);
      ReduceBrandsSingle(x);
      DropNaAppend([BrandRow(x)], ReduceBrands(tail), subset);
      ReduceBrandsDropNaSingle(x, subset);
    }
  }

  lemma ReduceBrandsDropNaSingle(x: Row, subset: set<Field>)
    requires Name !in subset
    ensures ReduceBrands(DropNa([x], subset)) == DropNa([BrandRow(x)], subset)
  {
    BrandRowKeepsComplete(x, subset);
    DropNaSingle(x, subset);
    DropNaSingle(BrandRow(x), subset);
    if Complete(x, subset) {
      ReduceBrandsSingle(x);
    } else {
      RowsEqual(ReduceBrands([]), []);
    }
  }

  lemma DropNaSingle(x: Row, subset: set<Field>)
    ensures DropNa([x], subset) == if Complete(x, subset) then [x] else []
  {
    assert [x][1..] == [];
  }

  lemma ReduceBrandsSingle(x: Row)
    ensures ReduceBrands([x]) == [BrandRow(x)]
  {
    RowsEqual(ReduceBrands([x]), [BrandRow(x)]);
  }

  lemma ReduceBrandsAppend(a: seq<Row>, b: seq<Row>)
    ensures ReduceBrands(a + b) == ReduceBrands(a) + ReduceBrands(b)
  {
    var l, r := ReduceBrands(a + b), ReduceBrands(a) + ReduceBrands(b);
    forall i | 0 <= i < |a + b| ensures l[i] == r[i] {
      if i < |a| {
        assert (a + b)[i] == a[i];
      } else {
        assert (a + b)[i] == b[i - |a|];
      }
    }
    RowsEqual(l, r);
  }

  /** Two frames with the same rows at every position are equal. */
  lemma RowsEqual(l: seq<Row>, r: seq<Row>)
    requires |l| == |r| && forall i :: 0 <= i < |l| ==> l[i] == r[i]
    ensures l == r
  {
  }

  /** Two subsets that agree on every row drop the same rows. */
  lemma {:induction false} DropNaSameRows(rows: seq<Row>, s1: set<Field>, s2: set<Field>)
    requires forall i :: 0 <= i < |rows| ==> Complete(rows[i], s1) == Complete(rows[i], s2)
    ensures DropNa(rows, s1) == DropNa(rows, s2)
  {
    if rows != [] {
      assert forall i :: 0 <= i < |rows| - 1 ==> rows[1..][i] == rows[i + 1];
      DropNaSameRows(rows[1..], s1, s2);
    }
  }

  /** The label column of categorical field `f`. */
  function Labels(rows: seq<Row>, f: Field): (labels: seq<Label>)
    requires IsCategorical(f)
    ensures |labels| == |rows|
    ensures forall i :: 0 <= i < |rows| && CellIn(rows[i], f).Text? ==> labels[i] == CellIn(rows[i], f).s
    ensures forall i :: 0 <= i < |rows| && CellIn(rows[i], f).Blank? ==> labels[i] == "nan"
  {
    seq(|rows|, i requires 0 <= i < |rows| => LabelOf(rows[i], f))
  }

  /** `codes` holds, for each column of `cols`, the factorize codes of that column. */
  ghost predicate CodesFor(rows: seq<Row>, cols: seq<Field>, codes: map<Field, seq<nat>>)
  {
    && (forall f :: f in codes <==> f in cols)
    && (forall f :: f in codes ==> IsCategorical(f) && codes[f] == Codes(Labels(rows, f)))
  }

  lemma CodesForStep(rows: seq<Row>, cols: seq<Field>, codes: map<Field, seq<nat>>, col: Field, c: seq<nat>)
    requires CodesFor(rows, cols, codes) && IsCategorical(col) && c == Codes(Labels(rows, col))
    ensures CodesFor(rows, cols + [col], codes[col := c])
  {
  }
}
