/**
 * The numeric normaliser of both scripts: the cleaning of `mileage`,
 * `engine` and `max_power` (cast to text, take the first run of digits and
 * dots, coerce it to a number) and the plain coercion of `km_driven`,
 * `seats` and `year`. Numbers are exact decimals (`real`), not floats;
 * pandas' NaN is `None`.
 */
module Normalize {
  import opened Wrappers

  /** A cell as the CSV reader hands it over: NaN for an empty field, or the field's text. */
  datatype Cell = Blank | Text(s: string)

  /**
   * `str(cell)` / `astype(str)`: text is kept and NaN is rendered as "nan",
   * so a missing value and the text "nan" give the same label.
   */
  function CellText(c: Cell): (t: string)
    ensures c.Text? ==> t == c.s
    ensures t == "nan" <==> c.Blank? || c == Text("nan")
  {
    match c
    case Blank => "nan"
    case Text(s) => s
  }

  predicate IsDigit(c: char) { '0' <= c <= '9' }

  /** The character class `[\d\.]` of the extraction pattern (ASCII digits only). */
  predicate IsRunChar(c: char) { IsDigit(c) || c == '.' }

  predicate AllDigits(w: string) { forall i :: 0 <= i < |w| ==> IsDigit(w[i]) }

  predicate AllRunChars(w: string) { forall i :: 0 <= i < |w| ==> IsRunChar(w[i]) }

  predicate NoRunChars(w: string) { forall i :: 0 <= i < |w| ==> !IsRunChar(w[i]) }

  /** `w` is the leftmost maximal run of `[\d\.]` in `s`, and it starts at index `i`. */
  ghost predicate FirstMaximalRunAt(s: string, i: int, w: string)
  {
    && 0 <= i && i + |w| <= |s|
    && w != [] && s[i..i + |w|] == w && AllRunChars(w)
    && NoRunChars(s[..i])
    && (i + |w| == |s| || !IsRunChar(s[i + |w|]))
  }

  /** The longest prefix of `s` made of digits and dots. */
  function LeadingRun(s: string): (w: string)
    ensures |w| <= |s| && w == s[..|w|] && AllRunChars(w)
    ensures |w| < |s| ==> !IsRunChar(s[|w|])
  {
    if s != [] && IsRunChar(s[0]) then [s[0]] + LeadingRun(s[1..]) else []
  }

  /** The index of the first digit or dot in `s`, or `|s|` when there is none. */
  function RunStart(s: string): (i: nat)
    ensures i <= |s| && NoRunChars(s[..i])
    ensures i < |s| ==> IsRunChar(s[i])
  {
    if s == [] || IsRunChar(s[0]) then 0
    else
      var i := RunStart(s[1..]);
      assert s[..i + 1] == [s[0]] + s[1..][..i];
      i + 1
  }

  /** `str.extract(r'([\d\.]+)')[0]`: the first maximal run, or NaN when there is none. */
  function FirstRun(s: string): (r: Option<string>)
    ensures r.None? <==> NoRunChars(s)
    ensures r.Some? ==> exists i :: FirstMaximalRunAt(s, i, r.value)
  {
    var i := RunStart(s);
    if i == |s| then
      assert s[..i] == s;
      None
    else
      var w := LeadingRun(s[i..]);
      assert s[i..i + |w|] == w;
      assert FirstMaximalRunAt(s, i, w);
      Some(w)
  }

  function DigitValue(c: char): nat
    requires IsDigit(c)
  {
    c as int - '0' as int
  }

  function DigitChar(d: nat): (c: char)
    requires d < 10
    ensures IsDigit(c) && DigitValue(c) == d
  {
    ('0' as int + d) as char
  }

  /** The value of a string of decimal digits, most significant first. */
  function DigitsValue(w: string): nat
    requires AllDigits(w)
  {
    if w == [] then 0 else 10 * DigitsValue(w[..|w| - 1]) + DigitValue(w[|w| - 1])
  }

  function Pow10(k: nat): (p: nat)
    ensures p >= 1
  {
    if k == 0 then 1 else 10 * Pow10(k - 1)
  }

  /** The index of the first '.' in `w`, or `|w|` when there is none. */
  function DotIndex(w: string): (k: nat)
    ensures k <= |w| && '.' !in w[..k]
    ensures k < |w| ==> w[k] == '.'
  {
    if w == [] || w[0] == '.' then 0
    else
      var k := DotIndex(w[1..]);
      assert w[..k + 1] == [w[0]] + w[1..][..k];
      k + 1
  }

  /** What `pd.to_numeric` accepts from an extracted run: digits with at most one point and at least one digit. */
  predicate IsDecimalLiteral(w: string)
  {
    AllRunChars(w) && multiset(w)['.'] <= 1 && exists i :: 0 <= i < |w| && IsDigit(w[i])
  }

  lemma NoDotDigits(u: string)
    requires AllRunChars(u)
    ensures AllDigits(u) <==> multiset(u)['.'] == 0
  {
    if !AllDigits(u) {
      var i :| 0 <= i < |u| && !IsDigit(u[i]);
      assert u[i] == '.';
      assert '.' in multiset(u);
    } else {
      assert '.' !in u;
    }
  }

  /** A decimal literal is a digit string, optionally split once by a point, with a digit somewhere. */
  lemma {:induction false} DecimalLiteralShape(w: string)
    ensures var k := DotIndex(w);
            var whole := w[..k];
            var frac := if k < |w| then w[k + 1..] else [];
            IsDecimalLiteral(w) <==> AllDigits(whole) && AllDigits(frac) && whole + frac != []
  {
    var k := DotIndex(w);
    if k == |w| {
      UndottedShape(w);
    } else {
      DottedShape(w, k);
    }
  }

  lemma {:induction false} UndottedShape(w: string)
    requires DotIndex(w) == |w|
    ensures IsDecimalLiteral(w) <==> AllDigits(w) && w != []
  {
    assert w[..|w|] == w;
    if AllRunChars(w) {
      NoDotDigits(w);
    } else {
      var i :| 0 <= i < |w| && !IsRunChar(w[i]);
      assert !IsDigit(w[i]);
    }
    if AllDigits(w) && w != [] {
      assert IsDigit(w[0]);
    }
  }

  lemma {:induction false} DottedShape(w: string, k: nat)
    requires k == DotIndex(w) && k < |w|
    ensures IsDecimalLiteral(w) <==> AllDigits(w[..k]) && AllDigits(w[k + 1..]) && w[..k] + w[k + 1..] != []
  {
    var whole, frac := w[..k], w[k + 1..];
    assert '.' !in multiset(whole);
    assert w == whole + [w[k]] + frac;
    assert multiset(w) == multiset(whole) + multiset{'.'} + multiset(frac);
    if AllRunChars(w) {
      assert AllRunChars(whole) by {
        forall i | 0 <= i < |whole| ensures IsRunChar(whole[i]) { assert whole[i] == w[i]; }
      }
      assert AllRunChars(frac) by {
        forall i | 0 <= i < |frac| ensures IsRunChar(frac[i]) { assert frac[i] == w[k + 1 + i]; }
      }
      NoDotDigits(whole);
      NoDotDigits(frac);
      if AllDigits(whole) && AllDigits(frac) && whole != [] {
        assert IsDigit(w[0]);
      }
      if AllDigits(whole) && AllDigits(frac) && frac != [] {
        assert IsDigit(w[k + 1]);
      }
      if exists i :: 0 <= i < |w| && IsDigit(w[i]) {
        var i :| 0 <= i < |w| && IsDigit(w[i]);
        assert i < k || i > k;
        assert i < k ==> whole != [];
        assert i > k ==> frac != [];
      }
    } else {
      var i :| 0 <= i < |w| && !IsRunChar(w[i]);
      assert i != k;
      if i < k {
        assert !IsDigit(whole[i]);
      } else {
        assert !IsDigit(frac[i - k - 1]);
      }
    }
  }

  /** The real number `m + f / 10^k`. */
  function DecimalValue(m: nat, f: nat, k: nat): (v: real)
    ensures v >= 0.0
  {
    m as real + f as real / Pow10(k) as real
  }

  /** The value of the literal `whole.frac`. */
  function LiteralValue(whole: string, frac: string): (v: real)
    requires AllDigits(whole) && AllDigits(frac)
    ensures v >= 0.0
  {
    DecimalValue(DigitsValue(whole), DigitsValue(frac), |frac|)
  }

  /** `pd.to_numeric` of an extracted run: the literal's value, or NaN for "." or "1.2.3". */
  function ParseDecimal(w: string): (r: Option<real>)
    ensures r.Some? ==> r.value >= 0.0
  {
    var k := DotIndex(w);
    var whole := w[..k];
    var frac := if k < |w| then w[k + 1..] else [];
    if AllDigits(whole) && AllDigits(frac) && whole + frac != [] then
      Some(LiteralValue(whole, frac))
    else
      None
  }

  /** The run is coerced exactly when it is a decimal literal. */
  lemma ParseDecimalDefined(w: string)
    ensures ParseDecimal(w).Some? <==> IsDecimalLiteral(w)
  {
    DecimalLiteralShape(w);
  }

  /** Cleaning of `mileage`, `engine`, `max_power`: cast to text, extract the first run, coerce. */
  function ExtractNumeric(c: Cell): (r: Option<real>)
    ensures NoRunChars(CellText(c)) ==> r.None?
    ensures c.Blank? ==> r.None?
    ensures r.Some? ==> r.value >= 0.0
  {
    assert CellText(Blank) == "nan";
    match FirstRun(CellText(c))
    case None => None
    case Some(w) => ParseDecimal(w)
  }

  /** The cell's text has a first run of digits and dots, and that run is a decimal literal. */
  predicate HasNumberRun(c: Cell)
  {
    var w := FirstRun(CellText(c));
    w.Some? && IsDecimalLiteral(w.value)
  }

  /** Extraction yields a number exactly when the first run is a literal; otherwise NaN. */
  lemma ExtractNumericDefined(c: Cell)
    ensures ExtractNumeric(c).Some? <==> HasNumberRun(c)
  {
    var w := FirstRun(CellText(c));
    if w.Some? {
      ParseDecimalDefined(w.value);
    }
  }

  /** What `pd.to_numeric` accepts from a cell's own text: an optional sign, then a decimal literal. */
  predicate IsNumericText(s: string)
  {
    IsDecimalLiteral(s) || (s != [] && (s[0] == '-' || s[0] == '+') && IsDecimalLiteral(s[1..]))
  }

  /** Cleaning of `km_driven`, `seats`, `year`: `pd.to_numeric(..., errors='coerce')`. */
  function CoerceNumeric(c: Cell): (r: Option<real>)
    ensures c.Blank? ==> r.None?
    ensures r.Some? && r.value < 0.0 ==> c.Text? && c.s != [] && c.s[0] == '-'
  {
    match c
    case Blank => None
    case Text(s) =>
      if s != [] && (s[0] == '-' || s[0] == '+') then
        match ParseDecimal(s[1..])
        case None => None
        case Some(v) => Some(if s[0] == '-' then -v else v)
      else
        ParseDecimal(s)
  }

  /** A cell is coerced exactly when its text is a signed decimal literal; anything else becomes NaN. */
  lemma CoerceNumericDefined(c: Cell)
    ensures CoerceNumeric(c).Some? <==> c.Text? && IsNumericText(c.s)
  {
    if c.Text? {
      var s := c.s;
      if s != [] && (s[0] == '-' || s[0] == '+') {
        assert !IsDecimalLiteral(s) by { assert !IsRunChar(s[0]); }
        ParseDecimalDefined(s[1..]);
      } else {
        ParseDecimalDefined(s);
      }
    }
  }

  // ---------------------------------------------------------------------------
  // Decimal text, as a number is written in the listing file, and the round trip.

  /** The decimal text of a natural number, without leading zeros. */
  function ShowNat(n: nat): (w: string)
    ensures w != [] && AllDigits(w)
  {
    if n < 10 then [DigitChar(n)] else ShowNat(n / 10) + [DigitChar(n % 10)]
  }

  /** `f` written with exactly `k` digits, zero-padded on the left. */
  function ShowFixed(f: nat, k: nat): (w: string)
    ensures |w| == k && AllDigits(w)
  {
    if k == 0 then [] else ShowFixed(f / 10, k - 1) + [DigitChar(f % 10)]
  }

  /** `m + f / 10^k` written with `k` fraction digits (no point when `k` is 0). */
  function ShowDecimal(m: nat, f: nat, k: nat): (w: string)
    ensures AllDigits(w) ==> k == 0
  {
    if k == 0 then ShowNat(m)
    else
      var w := ShowNat(m) + "." + ShowFixed(f, k);
      assert !IsDigit(w[|ShowNat(m)|]);
      w
  }

  lemma {:induction false} DigitsValueOfShowNat(n: nat)
    ensures DigitsValue(ShowNat(n)) == n
  {
    var w := ShowNat(n);
    if n >= 10 {
      DigitsValueOfShowNat(n / 10);
      assert w[..|w| - 1] == ShowNat(n / 10);
    }
  }

  lemma {:induction false} DigitsValueOfShowFixed(f: nat, k: nat)
    requires f < Pow10(k)
    ensures DigitsValue(ShowFixed(f, k)) == f
  {
    var w := ShowFixed(f, k);
    if k > 0 {
      DigitsValueOfShowFixed(f / 10, k - 1);
      assert w[..|w| - 1] == ShowFixed(f / 10, k - 1);
    }
  }

  lemma AllDigitsHasNoDot(w: string)
    requires AllDigits(w)
    ensures '.' !in w
  {
    forall i | 0 <= i < |w| ensures w[i] != '.' { assert IsDigit(w[i]); }
  }

  lemma DotIndexAfterDigits(u: string, rest: string)
    requires AllDigits(u)
    ensures DotIndex(u + "." + rest) == |u|
    ensures DotIndex(u) == |u|
    decreases |u|
  {
    if u != [] {
      assert (u + "." + rest)[1..] == u[1..] + "." + rest;
      DotIndexAfterDigits(u[1..], rest);
    }
  }

  lemma ParseDigits(u: string)
    requires AllDigits(u) && u != []
    ensures ParseDecimal(u) == Some(LiteralValue(u, ""))
  {
    DotIndexAfterDigits(u, "");
    var k := DotIndex(u);
    assert u[..k] == u;
  }

  lemma ParsePointed(u: string, v: string)
    requires AllDigits(u) && AllDigits(v) && v != []
    ensures ParseDecimal(u + "." + v) == Some(LiteralValue(u, v))
  {
    var w := u + "." + v;
    DotIndexAfterDigits(u, v);
    var k := DotIndex(w);
    assert k == |u| < |w|;
    assert w[..k] == u;
    assert w[k + 1..] == v;
    assert AllDigits(w[..k]) && AllDigits(w[k + 1..]);
  }

  /** Parsing a number written in decimal gives back that number. */
  lemma ParseShowDecimal(m: nat, f: nat, k: nat)
    requires f < Pow10(k)
    ensures ParseDecimal(ShowDecimal(m, f, k)) == Some(DecimalValue(m, f, k))
  {
    DigitsValueOfShowNat(m);
    if k == 0 {
      ParseDigits(ShowNat(m));
    } else {
      DigitsValueOfShowFixed(f, k);
      ParsePointed(ShowNat(m), ShowFixed(f, k));
    }
  }

  lemma {:induction false} LeadingRunOfRun(w: string, suffix: string)
    requires AllRunChars(w)
    requires suffix == [] || !IsRunChar(suffix[0])
    ensures LeadingRun(w + suffix) == w
  {
    if w == [] {
      assert w + suffix == suffix;
    } else {
      assert (w + suffix)[1..] == w[1..] + suffix;
      LeadingRunOfRun(w[1..], suffix);
    }
  }

  /** Whatever text without digits or dots comes before a run, the run is what is extracted. */
  lemma {:induction false} FirstRunAfterPrefix(prefix: string, w: string, suffix: string)
    requires NoRunChars(prefix)
    requires w != [] && AllRunChars(w)
    requires suffix == [] || !IsRunChar(suffix[0])
    ensures FirstRun(prefix + w + suffix) == Some(w)
  {
    var s := prefix + w + suffix;
    var i := RunStart(s);
    assert forall j :: 0 <= j < |prefix| ==> s[j] == prefix[j];
    assert s[|prefix|] == w[0];
    assert i == |prefix|;
    assert s[i..] == w + suffix;
    LeadingRunOfRun(w, suffix);
  }

  lemma ShowDecimalIsRun(m: nat, f: nat, k: nat)
    ensures ShowDecimal(m, f, k) != [] && AllRunChars(ShowDecimal(m, f, k))
  {
    var w := ShowDecimal(m, f, k);
    if k > 0 {
      var u := ShowNat(m);
      var v := ShowFixed(f, k);
      assert w == u + "." + v;
      forall i | 0 <= i < |w| ensures IsRunChar(w[i]) {
        if i < |u| { assert w[i] == u[i]; }
        else if i > |u| { assert w[i] == v[i - |u| - 1]; }
      }
    }
  }

  lemma ExtractRun(prefix: string, w: string, suffix: string)
    requires NoRunChars(prefix)
    requires w != [] && AllRunChars(w)
    requires suffix == [] || !IsRunChar(suffix[0])
    ensures ExtractNumeric(Text(prefix + w + suffix)) == ParseDecimal(w)
  {
    FirstRunAfterPrefix(prefix, w, suffix);
  }

  /** A cell holding a number followed by a unit ("23.4 kmpl") is cleaned to that number. */
  lemma ExtractWithUnit(prefix: string, m: nat, f: nat, k: nat, suffix: string)
    requires NoRunChars(prefix)
    requires suffix == [] || !IsRunChar(suffix[0])
    requires f < Pow10(k)
    ensures ExtractNumeric(Text(prefix + ShowDecimal(m, f, k) + suffix)) == Some(DecimalValue(m, f, k))
  {
    ParseShowDecimal(m, f, k);
    ShowDecimalIsRun(m, f, k);
    ExtractRun(prefix, ShowDecimal(m, f, k), suffix);
  }

  /** An integer cell, written as the CSV writes it, coerces to its value. */
  lemma CoerceShowInt(n: int)
    ensures CoerceNumeric(Text(if n < 0 then "-" + ShowNat(-n) else ShowNat(n))) == Some(n as real)
  {
    var u := if n < 0 then ShowNat(-n) else ShowNat(n);
    ParseShowDecimal(if n < 0 then -n else n, 0, 0);
    assert IsDigit(u[0]);
    if n < 0 {
      assert ("-" + u)[1..] == u;
    }
  }

  /** The runs the extraction pattern takes from cells with a number and a unit. */
  lemma UnitCellRuns()
    ensures FirstRun("23.4 kmpl") == Some("23.4")
    ensures FirstRun("1197 CC") == Some("1197")
  {
    CellStartsWithRun("23.4", " kmpl", "23.4 kmpl");
    CellStartsWithRun("1197", " CC", "1197 CC");
  }

  /** The runs the extraction pattern takes from cells whose run is not a number. */
  lemma MalformedCellRuns()
    ensures FirstRun(". bhp") == Some(".")
    ensures FirstRun("1.2.3") == Some("1.2.3")
  {
    CellStartsWithRun(".", " bhp", ". bhp");
    CellStartsWithRun("1.2.3", "", "1.2.3");
  }

  /** A cell that starts with a run, followed by text that does not continue it. */
  lemma CellStartsWithRun(w: string, suffix: string, s: string)
    requires w != [] && AllRunChars(w)
    requires suffix == [] || !IsRunChar(suffix[0])
    requires s == w + suffix
    ensures FirstRun(s) == Some(w)
  {
    FirstRunAfterPrefix("", w, suffix);
    assert "" + w + suffix == s;
  }

  lemma MileageValue()
    ensures ParseDecimal("23.4") == Some(23.4)
  {
    ParsePointed("23", "4");
    assert "23" + "." + "4" == "23.4";
    MileageLiteral();
  }

  lemma MileageLiteral()
    ensures LiteralValue("23", "4") == 23.4
  {
    assert DigitsValue("23") == 23 && DigitsValue("4") == 4 && Pow10(1) == 10;
  }

  lemma EngineValue()
    ensures ParseDecimal("1197") == Some(1197.0)
  {
    ParseDigits("1197");
    assert ShowNat(1197) == "1197";
    DigitsValueOfShowNat(1197);
  }

  lemma MalformedRuns()
    ensures ParseDecimal(".") == None && ParseDecimal("1.2.3") == None
  {
    ParseDecimalDefined(".");
    ParseDecimalDefined("1.2.3");
    assert multiset("1.2.3")['.'] == 2;
  }

  /** Cells with a number and a unit, as in the listing file. */
  lemma ExtractUnitExamples()
    ensures ExtractNumeric(Text("23.4 kmpl")) == Some(23.4)
    ensures ExtractNumeric(Text("1197 CC")) == Some(1197.0)
  {
    UnitCellRuns();
    MileageValue();
    EngineValue();
  }

  /** Cells without a well-formed number become NaN instead of raising. */
  lemma ExtractMissingExamples()
    ensures ExtractNumeric(Text("N/A")) == None
    ensures ExtractNumeric(Blank) == None
    ensures ExtractNumeric(Text(". bhp")) == None
    ensures ExtractNumeric(Text("1.2.3")) == None
  {
    assert NoRunChars("N/A");
    MalformedCellRuns();
    MalformedRuns();
  }
}
