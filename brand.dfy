/**
 * Brand reduction of the `name` column: `str(x).split(' ')[0].strip()`.
 * The split is on the single space character only; the strip removes
 * every character Python's `str.isspace` accepts, at both ends.
 */
module Brand {

  /** Python's `str.isspace` for one character. */
  predicate IsSpace(c: char)
  {
    || c == ' '
    || '\t' <= c <= '\r'
    || '\U{1c}' <= c <= '\U{1f}'
    || c == '\U{85}' || c == '\U{a0}' || c == '\U{1680}'
    || '\U{2000}' <= c <= '\U{200a}'
    || c == '\U{2028}' || c == '\U{2029}' || c == '\U{202f}' || c == '\U{205f}' || c == '\U{3000}'
  }

  predicate AllSpace(s: string) { forall i :: 0 <= i < |s| ==> IsSpace(s[i]) }

  /** Neither end of `s` is whitespace. */
  predicate IsStripped(s: string) { s == [] || (!IsSpace(s[0]) && !IsSpace(s[|s| - 1])) }

  /** `r` is `s` without the whitespace `s[..i]` before it and `s[i + |r|..]` after it. */
  ghost predicate StrippedAt(s: string, i: int, r: string)
  {
    0 <= i && i + |r| <= |s| && r == s[i..i + |r|] && AllSpace(s[..i]) && AllSpace(s[i + |r|..])
  }

  /** `str.lstrip()` */
  function StripLeft(s: string): (r: string)
    ensures |r| <= |s| && r == s[|s| - |r|..] && AllSpace(s[..|s| - |r|])
    ensures r == [] || !IsSpace(r[0])
  {
    if s != [] && IsSpace(s[0]) then
      var r := StripLeft(s[1..]);
      assert s[..|s| - |r|] == [s[0]] + s[1..][..|s| - 1 - |r|];
      r
    else
      s
  }

  /** `str.rstrip()` */
  function StripRight(s: string): (r: string)
    ensures |r| <= |s| && r == s[..|r|] && AllSpace(s[|r|..])
    ensures r == [] || !IsSpace(r[|r| - 1])
  {
    if s != [] && IsSpace(s[|s| - 1]) then
      var r := StripRight(s[..|s| - 1]);
      assert s[|r|..] == s[..|s| - 1][|r|..] + [s[|s| - 1]];
      r
    else
      s
  }

  /** `str.strip()`: the middle of `s` between leading and trailing whitespace. */
  function Strip(s: string): (r: string)
    ensures IsStripped(r)
    ensures exists i :: StrippedAt(s, i, r)
  {
    StripBothEnds(s);
    StripRight(StripLeft(s))
  }

  lemma StripBothEnds(s: string)
    ensures StrippedAt(s, |s| - |StripLeft(s)|, StripRight(StripLeft(s)))
  {
    var l := StripLeft(s);
    var r := StripRight(l);
    var i := |s| - |l|;
    assert s[i..i + |r|] == r;
    assert s[i + |r|..] == l[|r|..];
  }

  /** `str.split(' ')[0]`: everything before the first space character. */
  function FirstPiece(s: string): (r: string)
    ensures |r| <= |s| && r == s[..|r|] && ' ' !in r
    ensures |r| < |s| ==> s[|r|] == ' '
  {
    if s == [] || s[0] == ' ' then []
    else
      var r := FirstPiece(s[1..]);
      assert [s[0]] + r == s[..|r| + 1];
      [s[0]] + r
  }

  /** The brand label of a model name. */
  function BrandOf(name: string): (b: string)
    ensures ' ' !in b
    ensures IsStripped(b)
  {
    var p := FirstPiece(name);
    var b := Strip(p);
    assert ' ' !in b by {
      var i :| StrippedAt(p, i, b);
      forall j | 0 <= j < |b| ensures b[j] != ' ' { assert b[j] == p[i + j]; }
    }
    b
  }

  lemma {:induction false} FirstPieceNoSpace(s: string)
    requires ' ' !in s
    ensures FirstPiece(s) == s
  {
    if s != [] {
      FirstPieceNoSpace(s[1..]);
    }
  }

  lemma {:induction false} FirstPieceUpTo(s: string, k: nat)
    requires k < |s| && s[k] == ' '
    requires forall j :: 0 <= j < k ==> s[j] != ' '
    ensures FirstPiece(s) == s[..k]
  {
    if k > 0 {
      FirstPieceUpTo(s[1..], k - 1);
      assert s[..k] == [s[0]] + s[1..][..k - 1];
    }
  }

  /** The brand is the stripped text before the first space character. */
  lemma BrandUpTo(s: string, k: nat)
    requires k < |s| && s[k] == ' '
    requires forall j :: 0 <= j < k ==> s[j] != ' '
    requires IsStripped(s[..k])
    ensures BrandOf(s) == s[..k]
  {
    FirstPieceUpTo(s, k);
    StripStripped(s[..k]);
  }

  lemma StripStripped(s: string)
    requires IsStripped(s)
    ensures Strip(s) == s
  {
  }

  /** Reducing a label that is already a brand changes nothing. */
  lemma BrandIdempotent(name: string)
    ensures BrandOf(BrandOf(name)) == BrandOf(name)
  {
    var b := BrandOf(name);
    FirstPieceNoSpace(b);
    StripStripped(b);
  }

  /** A name that starts with a word and a space reduces to that word. */
  lemma {:induction false} BrandOfFirstWord(word: string, rest: string)
    requires forall i :: 0 <= i < |word| ==> !IsSpace(word[i])
    ensures BrandOf(word + " " + rest) == word
  {
    var s := word + " " + rest;
    assert forall j :: 0 <= j < |word| ==> s[j] == word[j];
    FirstPieceUpTo(s, |word|);
    assert s[..|word|] == word;
    assert IsStripped(word);
    StripStripped(word);
  }

  lemma ModelNameExample()
    ensures BrandOf("Maruti Swift Dzire VDI") == "Maruti"
  {
    var s := "Maruti Swift Dzire VDI";
    assert s[..6] == "Maruti";
    BrandUpTo(s, 6);
  }

  lemma LeadingSpaceExample()
    ensures BrandOf(" Maruti Swift") == ""
  {
    var s := " Maruti Swift";
    FirstPieceUpTo(s, 0);
    assert s[..0] == "";
    StripStripped("");
  }

  lemma TabExample()
    ensures BrandOf("Maruti\tSwift Dzire") == "Maruti\tSwift"
  {
    var s := "Maruti\tSwift Dzire";
    assert s[..12] == "Maruti\tSwift";
    BrandUpTo(s, 12);
  }

  lemma NanExample()
    ensures BrandOf("nan") == "nan"
  {
    FirstPieceNoSpace("nan");
    StripStripped("nan");
  }

  /** The reductions the source relies on, and its edge cases. */
  lemma BrandExamples()
    ensures BrandOf("Maruti Swift Dzire VDI") == "Maruti"
    ensures BrandOf(" Maruti Swift") == ""
    ensures BrandOf("Maruti\tSwift Dzire") == "Maruti\tSwift"
    ensures BrandOf("nan") == "nan"
  {
    ModelNameExample();
    LeadingSpaceExample();
    TabExample();
    NanExample();
  }
}
