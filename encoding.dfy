/**
 * `pd.factorize` and the label-to-code dictionary built from its result.
 * Codes are dense, start at 0 and follow the order in which labels first
 * appear in the column.
 */
module Encoding {

  /** A category label: a cell of a categorical column after `astype(str)`. */
  type Label = string

  predicate NoDuplicates(u: seq<Label>)
  {
    forall i, j :: 0 <= i < j < |u| ==> u[i] != u[j]
  }

  /** The distinct labels of `s` in order of first appearance (`uniques` of `pd.factorize`). */
  function Distinct(s: seq<Label>): (u: seq<Label>)
    ensures NoDuplicates(u)
    ensures forall x :: x in u <==> x in s
  {
    if s == [] then []
    else
      var u := Distinct(s[..|s| - 1]);
      assert forall x :: x in s <==> x in s[..|s| - 1] || x == s[|s| - 1] by {
        assert s == s[..|s| - 1] + [s[|s| - 1]];
      }
      if s[|s| - 1] in u then u else u + [s[|s| - 1]]
  }

  /** The position of the first occurrence of `x` in `s`. */
  function IndexOf(s: seq<Label>, x: Label): (k: nat)
    requires x in s
    ensures k < |s| && s[k] == x && x !in s[..k]
  {
    if s[0] == x then 0
    else
      var k := IndexOf(s[1..], x);
      assert s[..k + 1] == [s[0]] + s[1..][..k];
      k + 1
  }

  /** The code `pd.factorize` gives label `x` of column `labels`. */
  function CodeOf(labels: seq<Label>, x: Label): (c: nat)
    requires x in labels
    ensures c < |Distinct(labels)| && Distinct(labels)[c] == x
  {
    IndexOf(Distinct(labels), x)
  }

  /** The code column `pd.factorize(labels)[0]`. */
  function Codes(labels: seq<Label>): (codes: seq<nat>)
    ensures |codes| == |labels|
    ensures forall i :: 0 <= i < |labels| ==> codes[i] < |Distinct(labels)| && Distinct(labels)[codes[i]] == labels[i]
  {
    seq(|labels|, i requires 0 <= i < |labels| => CodeOf(labels, labels[i]))
  }

  /** The label-to-code dictionary of one column. */
  function CategoryMap(labels: seq<Label>): (m: map<Label, nat>)
    ensures forall x :: x in m <==> x in labels
    ensures forall x :: x in m ==> m[x] < |Distinct(labels)| && Distinct(labels)[m[x]] == x
  {
    map x | x in labels :: CodeOf(labels, x)
  }

  lemma IndexOfUnique(s: seq<Label>, x: Label, k: nat)
    requires k < |s| && s[k] == x && x !in s[..k]
    ensures IndexOf(s, x) == k
  {
    var j := IndexOf(s, x);
  }

  /** In a sequence without duplicates, a position holding `x` is the position of `x`. */
  lemma UniquePosition(u: seq<Label>, i: nat, j: nat)
    requires NoDuplicates(u) && i < |u| && j < |u| && u[i] == u[j]
    ensures i == j
  {
  }

  lemma DistinctSnoc(p: seq<Label>, z: Label)
    ensures Distinct(p + [z]) == if z in p then Distinct(p) else Distinct(p) + [z]
  {
    assert (p + [z])[..|p|] == p;
  }

  lemma PrefixSnoc(s: seq<Label>, i: nat)
    requires i < |s|
    ensures s[..i + 1] == s[..i] + [s[i]]
  {
  }

  /** `codes` gives, row by row, the position of each label of `prefix` in `uniques`. */
  ghost predicate CodesIndex(codes: seq<nat>, uniques: seq<Label>, prefix: seq<Label>)
  {
    |codes| == |prefix| && forall j :: 0 <= j < |prefix| ==> codes[j] < |uniques| && uniques[codes[j]] == prefix[j]
  }

  /**
   * The state of `Factorize` after the first `i` rows: `uniques` holds the
   * distinct labels seen so far, `seen` the position of each of them, and
   * `codes` the code of every row read.
   */
  ghost predicate FactorizeState(labels: seq<Label>, i: nat, seen: map<Label, nat>, codes: seq<nat>, uniques: seq<Label>)
  {
    && i <= |labels|
    && uniques == Distinct(labels[..i])
    && (forall x :: x in seen <==> x in uniques)
    && (forall x :: x in seen ==> seen[x] < |uniques| && uniques[seen[x]] == x)
    && CodesIndex(codes, uniques, labels[..i])
  }

  /** Reading a label already in `seen` appends its recorded code. */
  lemma FactorizeSeen(labels: seq<Label>, i: nat, seen: map<Label, nat>, codes: seq<nat>, uniques: seq<Label>)
    requires FactorizeState(labels, i, seen, codes, uniques) && i < |labels| && labels[i] in seen
    ensures FactorizeState(labels, i + 1, seen, codes + [seen[labels[i]]], uniques)
  {
    var x := labels[i];
    PrefixSnoc(labels, i);
    DistinctSnoc(labels[..i], x);
    var c := codes + [seen[x]];
    assert CodesIndex(c, uniques, labels[..i + 1]) by {
      forall j | 0 <= j < i + 1 ensures c[j] < |uniques| && uniques[c[j]] == labels[..i + 1][j] {
        if j < i {
          assert labels[..i + 1][j] == labels[..i][j];
        }
      }
    }
  }

  /** Reading a new label gives it the next code and records it. */
  lemma FactorizeNew(labels: seq<Label>, i: nat, seen: map<Label, nat>, codes: seq<nat>, uniques: seq<Label>)
    requires FactorizeState(labels, i, seen, codes, uniques) && i < |labels| && labels[i] !in seen
    ensures FactorizeState(labels, i + 1, seen[labels[i] := |uniques|], codes + [|uniques|], uniques + [labels[i]])
  {
    var x := labels[i];
    PrefixSnoc(labels, i);
    DistinctSnoc(labels[..i], x);
    var u := uniques + [x];
    assert CodesIndex(codes + [|uniques|], u, labels[..i + 1]) by {
      forall j | 0 <= j < i + 1 ensures (codes + [|uniques|])[j] < |u| && u[(codes + [|uniques|])[j]] == labels[..i + 1][j] {
        if j < i {
          assert labels[..i + 1][j] == labels[..i][j];
        }
      }
    }
  }

  /**
   * `pd.factorize`: one pass over the column with a table of labels seen so
   * far; a new label gets the next code, a seen one its recorded code.
   */
  method Factorize(labels: seq<Label>) returns (codes: seq<nat>, uniques: seq<Label>)
    ensures uniques == Distinct(labels)
    ensures |codes| == |labels|
    ensures forall i :: 0 <= i < |labels| ==> codes[i] < |uniques| && uniques[codes[i]] == labels[i]
    ensures codes == Codes(labels)
  {
    var seen: map<Label, nat> := map[];
    codes, uniques := [], [];
    for i := 0 to |labels|
      invariant FactorizeState(labels, i, seen, codes, uniques)
    {
      var x := labels[i];
      if x in seen {
        FactorizeSeen(labels, i, seen, codes, uniques);
        codes := codes + [seen[x]];
      } else {
        FactorizeNew(labels, i, seen, codes, uniques);
        seen := seen[x := |uniques|];
        codes := codes + [|uniques|];
        uniques := uniques + [x];
      }
    }
    assert labels[..|labels|] == labels;
    CodesUnique(labels, codes);
  }

  /** A code column that indexes the distinct labels is the factorize code column. */
  lemma CodesUnique(labels: seq<Label>, codes: seq<nat>)
    requires |codes| == |labels|
    requires forall i :: 0 <= i < |labels| ==> codes[i] < |Distinct(labels)| && Distinct(labels)[codes[i]] == labels[i]
    ensures codes == Codes(labels)
  {
    forall i | 0 <= i < |labels| ensures codes[i] == Codes(labels)[i] {
      UniquePosition(Distinct(labels), codes[i], Codes(labels)[i]);
    }
  }

  /**
   * `dict(zip(uniques, range(len(uniques))))`: each label maps to its
   * position; a later duplicate would overwrite an earlier one.
   */
  method ZipWithRange(uniques: seq<Label>) returns (m: map<Label, nat>)
    ensures forall x :: x in m <==> x in uniques
    ensures forall x :: x in m ==> m[x] < |uniques| && uniques[m[x]] == x && x !in uniques[m[x] + 1..]
  {
    m := map[];
    for j := 0 to |uniques|
      invariant forall x :: x in m <==> x in uniques[..j]
      invariant forall x :: x in m ==> m[x] < j && uniques[m[x]] == x && x !in uniques[m[x] + 1..j]
    {
      assert uniques[..j + 1] == uniques[..j] + [uniques[j]];
      m := m[uniques[j] := j];
    }
    assert uniques[..|uniques|] == uniques;
  }

  /** Zipping the uniques of `pd.factorize` with their positions gives the category map. */
  lemma ZipIsCategoryMap(labels: seq<Label>, m: map<Label, nat>)
    requires forall x :: x in m <==> x in Distinct(labels)
    requires forall x :: x in m ==> m[x] < |Distinct(labels)| && Distinct(labels)[m[x]] == x
    ensures m == CategoryMap(labels)
  {
    var c := CategoryMap(labels);
    forall x | x in m ensures m[x] == c[x] {
      UniquePosition(Distinct(labels), m[x], c[x]);
    }
  }

  /** A label first seen earlier in the column gets a smaller code, and conversely. */
  lemma {:induction false} FirstSeenOrder(labels: seq<Label>, x: Label, y: Label)
    requires x in labels && y in labels
    ensures CodeOf(labels, x) < CodeOf(labels, y) <==> IndexOf(labels, x) < IndexOf(labels, y)
  {
    var p := labels[..|labels| - 1];
    var z := labels[|labels| - 1];
    assert labels == p + [z];
    DistinctSnoc(p, z);
    var u := Distinct(labels);
    var d := Distinct(p);
    if x in p && y in p {
      FirstSeenOrder(p, x, y);
      IndexOfUnique(labels, x, IndexOf(p, x));
      IndexOfUnique(labels, y, IndexOf(p, y));
      IndexOfUnique(u, x, IndexOf(d, x));
      IndexOfUnique(u, y, IndexOf(d, y));
    } else if x in p {
      // y is z, seen for the first time at the end
      assert z !in d;
      IndexOfUnique(labels, x, IndexOf(p, x));
      IndexOfUnique(labels, y, |p|);
      IndexOfUnique(u, x, IndexOf(d, x));
      IndexOfUnique(u, y, |d|);
    } else if y in p {
      assert z !in d;
      IndexOfUnique(labels, y, IndexOf(p, y));
      IndexOfUnique(labels, x, |p|);
      IndexOfUnique(u, y, IndexOf(d, y));
      IndexOfUnique(u, x, |d|);
    }
  }

  /** The codes in use are exactly `0 .. k-1`, where `k` is the number of distinct labels. */
  lemma CodesDense(labels: seq<Label>)
    ensures forall c :: c in Codes(labels) <==> 0 <= c < |Distinct(labels)|
  {
    var codes := Codes(labels);
    var u := Distinct(labels);
    forall c | 0 <= c < |u| ensures c in codes {
      var i := IndexOf(labels, u[c]);
      UniquePosition(u, codes[i], c);
      assert codes[i] == c;
    }
  }

  /** Two rows share a code exactly when they share a label. */
  lemma SameCodeSameLabel(labels: seq<Label>, i: nat, j: nat)
    requires i < |labels| && j < |labels|
    ensures Codes(labels)[i] == Codes(labels)[j] <==> labels[i] == labels[j]
  {
    var codes := Codes(labels);
    if labels[i] == labels[j] {
      UniquePosition(Distinct(labels), codes[i], codes[j]);
    }
  }

  lemma {:induction false} DistinctHead(labels: seq<Label>)
    requires labels != []
    ensures Distinct(labels) != [] && Distinct(labels)[0] == labels[0]
  {
    var p := labels[..|labels| - 1];
    var z := labels[|labels| - 1];
    assert labels == p + [z];
    DistinctSnoc(p, z);
    if p != [] {
      DistinctHead(p);
    }
  }

  /** The first row always gets code 0. */
  lemma FirstLabelGetsZero(labels: seq<Label>)
    requires labels != []
    ensures Codes(labels)[0] == 0
  {
    DistinctHead(labels);
    IndexOfUnique(Distinct(labels), labels[0], 0);
  }

  /** Two different labels get codes 0 and 1 in the order they appear. */
  lemma TwoLabels(x: Label, y: Label)
    requires x != y
    ensures Codes([x, y]) == [0, 1]
  {
    DistinctSnoc([], x);
    assert [x, y] == [x] + [y];
    DistinctSnoc([x], y);
    assert [x, y][..1] == [x];
    IndexOfUnique([x, y], x, 0);
    IndexOfUnique([x, y], y, 1);
  }

  /**
   * The category map is a bijection between the column's labels and
   * `0 .. k-1` whose inverse is `uniques`.
   */
  lemma CategoryMapBijection(labels: seq<Label>)
    ensures var m := CategoryMap(labels);
            var u := Distinct(labels);
            && (forall c :: c in m.Values <==> 0 <= c < |u|)
            && (forall c :: 0 <= c < |u| ==> u[c] in m && m[u[c]] == c)
            && (forall x, y :: x in m && y in m && m[x] == m[y] ==> x == y)
  {
    var m := CategoryMap(labels);
    var u := Distinct(labels);
    forall c | 0 <= c < |u| ensures u[c] in m && m[u[c]] == c {
      UniquePosition(u, m[u[c]], c);
    }
    forall c | 0 <= c < |u| ensures c in m.Values {
      assert m[u[c]] == c;
    }
  }

  /** The map agrees with the code column row by row. */
  lemma CategoryMapAgreesWithCodes(labels: seq<Label>, i: nat)
    requires i < |labels|
    ensures labels[i] in CategoryMap(labels) && CategoryMap(labels)[labels[i]] == Codes(labels)[i]
  {
  }
}
