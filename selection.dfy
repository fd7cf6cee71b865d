/** The protocol selection both dashboard pages keep: toggling an id in and out of the
    list of selected ids, and the mean APY of the selection as the pages print it. */
module Selection {
  import opened Options
  import opened Digits
  import opened JsText
  import opened JsNumber
  import opened FixedNotation

  /** No id occurs twice. */
  predicate Distinct(sel: seq<int>)
  {
    forall i, j :: 0 <= i < j < |sel| ==> sel[i] != sel[j]
  }

  /** `sel.filter(p => p !== id)`. */
  function Without(sel: seq<int>, id: int): (r: seq<int>)
    ensures |r| <= |sel|
  {
    if sel == [] then []
    else Without(sel[..|sel| - 1], id) + (if sel[|sel| - 1] == id then [] else [sel[|sel| - 1]])
  }

  /** `prev.includes(id) ? prev.filter(p => p !== id) : [...prev, id]`. */
  function Toggled(sel: seq<int>, id: int): seq<int>
  {
    if id in sel then Without(sel, id) else sel + [id]
  }

  /** Removing keeps exactly the other ids. */
  lemma {:induction false} WithoutMembers(sel: seq<int>, id: int)
    ensures forall x :: x in Without(sel, id) <==> x in sel && x != id
  {
    if sel != [] {
      var init := sel[..|sel| - 1];
      WithoutMembers(init, id);
      assert sel == init + [sel[|sel| - 1]];
    }
  }

  /** Removing keeps the other ids in their order: it distributes over concatenation. */
  lemma {:induction false} WithoutAppend(a: seq<int>, b: seq<int>, id: int)
    ensures Without(a + b, id) == Without(a, id) + Without(b, id)
    decreases |b|
  {
    if b == [] {
      assert a + b == a;
    } else {
      var init := b[..|b| - 1];
      assert (a + b)[..|a + b| - 1] == a + init;
      WithoutAppend(a, init, id);
    }
  }

  /** A list without `id` is unchanged by removing it. */
  lemma {:induction false} WithoutAbsent(sel: seq<int>, id: int)
    requires id !in sel
    ensures Without(sel, id) == sel
  {
    if sel != [] {
      var init := sel[..|sel| - 1];
      assert sel == init + [sel[|sel| - 1]];
      WithoutAbsent(init, id);
    }
  }

  /** Removing from a duplicate-free list leaves it duplicate-free. */
  lemma {:induction false} WithoutDistinct(sel: seq<int>, id: int)
    requires Distinct(sel)
    ensures Distinct(Without(sel, id))
  {
    if sel != [] {
      var init := sel[..|sel| - 1];
      var last := sel[|sel| - 1];
      assert Distinct(init);
      WithoutDistinct(init, id);
      WithoutMembers(init, id);
      assert last !in init;
      assert last !in Without(init, id);
    }
  }

  /** Toggling an absent id appends it and leaves the earlier ids alone. */
  lemma ToggleAbsent(sel: seq<int>, id: int)
    requires id !in sel
    ensures Toggled(sel, id) == sel + [id]
    ensures id in Toggled(sel, id)
  {
  }

  /** Toggling a present id removes every occurrence and keeps the rest in order. */
  lemma TogglePresent(sel: seq<int>, id: int, a: seq<int>, b: seq<int>)
    requires id in sel && sel == a + b
    ensures id !in Toggled(sel, id)
    ensures forall x :: x in Toggled(sel, id) <==> x in sel && x != id
    ensures Toggled(sel, id) == Without(a, id) + Without(b, id)
  {
    WithoutMembers(sel, id);
    WithoutAppend(a, b, id);
  }

  /** Toggling an absent id twice restores the selection. */
  lemma ToggleTwice(sel: seq<int>, id: int)
    requires id !in sel
    ensures Toggled(Toggled(sel, id), id) == sel
  {
    WithoutAppend(sel, [id], id);
    WithoutAbsent(sel, id);
    assert Without([id], id) == Without([], id) + [];
  }

  /** A duplicate-free selection stays duplicate-free under any toggle. */
  lemma ToggleDistinct(sel: seq<int>, id: int)
    requires Distinct(sel)
    ensures Distinct(Toggled(sel, id))
  {
    if id in sel {
      WithoutDistinct(sel, id);
    }
  }

  /** The id and APY label of each listed protocol, in list order. */
  type ApyTable = seq<(int, string)>

  /** The position `protocols.find(p => p.id === id)` stops at: the first with that id. */
  function FindIndex(table: ApyTable, id: int): (r: Option<nat>)
    ensures r.None? <==> forall k :: 0 <= k < |table| ==> table[k].0 != id
    ensures r.Some? ==>
      && r.value < |table|
      && table[r.value].0 == id
      && forall j :: 0 <= j < r.value ==> table[j].0 != id
  {
    if table == [] then None
    else if table[0].0 == id then Some(0)
    else
      match FindIndex(table[1..], id)
      case None => None
      case Some(k) => Some(k + 1)
  }

  /** `protocols.find(p => p.id === id)?.apy`. */
  function FindApy(table: ApyTable, id: int): Option<string>
  {
    match FindIndex(table, id)
    case None => None
    case Some(k) => Some(table[k].1)
  }

  /** One term of the sum: `parseFloat(protocol?.apy.replace("%", "") || "0")`. */
  function ApyTerm(table: ApyTable, id: int): Number
  {
    var text := if FindApy(table, id).Some? then ReplaceFirst(FindApy(table, id).value, '%', "") else "";
    ParseFloat(if text != "" then text else "0")
  }

  /** The `reduce` of the selected APYs, from 0, in selection order. */
  function SumApy(table: ApyTable, sel: seq<int>): Number
  {
    if sel == [] then Num(0.0)
    else Add(SumApy(table, sel[..|sel| - 1]), ApyTerm(table, sel[|sel| - 1]))
  }

  /** `totalAPY`: "0.0" for an empty selection, else the mean with one decimal. */
  function TotalApy(table: ApyTable, sel: seq<int>): string
  {
    if |sel| > 0 then ToFixed(Div(SumApy(table, sel), Num(|sel| as real)), 1) else "0.0"
  }

  lemma ZeroText()
    ensures ParseFloat("0") == Num(0.0)
  {
    var z := "0";
    assert ValueIn(z, 10) == 0;
    IntegerLiteralValue(z, "");
    assert z + "" == "0";
    ParseFloatUnsigned(z, 0.0);
  }

  /** A selected id without a listed protocol adds 0 to the sum. */
  lemma MissingAddsZero(table: ApyTable, id: int)
    requires forall k :: 0 <= k < |table| ==> table[k].0 != id
    ensures ApyTerm(table, id) == Num(0.0)
  {
    ZeroText();
  }

  /** A protocol whose APY label is a rendered number followed by "%" contributes that
      number. */
  lemma RenderedApyTerm(table: ApyTable, id: int, r: real, f: nat)
    requires FindApy(table, id) == Some(ToFixed(Num(r), f) + "%")
    ensures ApyTerm(table, id) == Num(RoundedTo(r, f))
  {
    var s := ToFixed(Num(r), f);
    ToFixedCharacters(r, f);
    ReplaceFirstAt(s, '%', "", "");
    assert s + "%" == s + ['%'] + "";
    assert s + "" + "" == s;
    PercentRoundTrip(r, f);
  }

  /** Selecting one more id adds its term to the sum, in order. */
  lemma SumApyAppend(table: ApyTable, sel: seq<int>, id: int)
    ensures SumApy(table, sel + [id]) == Add(SumApy(table, sel), ApyTerm(table, id))
  {
    assert (sel + [id])[..|sel|] == sel;
  }

  /** One APY that does not read as a number (no digits before its "%") poisons the whole
      sum: the sum is NaN exactly when some selected term is. */
  lemma SumApyNaN(table: ApyTable, sel: seq<int>)
    ensures SumApy(table, sel) == NaN <==> exists k :: 0 <= k < |sel| && ApyTerm(table, sel[k]) == NaN
  {
    var ts := Terms(table, sel);
    SumApyTotal(table, sel);
    TotalNaN(ts);
    assert forall k :: 0 <= k < |sel| ==> ts[k] == ApyTerm(table, sel[k]);
  }

  /** The selected ids' terms, in selection order. */
  function Terms(table: ApyTable, sel: seq<int>): (ts: seq<Number>)
    ensures |ts| == |sel|
  {
    seq(|sel|, k requires 0 <= k < |sel| => ApyTerm(table, sel[k]))
  }

  /** Numbers added up from the first to the last, JavaScript style. */
  function Total(ts: seq<Number>): Number
  {
    if ts == [] then Num(0.0) else Add(Total(ts[..|ts| - 1]), ts[|ts| - 1])
  }

  lemma {:induction false} SumApyTotal(table: ApyTable, sel: seq<int>)
    ensures SumApy(table, sel) == Total(Terms(table, sel))
  {
    if sel != [] {
      var front := sel[..|sel| - 1];
      SumApyTotal(table, front);
      assert Terms(table, sel)[..|sel| - 1] == Terms(table, front);
    }
  }

  lemma {:induction false} TotalNaN(ts: seq<Number>)
    ensures Total(ts) == NaN <==> exists k :: 0 <= k < |ts| && ts[k] == NaN
  {
    if ts != [] {
      var front := ts[..|ts| - 1];
      TotalNaN(front);
      if Total(ts) == NaN {
        if Total(front) == NaN {
          var k :| 0 <= k < |front| && front[k] == NaN;
          assert ts[k] == front[k];
        }
      } else {
        forall k | 0 <= k < |ts|
          ensures ts[k] != NaN
        {
          if k < |front| {
            assert ts[k] == front[k];
          }
        }
      }
    }
  }

  /** The same numbers summed right to left (the first term added last), as a reference
      for the sum. */
  function FrontTotal(ts: seq<Number>): Number
  {
    if ts == [] then Num(0.0) else Add(ts[0], FrontTotal(ts[1..]))
  }

  /** The sum does not depend on how the additions are grouped: the left-to-right
      `reduce` over the selection equals the right-to-left sum of the same terms, NaN
      included. */
  lemma SumApyOrder(table: ApyTable, sel: seq<int>)
    ensures SumApy(table, sel) == FrontTotal(Terms(table, sel))
  {
    SumApyTotal(table, sel);
    TotalOrder(Terms(table, sel));
  }

  lemma {:induction false} TotalOrder(ts: seq<Number>)
    ensures Total(ts) == FrontTotal(ts)
  {
    if ts != [] {
      var front, last := ts[..|ts| - 1], ts[|ts| - 1];
      TotalOrder(front);
      FrontTotalAppend(front, last);
      assert front + [last] == ts;
    }
  }

  lemma {:induction false} FrontTotalAppend(ts: seq<Number>, t: Number)
    ensures FrontTotal(ts + [t]) == Add(FrontTotal(ts), t)
  {
    if ts == [] {
      assert [] + [t] == [t];
      assert [t][1..] == [];
    } else {
      assert (ts + [t])[0] == ts[0];
      assert (ts + [t])[1..] == ts[1..] + [t];
      FrontTotalAppend(ts[1..], t);
    }
  }

  /** The printed figure is "0.0" for an empty selection and otherwise reads back as the
      sum divided by the number of selected ids, missing protocols included, rounded to
      one decimal. */
  lemma TotalApyMean(table: ApyTable, sel: seq<int>, sum: real)
    requires SumApy(table, sel) == Num(sum)
    ensures sel == [] ==> TotalApy(table, sel) == "0.0"
    ensures sel != [] ==> ParseFloat(TotalApy(table, sel)) == Num(RoundedTo(sum / |sel| as real, 1))
  {
    if sel != [] {
      assert Div(Num(sum), Num(|sel| as real)) == Num(sum / |sel| as real);
      ToFixedRoundTrip(sum / |sel| as real, 1, "");
      assert ToFixed(Num(sum / |sel| as real), 1) + "" == ToFixed(Num(sum / |sel| as real), 1);
    }
  }

  /** With a single id selected, the figure is that protocol's APY, rounded. */
  lemma SingleSelection(table: ApyTable, id: int, v: real)
    requires ApyTerm(table, id) == Num(v)
    ensures ParseFloat(TotalApy(table, [id])) == Num(RoundedTo(v, 1))
  {
    SingleSum(table, id, v);
    TotalApyMean(table, [id], v);
    OneSelected(id, v);
  }

  lemma OneSelected(id: int, v: real)
    ensures v / |[id]| as real == v
  {
  }

  lemma SingleSum(table: ApyTable, id: int, v: real)
    requires ApyTerm(table, id) == Num(v)
    ensures SumApy(table, [id]) == Num(v)
  {
    SumApyAppend(table, [], id);
    assert [] + [id] == [id];
  }

  /** In a list numbered 1, 2, 3, ... in order, `find` by id returns the row at that
      position, and nothing for any other id. */
  lemma NumberedFind(table: ApyTable, id: int)
    requires forall k :: 0 <= k < |table| ==> table[k].0 == k + 1
    ensures 1 <= id <= |table| ==> FindApy(table, id) == Some(table[id - 1].1)
    ensures (id < 1 || id > |table|) ==> FindApy(table, id) == None
  {
    if 1 <= id <= |table| {
      assert table[id - 1].0 == id;
    }
  }

  /** Selecting an id that no listed protocol has grows the divisor of the mean. */
  lemma MissingCountsInDivisor(table: ApyTable, sel: seq<int>, id: int, sum: real)
    requires SumApy(table, sel) == Num(sum)
    requires forall k :: 0 <= k < |table| ==> table[k].0 != id
    ensures ParseFloat(TotalApy(table, sel + [id])) == Num(RoundedTo(sum / (|sel| + 1) as real, 1))
  {
    MissingSum(table, sel, id, sum);
    MeanOfLength(table, sel + [id], sum, |sel| + 1);
  }

  lemma MeanOfLength(table: ApyTable, sel: seq<int>, sum: real, n: nat)
    requires SumApy(table, sel) == Num(sum) && |sel| == n && n > 0
    ensures ParseFloat(TotalApy(table, sel)) == Num(RoundedTo(sum / n as real, 1))
  {
    TotalApyMean(table, sel, sum);
  }

  /** Selecting an id that no listed protocol has leaves the sum alone. */
  lemma MissingSum(table: ApyTable, sel: seq<int>, id: int, sum: real)
    requires SumApy(table, sel) == Num(sum)
    requires forall k :: 0 <= k < |table| ==> table[k].0 != id
    ensures SumApy(table, sel + [id]) == Num(sum)
  {
    MissingAddsZero(table, id);
    SumApyAppend(table, sel, id);
  }
}
