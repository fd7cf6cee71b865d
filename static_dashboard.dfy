/** The static dashboard page: a fixed table of five protocols, the selection of ids,
    the deposit amount typed by the user and the deposit button's enabled state. */
module StaticDashboard {
  import opened Options
  import opened Digits
  import opened JsText
  import opened JsNumber
  import opened FixedNotation
  import opened Selection

  /** A row of the static table; `api` takes the place of the live records' logo. */
  datatype StaticProtocol = StaticProtocol(
    id: int,
    name: string,
    category: string,
    apy: string,
    tvl: string,
    input: string,
    output: string,
    risk: string,
    status: string,
    api: string,
    change: string)

  /** The `protocols` table. */
  function Protocols(): (ps: seq<StaticProtocol>)
    ensures |ps| == 5
  {
    [ StaticProtocol(1, "Uniswap V3", "DEX", "12.4%", "$2.1B", "ETH/USDC", "LP Tokens", "Medium", "Active", "v3.uniswap.org", "+2.1%"),
      StaticProtocol(2, "Aave V3", "Lending", "8.7%", "$5.8B", "USDC", "aUSDC", "Low", "Active", "api.aave.com", "+0.8%"),
      StaticProtocol(3, "Compound III", "Lending", "6.2%", "$1.9B", "USDT", "cUSDT", "Low", "Active", "compound.finance", "-0.3%"),
      StaticProtocol(4, "Curve Finance", "DEX", "15.8%", "$3.2B", "stETH/ETH", "CRV-LP", "Medium", "Active", "api.curve.fi", "+4.2%"),
      StaticProtocol(5, "Yearn Finance", "Vault", "18.9%", "$890M", "WETH", "yvWETH", "High", "Active", "yearn.finance", "+6.7%") ]
  }

  function Table(): (t: ApyTable)
    ensures |t| == 5
  {
    seq(5, k requires 0 <= k < 5 => (Protocols()[k].id, Protocols()[k].apy))
  }

  /** The rows carry the ids 1 to 5 in order, so every id finds its own row and each row
      toggles on its own; any other id finds nothing. */
  lemma StaticIds(id: int)
    ensures forall k :: 0 <= k < 5 ==> Table()[k].0 == k + 1
    ensures 1 <= id <= 5 ==> FindApy(Table(), id) == Some(Protocols()[id - 1].apy)
    ensures (id < 1 || id > 5) ==> FindApy(Table(), id) == None
  {
    var t := Table();
    var ps := Protocols();
    assert ps[0].id == 1 && ps[1].id == 2 && ps[2].id == 3 && ps[3].id == 4 && ps[4].id == 5;
    NumberedFind(t, id);
  }

  class StaticDashboardPage {
    /** The selected ids (`selectedProtocols`). */
    var selected: seq<int>
    /** The typed deposit amount (`depositAmount`). */
    var depositAmount: string

    constructor()
      ensures selected == [] && depositAmount == ""
      ensures DepositDisabled()
    {
      selected := [];
      depositAmount := "";
    }

    /** `toggleProtocol(id)`: an absent id is appended, a present one removed everywhere;
        a duplicate-free selection stays duplicate-free. */
    method Toggle(id: int)
      modifies this
      ensures selected == Toggled(old(selected), id)
      ensures id !in old(selected) ==> selected == old(selected) + [id] && (depositAmount != "" ==> !DepositDisabled())
      ensures id in old(selected) ==> id !in selected && forall x :: x in selected <==> x in old(selected) && x != id
      ensures Distinct(old(selected)) ==> Distinct(selected)
      ensures depositAmount == old(depositAmount)
    {
      if id in selected {
        TogglePresent(selected, id, selected, []);
      }
      if Distinct(selected) {
        ToggleDistinct(selected, id);
      }
      selected := Toggled(selected, id);
    }

    /** The amount input's change handler. */
    method SetDepositAmount(amount: string)
      modifies this
      ensures depositAmount == amount && selected == old(selected)
      ensures amount == "" ==> DepositDisabled()
    {
      depositAmount := amount;
    }

    /** `!depositAmount || selectedProtocols.length === 0`. */
    predicate DepositDisabled()
      reads this
    {
      depositAmount == "" || |selected| == 0
    }

    /** `totalAPY` over the static table. */
    function TotalApy(): string
      reads this
    {
      Selection.TotalApy(Table(), selected)
    }

    function ActivePositions(): nat
      reads this
    {
      |selected|
    }
  }

  /** Aave V3 alone shows 8.7. */
  lemma AaveAlone()
    ensures ParseFloat(Selection.TotalApy(Table(), [2])) == Num(8.7)
  {
    AaveTerm();
    SingleSelection(Table(), 2, 8.7);
    RoundedEightSeven();
  }

  lemma RoundedEightSeven()
    ensures RoundedTo(8.7, 1) == 8.7
  {
    assert Pow10(1) == 10;
    assert RoundedUnits(8.7, 1) == 87;
  }

  lemma AaveTerm()
    ensures ApyTerm(Table(), 2) == Num(8.7)
  {
    StaticIds(2);
    assert Protocols()[1].apy == "8.7%";
    EightSevenPercent();
  }

  lemma EightSevenPercent()
    ensures ParseFloat(ReplaceFirst("8.7%", '%', "")) == Num(8.7)
  {
    DropLastMark("8.7%", "8.7", '%');
    DigitPointDigit("8.7", '8', '7', "", 8.7);
  }

  /** An id outside the table adds nothing but still counts in the divisor: selecting
      Compound III and then an unknown id halves its 6.2 to 3.1. */
  lemma UnknownIdHalves()
    ensures ParseFloat(Selection.TotalApy(Table(), [3] + [9])) == Num(3.1)
  {
    StaticIds(9);
    CompoundTerm();
    AfterMissing(Table(), [3], 3, 9, 6.2);
    HalfRounded();
  }

  lemma AfterMissing(t: ApyTable, sel: seq<int>, a: int, b: int, v: real)
    requires sel == [a] && ApyTerm(t, a) == Num(v)
    requires forall k :: 0 <= k < |t| ==> t[k].0 != b
    ensures ParseFloat(Selection.TotalApy(t, sel + [b])) == Num(RoundedTo(v / (|sel| + 1) as real, 1))
  {
    SingleSum(t, a, v);
    MissingCountsInDivisor(t, sel, b, v);
  }

  lemma HalfRounded()
    ensures RoundedTo(6.2 / (|[3]| + 1) as real, 1) == 3.1
  {
    assert 6.2 / (|[3]| + 1) as real == 3.1;
    assert Pow10(1) == 10;
    assert RoundedUnits(3.1, 1) == 31;
  }

  lemma CompoundTerm()
    ensures ApyTerm(Table(), 3) == Num(6.2)
  {
    StaticIds(3);
    assert Protocols()[2].apy == "6.2%";
    SixTwoPercent();
  }

  lemma SixTwoPercent()
    ensures ParseFloat(ReplaceFirst("6.2%", '%', "")) == Num(6.2)
  {
    DropLastMark("6.2%", "6.2", '%');
    DigitPointDigit("6.2", '6', '2', "", 6.2);
  }
}
