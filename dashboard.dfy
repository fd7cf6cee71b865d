/** The live dashboard page: it loads the protocol list through `getProtocolsData` and
    keeps the ids the user has selected, showing their mean APY and their count. */
module Dashboard {
  import opened Options
  import opened Digits
  import opened JsText
  import opened JsNumber
  import opened FixedNotation
  import opened ProtocolRecord
  import opened Selection
  import opened DefiLlama

  /** The id and APY label of each loaded protocol. */
  function ApyTableOf(ps: seq<Protocol>): (t: ApyTable)
    ensures |t| == |ps| && forall i :: 0 <= i < |ps| ==> t[i] == (ps[i].id, ps[i].apy)
  {
    seq(|ps|, i requires 0 <= i < |ps| => (ps[i].id, ps[i].apy))
  }

  class DashboardPage {
    /** The loaded protocol list (`protocols`). */
    var protocols: seq<Protocol>
    /** The selected ids (`selectedProtocols`). */
    var selected: seq<int>
    var loading: bool

    /** The page as first rendered: nothing loaded, nothing selected, loading. */
    constructor()
      ensures protocols == [] && selected == [] && loading
    {
      protocols := [];
      selected := [];
      loading := true;
    }

    /** The load effect: `setProtocols(await getProtocolsData())`, then `setLoading(false)`.
        The selection is kept. */
    method Load(reply: RouteReply)
      modifies this
      ensures protocols == GetProtocolsData(reply)
      ensures selected == old(selected) && !loading
    {
      protocols := GetProtocolsData(reply);
      loading := false;
    }

    /** `toggleProtocol(id)`: an absent id is appended, a present one removed everywhere;
        a duplicate-free selection stays duplicate-free. */
    method Toggle(id: int)
      modifies this
      ensures selected == Toggled(old(selected), id)
      ensures id !in old(selected) ==> selected == old(selected) + [id]
      ensures id in old(selected) ==> id !in selected && forall x :: x in selected <==> x in old(selected) && x != id
      ensures Distinct(old(selected)) ==> Distinct(selected)
      ensures protocols == old(protocols) && loading == old(loading)
    {
      if id in selected {
        TogglePresent(selected, id, selected, []);
      }
      if Distinct(selected) {
        ToggleDistinct(selected, id);
      }
      selected := Toggled(selected, id);
    }

    /** `totalAPY` over the loaded list. */
    function TotalApy(): string
      reads this
    {
      Selection.TotalApy(ApyTableOf(protocols), selected)
    }

    /** The "Active Positions" figure. */
    function ActivePositions(): nat
      reads this
    {
      |selected|
    }
  }

  /** With the route unreachable, a page that loads and selects the only fallback record
      shows a mean APY that reads as 8.5 and one active position. */
  method FallbackSelection() returns (apy: string, positions: nat)
    ensures ParseFloat(apy) == Num(8.5) && positions == 1
  {
    var page := new DashboardPage();
    page.Load(NoReply);
    page.Toggle(1);
    apy := page.TotalApy();
    positions := page.ActivePositions();
    FallbackApy();
  }

  lemma FallbackApy()
    ensures ParseFloat(Selection.TotalApy(ApyTableOf(LiskFallback()), [1])) == Num(8.5)
  {
    FallbackApyTerm();
    SingleSelection(ApyTableOf(LiskFallback()), 1, 8.5);
    RoundedEightAndAHalf();
  }

  lemma RoundedEightAndAHalf()
    ensures RoundedTo(8.5, 1) == 8.5
  {
    assert Pow10(1) == 10;
    assert RoundedUnits(8.5, 1) == 85;
  }

  lemma FallbackApyTerm()
    ensures ApyTerm(ApyTableOf(LiskFallback()), 1) == Num(8.5)
  {
    var t := ApyTableOf(LiskFallback());
    assert FindIndex(t, 1) == Some(0);
    assert FindApy(t, 1) == Some("8.5%");
    DropLastMark("8.5%", "8.5", '%');
    EightAndAHalf();
  }

  lemma EightAndAHalf()
    ensures ParseFloat("8.5") == Num(8.5)
  {
    DigitPointDigit("8.5", '8', '5', "", 8.5);
  }
}
