/** The `GET /api/protocols` route: it fetches the DefiLlama protocol list, keeps the
    protocols deployed on Lisk, formats their Lisk TVL and day change, and answers with
    three fixed records when anything goes wrong. */
module ProtocolsRoute {
  import opened Options
  import opened Digits
  import opened JsText
  import opened JsNumber
  import opened FixedNotation
  import opened ProtocolRecord

  /** One entry of `chainTvls`; an absent number is NaN. */
  datatype ChainTvl = ChainTvl(tvl: Number, tvlPrevDay: Number)

  /** The fields of an upstream protocol the route reads. An absent string is "",
      an absent `chains` list or `chainTvls` object is None, an absent number is NaN. */
  datatype UpstreamProtocol = UpstreamProtocol(
    name: string,
    logo: string,
    category: string,
    chains: Option<seq<string>>,
    chainTvls: Option<map<string, ChainTvl>>,
    tvl: Number,
    tvlPrevDay: Number)

  /** What the upstream request produced: no answer at all, or an answer with its `ok`
      flag and the `protocols` array of its body (None when the body is not JSON or has
      no such array). */
  datatype Upstream = Unreachable | Answered(ok: bool, protocols: Option<seq<UpstreamProtocol>>)

  /** Some chain name contains "lisk" in any letter case. */
  predicate OnLisk(p: UpstreamProtocol)
  {
    p.chains.Some? && AnyLisk(p.chains.value)
  }

  predicate AnyLisk(chains: seq<string>)
  {
    chains != [] && (Includes(Lower(chains[0]), "lisk") || AnyLisk(chains[1..]))
  }

  lemma {:induction false} AnyLiskExists(chains: seq<string>)
    ensures AnyLisk(chains) <==> exists c :: c in chains && Includes(Lower(c), "lisk")
  {
    if chains != [] {
      AnyLiskExists(chains[1..]);
      if Includes(Lower(chains[0]), "lisk") {
        assert chains[0] in chains;
      }
      forall c | c in chains[1..]
        ensures c in chains
      {
        var k :| 0 <= k < |chains[1..]| && chains[1..][k] == c;
        assert chains[k + 1] == c;
      }
      forall c | c in chains && c != chains[0]
        ensures c in chains[1..]
      {
        var k :| 0 <= k < |chains| && chains[k] == c;
        assert chains[1..][k - 1] == c;
      }
    }
  }

  /** The Lisk protocols, in upstream order. */
  function LiskOnly(ps: seq<UpstreamProtocol>): (r: seq<UpstreamProtocol>)
    ensures |r| <= |ps|
  {
    if ps == [] then []
    else (if OnLisk(ps[0]) then [ps[0]] else []) + LiskOnly(ps[1..])
  }

  /** The filter keeps exactly the protocols on Lisk. */
  lemma {:induction false} LiskOnlyMembers(ps: seq<UpstreamProtocol>)
    ensures forall p :: p in LiskOnly(ps) <==> p in ps && OnLisk(p)
  {
    if ps != [] {
      LiskOnlyMembers(ps[1..]);
      assert forall p :: p in ps <==> p == ps[0] || p in ps[1..];
    }
  }

  /** The filter keeps upstream order: it distributes over concatenation. */
  lemma {:induction false} LiskOnlyAppend(ps: seq<UpstreamProtocol>, qs: seq<UpstreamProtocol>)
    ensures LiskOnly(ps + qs) == LiskOnly(ps) + LiskOnly(qs)
  {
    if ps == [] {
      assert ps + qs == qs;
    } else {
      var h := if OnLisk(ps[0]) then [ps[0]] else [];
      assert (ps + qs)[0] == ps[0] && (ps + qs)[1..] == ps[1..] + qs;
      assert LiskOnly(ps + qs) == h + LiskOnly(ps[1..] + qs);
      LiskOnlyAppend(ps[1..], qs);
      assert h + (LiskOnly(ps[1..]) + LiskOnly(qs)) == (h + LiskOnly(ps[1..])) + LiskOnly(qs);
    }
  }

  /** `chainTvls?.['Lisk'] || chainTvls?.['lisk']`. */
  function LiskChainData(p: UpstreamProtocol): Option<ChainTvl>
  {
    match p.chainTvls
    case None => None
    case Some(m) =>
      if "Lisk" in m then Some(m["Lisk"])
      else if "lisk" in m then Some(m["lisk"])
      else None
  }

  /** JavaScript `a || b` on numbers. */
  function OrElse(a: Number, b: Number): Number
  {
    if Truthy(a) then a else b
  }

  /** `liskChainData?.tvl || protocol.tvl || 0`. */
  function CurrentTvl(p: UpstreamProtocol): (t: Number)
    ensures t.Num?
  {
    var lisk := if LiskChainData(p).Some? then LiskChainData(p).value.tvl else NaN;
    OrElse(lisk, OrElse(p.tvl, Num(0.0)))
  }

  /** `liskChainData?.tvlPrevDay || protocol.tvlPrevDay`. */
  function PrevDayTvl(p: UpstreamProtocol): Number
  {
    var lisk := if LiskChainData(p).Some? then LiskChainData(p).value.tvlPrevDay else NaN;
    OrElse(lisk, p.tvlPrevDay)
  }

  /** The current TVL is the Lisk figure when it is a non-zero number, else the
      protocol's overall figure when that is, else 0. */
  lemma CurrentTvlChoice(p: UpstreamProtocol)
    ensures LiskChainData(p).Some? && Truthy(LiskChainData(p).value.tvl) ==> CurrentTvl(p) == LiskChainData(p).value.tvl
    ensures (LiskChainData(p).None? || !Truthy(LiskChainData(p).value.tvl)) && Truthy(p.tvl) ==> CurrentTvl(p) == p.tvl
    ensures (LiskChainData(p).None? || !Truthy(LiskChainData(p).value.tvl)) && !Truthy(p.tvl) ==> CurrentTvl(p) == Num(0.0)
  {
  }

  /** The route's `formatTVL`: "$0" for NaN, millions and thousands with one decimal,
      smaller values with none; there is no billions tier. */
  function FormatTvl(tvl: Number): string
  {
    if tvl.NaN? then "$0"
    else if tvl.v >= 1000000.0 then "$" + ToFixed(Num(tvl.v / 1000000.0), 1) + "M"
    else if tvl.v >= 1000.0 then "$" + ToFixed(Num(tvl.v / 1000.0), 1) + "K"
    else "$" + ToFixed(tvl, 0)
  }

  /** The unit letter names the tier and the figure after "$" reads back as the TVL in
      that unit, rounded; a billion-dollar TVL is still shown in millions. */
  lemma FormatTvlTiers(v: real)
    requires v >= 0.0
    ensures FormatTvl(Num(v))[0] == '$'
    ensures v >= 1000000.0 ==>
      FormatTvl(Num(v))[|FormatTvl(Num(v))| - 1] == 'M' && ParseFloat(FormatTvl(Num(v))[1..]) == Num(RoundedTo(v / 1000000.0, 1))
    ensures 1000.0 <= v < 1000000.0 ==>
      FormatTvl(Num(v))[|FormatTvl(Num(v))| - 1] == 'K' && ParseFloat(FormatTvl(Num(v))[1..]) == Num(RoundedTo(v / 1000.0, 1))
    ensures v < 1000.0 ==>
      IsDecimalDigit(FormatTvl(Num(v))[|FormatTvl(Num(v))| - 1]) && ParseFloat(FormatTvl(Num(v))[1..]) == Num(RoundedTo(v, 0))
  {
    if v >= 1000000.0 {
      MillionsTier(v);
    } else if v >= 1000.0 {
      ThousandsTier(v);
    } else {
      DollarsTier(v);
    }
  }

  lemma MillionsTier(v: real)
    requires v >= 1000000.0
    ensures var s := FormatTvl(Num(v));
      s[0] == '$' && s[|s| - 1] == 'M' && ParseFloat(s[1..]) == Num(RoundedTo(v / 1000000.0, 1))
  {
    MillionsText(v, FormatTvl(Num(v)));
    TierLabel(FormatTvl(Num(v)), v / 1000000.0, 1, "M");
  }

  lemma MillionsText(v: real, s: string)
    requires v >= 1000000.0 && s == FormatTvl(Num(v))
    ensures s == ['$'] + ToFixed(Num(v / 1000000.0), 1) + "M"
  {
  }

  lemma ThousandsTier(v: real)
    requires 1000.0 <= v < 1000000.0
    ensures var s := FormatTvl(Num(v));
      s[0] == '$' && s[|s| - 1] == 'K' && ParseFloat(s[1..]) == Num(RoundedTo(v / 1000.0, 1))
  {
    ThousandsText(v, FormatTvl(Num(v)));
    TierLabel(FormatTvl(Num(v)), v / 1000.0, 1, "K");
  }

  lemma ThousandsText(v: real, s: string)
    requires 1000.0 <= v < 1000000.0 && s == FormatTvl(Num(v))
    ensures s == ['$'] + ToFixed(Num(v / 1000.0), 1) + "K"
  {
  }

  lemma DollarsTier(v: real)
    requires 0.0 <= v < 1000.0
    ensures var s := FormatTvl(Num(v));
      s[0] == '$' && IsDecimalDigit(s[|s| - 1]) && ParseFloat(s[1..]) == Num(RoundedTo(v, 0))
  {
    var s := FormatTvl(Num(v));
    assert s == ['$'] + ToFixed(Num(v), 0) + "";
    TierLabel(s, v, 0, "");
  }

  lemma TierLabel(s: string, x: real, f: nat, unit: string)
    requires x >= 0.0 && EndsLiteral(unit) && s == ['$'] + ToFixed(Num(x), f) + unit
    ensures s[0] == '$' && ParseFloat(s[1..]) == Num(RoundedTo(x, f))
    ensures unit == [] ==> IsDecimalDigit(s[|s| - 1])
    ensures unit != [] ==> s[|s| - 1] == unit[|unit| - 1]
  {
    PrefixedLabel('$', x, f, unit);
  }

  /** `((current - previous) / previous) * 100`. */
  function ChangePercent(current: Number, previous: Number): Number
    requires previous != Num(0.0)
  {
    Mul(Div(Sub(current, previous), previous), Num(100.0))
  }

  /** The route's `calculateChange`: "0.0%" when the previous figure is missing or zero,
      otherwise the percentage change with one decimal and an explicit sign. */
  function CalculateChange(current: Number, previous: Number): string
  {
    if !Truthy(previous) then "0.0%"
    else
      var change := ChangePercent(current, previous);
      var formatted := ToFixed(change, 1);
      if AtLeast(change, 0.0) then "+" + formatted + "%" else formatted + "%"
  }

  /** With a previous figure the label starts with "+" exactly when the change is not
      negative, with "-" exactly when it is, and reads back as the rounded change. */
  lemma ChangeReadsBack(current: real, previous: real)
    requires previous != 0.0
    ensures var c := (current - previous) / previous * 100.0;
      var s := CalculateChange(Num(current), Num(previous));
      (s[0] == '+' <==> c >= 0.0) && (s[0] == '-' <==> c < 0.0) && ParseFloat(s) == Num(RoundedTo(c, 1))
  {
    var c := (current - previous) / previous * 100.0;
    assert ChangePercent(Num(current), Num(previous)) == Num(c);
    SignedChange(c, CalculateChange(Num(current), Num(previous)));
  }

  /** A change `c` rendered the way both change labels do it. */
  lemma SignedChange(c: real, s: string)
    requires s == if c >= 0.0 then "+" + ToFixed(Num(c), 1) + "%" else ToFixed(Num(c), 1) + "%"
    ensures (s[0] == '+' <==> c >= 0.0) && (s[0] == '-' <==> c < 0.0) && ParseFloat(s) == Num(RoundedTo(c, 1))
  {
    ToFixedSign(c, 1);
    if c >= 0.0 {
      PlusFixedRoundTrip(c, 1, "%");
    } else {
      ToFixedRoundTrip(c, 1, "%");
    }
  }

  /** A missing or zero previous figure reads as no change. */
  lemma ChangeWithoutHistory(current: Number, previous: Number)
    requires previous == NaN || previous == Num(0.0)
    ensures CalculateChange(current, previous) == "0.0%"
    ensures ParseFloat(CalculateChange(current, previous)) == Num(0.0)
  {
    var s := CalculateChange(current, previous);
    assert s == "0.0%";
    ZeroPercent();
  }

  lemma ZeroPercent()
    ensures ParseFloat("0.0%") == Num(0.0)
  {
    DigitPointDigit("0.0%", '0', '0', "%", 0.0);
  }

  /** The record shown for the `index`-th Lisk protocol. */
  function ToDisplay(p: UpstreamProtocol, index: nat): Protocol
  {
    Protocol(
      id := index + 1,
      name := p.name,
      category := if p.category != "" then p.category else "DeFi",
      apy := "8.5%",
      tvl := FormatTvl(CurrentTvl(p)),
      input := "LSK",
      output := "aLSK",
      risk := "Low",
      status := "Active",
      change := CalculateChange(CurrentTvl(p), PrevDayTvl(p)),
      logo := if p.logo != "" then p.logo else "/placeholder-logo.svg")
  }

  /** The Lisk protocols, numbered from 1 in upstream order. */
  function Transform(ps: seq<UpstreamProtocol>): seq<Protocol>
  {
    var lisk := LiskOnly(ps);
    seq(|lisk|, i requires 0 <= i < |lisk| => ToDisplay(lisk[i], i))
  }

  /** The three records served when the upstream fetch fails. */
  function FallbackProtocols(): (r: seq<Protocol>)
    ensures |r| == 3
  {
    [ Protocol(1, "Uniswap V3", "DEX", "12.3%", "$2.5M", "LSK", "LP", "Medium", "Active", "+2.1%", "/placeholder-logo.svg"),
      Protocol(2, "Mellow LRT", "Liquid Staking", "8.7%", "$1.8M", "LSK", "stLSK", "Low", "Active", "+1.5%", "/placeholder-logo.svg"),
      Protocol(3, "Beefy", "Yield Farming", "15.2%", "$950.0K", "LSK", "bLSK", "Medium", "Active", "-0.8%", "/placeholder-logo.svg") ]
  }

  const FallbackError: string := "Using fallback data due to API error"

  /** `GET /api/protocols`. */
  function Get(upstream: Upstream): ProtocolsResponse
  {
    match upstream
    case Answered(true, Some(ps)) =>
      var list := Transform(ps);
      ProtocolsResponse(true, list, |list|, None)
    case _ =>
      ProtocolsResponse(false, FallbackProtocols(), |FallbackProtocols()|, Some(FallbackError))
  }

  /** The answer always counts its own records, reports success exactly when the upstream
      answered with a protocol list, and carries an error message exactly on failure. */
  lemma GetResponse(upstream: Upstream)
    ensures Get(upstream).count == |Get(upstream).protocols|
    ensures Get(upstream).success <==> upstream.Answered? && upstream.ok && upstream.protocols.Some?
    ensures Get(upstream).error.Some? <==> !Get(upstream).success
    ensures !Get(upstream).success ==> Get(upstream).protocols == FallbackProtocols()
  {
  }

  /** Every served record is numbered by position, is Active with the fixed Lisk fields,
      falls back to the placeholder logo when the upstream logo is missing, carries the
      day-change label, and is the display record of the Lisk protocol at the same
      position; the TVL label is never the NaN placeholder's doing, since the current TVL
      is always a number. */
  lemma TransformRecords(ps: seq<UpstreamProtocol>)
    ensures |Transform(ps)| == |LiskOnly(ps)|
    ensures forall i :: 0 <= i < |Transform(ps)| ==>
      var r := Transform(ps)[i];
      var p := LiskOnly(ps)[i];
      r.id == i + 1 && r.name == p.name && OnLisk(p) &&
      r.status == "Active" && r.apy == "8.5%" && r.input == "LSK" && r.output == "aLSK" && r.risk == "Low" &&
      r.tvl == FormatTvl(CurrentTvl(p)) && CurrentTvl(p).Num? &&
      (p.category != "" ==> r.category == p.category) && (p.category == "" ==> r.category == "DeFi") &&
      (p.logo != "" ==> r.logo == p.logo) && (p.logo == "" ==> r.logo == "/placeholder-logo.svg") &&
      r.change == CalculateChange(CurrentTvl(p), PrevDayTvl(p)) && r == ToDisplay(p, i)
  {
    LiskOnlyMembers(ps);
    forall i | 0 <= i < |Transform(ps)|
      ensures OnLisk(LiskOnly(ps)[i])
    {
      assert LiskOnly(ps)[i] in LiskOnly(ps);
    }
  }

  /** Upstream data that arrives later never changes the records already numbered. */
  lemma TransformPrefix(ps: seq<UpstreamProtocol>, qs: seq<UpstreamProtocol>)
    ensures Transform(ps) <= Transform(ps + qs)
  {
    LiskOnlyAppend(ps, qs);
    var a := Transform(ps);
    var b := Transform(ps + qs);
    assert |a| <= |b|;
    forall i | 0 <= i < |a|
      ensures a[i] == b[i]
    {
      assert LiskOnly(ps + qs)[i] == LiskOnly(ps)[i];
    }
  }
}
