/** The client-side DefiLlama helpers: turning raw DefiLlama protocols into display
    records (APY estimate, TVL label, day change, risk and token flow by category, logo
    fallback) and loading the protocol list from the server route with a local fallback. */
module DefiLlama {
  import opened Options
  import opened Digits
  import opened JsText
  import opened JsNumber
  import opened FixedNotation
  import opened ProtocolRecord
  import ProtocolsRoute

  /** The fields of a DefiLlama protocol the transform reads; an absent number is NaN
      and an absent logo is "". */
  datatype LlamaProtocol = LlamaProtocol(
    name: string,
    category: string,
    tvl: Number,
    tvlPrevDay: Number,
    tvlPrevWeek: Number,
    logo: string)

  /** The weekly TVL change in percent, annualised over 52 weeks. */
  function AnnualizedGrowth(tvl: Number, tvlPrevWeek: Number): Number
    requires tvlPrevWeek != Num(0.0)
  {
    Mul(Mul(Div(Sub(tvl, tvlPrevWeek), tvlPrevWeek), Num(100.0)), Num(52.0))
  }

  /** `calculateAPY`: the magnitude of the annualised weekly growth, one decimal, "%". */
  function CalculateApy(tvl: Number, tvlPrevWeek: Number): string
  {
    if tvlPrevWeek == Num(0.0) then "0.0%"
    else ToFixed(Abs(AnnualizedGrowth(tvl, tvlPrevWeek)), 1) + "%"
  }

  /** The estimate is never shown negative (a shrinking TVL shows as a positive APY), and
      the figure, read with or without its "%", is the annualised growth's magnitude
      rounded to one decimal. */
  lemma ApyReadsBack(tvl: Number, tvlPrevWeek: Number, g: real)
    requires tvlPrevWeek != Num(0.0) && AnnualizedGrowth(tvl, tvlPrevWeek) == Num(g)
    ensures var a := if g < 0.0 then -g else g;
      var s := CalculateApy(tvl, tvlPrevWeek);
      IsDecimalDigit(s[0]) && ParseFloat(s) == Num(RoundedTo(a, 1)) &&
      ParseFloat(ReplaceFirst(s, '%', "")) == Num(RoundedTo(a, 1))
  {
    var a := if g < 0.0 then -g else g;
    assert CalculateApy(tvl, tvlPrevWeek) == ToFixed(Num(a), 1) + "%";
    ToFixedSign(a, 1);
    ToFixedRoundTrip(a, 1, "%");
    PercentRoundTrip(a, 1);
  }

  /** Between two finite figures the growth is (tvl - tvlPrevWeek) / tvlPrevWeek * 100 * 52. */
  lemma GrowthOf(tvl: real, tvlPrevWeek: real)
    requires tvlPrevWeek != 0.0
    ensures AnnualizedGrowth(Num(tvl), Num(tvlPrevWeek)) == Num((tvl - tvlPrevWeek) / tvlPrevWeek * 100.0 * 52.0)
  {
  }

  /** Between two finite figures the APY label reads back as the magnitude of
      (tvl - tvlPrevWeek) / tvlPrevWeek * 100 * 52, rounded to one decimal, and starts
      with a digit, never a sign. */
  lemma ApyOfFigures(tvl: real, tvlPrevWeek: real, g: real)
    requires tvlPrevWeek != 0.0 && g == (tvl - tvlPrevWeek) / tvlPrevWeek * 100.0 * 52.0
    ensures var s := CalculateApy(Num(tvl), Num(tvlPrevWeek));
      IsDecimalDigit(s[0]) && ParseFloat(s) == Num(RoundedTo(if g < 0.0 then -g else g, 1))
  {
    GrowthOf(tvl, tvlPrevWeek);
    ApyReadsBack(Num(tvl), Num(tvlPrevWeek), g);
  }

  /** A zero previous figure is shown as no growth and no change: the APY label is the
      unsigned "0.0%", which reads back as 0, and the change label is "+0.0%". */
  lemma ZeroPrevious(tvl: Number)
    ensures CalculateApy(tvl, Num(0.0)) == "0.0%" && ParseFloat(CalculateApy(tvl, Num(0.0))) == Num(0.0)
    ensures CalculateChange(tvl, Num(0.0)) == "+0.0%"
  {
    ProtocolsRoute.ZeroPercent();
  }

  /** A protocol without a previous-week figure shows "NaN%". */
  lemma ApyWithoutHistory(tvl: Number)
    ensures CalculateApy(tvl, NaN) == "NaN%"
  {
  }

  /** `((tvl - tvlPrevDay) / tvlPrevDay) * 100`. */
  function DayChange(tvl: Number, tvlPrevDay: Number): Number
    requires tvlPrevDay != Num(0.0)
  {
    Mul(Div(Sub(tvl, tvlPrevDay), tvlPrevDay), Num(100.0))
  }

  /** `calculateChange`: "+0.0%" without a previous-day change to measure, otherwise the
      change with one decimal and a "+" in front of a non-negative one. */
  function CalculateChange(tvl: Number, tvlPrevDay: Number): string
  {
    if tvlPrevDay == Num(0.0) then "+0.0%"
    else
      var change := DayChange(tvl, tvlPrevDay);
      var sign := if AtLeast(change, 0.0) then "+" else "";
      sign + ToFixed(change, 1) + "%"
  }

  /** The label starts with "+" exactly when the change is not negative and with "-"
      exactly when it is, and reads back as the change rounded to one decimal. */
  lemma ChangeReadsBack(tvl: Number, tvlPrevDay: Number, c: real)
    requires tvlPrevDay != Num(0.0) && DayChange(tvl, tvlPrevDay) == Num(c)
    ensures var s := CalculateChange(tvl, tvlPrevDay);
      (s[0] == '+' <==> c >= 0.0) && (s[0] == '-' <==> c < 0.0) && ParseFloat(s) == Num(RoundedTo(c, 1))
  {
    ChangeLabel(tvl, tvlPrevDay, c);
    ProtocolsRoute.SignedChange(c, CalculateChange(tvl, tvlPrevDay));
  }

  /** Between two finite figures the change is (tvl - tvlPrevDay) / tvlPrevDay * 100. */
  lemma DayChangeOf(tvl: real, tvlPrevDay: real)
    requires tvlPrevDay != 0.0
    ensures DayChange(Num(tvl), Num(tvlPrevDay)) == Num((tvl - tvlPrevDay) / tvlPrevDay * 100.0)
  {
  }

  /** Between two finite figures the change label reads back as
      (tvl - tvlPrevDay) / tvlPrevDay * 100 rounded to one decimal, and starts with "+"
      exactly when that change is not negative. */
  lemma ChangeOfFigures(tvl: real, tvlPrevDay: real, c: real)
    requires tvlPrevDay != 0.0 && c == (tvl - tvlPrevDay) / tvlPrevDay * 100.0
    ensures var s := CalculateChange(Num(tvl), Num(tvlPrevDay));
      (s[0] == '+' <==> c >= 0.0) && (s[0] == '-' <==> c < 0.0) && ParseFloat(s) == Num(RoundedTo(c, 1))
  {
    DayChangeOf(tvl, tvlPrevDay);
    ChangeReadsBack(Num(tvl), Num(tvlPrevDay), c);
  }

  /** The label is the change with one decimal, after a plus sign when it is not negative. */
  lemma ChangeLabel(tvl: Number, tvlPrevDay: Number, c: real)
    requires tvlPrevDay != Num(0.0) && DayChange(tvl, tvlPrevDay) == Num(c)
    ensures CalculateChange(tvl, tvlPrevDay) == if c >= 0.0 then "+" + ToFixed(Num(c), 1) + "%" else ToFixed(Num(c), 1) + "%"
  {
    assert "" + ToFixed(Num(c), 1) == ToFixed(Num(c), 1);
  }

  /** `formatTVL`: billions with one decimal, millions and thousands with none, smaller
      values as whole dollars. */
  function FormatTvl(tvl: Number): (s: string)
    ensures |s| >= 2
  {
    if AtLeast(tvl, 1000000000.0) then "$" + ToFixed(Div(tvl, Num(1000000000.0)), 1) + "B"
    else if AtLeast(tvl, 1000000.0) then "$" + ToFixed(Div(tvl, Num(1000000.0)), 0) + "M"
    else if AtLeast(tvl, 1000.0) then "$" + ToFixed(Div(tvl, Num(1000.0)), 0) + "K"
    else "$" + ToFixed(tvl, 0)
  }

  /** The unit letter names the tier, and the figure after "$" reads back as the TVL in
      that unit rounded to the tier's decimals. */
  lemma FormatTvlTiers(v: real)
    requires v >= 0.0
    ensures FormatTvl(Num(v))[0] == '$'
    ensures v >= 1000000000.0 ==>
      FormatTvl(Num(v))[|FormatTvl(Num(v))| - 1] == 'B' && ParseFloat(FormatTvl(Num(v))[1..]) == Num(RoundedTo(v / 1000000000.0, 1))
    ensures 1000000.0 <= v < 1000000000.0 ==>
      FormatTvl(Num(v))[|FormatTvl(Num(v))| - 1] == 'M' && ParseFloat(FormatTvl(Num(v))[1..]) == Num(RoundedTo(v / 1000000.0, 0))
    ensures 1000.0 <= v < 1000000.0 ==>
      FormatTvl(Num(v))[|FormatTvl(Num(v))| - 1] == 'K' && ParseFloat(FormatTvl(Num(v))[1..]) == Num(RoundedTo(v / 1000.0, 0))
    ensures v < 1000.0 ==>
      IsDecimalDigit(FormatTvl(Num(v))[|FormatTvl(Num(v))| - 1]) && ParseFloat(FormatTvl(Num(v))[1..]) == Num(RoundedTo(v, 0))
  {
    if v >= 1000000000.0 {
      BillionsTier(v);
    } else if v >= 1000000.0 {
      MillionsTier(v);
    } else if v >= 1000.0 {
      ThousandsTier(v);
    } else {
      DollarsTier(v);
    }
  }

  lemma BillionsTier(v: real)
    requires v >= 1000000000.0
    ensures var s := FormatTvl(Num(v));
      s[0] == '$' && s[|s| - 1] == 'B' && ParseFloat(s[1..]) == Num(RoundedTo(v / 1000000000.0, 1))
  {
    BillionsText(v, FormatTvl(Num(v)));
    ProtocolsRoute.TierLabel(FormatTvl(Num(v)), v / 1000000000.0, 1, "B");
  }

  lemma BillionsText(v: real, s: string)
    requires v >= 1000000000.0 && s == FormatTvl(Num(v))
    ensures s == ['$'] + ToFixed(Num(v / 1000000000.0), 1) + "B"
  {
    assert Div(Num(v), Num(1000000000.0)) == Num(v / 1000000000.0);
  }

  lemma MillionsTier(v: real)
    requires 1000000.0 <= v < 1000000000.0
    ensures var s := FormatTvl(Num(v));
      s[0] == '$' && s[|s| - 1] == 'M' && ParseFloat(s[1..]) == Num(RoundedTo(v / 1000000.0, 0))
  {
    MillionsText(v, FormatTvl(Num(v)));
    ProtocolsRoute.TierLabel(FormatTvl(Num(v)), v / 1000000.0, 0, "M");
  }

  lemma MillionsText(v: real, s: string)
    requires 1000000.0 <= v < 1000000000.0 && s == FormatTvl(Num(v))
    ensures s == ['$'] + ToFixed(Num(v / 1000000.0), 0) + "M"
  {
    assert Div(Num(v), Num(1000000.0)) == Num(v / 1000000.0);
  }

  lemma ThousandsTier(v: real)
    requires 1000.0 <= v < 1000000.0
    ensures var s := FormatTvl(Num(v));
      s[0] == '$' && s[|s| - 1] == 'K' && ParseFloat(s[1..]) == Num(RoundedTo(v / 1000.0, 0))
  {
    ThousandsText(v, FormatTvl(Num(v)));
    ProtocolsRoute.TierLabel(FormatTvl(Num(v)), v / 1000.0, 0, "K");
  }

  lemma ThousandsText(v: real, s: string)
    requires 1000.0 <= v < 1000000.0 && s == FormatTvl(Num(v))
    ensures s == ['$'] + ToFixed(Num(v / 1000.0), 0) + "K"
  {
    assert Div(Num(v), Num(1000.0)) == Num(v / 1000.0);
  }

  lemma DollarsTier(v: real)
    requires 0.0 <= v < 1000.0
    ensures var s := FormatTvl(Num(v));
      s[0] == '$' && IsDecimalDigit(s[|s| - 1]) && ParseFloat(s[1..]) == Num(RoundedTo(v, 0))
  {
    var s := FormatTvl(Num(v));
    assert s == ['$'] + ToFixed(Num(v), 0) + "";
    ProtocolsRoute.TierLabel(s, v, 0, "");
  }

  /** `riskMap` of `getRiskLevel`. */
  const RiskTable: map<string, string> := map[
    "Lending" := "Low",
    "DEX" := "Medium",
    "Liquid Staking" := "Low",
    "Restaking" := "Medium",
    "Yield" := "High",
    "Derivatives" := "High",
    "Synthetics" := "High",
    "Options" := "High",
    "Leveraged Farming" := "High",
    "Yield Farming" := "High",
    "Cross Chain" := "Medium",
    "Bridge" := "Medium",
    "RWA" := "Low",
    "Staking" := "Low"]

  /** `riskMap[category] || 'Medium'`. */
  function RiskLevel(category: string): string
  {
    var listed := if category in RiskTable then RiskTable[category] else "";
    if listed != "" then listed else "Medium"
  }

  const LowRisk: set<string> := {"Lending", "Liquid Staking", "RWA", "Staking"}
  const HighRisk: set<string> := {"Yield", "Derivatives", "Synthetics", "Options", "Leveraged Farming", "Yield Farming"}

  /** Every category gets one of three levels: Low for lending, liquid staking, real-world
      assets and staking, High for yield, derivatives, synthetics, options and farming,
      Medium for everything else, unlisted categories included. */
  lemma RiskLevels(category: string)
    ensures RiskLevel(category) in {"Low", "Medium", "High"}
    ensures RiskLevel(category) == "Low" <==> category in LowRisk
    ensures RiskLevel(category) == "High" <==> category in HighRisk
  {
  }

  /** The input and output tokens shown for a category. */
  datatype TokenFlow = TokenFlow(input: string, output: string)

  /** `categoryMap` of `getInputOutput`. */
  const FlowTable: map<string, TokenFlow> := map[
    "Lending" := TokenFlow("USDC/ETH", "aTokens"),
    "DEX" := TokenFlow("ETH/USDC", "LP Tokens"),
    "Liquid Staking" := TokenFlow("ETH", "stETH"),
    "Restaking" := TokenFlow("ETH", "Restaked ETH"),
    "Yield" := TokenFlow("Various", "Yield Tokens"),
    "Derivatives" := TokenFlow("Collateral", "Derivatives"),
    "Synthetics" := TokenFlow("Collateral", "Synths"),
    "Options" := TokenFlow("Premium", "Options"),
    "Cross Chain" := TokenFlow("Assets", "Wrapped Assets"),
    "Bridge" := TokenFlow("Assets", "Bridged Assets"),
    "RWA" := TokenFlow("Fiat/Assets", "RWA Tokens"),
    "Staking" := TokenFlow("Native Token", "Staked Token")]

  /** `getInputOutput`; the protocol name is passed but not consulted. */
  function InputOutput(category: string, name: string): TokenFlow
  {
    if category in FlowTable then FlowTable[category] else TokenFlow("Assets", "Tokens")
  }

  /** The flow depends on the category alone, and an unlisted category gets the generic
      Assets/Tokens flow. */
  lemma InputOutputByCategory(category: string, name: string, other: string)
    ensures InputOutput(category, name) == InputOutput(category, other)
    ensures category !in FlowTable ==> InputOutput(category, name) == TokenFlow("Assets", "Tokens")
  {
  }

  /** Every category with a flow also has a listed risk; the two farming categories are
      risk-rated but get the generic Assets/Tokens flow. */
  lemma FlowCategoriesRated()
    ensures FlowTable.Keys + {"Leveraged Farming", "Yield Farming"} == RiskTable.Keys
    ensures "Leveraged Farming" !in FlowTable && "Yield Farming" !in FlowTable
  {
    FlowKeysRated();
    RatedKeysFlow();
  }

  lemma FlowKeysRated()
    ensures FlowTable.Keys <= RiskTable.Keys
  {
  }

  lemma RatedKeysFlow()
    ensures RiskTable.Keys <= FlowTable.Keys + {"Leveraged Farming", "Yield Farming"}
  {
  }

  const LogoBase: string := "https://icons.llamao.fi/icons/protocols/"
  const LogoQuery: string := "?w=48&h=48"

  /** `name.toLowerCase().replace(/\s+/g, '-')`. */
  function LogoSlug(name: string): string
  {
    ReplaceSpaceRuns(Lower(name), '-')
  }

  /** The slug has no white space, and a name without white space only loses its capitals. */
  lemma LogoSlugShape(name: string)
    ensures forall i :: 0 <= i < |LogoSlug(name)| ==> !IsJsSpace(LogoSlug(name)[i])
    ensures (forall i :: 0 <= i < |name| ==> !IsJsSpace(name[i])) ==> LogoSlug(name) == Lower(name)
  {
    ReplaceSpaceRunsSpec(Lower(name), '-');
    forall i | 0 <= i < |name|
      ensures IsJsSpace(Lower(name)[i]) ==> IsJsSpace(name[i])
    {
      LowerAt(name, i);
    }
  }

  /** Each maximal run of white space in the name becomes a single "-" of the slug, and the
      text on either side is slugged on its own. */
  lemma LogoSlugRun(a: string, w: string, b: string)
    requires w != [] && forall i :: 0 <= i < |w| ==> IsJsSpace(w[i])
    requires a != [] ==> !IsJsSpace(a[|a| - 1])
    requires b != [] ==> !IsJsSpace(b[0])
    ensures LogoSlug(a + w + b) == LogoSlug(a) + "-" + LogoSlug(b)
  {
    LowerUnchanged(w);
    LowerAround(a, w, b);
    if a != [] {
      LowerAt(a, |a| - 1);
    }
    if b != [] {
      LowerAt(b, 0);
    }
    ReplaceSpaceRun(Lower(a), w, Lower(b), '-');
  }

  /** `protocol.logo || <DefiLlama icon URL>`. */
  function Logo(p: LlamaProtocol): string
  {
    if p.logo != "" then p.logo else LogoBase + LogoSlug(p.name) + LogoQuery
  }

  /** The display record of the `index`-th kept protocol. */
  function ToDisplay(p: LlamaProtocol, index: nat): Protocol
  {
    var flow := InputOutput(p.category, p.name);
    Protocol(
      id := index + 1,
      name := p.name,
      category := p.category,
      apy := CalculateApy(p.tvl, p.tvlPrevWeek),
      tvl := FormatTvl(p.tvl),
      input := flow.input,
      output := flow.output,
      risk := RiskLevel(p.category),
      status := "Active",
      change := CalculateChange(p.tvl, p.tvlPrevDay),
      logo := Logo(p))
  }

  /** `protocol.tvl > 100000000`. */
  predicate Large(p: LlamaProtocol)
  {
    Above(p.tvl, 100000000.0)
  }

  /** The protocols above $100M, in feed order. */
  function LargeOnly(ps: seq<LlamaProtocol>): (r: seq<LlamaProtocol>)
    ensures |r| <= |ps|
  {
    if ps == [] then []
    else (if Large(ps[0]) then [ps[0]] else []) + LargeOnly(ps[1..])
  }

  /** The filter keeps exactly the protocols above $100M. */
  lemma {:induction false} LargeOnlyMembers(ps: seq<LlamaProtocol>)
    ensures forall p :: p in LargeOnly(ps) <==> p in ps && Large(p)
  {
    if ps != [] {
      LargeOnlyMembers(ps[1..]);
      assert forall p :: p in ps <==> p == ps[0] || p in ps[1..];
    }
  }

  /** The filter keeps feed order: it distributes over concatenation. */
  lemma {:induction false} LargeOnlyAppend(ps: seq<LlamaProtocol>, qs: seq<LlamaProtocol>)
    ensures LargeOnly(ps + qs) == LargeOnly(ps) + LargeOnly(qs)
  {
    if ps == [] {
      assert ps + qs == qs;
    } else {
      var h := if Large(ps[0]) then [ps[0]] else [];
      assert (ps + qs)[0] == ps[0] && (ps + qs)[1..] == ps[1..] + qs;
      assert LargeOnly(ps + qs) == h + LargeOnly(ps[1..] + qs);
      LargeOnlyAppend(ps[1..], qs);
      assert h + (LargeOnly(ps[1..]) + LargeOnly(qs)) == (h + LargeOnly(ps[1..])) + LargeOnly(qs);
    }
  }

  const MaxShown: nat := 20

  /** `transformProtocolsData`: filter above $100M, keep the first 20, number from 1. */
  function Transform(ps: seq<LlamaProtocol>): seq<Protocol>
  {
    var large := LargeOnly(ps);
    var top := if |large| <= MaxShown then large else large[..MaxShown];
    seq(|top|, i requires 0 <= i < |top| => ToDisplay(top[i], i))
  }

  /** At most 20 records, the first ones above $100M in feed order (not the 20 largest),
      numbered from 1, all Active, and each with a billions or millions TVL label. */
  lemma TransformRecords(ps: seq<LlamaProtocol>)
    ensures |Transform(ps)| == if |LargeOnly(ps)| <= MaxShown then |LargeOnly(ps)| else MaxShown
    ensures forall i :: 0 <= i < |Transform(ps)| ==>
      var r := Transform(ps)[i];
      var p := LargeOnly(ps)[i];
      r == ToDisplay(p, i) && Large(p) && r.id == i + 1 && r.status == "Active" &&
      r.tvl[|r.tvl| - 1] in {'B', 'M'}
  {
    LargeOnlyMembers(ps);
    forall i | 0 <= i < |Transform(ps)|
      ensures Large(LargeOnly(ps)[i]) && Transform(ps)[i].tvl != [] && Transform(ps)[i].tvl[|Transform(ps)[i].tvl| - 1] in {'B', 'M'}
    {
      var p := LargeOnly(ps)[i];
      assert p in LargeOnly(ps);
      assert Transform(ps)[i] == ToDisplay(p, i);
      LargeTvlLabel(p.tvl);
    }
  }

  /** A TVL above $100M is labelled in billions or millions. */
  lemma LargeTvlLabel(tvl: Number)
    requires Above(tvl, 100000000.0)
    ensures FormatTvl(tvl)[|FormatTvl(tvl)| - 1] in {'B', 'M'}
  {
    FormatTvlTiers(tvl.v);
  }

  /** Protocols further down the feed never displace or renumber the ones already shown. */
  lemma TransformPrefix(ps: seq<LlamaProtocol>, qs: seq<LlamaProtocol>)
    ensures Transform(ps) <= Transform(ps + qs)
  {
    LargeOnlyAppend(ps, qs);
    var a := Transform(ps);
    var b := Transform(ps + qs);
    assert |a| <= |b|;
    forall i | 0 <= i < |a|
      ensures a[i] == b[i]
    {
      assert LargeOnly(ps + qs)[i] == LargeOnly(ps)[i];
    }
  }

  /** `getLiskFallbackProtocols`. */
  function LiskFallback(): (r: seq<Protocol>)
    ensures |r| == 1
  {
    [Protocol(1, "Lisk Protocol Example", "Lending", "8.5%", "$63K", "LSK", "aLSK", "Low", "Active", "+1.2%", "/placeholder.svg")]
  }

  /** What the request to `/api/protocols` produced: no answer, or an answer with its
      `ok` flag and its body (None when the body is not JSON). */
  datatype RouteReply = NoReply | Reply(ok: bool, body: Option<ProtocolsResponse>)

  /** `getProtocolsData`: the route's protocol list whenever it answers with a body,
      whether or not that body reports success, and the local fallback otherwise. */
  function GetProtocolsData(reply: RouteReply): seq<Protocol>
  {
    match reply
    case Reply(true, Some(body)) => body.protocols
    case _ => LiskFallback()
  }

  /** The local fallback is shown exactly when the route gives no usable answer (or
      happens to list that same record); a route that fell back itself is shown as is. */
  lemma GetProtocolsFallback(reply: RouteReply)
    ensures !(reply.Reply? && reply.ok && reply.body.Some?) ==> GetProtocolsData(reply) == LiskFallback()
    ensures reply.Reply? && reply.ok && reply.body.Some? ==> GetProtocolsData(reply) == reply.body.value.protocols
  {
  }

  /** When the route is up but its upstream fails, the page lists the route's three
      fallback records rather than the local one. */
  lemma RouteFallbackReachesPage(upstream: ProtocolsRoute.Upstream)
    requires !(upstream.Answered? && upstream.ok && upstream.protocols.Some?)
    ensures GetProtocolsData(Reply(true, Some(ProtocolsRoute.Get(upstream)))) == ProtocolsRoute.FallbackProtocols()
    ensures |GetProtocolsData(Reply(true, Some(ProtocolsRoute.Get(upstream))))| == 3
  {
    ProtocolsRoute.GetResponse(upstream);
  }
}
