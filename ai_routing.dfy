/** The `/api/ai-routing` route: a risk score for each candidate protocol, validation
    of the requested amount, extraction of the model's JSON answer, the highest-APY
    fallback, case-insensitive matching of the recommended name and the two fallback
    answers. The language model's reply and `JSON.parse` are inputs of the model. */
module AiRouting {
  import opened Options
  import opened Digits
  import opened JsText
  import opened JsNumber

  datatype RiskLevel = Low | Medium | High

  /** Low < Medium < High. */
  function Rank(r: RiskLevel): nat
  {
    match r
    case Low => 0
    case Medium => 1
    case High => 2
  }

  /** Higher APY scores riskier. */
  function ApyScore(apy: real): nat
  {
    if apy > 8.0 then 3 else if apy > 5.0 then 2 else 1
  }

  /** A larger TVL scores safer. */
  function TvlScore(tvl: real): nat
  {
    if tvl > 1000.0 then 1 else if tvl > 500.0 then 2 else 3
  }

  /** More users score safer. */
  function UserScore(users: real): nat
  {
    if users > 150.0 then 1 else if users > 100.0 then 2 else 3
  }

  /** `determineRiskLevel`: the mean of the three scores against 1.5 and 2.5. */
  function DetermineRiskLevel(apy: real, tvl: real, users: real): RiskLevel
  {
    var totalRisk := (ApyScore(apy) + TvlScore(tvl) + UserScore(users)) as real / 3.0;
    if totalRisk <= 1.5 then Low
    else if totalRisk <= 2.5 then Medium
    else High
  }

  /** The mean thresholds are integer thresholds on the score sum: low up to 4, medium
      from 5 to 7, high from 8. */
  lemma RiskBySum(apy: real, tvl: real, users: real)
    ensures var sum := ApyScore(apy) + TvlScore(tvl) + UserScore(users);
      3 <= sum <= 9 &&
      (DetermineRiskLevel(apy, tvl, users) == Low <==> sum <= 4) &&
      (DetermineRiskLevel(apy, tvl, users) == Medium <==> 5 <= sum <= 7) &&
      (DetermineRiskLevel(apy, tvl, users) == High <==> sum >= 8)
  {
    var sum := ApyScore(apy) + TvlScore(tvl) + UserScore(users);
    var mean := sum as real / 3.0;
    assert mean * 3.0 == sum as real;
  }

  /** A higher APY never lowers the risk; a larger TVL or user count never raises it. */
  lemma RiskMonotone(apy: real, apy': real, tvl: real, tvl': real, users: real, users': real)
    requires apy <= apy' && tvl' <= tvl && users' <= users
    ensures Rank(DetermineRiskLevel(apy, tvl, users)) <= Rank(DetermineRiskLevel(apy', tvl', users'))
  {
    RiskBySum(apy, tvl, users);
    RiskBySum(apy', tvl', users');
    assert ApyScore(apy) <= ApyScore(apy');
    assert TvlScore(tvl) <= TvlScore(tvl');
    assert UserScore(users) <= UserScore(users');
  }

  /** A candidate protocol; amounts in wei, APY in basis points. */
  datatype MockProtocol = MockProtocol(
    name: string,
    contractAddress: string,
    totalDeposited: nat,
    userCount: nat,
    currentApy: nat,
    isActive: bool)

  const Wei: real := 1000000000000000000.0

  /** `Number(currentAPY) / 100`: the APY in percent. */
  function ApyOf(p: MockProtocol): real
  {
    p.currentApy as real / 100.0
  }

  /** `Number(totalDeposited) / 1e18`: the TVL in tokens. */
  function TvlOf(p: MockProtocol): real
  {
    p.totalDeposited as real / Wei
  }

  function RiskOf(p: MockProtocol): RiskLevel
  {
    DetermineRiskLevel(ApyOf(p), TvlOf(p), p.userCount as real)
  }

  /** `mockProtocols`. */
  function Mocks(): (ps: seq<MockProtocol>)
    ensures |ps| == 4
  {
    [ MockProtocol("Aave", "0x7Fc66500c84A76Ad7e9c93437bFc5Ac33E2DDaE9", 1000000000000000000000, 150, 580, true),
      MockProtocol("Compound", "0xc00e94Cb662C3520282E6f5717214004A7f26888", 800000000000000000000, 120, 420, true),
      MockProtocol("Yearn Finance", "0x0bc529c00C6401aEF6D220BE8C6Ea1667F6Ad93e", 600000000000000000000, 80, 750, true),
      MockProtocol("Curve Finance", "0xD533a949740bb3306d119CC777fa900bA034cd52", 1200000000000000000000, 200, 650, true) ]
  }

  /** The thresholds are strict: Aave sits exactly on the TVL and user thresholds and is
      medium; Curve is the only low-risk candidate. */
  lemma MockRisks()
    ensures RiskOf(Mocks()[0]) == Medium
    ensures RiskOf(Mocks()[1]) == Medium
    ensures RiskOf(Mocks()[2]) == Medium
    ensures RiskOf(Mocks()[3]) == Low
  {
    assert TvlOf(Mocks()[0]) == 1000.0;
    assert TvlOf(Mocks()[1]) == 800.0;
    assert TvlOf(Mocks()[2]) == 600.0;
    assert TvlOf(Mocks()[3]) == 1200.0;
    RiskBySum(ApyOf(Mocks()[0]), 1000.0, 150.0);
    RiskBySum(ApyOf(Mocks()[1]), 800.0, 120.0);
    RiskBySum(ApyOf(Mocks()[2]), 600.0, 80.0);
    RiskBySum(ApyOf(Mocks()[3]), 1200.0, 200.0);
  }

  /** The reduce of the parse-failure fallback, continued from index `i` with the best
      candidate so far at `best`: a later candidate replaces it only with a strictly
      higher APY. */
  function ScanHighest(ps: seq<MockProtocol>, i: nat, best: nat): (k: nat)
    requires best < i <= |ps|
    requires forall j :: 0 <= j < i ==> ps[j].currentApy <= ps[best].currentApy
    requires forall j :: 0 <= j < best ==> ps[j].currentApy < ps[best].currentApy
    ensures k < |ps|
    ensures forall j :: 0 <= j < |ps| ==> ps[j].currentApy <= ps[k].currentApy
    ensures forall j :: 0 <= j < k ==> ps[j].currentApy < ps[k].currentApy
    decreases |ps| - i
  {
    if i == |ps| then best
    else if ps[i].currentApy > ps[best].currentApy then ScanHighest(ps, i + 1, i)
    else ScanHighest(ps, i + 1, best)
  }

  /** The candidate with the highest APY, the earliest one on a tie. */
  function HighestApy(ps: seq<MockProtocol>): (k: nat)
    requires |ps| >= 1
    ensures k < |ps|
    ensures forall j :: 0 <= j < |ps| ==> ps[j].currentApy <= ps[k].currentApy
    ensures forall j :: 0 <= j < k ==> ps[j].currentApy < ps[k].currentApy
  {
    ScanHighest(ps, 1, 0)
  }

  /** The first position of `c` in `s`. */
  function FirstIndexOf(s: string, c: char): (r: Option<nat>)
    ensures r.None? <==> c !in s
    ensures r.Some? ==> r.value < |s| && s[r.value] == c && c !in s[..r.value]
  {
    if s == [] then None
    else if s[0] == c then Some(0)
    else
      match FirstIndexOf(s[1..], c)
      case None => None
      case Some(k) =>
        assert s[..k + 1] == [s[0]] + s[1..][..k];
        Some(k + 1)
  }

  /** The last position of `c` in `s`. */
  function LastIndexOf(s: string, c: char): (r: Option<nat>)
    ensures r.None? <==> c !in s
    ensures r.Some? ==> r.value < |s| && s[r.value] == c && c !in s[r.value + 1..]
  {
    if s == [] then None
    else if s[|s| - 1] == c then Some(|s| - 1)
    else
      match LastIndexOf(s[..|s| - 1], c)
      case None =>
        assert s == s[..|s| - 1] + [s[|s| - 1]];
        None
      case Some(k) =>
        assert s[k + 1..] == s[..|s| - 1][k + 1..] + [s[|s| - 1]];
        Some(k)
  }

  /** `text.match(/\{[\s\S]*\}/)`: from the first "{" to the last "}", when the latter
      comes after the former. */
  function ExtractJson(text: string): (r: Option<string>)
    ensures r.Some? ==> |r.value| >= 2 && r.value[0] == '{' && r.value[|r.value| - 1] == '}'
  {
    match (FirstIndexOf(text, '{'), LastIndexOf(text, '}'))
    case (Some(i), Some(j)) => if i < j then Some(text[i..j + 1]) else None
    case _ => None
  }

  /** A match exists exactly when some "{" precedes some "}". */
  lemma ExtractJsonFound(text: string)
    ensures ExtractJson(text).Some? <==>
      exists i, j :: 0 <= i < j < |text| && text[i] == '{' && text[j] == '}'
  {
    var first := FirstIndexOf(text, '{');
    var last := LastIndexOf(text, '}');
    if exists i, j :: 0 <= i < j < |text| && text[i] == '{' && text[j] == '}' {
      var i, j :| 0 <= i < j < |text| && text[i] == '{' && text[j] == '}';
      FirstAtMost(text, '{', i);
      LastAtLeast(text, '}', j);
    }
    if ExtractJson(text).Some? {
      assert text[first.value] == '{' && text[last.value] == '}';
    }
  }

  /** The match is the greedy one: it starts at the first "{" and ends at the last "}". */
  lemma ExtractJsonGreedy(text: string)
    requires ExtractJson(text).Some?
    ensures FirstIndexOf(text, '{').Some? && LastIndexOf(text, '}').Some?
    ensures var i := FirstIndexOf(text, '{').value;
      var j := LastIndexOf(text, '}').value;
      i < j && ExtractJson(text).value == text[i..j + 1] && '{' !in text[..i] && '}' !in text[j + 1..]
  {
  }

  lemma {:induction false} FirstAtMost(s: string, c: char, i: nat)
    requires i < |s| && s[i] == c
    ensures FirstIndexOf(s, c).Some? && FirstIndexOf(s, c).value <= i
  {
    if s[0] != c {
      FirstAtMost(s[1..], c, i - 1);
    }
  }

  lemma {:induction false} LastAtLeast(s: string, c: char, j: nat)
    requires j < |s| && s[j] == c
    ensures LastIndexOf(s, c).Some? && LastIndexOf(s, c).value >= j
  {
    if s[|s| - 1] != c {
      LastAtLeast(s[..|s| - 1], c, j);
    }
  }

  /** The first candidate whose name equals `name` ignoring case. */
  function FindByName(ps: seq<MockProtocol>, name: string): (r: Option<nat>)
    ensures r.None? <==> forall j :: 0 <= j < |ps| ==> Lower(ps[j].name) != Lower(name)
    ensures r.Some? ==>
      && r.value < |ps|
      && Lower(ps[r.value].name) == Lower(name)
      && forall j :: 0 <= j < r.value ==> Lower(ps[j].name) != Lower(name)
  {
    if ps == [] then None
    else if Lower(ps[0].name) == Lower(name) then Some(0)
    else
      match FindByName(ps[1..], name)
      case None => None
      case Some(k) => Some(k + 1)
  }

  /** The request body: unreadable, or an object whose `amount` is absent or a string. */
  datatype RequestBody = BadBody | Body(amount: Option<string>)

  /** The language model's reply: the call failed, or its text. */
  datatype ModelReply = ModelFailed | ModelText(text: string)

  /** The parsed recommendation; absent fields are None. A `protocolName` that is not a
      string is None as well, since lower-casing it throws just as for an absent one. */
  datatype Advice = Advice(
    protocolName: Option<string>,
    expectedYield: Option<real>,
    reasoning: Option<string>,
    confidence: Option<real>)

  datatype PostReply =
    | Failure(status: nat, error: string)
    | Recommendation(
        protocolName: string,
        contractAddress: string,
        expectedYield: Option<real>,
        riskLevel: RiskLevel,
        reasoning: Option<string>,
        confidence: Option<real>)

  /** `!amount || parseFloat(amount) <= 0`. A NaN parse is not `<= 0`, so text that is
      not a number gets through. */
  predicate AmountRejected(amount: Option<string>)
  {
    amount.None? || amount.value == "" || (ParseFloat(amount.value).Num? && ParseFloat(amount.value).v <= 0.0)
  }

  /** The recommendation used when the model's answer holds no parsable JSON. */
  function ParseFallback(): Advice
  {
    var best := Mocks()[HighestApy(Mocks())];
    Advice(Some(best.name), Some(ApyOf(best)),
      Some("AI analysis failed, selected protocol with highest APY as fallback"), Some(60.0))
  }

  /** The answer of the blanket `catch`: the first candidate at medium risk. */
  function CatchFallback(): PostReply
  {
    var first := Mocks()[0];
    Recommendation(first.name, first.contractAddress, Some(ApyOf(first)), Medium,
      Some("AI service temporarily unavailable, providing safe default recommendation"), Some(50.0))
  }

  /** The recommendation read from the model's text: its JSON, or the fallback. */
  function AdviceFrom(text: string, parseJson: string -> Option<Advice>): Advice
  {
    match ExtractJson(text)
    case None => ParseFallback()
    case Some(json) =>
      match parseJson(json)
      case None => ParseFallback()
      case Some(advice) => advice
  }

  /** The answer to a recommendation: lower-casing an absent name throws into the
      catch fallback, an unknown name is a 404, a known one is recommended with the
      candidate's own address and computed risk. */
  function Answer(advice: Advice): PostReply
  {
    if advice.protocolName.None? then CatchFallback()
    else
      match FindByName(Mocks(), advice.protocolName.value)
      case None => Failure(404, "Recommended protocol not found")
      case Some(k) =>
        var p := Mocks()[k];
        Recommendation(p.name, p.contractAddress, advice.expectedYield, RiskOf(p),
          advice.reasoning, advice.confidence)
  }

  /** `POST`. */
  function Post(body: RequestBody, model: ModelReply, parseJson: string -> Option<Advice>): PostReply
  {
    match body
    case BadBody => CatchFallback()
    case Body(amount) =>
      if AmountRejected(amount) then Failure(400, "Invalid amount provided")
      else
        match model
        case ModelFailed => CatchFallback()
        case ModelText(text) => Answer(AdviceFrom(text, parseJson))
  }

  /** Yearn Finance has the strictly highest APY, 7.5%. */
  lemma HighestIsYearn()
    ensures HighestApy(Mocks()) == 2
    ensures ParseFallback() == Advice(Some("Yearn Finance"), Some(7.5),
      Some("AI analysis failed, selected protocol with highest APY as fallback"), Some(60.0))
  {
    var k := HighestApy(Mocks());
    assert Mocks()[k].currentApy >= Mocks()[2].currentApy;
  }

  /** Yearn Finance is found among the candidates (only its own name has its length). */
  lemma YearnFound()
    ensures FindByName(Mocks(), "Yearn Finance") == Some(2)
  {
    var ps := Mocks();
    assert |Lower(ps[0].name)| != |Lower("Yearn Finance")|;
    assert |Lower(ps[1].name)| != |Lower("Yearn Finance")|;
  }

  /** The four outcomes of `POST`, by the body, the amount and the model's reply. */
  lemma PostCases(body: RequestBody, model: ModelReply, parseJson: string -> Option<Advice>)
    ensures body.BadBody? ==> Post(body, model, parseJson) == CatchFallback()
    ensures body.Body? && AmountRejected(body.amount) ==>
      Post(body, model, parseJson) == Failure(400, "Invalid amount provided")
    ensures body.Body? && !AmountRejected(body.amount) && model.ModelFailed? ==>
      Post(body, model, parseJson) == CatchFallback()
    ensures body.Body? && !AmountRejected(body.amount) && model.ModelText? ==>
      Post(body, model, parseJson) == Answer(AdviceFrom(model.text, parseJson))
  {
  }

  /** Without usable JSON in the model's answer the route recommends Yearn Finance at
      7.5% with confidence 60, never a 404. */
  lemma ParseFailureRecommendsYearn(amount: string, text: string, parseJson: string -> Option<Advice>)
    requires !AmountRejected(Some(amount))
    requires ExtractJson(text).None? || parseJson(ExtractJson(text).value).None?
    ensures Post(Body(Some(amount)), ModelText(text), parseJson)
      == Recommendation("Yearn Finance", "0x0bc529c00C6401aEF6D220BE8C6Ea1667F6Ad93e", Some(7.5), Medium,
        Some("AI analysis failed, selected protocol with highest APY as fallback"), Some(60.0))
  {
    PostCases(Body(Some(amount)), ModelText(text), parseJson);
    assert AdviceFrom(text, parseJson) == ParseFallback();
    FallbackAnswer();
  }

  lemma FallbackAnswer()
    ensures Answer(ParseFallback())
      == Recommendation("Yearn Finance", "0x0bc529c00C6401aEF6D220BE8C6Ea1667F6Ad93e", Some(7.5), Medium,
        Some("AI analysis failed, selected protocol with highest APY as fallback"), Some(60.0))
  {
    HighestIsYearn();
    YearnFound();
    MockRisks();
  }

  /** `POST` answers 400 exactly for a readable body whose amount is rejected. */
  lemma PostBadRequest(body: RequestBody, model: ModelReply, parseJson: string -> Option<Advice>)
    ensures (Post(body, model, parseJson).Failure? && Post(body, model, parseJson).status == 400)
      <==> body.Body? && AmountRejected(body.amount)
  {
    PostCases(body, model, parseJson);
    if model.ModelText? {
      AnswerStatus(AdviceFrom(model.text, parseJson));
    }
  }

  /** An answer is never a 400, and it is a 404 exactly when the recommendation names no
      candidate, ignoring case. */
  lemma AnswerStatus(advice: Advice)
    ensures Answer(advice).Failure? ==> Answer(advice).status == 404
    ensures Answer(advice).Failure? <==>
      advice.protocolName.Some? && forall j :: 0 <= j < 4 ==> Lower(Mocks()[j].name) != Lower(advice.protocolName.value)
  {
    if advice.protocolName.Some? {
      var found := FindByName(Mocks(), advice.protocolName.value);
      assert found.None? <==> forall j :: 0 <= j < 4 ==> Lower(Mocks()[j].name) != Lower(advice.protocolName.value);
    }
  }

  /** `POST` answers 404 exactly when the model's recommendation names no candidate,
      ignoring case. */
  lemma PostNotFound(body: RequestBody, model: ModelReply, parseJson: string -> Option<Advice>)
    ensures (Post(body, model, parseJson).Failure? && Post(body, model, parseJson).status == 404)
      <==> (body.Body? && !AmountRejected(body.amount) && model.ModelText? &&
        var advice := AdviceFrom(model.text, parseJson);
        advice.protocolName.Some? && forall j :: 0 <= j < 4 ==> Lower(Mocks()[j].name) != Lower(advice.protocolName.value))
  {
    PostCases(body, model, parseJson);
    if model.ModelText? {
      AnswerStatus(AdviceFrom(model.text, parseJson));
    }
  }

  /** Every recommendation is the catch fallback or names a candidate with its own
      address and its computed risk. */
  lemma PostRecommends(body: RequestBody, model: ModelReply, parseJson: string -> Option<Advice>)
    ensures Post(body, model, parseJson).Recommendation? ==>
      Post(body, model, parseJson) == CatchFallback() ||
      exists k :: 0 <= k < 4 && Post(body, model, parseJson).protocolName == Mocks()[k].name &&
        Post(body, model, parseJson).contractAddress == Mocks()[k].contractAddress &&
        Post(body, model, parseJson).riskLevel == RiskOf(Mocks()[k])
  {
    PostCases(body, model, parseJson);
    if model.ModelText? {
      AnswerRecommends(AdviceFrom(model.text, parseJson));
    }
  }

  lemma AnswerRecommends(advice: Advice)
    ensures Answer(advice).Recommendation? ==>
      Answer(advice) == CatchFallback() ||
      exists k :: 0 <= k < 4 && Answer(advice).protocolName == Mocks()[k].name &&
        Answer(advice).contractAddress == Mocks()[k].contractAddress &&
        Answer(advice).riskLevel == RiskOf(Mocks()[k])
  {
    if advice.protocolName.Some? {
      var found := FindByName(Mocks(), advice.protocolName.value);
      if found.Some? {
        var k := found.value;
        assert Answer(advice).protocolName == Mocks()[k].name;
      }
    }
  }

  /** The catch fallback's fixed "medium" agrees with Aave's computed risk, and its yield is 5.8%. */
  lemma CatchFallbackConsistent()
    ensures CatchFallback().riskLevel == RiskOf(Mocks()[0])
    ensures CatchFallback().protocolName == "Aave" && CatchFallback().expectedYield == Some(5.8)
  {
    MockRisks();
  }

  /** Text whose first character cannot start a number (nor "Infinity", which JavaScript
      reads as a number) parses to NaN, which the amount check lets through. */
  lemma NonNumericAmountAccepted(amount: string)
    requires amount != [] && !IsJsSpace(amount[0]) && !('0' <= amount[0] <= '9')
    requires amount[0] != '+' && amount[0] != '-' && amount[0] != '.' && amount[0] != 'I'
    ensures ParseFloat(amount) == NaN
    ensures !AmountRejected(Some(amount))
  {
    assert TrimStart(amount) == amount;
    assert DigitRunZero: DigitRun(amount) == 0 by {
      assert !IsDecimalDigit(amount[0]);
    }
    assert amount[..0] == "" && amount[0..] == amount;
  }

  /** One entry of the `GET` answer. */
  datatype ListedProtocol = ListedProtocol(
    name: string,
    contractAddress: string,
    apy: real,
    tvl: real,
    users: nat,
    isActive: bool,
    riskLevel: RiskLevel)

  function Listed(p: MockProtocol): ListedProtocol
  {
    ListedProtocol(p.name, p.contractAddress, ApyOf(p), TvlOf(p), p.userCount, p.isActive, RiskOf(p))
  }

  /** `GET`: every candidate with its APY in percent, TVL in tokens and risk level. */
  function Get(): (r: seq<ListedProtocol>)
    ensures |r| == |Mocks()|
  {
    seq(|Mocks()|, i requires 0 <= i < |Mocks()| => Listed(Mocks()[i]))
  }

  /** The listing shows the candidates in order with Curve Finance as the only low-risk one. */
  lemma GetListing()
    ensures forall i :: 0 <= i < 4 ==> Get()[i].name == Mocks()[i].name
    ensures forall i :: 0 <= i < 4 ==> (Get()[i].riskLevel == Low <==> i == 3)
    ensures Get()[0].apy == 5.8 && Get()[0].tvl == 1000.0
  {
    MockRisks();
    assert TvlOf(Mocks()[0]) == 1000.0;
  }
}
