# onion-fi front-end logic, modelled in Dafny

onion-fi is a Next.js front end for a yield router on the Lisk chain. This project
models the parts of it that compute values, not the parts that draw them:

- **Token amounts** (`useERC20`). `parseAmount` turns a typed decimal string into
  base units. `formatAmount` turns base units back into whole tokens. `isApproved`
  compares an allowance with an amount. `approveMax` grants 2^256 - 1.
- **The client-side DefiLlama helpers.** They turn raw DefiLlama protocols into
  display records: an APY estimate, a TVL label, a day change, a risk level, a token
  flow and a logo. `getProtocolsData` loads the list from the server route and falls
  back to one local record.
- **The `GET /api/protocols` route.** It keeps the protocols deployed on Lisk, picks
  their Lisk TVL, formats TVL and day change in its own way, and answers with three
  fixed records when the upstream fails.
- **The `/api/ai-routing` route.** It scores risk, validates the amount, extracts
  JSON from the model's answer, falls back to the highest-APY candidate, matches
  names ignoring case, and has a blanket fallback to Aave. `GET` lists the candidates.
- **The two dashboard pages.** Each is a class. It holds the selected protocol ids,
  toggles them, and shows the mean APY of the selection. The static page also holds
  the deposit amount and the deposit button's state.

The JavaScript built-ins the logic relies on are modelled on the values it meets,
within the limits listed under "Left out" below:

- `BigInt(text)`, `bigint.toString()` and bigint division (module `JsBigInt`);
- `Number.prototype.toFixed` and `parseFloat` (modules `JsNumber` and `FixedNotation`);
- `toLowerCase`, `trim`, `split`, `padEnd`, `replace` and `includes` (module `JsText`).

Numbers are `real`, and NaN is a separate constructor of `JsNumber.Number`. The
properties are proved about these models. The most used ones:

- `parseFloat(x.toFixed(f) + tail)` is x rounded to f decimals;
- `BigInt(n.toString())` is n.

The display labels are then proved to read back as the values they were computed from.

## Model

| member | source | states |
|---|---|---|
| Erc20Amounts.FoldTimesTenPow | client/hooks/use-erc20.ts:189 | folding "times ten" over d elements from acc gives acc * 10^d |
| Erc20Amounts.Multiplier | client/hooks/use-erc20.ts:201 | the multiplier and divisor built by the fold is exactly 10^decimals |
| Erc20Amounts.ParseAmount | client/hooks/use-erc20.ts:196-213 | a falsy `decimals` (unset or 0) gives "0" whatever the input; the result is always a valid bigint literal, since errors are caught as "0" |
| Erc20Amounts.ParseAmountPoint | client/hooks/use-erc20.ts:203-205 | `parseAmount("I.F")` is I * 10^d plus F right-padded with zeros and cut to d digits; an empty I (".5") counts as 0 |
| Erc20Amounts.ParseAmountWhole | client/hooks/use-erc20.ts:203-205 | an amount without a point is I * 10^d: a missing fraction contributes 0 |
| Erc20Amounts.DigitsOrBlank | client/hooks/use-erc20.ts:205 | a run of decimal digits, possibly empty, is read by BigInt as its value, so an empty integer part is 0 |
| Erc20Amounts.FractionFloor | client/hooks/use-erc20.ts:204 | the fraction's units are the floor of 0.F * 10^d: extra digits are dropped, never rounded |
| Erc20Amounts.FractionUnitsBound | client/hooks/use-erc20.ts:204 | the padded and cut fraction is worth less than one whole token |
| Erc20Amounts.ParseAmountBadInteger | client/hooks/use-erc20.ts:199-210 | an integer part BigInt rejects ("abc", "1e3") makes the whole amount "0" |
| Erc20Amounts.ParseAmountBadFraction | client/hooks/use-erc20.ts:199-210 | a non-digit among the first d fraction characters makes the whole amount "0" |
| Erc20Amounts.FormatAmount | client/hooks/use-erc20.ts:185-193 | a falsy `decimals` gives "0"; a bigint argument always formats; text BigInt rejects throws (None) |
| Erc20Amounts.FormatScaled | client/hooks/use-erc20.ts:190 | formatting a * 10^d + b with b below 10^d gives a: the division truncates |
| Erc20Amounts.ParseFormatRoundTrip | client/hooks/use-erc20.ts:185-213 | `formatAmount(parseAmount("I.F"))` is the integer part I, without leading zeros |
| Erc20Amounts.ParseFormatWhole | client/hooks/use-erc20.ts:185-213 | `formatAmount(parseAmount("I"))` for a whole amount without a point is I, without leading zeros |
| Erc20Amounts.IsApprovedMeaning | client/hooks/use-erc20.ts:176-182 | an absent or zero allowance never approves, even the amount "0"; otherwise approved iff allowance >= amount; an amount BigInt rejects throws |
| Erc20Amounts.MaxUint256IsPow | client/hooks/use-erc20.ts:169-173 | the maximum allowance is 2^256 - 1 |
| Erc20Amounts.MaxAllowanceApprovesAll | client/hooks/use-erc20.ts:169-182 | after `approveMax` every uint256 amount is approved |
| JsBigInt.IntToString | client/hooks/use-erc20.ts:190-206 | the rendering is non-empty and starts with "-" exactly for a negative value |
| JsBigInt.IntToStringRoundTrip | client/hooks/use-erc20.ts:179-206 | a rendered bigint reads back as itself |
| JsBigInt.NegativeLiteral | client/hooks/use-erc20.ts:179 | "-" followed by digits reads as the negated value |
| JsBigInt.BlankIsZero | client/hooks/use-erc20.ts:205 | a blank string is read as 0 |
| JsBigInt.PlainRejected | client/hooks/use-erc20.ts:205-210 | text with a non-digit after an optional sign is rejected |
| JsBigInt.TruncDiv | client/hooks/use-erc20.ts:190 | bigint division with a positive divisor truncates toward zero, for both signs |
| JsText.LowerSpec | client/app/api/protocols/route.ts:62 | lower-casing turns each upper-case ASCII letter into its lower-case partner, leaves no upper-case ASCII letter and keeps every other character |
| JsText.SplitJoin | client/hooks/use-erc20.ts:203 | splitting on a separator loses nothing: joining the parts gives the input back |
| JsText.SplitAtFirst | client/hooks/use-erc20.ts:203 | the first part is everything before the first separator |
| JsText.PadEnd | client/hooks/use-erc20.ts:204 | padding keeps the text as a prefix, reaches the requested length, and fills every added position with the pad character |
| JsText.ReplaceSpaceRunsSpec | client/lib/defi-llama-api.ts:158 | replacing every white-space run leaves no white space; text without white space is unchanged |
| JsText.ReplaceSpaceRun | client/lib/defi-llama-api.ts:158 | a maximal white-space run, however long, becomes exactly one replacement character, with the text on either side replaced on its own |
| JsText.ReplaceFirstAt | client/app/dashboard/page.tsx:90 | `replace` with a one-character pattern rewrites only the first occurrence |
| JsNumber.ToFixedSign | client/lib/defi-llama-api.ts:81 | `toFixed` output starts with "-" exactly for a negative value, and with a digit otherwise |
| FixedNotation.ToFixedRoundTrip | client/lib/defi-llama-api.ts:81-88 | `parseFloat(x.toFixed(f) + tail)` is x rounded to f decimals, whenever the tail cannot continue the number |
| FixedNotation.PlusFixedRoundTrip | client/app/api/protocols/route.ts:95 | the same round trip after an explicit "+" sign |
| FixedNotation.PercentRoundTrip | client/app/dashboard/page.tsx:90 | dropping "%" from `x.toFixed(f) + "%"` and parsing gives x rounded |
| FixedNotation.RoundingError | client/lib/defi-llama-api.ts:81 | rounding to f decimals moves a value by at most half a unit in the last place |
| FixedNotation.ToFixedCharacters | client/lib/defi-llama-api.ts:81 | `toFixed` prints only digits and a point, after a minus sign for a negative value, and ends with a digit |
| FixedNotation.PrefixedLabel | client/lib/defi-llama-api.ts:93-99 | a label of a one-character prefix, a rendered number and a unit reads back, after the prefix, as the rounded number, and ends with the unit |
| FixedNotation.ParseFloatUnsigned | client/app/dashboard/page.tsx:90 | `parseFloat` of text starting with a digit is the longest decimal literal at its head |
| FixedNotation.ParseFloatNegated | client/lib/defi-llama-api.ts:88 | `parseFloat` of "-" and a literal is the negated literal |
| FixedNotation.PointLiteralValue | client/app/dashboard/page.tsx:90 | `hi.lo` followed by a tail is read as hi plus lo over ten to the number of digits of lo |
| ProtocolsRoute.AnyLiskExists | client/app/api/protocols/route.ts:61-63 | a protocol's chains match exactly when some chain name, lower-cased, contains "lisk" |
| ProtocolsRoute.LiskOnlyMembers | client/app/api/protocols/route.ts:60-64 | the filter keeps exactly the protocols that have `chains` and a Lisk chain |
| ProtocolsRoute.LiskOnlyAppend | client/app/api/protocols/route.ts:60-64 | the filter keeps upstream order: it distributes over concatenation |
| ProtocolsRoute.CurrentTvl | client/app/api/protocols/route.ts:72 | the current TVL is always a number, never NaN |
| ProtocolsRoute.CurrentTvlChoice | client/app/api/protocols/route.ts:71-73 | the Lisk figure when it is a non-zero number, else the overall figure when that is, else 0; a zero Lisk TVL falls through |
| ProtocolsRoute.FormatTvlTiers | client/app/api/protocols/route.ts:75-87 | "M" with one decimal from 1e6 up, with no billions tier, "K" with one decimal from 1e3, whole dollars below; each label reads back as the rounded value in its unit |
| ProtocolsRoute.ChangeReadsBack | client/app/api/protocols/route.ts:89-96 | with a previous figure the label starts with "+" iff the change is not negative, "-" iff it is, and reads back as the change rounded to one decimal |
| ProtocolsRoute.ChangeWithoutHistory | client/app/api/protocols/route.ts:90-92 | a missing or zero previous figure gives the unsigned label "0.0%", which reads as 0 |
| ProtocolsRoute.TransformRecords | client/app/api/protocols/route.ts:69-111 | one record per Lisk protocol, in upstream order, numbered from 1, Active, with APY "8.5%", LSK/aLSK, Low risk, category defaulting to "DeFi", logo defaulting to "/placeholder-logo.svg", and the day-change label of its TVL figures |
| ProtocolsRoute.TransformPrefix | client/app/api/protocols/route.ts:60-111 | protocols further down the feed never renumber or displace earlier records |
| ProtocolsRoute.FallbackProtocols | client/app/api/protocols/route.ts:123-163 | the fallback is three fixed records |
| ProtocolsRoute.GetResponse | client/app/api/protocols/route.ts:113-170 | `count` is always the list length; success iff the upstream answered with a protocol list; an error message exactly on failure, with the three fallback records |
| DefiLlama.ApyReadsBack | client/lib/defi-llama-api.ts:76-82 | the APY label is never negative and reads back, with or without its "%", as the magnitude of the annualised weekly growth rounded to one decimal |
| DefiLlama.ApyOfFigures | client/lib/defi-llama-api.ts:76-82 | with a non-zero previous-week figure, the APY label starts with a digit and reads back as the magnitude of (tvl - prev) / prev * 100 * 52 rounded to one decimal |
| DefiLlama.ZeroPrevious | client/lib/defi-llama-api.ts:76-89 | a zero previous figure gives the unsigned APY label "0.0%", which reads back as 0, and the signed change label "+0.0%" |
| DefiLlama.ApyWithoutHistory | client/lib/defi-llama-api.ts:76-82 | a missing previous-week figure (NaN) is not caught by the zero check and shows "NaN%" |
| DefiLlama.ChangeReadsBack | client/lib/defi-llama-api.ts:84-89 | the change label starts with "+" iff the change is not negative, "-" iff it is, and reads back as the change rounded to one decimal |
| DefiLlama.ChangeOfFigures | client/lib/defi-llama-api.ts:84-89 | with a non-zero previous-day figure, the change label starts with "+" iff (tvl - prev) / prev * 100 is not negative, "-" iff it is, and reads back as that change rounded to one decimal |
| DefiLlama.FormatTvl | client/lib/defi-llama-api.ts:91-100 | every label has a "$" and at least one more character |
| DefiLlama.FormatTvlTiers | client/lib/defi-llama-api.ts:91-100 | exactly one tier applies: "B" with one decimal from 1e9, "M" and "K" with none, whole dollars below; each label reads back as the rounded value in its unit |
| DefiLlama.RiskLevels | client/lib/defi-llama-api.ts:102-120 | every category gets Low, Medium or High; Low iff lending, liquid staking, RWA or staking; High iff yield, derivatives, synthetics, options or farming; Medium otherwise, unlisted categories included |
| DefiLlama.InputOutputByCategory | client/lib/defi-llama-api.ts:122-138 | the flow depends on the category alone; an unlisted category gets Assets/Tokens |
| DefiLlama.FlowCategoriesRated | client/lib/defi-llama-api.ts:103-137 | the rated categories are the flow categories plus the two farming ones, which get the generic flow |
| DefiLlama.LogoSlugShape | client/lib/defi-llama-api.ts:158 | the logo slug has no white space, and a name without white space only loses its capitals |
| DefiLlama.LogoSlugRun | client/lib/defi-llama-api.ts:158 | each maximal white-space run of the name becomes a single "-" in the slug, between the slugs of the text around it |
| DefiLlama.LargeOnlyMembers | client/lib/defi-llama-api.ts:142 | the filter keeps exactly the protocols with TVL above $100M |
| DefiLlama.LargeOnlyAppend | client/lib/defi-llama-api.ts:142 | the filter keeps feed order |
| DefiLlama.TransformRecords | client/lib/defi-llama-api.ts:140-161 | at most 20 records: the first protocols above $100M in feed order, numbered from 1, all Active, each with a billions or millions TVL label |
| DefiLlama.LargeTvlLabel | client/lib/defi-llama-api.ts:91-143 | a TVL above $100M is labelled in billions or millions |
| DefiLlama.TransformPrefix | client/lib/defi-llama-api.ts:140-161 | later protocols in the feed never displace or renumber earlier records |
| DefiLlama.LiskFallback | client/lib/defi-llama-api.ts:193-209 | the local fallback is one record |
| DefiLlama.GetProtocolsFallback | client/lib/defi-llama-api.ts:163-191 | any failure gives the one-record fallback; an answered request passes `protocols` through even when it reports no success |
| DefiLlama.RouteFallbackReachesPage | client/lib/defi-llama-api.ts:185 | when the upstream fails, the page shows the route's three fallback records |
| AiRouting.RiskBySum | client/app/api/ai-routing/route.ts:99-107 | low iff the score sum is at most 4, medium iff 5 to 7, high iff at least 8 |
| AiRouting.RiskMonotone | client/app/api/ai-routing/route.ts:99-107 | a higher APY never lowers the risk; a larger TVL or user count never raises it |
| AiRouting.MockRisks | client/app/api/ai-routing/route.ts:36-107 | the thresholds are strict: Aave (5.8, 1000, 150) is medium and Curve (6.5, 1200, 200) is low |
| AiRouting.HighestApy | client/app/api/ai-routing/route.ts:177-179 | the chosen candidate's APY is the maximum, and every earlier one is strictly lower: the earliest wins ties |
| AiRouting.HighestIsYearn | client/app/api/ai-routing/route.ts:177-186 | the parse-failure fallback is Yearn Finance at 7.5 with confidence 60 |
| AiRouting.FirstIndexOf | client/app/api/ai-routing/route.ts:169 | the first position of a character, None iff it is absent |
| AiRouting.LastIndexOf | client/app/api/ai-routing/route.ts:169 | the last position of a character, None iff it is absent |
| AiRouting.ExtractJsonFound | client/app/api/ai-routing/route.ts:169-172 | a match exists iff some "{" precedes some "}" |
| AiRouting.ExtractJsonGreedy | client/app/api/ai-routing/route.ts:169-173 | the match runs from the first "{" to the last "}" |
| AiRouting.FindByName | client/app/api/ai-routing/route.ts:190-193 | the first candidate whose name equals the given one ignoring case; None iff there is none |
| AiRouting.YearnFound | client/app/api/ai-routing/route.ts:190-193 | the fallback's name always matches Yearn Finance |
| AiRouting.PostCases | client/app/api/ai-routing/route.ts:110-235 | an unreadable body and a failed model call give the catch fallback; a rejected amount gives 400; otherwise the answer to the extracted recommendation |
| AiRouting.ParseFailureRecommendsYearn | client/app/api/ai-routing/route.ts:174-217 | without usable JSON the route recommends Yearn Finance at 7.5, medium risk, confidence 60, and never answers 404 |
| AiRouting.PostBadRequest | client/app/api/ai-routing/route.ts:115-120 | 400 iff the body is readable and the amount is missing, empty or parses to at most 0 |
| AiRouting.AnswerStatus | client/app/api/ai-routing/route.ts:190-200 | an answer is never a 400, and is a 404 iff the named protocol matches no candidate |
| AiRouting.PostNotFound | client/app/api/ai-routing/route.ts:195-200 | 404 iff the model's recommendation names no candidate, ignoring case |
| AiRouting.PostRecommends | client/app/api/ai-routing/route.ts:203-233 | every recommendation is the catch fallback or takes name, address and computed risk from the matched candidate |
| AiRouting.AnswerRecommends | client/app/api/ai-routing/route.ts:203-215 | a recommendation from a matched name takes name, address and risk from the candidate |
| AiRouting.CatchFallbackConsistent | client/app/api/ai-routing/route.ts:222-231 | the catch fallback is Aave at 5.8, and its fixed "medium" agrees with Aave's computed risk |
| AiRouting.NonNumericAmountAccepted | client/app/api/ai-routing/route.ts:115 | an amount whose first character cannot start a number (and which is not "Infinity") parses to NaN and passes the check |
| AiRouting.Get | client/app/api/ai-routing/route.ts:240-252 | one entry per candidate |
| AiRouting.GetListing | client/app/api/ai-routing/route.ts:240-254 | the listing keeps candidate order, Curve Finance is the only low-risk entry, and Aave shows 5.8% and 1000 tokens |
| Selection.WithoutMembers | client/app/dashboard/page.tsx:80 | filtering keeps exactly the other ids |
| Selection.WithoutAppend | client/app/dashboard/page.tsx:80 | filtering keeps the other ids in their order |
| Selection.ToggleAbsent | client/app/dashboard/page.tsx:79-80 | toggling an absent id appends it and leaves the earlier ids alone |
| Selection.TogglePresent | client/app/dashboard/page.tsx:80 | toggling a present id removes every occurrence and keeps the rest in order |
| Selection.ToggleTwice | client/app/dashboard/page.tsx:78-81 | toggling an absent id twice restores the selection |
| Selection.ToggleDistinct | client/app/dashboard/page.tsx:78-81 | a duplicate-free selection stays duplicate-free |
| Selection.FindIndex | client/app/dashboard/page.tsx:88 | `find` stops at the first row with that id, None iff there is none |
| Selection.MissingAddsZero | client/app/dashboard/page.tsx:88-90 | an id without a listed protocol adds 0 |
| Selection.RenderedApyTerm | client/app/dashboard/page.tsx:90 | a "x%" label contributes x |
| Selection.SumApyNaN | client/app/dashboard/page.tsx:87-91 | the sum is NaN exactly when some selected term is: one APY label that does not read as a number poisons the whole sum |
| Selection.SumApyOrder | client/app/dashboard/page.tsx:87-91 | the left-to-right `reduce` over the selection equals the right-to-left sum of the same terms, one per selected id, NaN included |
| Selection.TotalApyMean | client/app/dashboard/page.tsx:84-94 | "0.0" for an empty selection, otherwise a label that reads back as the mean rounded to one decimal |
| Selection.SingleSelection | client/app/dashboard/page.tsx:84-94 | one selected id shows that protocol's APY, rounded |
| Selection.MissingCountsInDivisor | client/app/dashboard/page.tsx:87-92 | an id without a listed protocol adds nothing but still counts in the divisor |
| Selection.NumberedFind | client/app/dashboard/page.tsx:88 | in a list numbered 1, 2, 3, ... each id finds its own row |
| Dashboard.ApyTableOf | client/app/dashboard/page.tsx:88-90 | the id and APY label of each loaded protocol, in list order |
| Dashboard.DashboardPage.constructor | client/app/dashboard/page.tsx:47-52 | the page starts with nothing loaded, nothing selected, loading |
| Dashboard.DashboardPage.Load | client/app/dashboard/page.tsx:55-76 | the protocol list becomes `getProtocolsData`'s result; the selection is kept |
| Dashboard.DashboardPage.Toggle | client/app/dashboard/page.tsx:78-82 | appends an absent id, removes every occurrence of a present one, keeps the selection duplicate-free, and changes nothing else |
| Dashboard.FallbackSelection | client/app/dashboard/page.tsx:55-162 | with the route unreachable, selecting the fallback record shows a mean APY of 8.5 and one active position |
| Dashboard.FallbackApy | client/app/dashboard/page.tsx:84-94 | the fallback record alone has a mean APY that reads as 8.5 |
| StaticDashboard.StaticIds | app/dashboard/page.tsx:10-76 | the rows carry the ids 1 to 5 in order, so every id finds its own row and any other id finds none |
| StaticDashboard.StaticDashboardPage.constructor | app/dashboard/page.tsx:105-106 | empty selection, empty amount, deposit disabled |
| StaticDashboard.StaticDashboardPage.Toggle | app/dashboard/page.tsx:108-110 | appends an absent id, removes every occurrence of a present one, keeps the selection duplicate-free, and enables the deposit once an amount is typed |
| StaticDashboard.StaticDashboardPage.SetDepositAmount | app/dashboard/page.tsx:210-217 | stores the amount; an empty amount disables the deposit |
| StaticDashboard.AaveAlone | app/dashboard/page.tsx:112-120 | Aave V3 alone shows a mean APY of 8.7 |
| StaticDashboard.UnknownIdHalves | app/dashboard/page.tsx:112-120 | an unknown id adds nothing but halves the mean: Compound III plus id 9 shows 3.1 |
| StaticDashboard.AfterMissing | app/dashboard/page.tsx:115-118 | after one known id, an unknown id divides that protocol's APY by two |

## Left out

- Network I/O is not modelled: the DefiLlama fetch in the protocols route, the request in `getProtocolsData`, and `fetchDefiLlamaProtocols` with its abort timeout. Each fetch outcome is an input value instead: no answer, or an answer with its `ok` flag and its body.
- The Gemini call, the prompt text and `formatProtocolsForAI` are left out. They are a foreign service and prompt formatting. The model's answer is an input (a failure, or any text).
- `JSON.parse` is a parameter, a function from text to an optional recommendation. Its grammar is not modelled.
- A `protocolName` that is present but not a string is modelled as absent. Lower-casing it throws into the catch fallback in both cases.
- IEEE-754 doubles are modelled as exact reals. `toFixed` is exact decimal rounding, halves away from zero. The exponential form `toFixed` uses from 1e21 up is not modelled, and neither are Infinity or negative zero.
- Absent numeric fields are NaN. A `null` field, which JavaScript arithmetic reads as 0, is not distinguished.
- JsText.Lower: lower-cases the ASCII letters only. Other letters have no case mapping here. This matters for the AI route, which lower-cases names from the model's free-form answer.
- JsNumber.ParseFloat: reads a decimal literal as the exact real it denotes, not the nearest double. It also does not recognise "Infinity", which `parseFloat` reads as a number.
- Keys inherited from the object prototype (such as "constructor") are not modelled in the risk and flow tables. The tables hold only their listed keys.
- Erc20Amounts.ParseAmount: takes the amount as text only. Non-string arguments are not modelled.
- Erc20Amounts.MaxUint256IsPow: the 78-digit decimal literal in `approveMax` is not evaluated digit by digit. The model takes its value from the source comment "2^256 - 1", as a hexadecimal constant proved equal to 2^256 - 1.
- The wallet `approve` transaction, the `isLoading` state of the hook and the rest of `use-onion-fi.ts` are left out. They are thin wrappers over wallet and HTTP calls.
- The `lastUpdated: Date.now()` field of the AI-routing candidates is left out. Nothing reads it.
- React rendering, the tab switch, the error banner and the colour pickers `getRiskColor`/`getCategoryColor` are left out. They are presentation.
- `getFallbackProtocols` in the DefiLlama helpers is left out. Nothing calls it.
- `console` logging is left out.

Where the code and the intended behaviour seem to differ, the model follows the code:

- `getProtocolsData` passes through the route's list even when the route reports `success: false`.
- An amount that is not a number parses to NaN, which is not `<= 0`, so the AI route accepts it.
- "The first 20" means the first 20 in feed order, not the 20 largest.
- The protocols route lists Beefy at Medium risk, while the client risk table rates its category, Yield Farming, as High.
