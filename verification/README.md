# AI Ferry: a verified model of its billing and routing core

This project models the parts of AI Ferry where many branches, much state or exact arithmetic have to
come out right, and proves what they promise. Each module covers one component:

| module | component |
|---|---|
| `TernaryText` | the character scanners that cut a billing expression at its top-level `?` and `:` and take parentheses off |
| `Schedules` | weekday and hour conditions, read into time windows, and the check that admits an instant |
| `BillingRates` | the linear leaf prices, turned into rate fields |
| `BillingCompiler` | the flattening of nested ternaries into an ordered list of price rules, and first-match billing |
| `BillingMeaning` | what the stored rules of an expression bill, read off the expression, and where that departs from its meaning |
| `BillingCharge` | the amount due for a request's tokens at the billed rates, down to the leaf's linear expression |
| `PriceExpression` | scanners, walk and billing joined: from text to bill |
| `ModelNames` | name normalisation and the index-backed name matcher |
| `RulePlan`, `CanonicalIds` | which synchronised rules reach which public model, and the model id they are stored under |
| `PriceMatrix` | the length by time table shown for a model's rules |
| `CredentialCache` | the versioned cache of usable credentials under concurrent readers and writers |
| `CredentialSelection` | the weighted draw and the memory that keeps a conversation on one credential |
| `ProxyRotation` | stored proxy lists, pairing of credentials with proxies, rotation on failure |
| `SqliteCache` | the key-value cache on two SQLite tables, against a map with deadlines |
| `SpendLedger` | concurrent charges to API keys, and the daily limit read from them |
| `ModelRequests`, `ModelSelection`, `SelectionOrder` | reading a model selection, reconciling it with the stored rows, and which requests every scan order saves exactly |
| `SessionId` | session ids: clock segment, base-62 tail, validator |
| `GoStrings`, `Lists`, `Runs` | the string library functions the scanners use; lists without repetition; runs of a step function |

Code that updates things in place is modelled by classes and by methods with loops, each proved against a
specification function or predicate; the properties are then lemmas about that specification. Concurrent
code is modelled as a step function, and the theorems quantify over all runs. Where the code misses a
simple specification, the model follows the code, a lemma shows a failing input, and another states exactly
when the specification is met.

## What turned out not to hold

- An hour clause that runs to the end of the day is written "24:00", which the window check refuses, so its
  rule never applies (`Schedules.MidnightInvalidates`, `Schedules.ScheduleExactIff`).
- The lower bound in `hour(...) > a` is read as `>=` (`Schedules.HoursExactIff`), and weekday bounds that
  cross leave an empty list, which means every day (`Schedules.WeekdaysExactIff`).
- Behind `len <= 18446744073709551615` the else branch takes every length, because its bound wraps to 0
  (`BillingMeaning.LargestBoundTakesElse`, `BillingMeaning.LengthTiersIff`).
- A schedule inside a schedule's true branch loses the outer window, also behind a length cut
  (`BillingMeaning.NestedScheduleIff`, `BillingMeaning.ScheduleBehindCutIff`). What is billed instead, and so
  when it is right, is given for every expression by `BillingMeaning.BilledRightIff`.
- When the rates of the leaf that evaluation reaches price nothing of the usage, billing goes on to the next rule
  and may charge another leaf of the same expression (`BillingCharge.UnpricedLeafIsPassedOver`,
  `BillingCharge.ParsedTextChargedRightIff`, `BillingCompiler.CompilationPreservesMeaning`).
- A variable with coefficient zero is documented as "not charged", but a zero rate is dropped, so its tokens
  fall back to the input or output rate (`BillingCharge.FreeCachedIsCharged`,
  `BillingCharge.DocumentedMeaningIff`).
- A ternary in a true branch that is not parenthesised is cut at the wrong colon (`TernaryText.SplitRecoversIff`),
  and parentheses inside string literals count when outer parentheses are taken off
  (`TernaryText.UnwrapUndoesWrapIff`).
- A leaf that prices nothing but one-hour or twelve-hour cache writes is refused as unpriced although it has a
  price (`BillingRates.LongCacheWritesAloneAreRefused`).
- The price matrix lists rules by priority and id. Billing puts manual rules before synchronised ones of the
  same priority, and passes over a rule whose time block is invalid or whose rates price nothing of the usage,
  so a drawn matrix can show a rule that is not billed (`PriceMatrix.MatrixShowsBillingIff`,
  `PriceMatrix.ShownIsBilledIff`, `PriceMatrix.UnbillablePeakIsShown`).
- The model id a name's rules are stored under is the least among the matches kept, one per entry. On the
  upstream-name level which match an entry keeps can depend on the order in which the runtime visits a map
  (`CanonicalIds.AliasIdDependsOnOrder`, `CanonicalIds.LeastInEveryOrderIff`).
- When the credential version cannot be read, version 0 is used, whose rows may be arbitrarily old
  (`CredentialCache.FailedVersionReadIsStale`).
- The comments in `credential_affinity.go` say a remembered credential is replaced only when it is unavailable;
  a failed read of the memory counts as no memory and replaces it too
  (`CredentialSelection.AvailableCredentialForgottenIff`).
- On SQLite, `Expire` brings an expired row back (`SqliteCache.StepRefinesIff`), and a counter written by
  `Incr` is invisible to `Get` (`SqliteCache.IncrIsInvisibleToGet`).
- A charge takes its date before it waits for the row lock. Around midnight it may commit after a charge of
  the new day and hide that day's spend from the daily limit (`SpendLedger.LateCommitHidesSpend`).
- A model selection that lists a new public name before one that is already stored for the same upstream can
  lose one of the two (`ModelSelection.UnorderedRequestLosesPair`, `SelectionOrder.ExactInEveryScanIff`).

## Model

| member | source | states |
|---|---|---|
| TernaryText.SplitBillingTernary | internal/logic/channel/price_expr_condition.go:46-83 | the single pass over depth, string and escape flags finds exactly the cut at the first top-level `?` and the first top-level `:` behind it, or reports that there is none |
| TernaryText.OuterParensWrap | internal/logic/channel/price_expr_condition.go:95-117 | the counting loop, which looks inside strings too, answers whether no `)` before the last character brings the count to 0 and the count ends at 0 |
| TernaryText.UnwrapBillingParens | internal/logic/channel/price_expr_condition.go:85-93 | the loop removes every pair of parentheses that wraps the whole text, trimming in between, and terminates because each round shortens the text |
| TernaryText.UnwrapUndoesWrapIff | internal/logic/channel/price_expr_condition.go:85-117 | adding parentheses around a trimmed text and unwrapping is the same as unwrapping the text if and only if its parentheses balance when those inside string literals are counted |
| TernaryText.UnwrapRecovers | internal/logic/channel/price_expr_condition.go:85-93 | any number of parentheses around a printed expression tree comes off again, and not one more |
| TernaryText.SplitRecovers | internal/logic/channel/price_expr_condition.go:46-83 | splitting a printed ternary whose true branch is a leaf or parenthesised gives back its condition and both branch texts, at every level of the tree |
| TernaryText.SplitRecoversIff | internal/logic/channel/price_expr_condition.go:46-83 | for every readable ternary, the pieces are recovered if and only if the true branch is a leaf or stands in parentheses |
| TernaryText.LeafDoesNotSplit | internal/logic/channel/price_expr_condition.go:80-83 | a leaf text is not taken for a ternary |
| Schedules.ParseBillingWeekdays | internal/logic/channel/price_expr_condition.go:165-207 | the loops over comparisons and over the days 1 to 7 give the days between the last lower and the last upper bound, or the single `==` day |
| Schedules.ParseBillingHourRanges | internal/logic/channel/price_expr_condition.go:209-239 | the clauses become half-open ranges, with `<=` ends moved up by one and clamped at 24, and empty ones dropped; a text with `hour(` but no usable clause is an error |
| Schedules.HoursTakenIff | internal/logic/channel/price_expr_condition.go:209-239 | hour clauses are accepted if and only if no number in them exceeds 24 and, with `>` read as `>=`, some clause holds at an hour from 0 to 23; no clause at all and a number above 24 have errors of their own |
| Schedules.WeekdaysExactIff | internal/logic/channel/price_expr_condition.go:165-207 | for every written form (none, one comparison, one lower and one upper bound) the parsed list accepts exactly the days the condition does if and only if a `==` day is in 1..7, or else the lower bound is at most 7, the upper one at least 1, and they do not cross |
| Schedules.HoursExactIff | internal/logic/channel/price_expr_condition.go:209-239 | the parsed ranges accept exactly the hours the condition does if and only if every `>` clause's own start hour holds through another clause |
| Schedules.ClockRoundTrip | internal/logic/timewindow/window.go:225-238 | `%02d:00` is read back as the minutes of the hour for 0..23, and is refused for 24 |
| Schedules.ClockIff | internal/logic/timewindow/window.go:225-238 | two digits, a colon and two digits are a clock if and only if they are at most 23 and 59, and then its minutes |
| Schedules.ClockIsWritten | internal/logic/timewindow/window.go:225-238 | every text read as a clock is of that form |
| Schedules.InClockIff | internal/logic/timewindow/window.go:212-223 | a minute is in a range if and only if, going round the clock from the start, it comes before the end, or both ends are the same |
| Schedules.AdmitsWindowIff | internal/logic/timewindow/window.go:110-210 | any window, not only a parsed one, admits a local time if and only if its zone is known, its weekdays and clocks are well-formed, and day and minute are among those it names; the shortcut for windows that restrict nothing adds nothing |
| Schedules.MidnightInvalidates | internal/logic/timewindow/window.go:110-132 | a parsed schedule with a range that ends at 24 fails the window check |
| Schedules.SupportedIsExact | internal/logic/usage/pricing.go:161-174 | a supported schedule condition (written form, bounds in order, exclusive starts covered, no clause up to midnight) holds at exactly the local times at which billing admits the rule with the parsed window |
| Schedules.ScheduleExactIff | internal/logic/channel/price_expr_condition.go:152-163 | every written condition with a known time zone is billed at exactly the local times it holds if and only if its weekday bounds are in order, its exclusive starts are covered and no clause runs to the end of the day; a condition with such a clause is billed exactly only if it never holds |
| BillingRates.ParseBillingLinearRates | internal/logic/channel/price_expr_rates.go:88-127 | the loop over the terms sums the coefficients per variable, skips blank terms, refuses the first unreadable one and an empty sum, and hands the sums to the conversion |
| BillingRates.BillingExprRatesFromTerms | internal/logic/channel/price_expr_rates.go:129-163 | whatever order the map is visited in, the result has a rate field exactly for each non-zero price, cache writes priced at the shortest priced lifetime, and the two refusals |
| BillingRates.ChargeIsLinear | internal/logic/channel/price_expr_rates.go:88-163 | about the converted rates alone: for every usage per rate field, rates times usage is the value of the leaf's linear expression at that usage |
| BillingRates.RefusedIff | internal/logic/channel/price_expr_rates.go:129-163 | a readable leaf of known variables is refused as unpriced if and only if every variable with a rate field of its own sums to zero |
| BillingRates.UnknownIsRefusedIff | internal/logic/channel/price_expr_rates.go:129-134 | a leaf is refused for a variable if and only if one of its terms has a variable that is none of the known ones |
| BillingRates.CacheWritesByLifetime | internal/logic/channel/price_expr_rates.go:154-162 | cache writes are priced by the first of `cc`, `cc1h` and `cc12h` that does not sum to zero, and every other field by its own variable alone |
| BillingRates.LongCacheWritesAloneAreRefused | internal/logic/channel/price_expr_rates.go:129-163 | a readable leaf of known variables that has a price is refused as unpriced if and only if all variables with a rate field of their own sum to zero and the one-hour or the twelve-hour cache writes do not |
| BillingCompiler.BoundsExactIff | internal/logic/channel/price_expr_condition.go:119-139 | the two pairs of bounds parsed from a length condition split the 64-bit lengths exactly if and only if the else bound does not wrap around |
| BillingCompiler.OrderIsStablePermutation | internal/logic/channel/price_rules_sync.go:331-338 | ordering keeps every rule, keeps the relative order within the conditional and the unconditional ones, and puts the unconditional ones first |
| BillingCompiler.StableSortIsUnique | internal/logic/channel/price_rules_sync.go:331-338 | every stable sort by "has conditions" yields this very order |
| BillingCompiler.FallbacksNeverShadow | internal/logic/channel/price_rules_sync.go:331-343 | over ordered rules tried from last to first, the billed rule is unconditional if and only if no conditional rule can be billed, and otherwise it is the last conditional one that can |
| BillingCompiler.FallbackComesFirst | internal/logic/channel/price_expr.go:156-165 | a well-formed expression yields at most one unconditional rule, and it comes first |
| BillingCompiler.OrderIsIdentity | internal/logic/channel/price_rules_sync.go:331-338 | on the rules of one well-formed expression the ordering changes nothing |
| BillingCompiler.WalkPreservesMeaning | internal/logic/channel/price_expr.go:127-191 | in any context whose conditions let the request through, the rules of a well-formed expression bill the first tried leaf that prices the usage, where a schedule that holds tries its true branch before its else branch and a wrapped cut its else branch before its true branch |
| BillingCompiler.CompilationPreservesMeaning | internal/logic/channel/price_expr.go:127-224 | for every well-formed expression, instant, input length and usage, trying the stored rules from last to first bills the first tried leaf that prices the usage, and the leaf that evaluation reaches is tried first; so that leaf is billed, or nothing where it prices nothing, if and only if it prices the usage or no tried leaf does |
| BillingMeaning.CompilesIff | internal/logic/channel/price_expr.go:127-191 | in every context the walk succeeds if and only if every schedule it meets has readable hours, every bound is positive and below 2^64, and every leaf can be read; the true branch of a parameter is never met |
| BillingMeaning.StoredRulesBill | internal/logic/channel/price_expr.go:127-224 | for every expression that compiles, whatever is nested where, and for every request and usage, the ordered rules tried from last to first bill the rates read off the expression: a schedule replaces the window around it and tries its true branch first, a wrapped bound opens both branches, and leaves behind a condition go before those behind none |
| BillingMeaning.BilledRightIff | internal/logic/channel/price_expr.go:127-224 | every expression that compiles is billed right for a request if and only if these rates are those of the leaf its evaluation reaches, or none where that leaf prices nothing of the usage |
| BillingMeaning.WellFormedAnswers | internal/logic/channel/price_expr.go:127-191 | on a well-formed expression they are that leaf's, found among the conditional rules exactly when a cut or an open schedule leads to it |
| BillingMeaning.WellFormedBill | internal/logic/usage/pricing.go:115-128 | for every usage, the rates read off a well-formed expression are those of the first tried leaf that prices it |
| BillingMeaning.LargestBoundTakesElse | internal/logic/channel/price_expr_condition.go:119-139 | behind `len <= 2^64 - 1` the else branch is billed for every length, and the true branch only for usage that no tried leaf of the else branch prices |
| BillingMeaning.LengthTiersIff | internal/logic/channel/price_expr_condition.go:119-150 | a cut at `len <= bound` between any two well-formed branches is billed right if and only if the bound is not 2^64 - 1 or both branches reach the same rates |
| BillingMeaning.NestedScheduleForgetsOuter | internal/logic/channel/price_expr.go:156-165 | with a schedule inside a schedule's true branch, whatever the well-formed branches are, the inner schedule is billed as if it stood alone, unless the request meets a condition in the outer else branch and none in the inner part; the else branch is then billed instead |
| BillingMeaning.NestedScheduleIff | internal/logic/channel/price_expr.go:156-165 | such an expression is billed right if and only if inner part and outer else branch reach the same rates, or the outer schedule holds exactly when the else branch does not take the inner part's place in this way, which is read off the expression |
| BillingMeaning.ScheduleBehindCutIff | internal/logic/channel/price_expr.go:156-165 | behind a schedule and a length cut that holds, an inner schedule is billed as if it stood alone, so billing is right if and only if the outer schedule holds or its else branch reaches the same rates, whatever the other branches are |
| BillingMeaning.NestedBesideFallbackIff | internal/logic/channel/price_expr.go:156-165 | with an unconditional else branch it is billed right if and only if the outer schedule holds or both reach the same rates |
| BillingMeaning.NestedNeedsAlwaysOn | internal/logic/channel/price_expr.go:156-165 | when both never reach the same rates it is billed right at every instant and length if and only if the outer schedule excludes nothing |
| PriceExpression.WalkBillingExpression | internal/logic/channel/price_expr.go:127-191 | the recursive walk appends to the list exactly the branches of the text, else branch first for a schedule, or reports the first error; it terminates because every piece is shorter than its text |
| PriceExpression.ParseBillingExpression | internal/logic/channel/price_expr.go:110-123 | an empty text and an empty result are errors, otherwise the result is the walk from the empty context |
| PriceExpression.WalkTextIsWalk | internal/logic/channel/price_expr.go:127-191 | walking the printed text of a tree, in any number of parentheses, is walking the tree |
| PriceExpression.ParsedTextBillsItsLeaf | internal/logic/channel/price_expr.go:110-224 | from text to bill: a printed, guarded, well-formed expression that parses is billed, for every request and usage, at the rates of the first tried leaf that prices the usage; that is the leaf it evaluates to, or no bill where this prices nothing, if and only if that leaf or no tried one prices the usage |
| PriceExpression.ParsedTextBills | internal/logic/channel/price_expr.go:110-224 | without well-formedness, a printed, guarded text that parses is billed at the rates read off its tree by `BillingMeaning.StoredRulesBill` |
| BillingCharge.Estimate.ChargeInput | internal/logic/usage/billing.go:66-77 | a detail takes at most what the details before it have left of the input total, and adds one line at its own rate or the input rate, or none |
| BillingCharge.EstimateBreakdown | internal/logic/usage/billing.go:53-110 | for any counts, missing or larger than their total, and any rates, there is no bill if no line applies, and otherwise its subtotal is every rate times the tokens counted under it, details without a rate counting with their total; keeping lines for no tokens does not change it |
| BillingCharge.CountsAsReported | internal/logic/usage/billing.go:84-95 | where the details of each total fit into it, every detail is charged for the count reported for it |
| BillingCharge.CountsAreCapped | internal/logic/usage/billing.go:64-95 | otherwise a detail is charged for the lesser of its count and what the details before it left, in the order cached, cache write, image, audio, and the total's own rate for what is left after all |
| BillingCharge.SignedIs | internal/logic/usage/billing.go:161-169 | the signed count is the number from -2^63 to 2^63 - 1 that agrees modulo 2^64 |
| BillingCharge.RestIsLeft | internal/logic/usage/billing.go:64-100 | whichever details are charged apart, the input and the output rate are charged for the total less just these, so that no token is charged twice or not at all |
| BillingCharge.LeafIsCharged | docs/price-sync.md:50-61 | what is due at the rates of a leaf is the leaf's linear expression, with `p` and `c` counting the tokens that have no rate of their own |
| BillingCharge.ChargedBeyondMeaning | docs/price-sync.md:60-63 | it exceeds the documented meaning, in which every variable the expression mentions is taken out of `p` and `c`, by the input and output rates times the tokens whose variable is mentioned but has coefficient zero |
| BillingCharge.DocumentedMeaningIff | docs/price-sync.md:60-63 | for unsigned coefficients and counts below 2^63 it is the documented meaning if and only if no tokens occur whose variable is mentioned without a price while the rate they fall back to has one |
| BillingCharge.FreeCachedIsCharged | internal/logic/channel/price_expr_rates.go:135-138 | at `p * price + cr * 0` cached tokens are charged, for every positive price and number of tokens, although by that meaning they are free |
| BillingCharge.ParsedTextIsCharged | internal/logic/usage/pricing.go:104-128 | from text to charge: for every request and all token counts, a well-formed expression's text charges what is due at the first tried rates that put a line on the bill; this is the linear expression of the leaf that evaluation reaches if and only if that leaf's rates do so or nothing is due |
| BillingCharge.ParsedTextChargedRightIff | internal/logic/usage/pricing.go:115-128 | with positive rates and counts below 2^63, it is that linear expression if and only if the leaf's rates put a line on the bill or those of no tried leaf do |
| BillingCharge.UnpricedLeafIsPassedOver | internal/logic/usage/pricing.go:115-128 | with an output price while a schedule holds and an input price otherwise, input alone is charged at the other leaf's price although the leaf reached makes it free, for every such schedule, prices and count |
| BillingCharge.UnsignedIsPositive | internal/logic/channel/price_expr_rates.go:50-60 | the rates of a leaf with unsigned coefficients are positive, and there is at least one |
| ModelNames.NormalizeModelName | internal/logic/channel/price_name.go:126-145 | the stripping loop terminates and computes the normal form |
| ModelNames.NormalizeIsIdempotent | internal/logic/channel/price_name.go:126-145 | normalising twice is normalising once |
| ModelNames.VariantNormalizes | internal/logic/channel/price_name.go:119-145 | a vendor's variant such as `Vendor/Short:peft:262144:sampling-x` is recognised and has its short name in lower case as normal form |
| ModelNames.IsVariantIff | internal/logic/channel/price_name.go:119-123 | a name is a variant if and only if `:peft:` or `:sampling-` occurs in it in letters of either case |
| ModelNames.CutsAtFirst | internal/logic/channel/price_name.go:127-140 | a cut leaves exactly what stands in front of the first occurrence, or the whole text |
| ModelNames.SuffixOfIff | internal/logic/channel/price_name.go:73-82 | the suffix of a name is the trimmed text behind its last slash, if that is not blank |
| ModelNames.RankMeans | internal/logic/channel/price_name.go:22-28 | a local name answers with rank 4 to itself, 3 in other letters, 2 to the suffix and 1 to a variant, and to nothing else |
| ModelNames.NameLookup.constructor | internal/logic/channel/price_name.go:44-60 | whatever order the runtime visits the map in, the two view maps list for every folded and every normalised name the local names with that view |
| ModelNames.NameLookup.Match | internal/logic/channel/price_name.go:62-89 | matching through the three maps returns what a linear scan of all local names for the strongest applicable tier returns |
| ModelNames.ScanIsStrongest | internal/logic/channel/price_name.go:62-117 | a model is matched if and only if it stands under a local name that answers at least as strongly as any other, all matches share one rank, and the match is empty only when no name answers |
| RulePlan.RuleBucket.Add | internal/logic/channel/price_rules_sync.go:43-57 | after each call the three maps show, for every name, the greatest rank, the rules that hit at that rank in order, and the least model id over all calls; reserved names are left alone |
| RulePlan.MatchPublicModels | internal/logic/channel/price_rules_sync.go:62-82 | of the matches the first for every public name is kept |
| RulePlan.BuildPublicRulePlan | internal/logic/channel/price_rules_sync.go:88-124 | the plan holds for every name its strongest direct rules and the least id among the direct matches kept, and alias ones exactly for the names without a direct match |
| RulePlan.LeastIdIsLeast | internal/logic/channel/price_rules_sync.go:43-57 | the id a bucket ends with is one of the ids it was called with for the name and no larger than any other |
| RulePlan.LeastIdIgnoresOrder | internal/logic/channel/price_rules_sync.go:43-57 | that id does not depend on the order of the calls |
| RulePlan.StrongestGroupWins | internal/logic/channel/price_rules_sync.go:88-124 | a name some rule reaches directly gets exactly the rules that reach it at the greatest direct rank, in upstream order; a name none reaches directly gets the same through the upstream names; a name is in the plan if and only if some rule reaches it at all |
| CanonicalIds.PlanCanonicalId | internal/logic/channel/price_rules_sync.go:88-124 | a name has a canonical id if and only if some entry reaches it; the id is the least among the models the entries keep for the name, on the direct level if some entry reaches it there and on the alias level otherwise |
| CanonicalIds.LeastInEveryOrderIff | internal/logic/channel/price_rules_sync.go:62-82 | the canonical id is the least id of all models matched under the name, in every order in which the index may be visited, if and only if, for some entry, every local name through which the entry can be kept lists a model with that id first |
| CanonicalIds.DirectIdIsFirst | internal/logic/channel/price_rules_sync.go:88-96 | on the direct level the id is that of the first stored model with the name, in every visiting order |
| CanonicalIds.AliasIdDependsOnOrder | internal/logic/channel/price_name.go:91-97 | for any two upstream names that differ only in case and an entry that spells the name a third way, the id is that of whichever name is visited first, though both models match |
| PriceMatrix.BuildPriceRuleOverview | frontend/src/lib/model-pricing.ts:140-187 | the method with its early returns draws a matrix if and only if the active rules are drawable and every cell can be filled with exactly one rule of its tier and column, which it then shows |
| PriceMatrix.DrawableIff | frontend/src/lib/model-pricing.ts:140-175 | for rules whose length bounds do not cross: drawable means that some rule is active, all have only windows and length bounds that are integers up to 2^53 - 1, every number of tokens up to the greatest one belongs to exactly one tier, peak rules stand before the fallbacks of their tier, there are at most three columns and six tiers, and beside another column all windows are the same |
| PriceMatrix.LabelIff | frontend/src/lib/model-pricing.ts:92-109 | a rule with a window is labelled with it; one without is labelled "other times" if and only if a rule with a window has its length bounds |
| PriceMatrix.BillingOrder | internal/logic/usage/pricing.go:104-113 | the order of billing is total on distinct ids and goes by priority, then manual before synchronised, then newer id |
| PriceMatrix.ChainedTiersAreDisjoint | frontend/src/lib/model-pricing.ts:159-163 | tiers that start at 0 and follow on from each other are pairwise disjoint |
| PriceMatrix.ChainedIff | frontend/src/lib/model-pricing.ts:155-160 | non-empty tiers pass the contiguity check if and only if every number up to the greatest one they hold is held by exactly one of them |
| PriceMatrix.MatrixIsFaithful | frontend/src/lib/model-pricing.ts:140-187 | whenever a matrix is drawn, for every token count, whichever time windows are open and whichever other conditions (such as endpoints) the request meets, it shows exactly the active rule that is first by descending priority and id |
| PriceMatrix.MatrixShowsBillingIff | internal/logic/usage/pricing.go:104-128 | for any number of tokens and any usage, a drawn matrix shows exactly the rule that is billed, whichever windows are open and other conditions met, if and only if every rule whose tier holds the tokens can be billed for that usage and no manual fallback of the tier shares its priority with a synchronised peak rule |
| PriceMatrix.ShownIsBilledIff | internal/logic/usage/pricing.go:104-128 | a drawn matrix is right whenever the rule it shows can be billed, if and only if no such manual fallback and peak rule can both be billed |
| PriceMatrix.FallbackIsBilledIff | internal/logic/usage/pricing.go:104-128 | with its window open and whichever other conditions are met, a peak rule is shown, and the fallback is billed instead exactly when it can be billed and the peak rule either cannot or is tried later |
| PriceMatrix.ManualFallbackIsBilledFirst | internal/logic/usage/pricing.go:104-128 | with its window open, a peak rule beside a manual fallback of its priority is shown although billing takes the fallback, if that can be billed |
| PriceMatrix.UnbillablePeakIsShown | internal/logic/usage/pricing.go:115-128 | so is a peak rule whose time block is invalid or whose rates price nothing of the usage, while billing takes the fallback |
| CredentialCache.RunKeepsInvariant | internal/logic/channel/credentials.go:491-536 | in every reachable state each cached entry holds the rows of one table state that has all commits behind the increments its key's version counts |
| CredentialCache.TurnsIff | internal/logic/channel/credentials.go:226-248 | which step is whose turn: commit, then increment or its failure; version, cache, table, fill |
| CredentialCache.CacheChanges | internal/logic/channel/credentials.go:527-548 | the cache changes only by a successful write of at least one row, under the version the call read, or by an entry that vanishes |
| CredentialCache.AnswersAreFresh | internal/logic/channel/credentials.go:527-548 | in every interleaving of readers and writers, with entries vanishing and increments failing, a call whose version read succeeded or that missed the cache answers from one table state with every write whose increment had finished when it read the version |
| CredentialCache.UsableMembers | internal/logic/channel/credentials.go:527-536 | exactly the enabled rows of the channel are usable |
| CredentialCache.UsableKeepsOrder | internal/logic/channel/credentials.go:527-536 | they keep the order and multiplicity of the table |
| CredentialCache.AnswersAreUsable | internal/logic/channel/credentials.go:527-548 | fresh or stale, every answer in every interleaving holds exactly the enabled rows of its channel in some table state, so never a disabled row or another channel's |
| CredentialCache.FailedVersionReadIsStale | internal/logic/channel/credentials.go:491-497 | for every pair of tables there is a run in which a failed version read makes a call answer with the old table's rows after the increment for the new one |
| CredentialCache.CredentialStore.AvailableCredentials | internal/logic/channel/credentials.go:527-548 | without interleaving, a call whose version read succeeded returns exactly the enabled rows of the channel in the table that are neither excluded nor cooling, whether or not they came from the cache; no call ever returns a disabled, foreign, excluded or cooling row or overwrites a cached entry |
| CredentialCache.CredentialStore.Save | internal/logic/channel/credentials.go:226-248 | a commit followed by an increment leaves nothing cached under the new version, so the next call reads the new table |
| CredentialSelection.WeightedSelect | internal/logic/channel/credentials.go:418-446 | the loops over a weights array return the credential whose interval of the running total holds the draw |
| CredentialSelection.DrawsAreWeights | internal/logic/channel/credentials.go:418-446 | over all draws below the total, credential i is picked for exactly max(1, score) of them, 100 without a score; the draws picked for it are its own interval, and every draw is picked by one credential, so neither fallback return is reached |
| CredentialSelection.SelectConversationCredential | internal/logic/channel/credential_affinity.go:94-126 | the remembered credential is chosen when it may be used; otherwise one is drawn, to be remembered unless the old one was only excluded |
| CredentialSelection.ConversationMemory.Select | internal/logic/channel/credential_affinity.go:128-164 | what one call does to the memory, renewal and failing reads and writes included, and what it answers |
| CredentialSelection.SharesMemoryIff | internal/logic/channel/credential_affinity.go:26-45 | two calls share a memory if and only if conversation, but for space around it, channel and model agree |
| CredentialSelection.RemembersADay | internal/logic/channel/credential_affinity.go:47-92 | what a call writes or renews is the memory of its own conversation, with the id answered or remembered before, and lasts 86400 seconds from the call |
| CredentialSelection.MemoryAfterTurn | internal/logic/channel/credential_affinity.go:128-164 | one call changes what its conversation remembers exactly when it replaces it, then to the drawn id, and never touches another conversation, channel or model |
| CredentialSelection.MemoryExpires | internal/logic/channel/credential_affinity.go:55-71 | a memory is found before its deadline and not from then on |
| CredentialSelection.AvailableCredentialForgottenIff | internal/logic/channel/credential_affinity.go:61-71 | an available remembered credential is forgotten if and only if the read failed, the write went through and the draw came out differently |
| CredentialSelection.AnswerMayBeUsed | internal/logic/channel/credential_affinity.go:94-126 | an answer is in the channel's pool, not cooling for the model and not excluded |
| CredentialSelection.UsableIff | internal/logic/channel/credential_affinity.go:94-142 | usable for a call are exactly the rows read that neither cool down for the model nor are excluded |
| CredentialSelection.AnswersIff | internal/logic/channel/credential_affinity.go:128-164 | with positive row ids a call answers if and only if it has a conversation and some credential is usable |
| CredentialSelection.RememberedIsAnsweredIff | internal/logic/channel/credential_affinity.go:109-121 | a remembered id that was read is answered if and only if it is in the pool and not excluded |
| CredentialSelection.ConversationSticks | internal/logic/channel/credential_affinity.go:10-24 | over whole runs, while its memory is read in time and the credential stays in the pool, every call of a conversation is answered with the credential it started with unless that call excludes it, and an excluding call leaves the memory intact |
| ProxyRotation.SplitProxyLines | internal/logic/channel/proxy.go:25-34 | the loop returns the trimmed non-blank lines in order |
| ProxyRotation.StoredListIsRead | internal/logic/channel/proxy.go:101-130 | the list read back from what is stored for a text is the list of that text |
| ProxyRotation.NextCredentialNextProxy | internal/logic/channel/proxy.go:39-47 | the first credential starts with the first proxy and each further one with the proxy after, cyclically |
| ProxyRotation.LoadIsEven | internal/logic/channel/proxy.go:36-47 | among the first k credentials every proxy has k / n, and the first k % n proxies one more |
| ProxyRotation.CredentialProxies.Advance | internal/logic/channel/proxy.go:89-99 | counts the failure and moves to the next position exactly while an untried proxy is left |
| ProxyRotation.DoViaProxies | internal/logic/channel/proxy.go:196-222 | at most max(1, n - tried) rounds, round k at position (base + k) mod n, each but the last to blame on the proxy, and the last round's outcome returned; n - tried is the termination measure |
| ProxyRotation.LastRound | internal/logic/channel/proxy.go:196-222 | every round but the last ended in a transport error or status 407; the last did not, or no untried proxy was left; and the outcome is what the last round came to |
| ProxyRotation.NoProxyTwice | internal/logic/channel/proxy.go:183-222 | no position is used twice in one call |
| ProxyRotation.RotationIsDetermined | internal/logic/channel/proxy.go:196-222 | the plan and the replies leave one possible sequence of rounds and one outcome |
| ProxyRotation.FreshPlanTriesAll | internal/logic/channel/proxy.go:196-222 | a fresh plan ends on a blamed proxy only after every proxy was tried once and blamed |
| SqliteCache.SqliteCache.GetDel | internal/logic/cache/sqlite.go:58-81 | a value is found exactly when its row is live, and is that row's; the row of a found value is gone, and every other row and all counters stay as they were |
| SqliteCache.SqliteCache.SetNX | internal/logic/cache/sqlite.go:91-115 | an expired row does not count as existing; the value is stored exactly when the key is then absent |
| SqliteCache.SqliteCache.Purge | internal/logic/cache/sqlite.go:203-208 | exactly the entries without a deadline or with one still to come stay, unchanged, and so do the counters |
| SqliteCache.StepRefinesIff | internal/logic/cache/sqlite.go:46-201 | a step does to the tables what the operation does to a map with deadlines, with the same reply, if and only if it is not an Expire that revives an expired row or gives no positive time |
| SqliteCache.RunRefines | internal/logic/cache/sqlite.go:46-208 | under a clock that never goes back, the tables of a run of sensible operations mean what the abstract map has arrived at |
| SqliteCache.RepliesAreAbstract | internal/logic/cache/sqlite.go:46-208 | every reply of such a run is the abstract map's reply |
| SqliteCache.PurgeIsInvisible | internal/logic/cache/sqlite.go:203-208 | a purge inserted anywhere in such a run changes no later reply |
| SqliteCache.LeaseExcludes | internal/logic/cache/sqlite.go:91-115 | two successful SetNX on one key, with nothing between them that touches the key, are at least the first one's time to live apart in whole seconds |
| SqliteCache.IncrIsInvisibleToGet | internal/logic/cache/sqlite.go:153-172 | however often a key is incremented, reading it finds nothing unless it is also written as an entry |
| SqliteCache.CountersCount | internal/logic/cache/sqlite.go:153-172 | along any run a counter is the number of its increments since its last deletion, and the next increment answers one more |
| SqliteCache.DelRemoves | internal/logic/cache/sqlite.go:117-140 | a deletion removes exactly the named keys from both tables and answers how many rows are gone |
| SqliteCache.TimeToLive | internal/logic/cache/sqlite.go:182-201 | a value is found for the whole seconds of its time to live, which counts down in nanoseconds; no time to live answers minus one second, a missing or expired key minus two |
| SpendLedger.SpendTable.AddSpend | internal/logic/apikey/spending.go:27-72 | amounts of zero or less change nothing, an unknown key is an error, and otherwise total and daily amount of that key alone grow by the amount, the daily one starting afresh on a new date |
| SpendLedger.NoSpendIsLost | internal/logic/apikey/spending.go:33-66 | in every interleaving of clients that lock, read, write, commit or roll back, each key's row is what its committed charges make of it one after another, and its total is their sum |
| SpendLedger.DailyIsExactIff | internal/logic/apikey/daily_limit.go:31-36 | the daily amount read is what was charged that day if and only if no charge dated otherwise was committed after one dated that day |
| SpendLedger.OrderedDatesAreTogether | internal/logic/apikey/spending.go:31-66 | dates that never decrease, none after the day asked for, meet that condition |
| SpendLedger.DailyLimitCountsCharges | internal/logic/apikey/daily_limit.go:16-36 | over whole runs the limit is reached if and only if nothing remains, and never without a limit; the amount read never exceeds what was charged, and under that condition limit and remaining amount go by what was charged |
| SpendLedger.LateCommitHidesSpend | internal/logic/apikey/spending.go:31-66 | for every pair of positive amounts there is a run of two clients after which nothing counts as spent on the new day although the second amount was charged on it |
| ModelRequests.SplitPublicModelNames | internal/logic/channel/models.go:120-136 | the loop returns the distinct non-blank trimmed pieces in order of first appearance |
| ModelRequests.NamesAreThePieces | internal/logic/channel/models.go:117-136 | the names have no repetition, and a text is a name if and only if it is a non-blank trimmed piece |
| ModelRequests.NamesHoldNoComma | internal/logic/channel/models.go:117-136 | no name split from a text holds a half-width or full-width comma |
| ModelRequests.PairsAskedFor | internal/logic/channel/models.go:138-183 | a pair is in the result if and only if some item with that trimmed upstream name has it as a piece of its text, or has no piece and the pair repeats the upstream name |
| ModelRequests.AcceptableIff | internal/logic/channel/models.go:155-181 | pairs can be saved if and only if they are at most 2000, all different, with names of at most 191 bytes |
| ModelRequests.BlamesIff | internal/logic/channel/models.go:155-181 | each error means what it says: more than 2000 pairs, a name of more than 191 bytes that occurs, a pair that repeats |
| ModelRequests.BytesOf | internal/logic/channel/models.go:165-172 | a character counts one to four bytes by its code point |
| ModelRequests.NormalizeModelMappings | internal/logic/channel/models.go:148-185 | a request is accepted if and only if it has at most 2000 items and its pairs are at most 2000, distinct and at most 191 bytes long each way; the result is then all pairs in order, and an error names something that is wrong |
| ModelSelection.ChannelModels.SelectModels | internal/logic/channel/models.go:31-99 | the loops leave the table that the mappings, placed one by one by the scanned rows and followed by disabling the rest, make of it |
| ModelSelection.SelectionIsExactIff | internal/logic/channel/models.go:31-99 | for distinct mappings and a given scan order, the enabled pairs are the requested ones if and only if no mapping without a row of its own is handed the row of a later mapping |
| SelectionOrder.ExactInEveryScanIff | internal/logic/channel/models.go:31-99 | they are the requested ones in whatever order the rows are scanned if and only if every mapping already stored has more stored copies than mappings new to its upstream come before it in the request |
| SelectionOrder.RoomyIffStoredFirst | internal/logic/channel/models.go:44-55 | when no pair is stored twice, that condition says that per upstream the mappings already stored come first |
| ModelSelection.MappingGetsItsRow | internal/logic/channel/models.go:44-87 | then every mapping has a row to itself with its pair, enabled, and the submitted closing times or else the ones the row had |
| ModelSelection.ExistingRowStays | internal/logic/channel/models.go:88-99 | in any case no existing row is removed or moves to another upstream, and one that no mapping got is disabled and otherwise unchanged |
| ModelSelection.ExactFirstIsEnough | internal/logic/channel/models.go:44-55 | requests that list, per upstream, the exactly stored mappings first meet the condition |
| ModelSelection.UnorderedRequestLosesPair | internal/logic/channel/models.go:44-87 | with one stored name, a request that puts a new name of the same upstream before it does not end with the requested pairs |
| SessionId.EncodeBase62 | internal/logic/channel/opencode_free.go:221-237 | filling the array from the last place, with the early fill of zeros, yields `length` base-62 digits whose value is that of the bytes modulo 62^length |
| SessionId.Base62IsDetermined | internal/logic/channel/opencode_free.go:221-237 | base-62 texts of one length and value are the same, so there is one possible encoding |
| SessionId.TenBytesAreRecovered | internal/logic/channel/opencode_free.go:191-193 | at length 14 the encodings of two ten-byte strings are equal if and only if the strings are, and the value is recovered |
| SessionId.ClockIsRecovered | internal/logic/channel/opencode_free.go:175-184 | the complemented twelve hex digits decode to the clock modulo 2^36 and the counter modulo 2^12 |
| SessionId.LaterComesFirst | internal/logic/channel/opencode_free.go:175-184 | within one period of the clock a later millisecond has the segment that comes first in the order of strings |
| SessionId.IsOpenCodeFreeSessionID | internal/logic/channel/opencode_free.go:131-156 | the scan accepts exactly prefix, twelve hex digits of either case with a counter of at most 63, and fourteen base-62 digits |
| SessionId.AcceptedIff | internal/logic/channel/opencode_free.go:131-156 | letter by letter: `ses_`, twelve hex digits of which the tenth is f and the eleventh at least c, in either case, and fourteen characters of 0-9A-Za-z |
| SessionId.MintedIsAcceptedIff | internal/logic/channel/opencode_free.go:131-184 | an id made from a minted segment and any tail is accepted if and only if the counter modulo 4096 is at most 63 |
| SessionId.SessionClock.Derive | internal/logic/channel/opencode_free.go:167-194 | every derived id is accepted by the validator, has the segment minted once per process with counter 1, and encodes digest bytes 6 to 15 |
| SessionId.SessionClock.SessionIdFor | internal/logic/channel/opencode_free.go:116-125 | the first acceptable id among the client's headers, else a derived one; either way acceptable |
| SessionId.SameIdIff | internal/logic/channel/opencode_free.go:186-194 | ids of one process are equal if and only if the digest bytes they are made from are |

## Left out

- Regular expressions: conditions and leaf terms enter as parsed comparisons, bounds, names and coefficients (`PriceExpression.Grammar`), so their classification by substring and prefix is not modelled; the hand-written scanners work on characters.
- Schedule conditions with several time zones: the source uses the first zone found, the model gives a condition one zone; weekdays count 1 Monday to 7 Sunday.
- Letters outside ASCII: lower-casing is modelled for A to Z only.
- Texts are sequences of characters; the scanners' byte positions differ only inside multi-byte characters, which hold no byte the scanners look for.
- Floating point and decimals: prices, coefficients and amounts are real numbers; a coefficient that overflows or is no number is an unreadable term.
- JSON encoding, rule names and notes, currencies, and the text of a rule's rates in the matrix.
- The descriptions of tiers and time windows in the matrix: tiers are their bounds and windows their description, so two bounds that are formatted alike are kept apart.
- Sorting library calls: the stable sorts are given by their result, which `BillingCompiler.StableSortIsUnique` pins down.
- BillingCompiler.CompilationPreservesMeaning: speaks of well-formed expressions; `BillingMeaning.BilledRightIff` gives the exact condition for every expression that compiles.
- BillingCharge.ParsedTextChargedRightIff: counts of 2^63 and more turn negative in the code's signed conversion; `ParsedTextIsCharged` covers them.
- BillingCharge.DocumentedMeaningIff: counts of 2^63 and more turn negative in the code's signed conversion; up to there is covered, and `ChargedBeyondMeaning` covers them all.
- The rounding of a subtotal to eight decimals, the line that shows it, and the cutting of quotients to sixteen digits.
- BillingCompiler.FallbacksNeverShadow: speaks of the rules of one synchronisation; rules added by hand at another priority are outside it.
- CredentialCache.AnswersAreFresh: the version counter itself never disappears, as on Redis without eviction of it; the five minutes an entry lives only make it vanish, which may happen at any time anyway.
- Creating a credential commits without an increment, so it is not among the writers.
- CredentialSelection.ConversationSticks: the key text is a record of conversation, channel and model, and Redis failures are flags of each call.
- The binding of API keys to credentials for requests without a conversation.
- Building the HTTP client, closing bodies and the request itself: a round of `DoViaProxies` is whether each step succeeded and what came back.
- SqliteCache.StepRefinesIff: the number of rows `Del` reports (expired rows count) and the values `Incr` returns are outside the comparison; the database's own errors are not modelled.
- The row lock of a charge is one lock per key; on SQLite one lock covers the table, which allows fewer interleavings. Deleting or creating a key during a charge, and the deletion of the authentication cache entry, are left out.
- ModelSelection.SelectionIsExactIff: the channel's rows have only the columns the selection touches, and the checks around it (ownership, closing-time syntax, route invalidation) are left out; so is the older form of the request that lists names only.
- SHA-256 and the process clock are parameters of `SessionId`; 64-bit shifts, masks and complements are written as arithmetic.
- `splitZeroPricedRules`, saving rules, and the cleanup of stale ones: straight filters and database writes.
- HTTP fetching, upstream adapters, quota and cost queries, controllers, routing, the cluster protocol and the rest of the front end.
