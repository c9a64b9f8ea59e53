/**
 The compiler from billing expressions to price rules: nested ternaries are flattened into
 conjunctive rules, and only the order of the rules expresses "otherwise".
 */
module BillingCompiler {
  import opened GoStrings
  import opened Schedules
  import R = BillingRates

  const LIMIT: nat := 0x1_0000_0000_0000_0000

  /** Go's uint64. */
  type Count = n: nat | n < LIMIT

  // ---------- Conditions and expressions ----------

  datatype LengthOp = AtMost | Below | AtLeast | Above

  datatype Condition =
    | ScheduleCondition(schedule: Schedule)
    | LengthCondition(op: LengthOp, bound: nat)
    | ParamCondition(role: string)
    | UnknownCondition

  datatype CompileError = BadSchedule | BadLength | BadCondition | BadLeaf | Empty

  datatype Tier = Tier(name: string, rates: R.Rates)

  datatype Expr =
    | Leaf(tier: Result<Tier, CompileError>)
    | Ternary(condition: Condition, whenTrue: Expr, whenFalse: Expr)

  /** An instant and a request: local times, the known time zones, and the input length. */
  datatype Request = Request(local: string -> LocalTime, zones: set<string>, length: Count)

  ghost predicate ValidRequest(q: Request) {
    forall zone :: ValidTime(q.local(zone))
  }

  predicate LengthHolds(op: LengthOp, bound: nat, length: Count) {
    match op
    case AtMost => length <= bound
    case Below => length < bound
    case AtLeast => length >= bound
    case Above => length > bound
  }

  /** A condition evaluated directly; request parameters count as not set. */
  predicate ConditionHolds(c: Condition, q: Request) {
    match c
    case ScheduleCondition(s) => Holds(s, q.local(s.zone))
    case LengthCondition(op, bound) => LengthHolds(op, bound, q.length)
    case ParamCondition(_) => false
    case UnknownCondition => false
  }

  /** The leaf that evaluating the ternaries reaches. */
  function Eval(e: Expr, q: Request): Result<Tier, CompileError> {
    match e
    case Leaf(tier) => tier
    case Ternary(c, t, f) => if ConditionHolds(c, q) then Eval(t, q) else Eval(f, q)
  }

  // ---------- The walk ----------

  datatype Note = NoNote | PeakHours | OffPeak | ParamOff(role: string)

  /** A flattened branch. An empty zone means no time condition. */
  datatype Breakdown = Breakdown(tier: string, rates: R.Rates, window: Window,
                                 minInput: Option<Count>, maxInput: Option<Count>, note: Note)

  const NO_WINDOW := Window("", [], [])
  const ROOT := Breakdown("", map[], NO_WINDOW, None, None, NoNote)

  datatype Bounds = Bounds(trueMin: Option<Count>, trueMax: Option<Count>, falseMin: Option<Count>,
                           falseMax: Option<Count>)

  /** `bound + 1` in 64 bits. */
  function Successor(n: Count): Count {
    (n + 1) % LIMIT
  }

  function ParseLength(op: LengthOp, bound: nat): Result<Bounds, CompileError> {
    if bound == 0 || bound >= LIMIT then Err(BadLength)
    else match op
         case AtMost => Ok(Bounds(None, Some(bound), Some(Successor(bound)), None))
         case Below => Ok(Bounds(None, Some(bound - 1), Some(bound), None))
         case AtLeast => Ok(Bounds(Some(bound), None, None, Some(bound - 1)))
         case Above => Ok(Bounds(Some(Successor(bound)), None, None, Some(bound)))
  }

  /** `mergeBillingInputBounds`: the larger lower bound and the smaller upper bound. */
  function MergeMin(a: Option<Count>, b: Option<Count>): Option<Count> {
    if b.Some? && (a.None? || b.value > a.value) then b else a
  }

  function MergeMax(a: Option<Count>, b: Option<Count>): Option<Count> {
    if b.Some? && (a.None? || b.value < a.value) then b else a
  }

  function Narrow(context: Breakdown, min: Option<Count>, max: Option<Count>): Breakdown {
    context.(minInput := MergeMin(context.minInput, min), maxInput := MergeMax(context.maxInput, max))
  }

  /** The contexts of a schedule's two branches and of a parameter's else branch. */
  function Otherwise(context: Breakdown): Breakdown {
    context.(window := NO_WINDOW, note := OffPeak)
  }

  function During(context: Breakdown, w: Window): Breakdown {
    context.(window := w, note := PeakHours)
  }

  function ParameterOff(context: Breakdown, role: string): Breakdown {
    context.(note := ParamOff(role))
  }

  type Branches = Result<seq<Breakdown>, CompileError>

  function Append(first: Branches, second: Branches): Branches {
    if first.Err? then first else if second.Err? then second else Ok(first.value + second.value)
  }

  /** The flattening on trees. Of a schedule the else branch comes first, of a length the true branch. */
  function Walk(e: Expr, context: Breakdown): Branches {
    match e
    case Leaf(tier) =>
      if tier.Err? then Err(tier.error)
      else Ok([context.(tier := tier.value.name, rates := tier.value.rates)])
    case Ternary(c, whenTrue, whenFalse) =>
      match c
      case ScheduleCondition(s) =>
        var w := ParseSchedule(s);
        if w.Err? then Err(BadSchedule)
        else Append(Walk(whenFalse, Otherwise(context)),
                    Walk(whenTrue, During(context, w.value)))
      case LengthCondition(op, bound) =>
        var b := ParseLength(op, bound);
        if b.Err? then Err(BadLength)
        else Append(Walk(whenTrue, Narrow(context, b.value.trueMin, b.value.trueMax)),
                    Walk(whenFalse, Narrow(context, b.value.falseMin, b.value.falseMax)))
      case ParamCondition(role) => Walk(whenFalse, ParameterOff(context, role))
      case UnknownCondition => Err(BadCondition)
  }

  // ---------- Rules and billing ----------

  /** The stored conditions of a rule. */
  datatype Rule = Rule(time: Option<Window>, atLeast: Option<Count>, atMost: Option<Count>, rates: R.Rates)

  /** `billingExprSyncedRule`. */
  function SyncedRule(b: Breakdown): Rule {
    Rule(if b.window.zone != "" then Some(b.window) else None, b.minInput, b.maxInput, b.rates)
  }

  function SyncedRules(bs: seq<Breakdown>): (r: seq<Rule>)
    ensures |r| == |bs|
    ensures forall i :: 0 <= i < |bs| ==> r[i] == SyncedRule(bs[i])
  {
    seq(|bs|, i requires 0 <= i < |bs| => SyncedRule(bs[i]))
  }

  predicate HasConditions(r: Rule) {
    r.time.Some? || r.atLeast.Some? || r.atMost.Some?
  }

  predicate LengthAdmits(atLeast: Option<Count>, atMost: Option<Count>, length: Count) {
    (atLeast.Some? ==> length >= atLeast.value) && (atMost.Some? ==> length <= atMost.value)
  }

  /** `RuleMatches`. */
  predicate Matches(r: Rule, q: Request) {
    && LengthAdmits(r.atLeast, r.atMost, q.length)
    && (r.time.Some? ==> Admits(r.time.value, q.zones, q.local(Trim(r.time.value.zone))))
  }

  /**
   Billing tries the rules from the last stored one to the first, and takes the first that
   matches and whose rates price the usage; `prices` says which rates do.
   */
  function Billed(rules: seq<Rule>, q: Request, prices: R.Rates -> bool): (r: Option<Rule>)
    ensures r.Some? ==> r.value in rules && Matches(r.value, q) && prices(r.value.rates)
    ensures r.None? ==> forall x :: x in rules && Matches(x, q) ==> !prices(x.rates)
  {
    if rules == [] then None
    else
      var last := rules[|rules| - 1];
      if Matches(last, q) && prices(last.rates) then Some(last) else Billed(rules[..|rules| - 1], q, prices)
  }

  function RatesOf(r: Option<Rule>): Option<R.Rates> {
    if r.Some? then Some(r.value.rates) else None
  }

  // ---------- Storage order ----------

  /** The rules with conditions, or those without, in their given order. */
  function Only(rules: seq<Rule>, conditional: bool): seq<Rule> {
    if rules == [] then []
    else
      var last := rules[|rules| - 1];
      Only(rules[..|rules| - 1], conditional) + if HasConditions(last) == conditional then [last] else []
  }

  /** What the stable sort of `orderSyncedRules` yields: unconditional rules first. */
  function OrderSyncedRules(rules: seq<Rule>): seq<Rule> {
    Only(rules, false) + Only(rules, true)
  }

  lemma {:induction false} OnlyMembers(rules: seq<Rule>, conditional: bool)
    ensures forall x :: x in Only(rules, conditional) <==> x in rules && HasConditions(x) == conditional
  {
    if rules != [] {
      var front, last := rules[..|rules| - 1], rules[|rules| - 1];
      OnlyMembers(front, conditional);
      assert rules == front + [last];
    }
  }

  lemma {:induction false} OnlyAppends(a: seq<Rule>, b: seq<Rule>, conditional: bool)
    ensures Only(a + b, conditional) == Only(a, conditional) + Only(b, conditional)
  {
    if b == [] {
      assert a + b == a;
    } else {
      assert (a + b)[..|a + b| - 1] == a + b[..|b| - 1];
      OnlyAppends(a, b[..|b| - 1], conditional);
    }
  }

  /** Every rule is of the given kind. */
  predicate Uniform(rules: seq<Rule>, conditional: bool) {
    forall i :: 0 <= i < |rules| ==> HasConditions(rules[i]) == conditional
  }

  lemma {:induction false} OnlyIsUniform(rules: seq<Rule>, conditional: bool)
    ensures Uniform(Only(rules, conditional), conditional)
  {
    OnlyMembers(rules, conditional);
    assert forall i :: 0 <= i < |Only(rules, conditional)| ==> Only(rules, conditional)[i] in Only(rules, conditional);
  }

  lemma {:induction false} OnlyKeeps(rules: seq<Rule>, conditional: bool)
    requires Uniform(rules, conditional)
    ensures Only(rules, conditional) == rules
    ensures Only(rules, !conditional) == []
  {
    if rules != [] {
      var front, last := rules[..|rules| - 1], rules[|rules| - 1];
      OnlyKeeps(front, conditional);
      assert HasConditions(last) == conditional;
      assert rules == front + [last];
    }
  }

  lemma {:induction false} OnlySplits(rules: seq<Rule>)
    ensures multiset(OrderSyncedRules(rules)) == multiset(rules)
  {
    if rules != [] {
      var front, last := rules[..|rules| - 1], rules[|rules| - 1];
      OnlySplits(front);
      var conditional := HasConditions(last);
      assert Only(rules, conditional) == Only(front, conditional) + [last];
      assert Only(rules, !conditional) == Only(front, !conditional);
      assert multiset(Only(rules, conditional)) == multiset(Only(front, conditional)) + multiset{last};
      assert rules == front + [last];
    }
  }

  /** No rule with conditions stands before one without. */
  predicate FallbacksFirst(rules: seq<Rule>) {
    forall i, j :: 0 <= i < j < |rules| && HasConditions(rules[i]) ==> HasConditions(rules[j])
  }

  /** A stable sort of `rules`: fallbacks first, and each kind in its old order. */
  predicate StablySorted(rules: seq<Rule>, sorted: seq<Rule>) {
    && FallbacksFirst(sorted)
    && Only(sorted, false) == Only(rules, false)
    && Only(sorted, true) == Only(rules, true)
  }

  /** The order keeps every rule, moves no two rules of one kind past each other, and puts fallbacks first. */
  lemma {:induction false} OrderIsStablePermutation(rules: seq<Rule>)
    ensures multiset(OrderSyncedRules(rules)) == multiset(rules)
    ensures StablySorted(rules, OrderSyncedRules(rules))
  {
    var a, b := Only(rules, false), Only(rules, true);
    OnlySplits(rules);
    OnlyIsUniform(rules, false);
    OnlyIsUniform(rules, true);
    OnlyAppends(a, b, true);
    OnlyAppends(a, b, false);
    OnlyKeeps(a, false);
    OnlyKeeps(b, true);
  }

  /** Any stable sort by "has conditions" gives this very order. */
  lemma {:induction false} StableSortIsUnique(rules: seq<Rule>, sorted: seq<Rule>)
    requires StablySorted(rules, sorted)
    ensures sorted == OrderSyncedRules(rules)
  {
    SortedIsSplit(sorted);
  }

  lemma {:induction false} SortedIsSplit(sorted: seq<Rule>)
    requires FallbacksFirst(sorted)
    ensures sorted == Only(sorted, false) + Only(sorted, true)
  {
    if sorted != [] {
      var front, last := sorted[..|sorted| - 1], sorted[|sorted| - 1];
      assert sorted == front + [last];
      SortedIsSplit(front);
      if !HasConditions(last) {
        assert Uniform(front, false);
        OnlyKeeps(front, false);
      }
    }
  }

  lemma {:induction false} BilledAppends(a: seq<Rule>, b: seq<Rule>, q: Request, prices: R.Rates -> bool)
    ensures Billed(a + b, q, prices)
         == if Billed(b, q, prices).Some? then Billed(b, q, prices) else Billed(a, q, prices)
  {
    if b == [] {
      assert a + b == a;
    } else {
      assert (a + b)[..|a + b| - 1] == a + b[..|b| - 1];
      BilledAppends(a, b[..|b| - 1], q, prices);
    }
  }

  /**
   Fallbacks never shadow: over ordered rules the billed one has no conditions exactly when no
   conditional rule can be billed, and otherwise it is the last conditional one that can.
   */
  lemma {:induction false} FallbacksNeverShadow(rules: seq<Rule>, q: Request, prices: R.Rates -> bool)
    ensures var billed := Billed(OrderSyncedRules(rules), q, prices);
            && (billed.Some? && HasConditions(billed.value)
                <==> exists x :: x in rules && HasConditions(x) && Matches(x, q) && prices(x.rates))
            && (billed.Some? && HasConditions(billed.value) ==> billed == Billed(Only(rules, true), q, prices))
            && (billed.None? <==> forall x :: x in rules && Matches(x, q) ==> !prices(x.rates))
  {
    OnlyMembers(rules, true);
    OnlyMembers(rules, false);
    BilledAppends(Only(rules, false), Only(rules, true), q, prices);
  }

  // ---------- Well-formed expressions ----------

  /** No schedule is met on the way to a rule. The true branch of a parameter is never walked. */
  predicate NoSchedule(e: Expr) {
    match e
    case Leaf(_) => true
    case Ternary(c, t, f) =>
      match c
      case ScheduleCondition(_) => false
      case LengthCondition(_, _) => NoSchedule(t) && NoSchedule(f)
      case ParamCondition(_) => NoSchedule(f)
      case UnknownCondition => true
  }

  /**
   The expressions whose meaning survives: schedules are supported and have no further schedule in
   their true branch, and no `len <= bound` has the largest 64-bit bound.
   */
  predicate WellFormed(e: Expr, zones: set<string>) {
    match e
    case Leaf(_) => true
    case Ternary(c, t, f) =>
      match c
      case ScheduleCondition(s) => Supported(s, zones) && NoSchedule(t) && WellFormed(t, zones) && WellFormed(f, zones)
      case LengthCondition(op, bound) =>
        (op == AtMost ==> bound != LIMIT - 1) && WellFormed(t, zones) && WellFormed(f, zones)
      case ParamCondition(_) => WellFormed(f, zones)
      case UnknownCondition => true
  }

  // ---------- Length bounds ----------

  /** The parsed bounds split the lengths exactly, unless the else bound wraps around. */
  lemma {:induction false} BoundsExactIff(op: LengthOp, bound: nat)
    requires ParseLength(op, bound).Ok?
    ensures var b := ParseLength(op, bound).value;
            (forall n: Count :: (LengthAdmits(b.trueMin, b.trueMax, n) <==> LengthHolds(op, bound, n))
                                && (LengthAdmits(b.falseMin, b.falseMax, n) <==> !LengthHolds(op, bound, n)))
            <==> !((op == AtMost || op == Above) && bound == LIMIT - 1)
  {
    var b := ParseLength(op, bound).value;
    if bound == LIMIT - 1 {
      var n: Count := 0;
      assert op == AtMost ==> LengthAdmits(b.falseMin, b.falseMax, n);
      assert op == Above ==> LengthAdmits(b.trueMin, b.trueMax, n);
    } else if op == AtMost || op == Above {
      assert Successor(bound) == bound + 1;
    }
  }

  /** A bound of the cut wraps around, so that both branches take every length. */
  predicate Wraps(op: LengthOp, bound: nat) {
    bound == LIMIT - 1 && (op == AtMost || op == Above)
  }

  /** The lengths that reach the branches of a cut. */
  lemma {:induction false} BranchesReached(op: LengthOp, bound: nat, n: Count)
    requires ParseLength(op, bound).Ok?
    ensures var b := ParseLength(op, bound).value;
            && (LengthAdmits(b.trueMin, b.trueMax, n) <==> LengthHolds(op, bound, n) || Wraps(op, bound))
            && (LengthAdmits(b.falseMin, b.falseMax, n) <==> !LengthHolds(op, bound, n) || Wraps(op, bound))
            && (b.trueMin.Some? || b.trueMax.Some?) && (b.falseMin.Some? || b.falseMax.Some?)
  {
    assert bound != LIMIT - 1 ==> Successor(bound) == bound + 1;
    assert Successor(LIMIT - 1) == 0;
  }

  // ---------- The leaves that billing tries ----------

  /**
   The rates whose rules let the request through, in the order they are tried: the leaf that evaluation reaches
   and, where that one is passed over, the leaves of the else branches around it.
   */
  function Tried(e: Expr, q: Request): seq<R.Rates> {
    match e
    case Leaf(tier) => if tier.Ok? then [tier.value.rates] else []
    case Ternary(c, t, f) =>
      match c
      case ScheduleCondition(s) => if Holds(s, q.local(s.zone)) then Tried(t, q) + Tried(f, q) else Tried(f, q)
      case LengthCondition(op, bound) =>
        if Wraps(op, bound) then Tried(f, q) + Tried(t, q)
        else if LengthHolds(op, bound, q.length) then Tried(t, q)
        else Tried(f, q)
      case ParamCondition(_) => Tried(f, q)
      case UnknownCondition => []
  }

  /** The first of the tried rates that prices the usage. */
  function FirstPriced(tried: seq<R.Rates>, prices: R.Rates -> bool): (r: Option<R.Rates>)
    ensures r.Some? ==> r.value in tried && prices(r.value)
    ensures r.None? ==> forall x :: x in tried ==> !prices(x)
  {
    if tried == [] then None
    else if prices(tried[0]) then Some(tried[0])
    else FirstPriced(tried[1..], prices)
  }

  lemma {:induction false} FirstPricedAppends(a: seq<R.Rates>, b: seq<R.Rates>, prices: R.Rates -> bool)
    ensures FirstPriced(a + b, prices)
         == if FirstPriced(a, prices).Some? then FirstPriced(a, prices) else FirstPriced(b, prices)
  {
    if a == [] {
      assert a + b == b;
    } else {
      assert (a + b)[1..] == a[1..] + b;
      FirstPricedAppends(a[1..], b, prices);
    }
  }

  /** The leaf that evaluation reaches is tried first. */
  lemma {:induction false} TriesLeafFirst(e: Expr, context: Breakdown, q: Request)
    requires Walk(e, context).Ok? && WellFormed(e, q.zones)
    ensures Eval(e, q).Ok? && Tried(e, q) != [] && Tried(e, q)[0] == Eval(e, q).value.rates
  {
    match e
    case Leaf(_) =>
    case Ternary(c, t, f) =>
      match c
      case ScheduleCondition(s) =>
        TriesLeafFirst(t, During(context, ParseSchedule(s).value), q);
        TriesLeafFirst(f, Otherwise(context), q);
      case LengthCondition(op, bound) =>
        var b := ParseLength(op, bound).value;
        TriesLeafFirst(t, Narrow(context, b.trueMin, b.trueMax), q);
        TriesLeafFirst(f, Narrow(context, b.falseMin, b.falseMax), q);
      case ParamCondition(role) => TriesLeafFirst(f, ParameterOff(context, role), q);
      case UnknownCondition =>
  }

  // ---------- Compilation preserves meaning ----------

  /** The context's own conditions let the request through. */
  predicate Open(context: Breakdown, q: Request) {
    Matches(SyncedRule(context), q)
  }

  lemma {:induction false} NarrowIsIntersection(context: Breakdown, min: Option<Count>, max: Option<Count>, q: Request)
    ensures var c := Narrow(context, min, max);
            LengthAdmits(c.minInput, c.maxInput, q.length)
            <==> LengthAdmits(context.minInput, context.maxInput, q.length) && LengthAdmits(min, max, q.length)
    ensures Open(Narrow(context, min, max), q) <==> Open(context, q) && LengthAdmits(min, max, q.length)
  {
  }

  predicate Timed(context: Breakdown) {
    context.window.zone != ""
  }

  /** The rules stored for an expression. */
  function StoredRules(e: Expr): seq<Rule>
    requires Walk(e, ROOT).Ok?
  {
    OrderSyncedRules(SyncedRules(Walk(e, ROOT).value))
  }

  /** The leaf's rates when they price the usage, and else nothing. */
  function Meant(leaf: R.Rates, prices: R.Rates -> bool): Option<R.Rates> {
    if prices(leaf) then Some(leaf) else None
  }

  /**
   The expression compiles, and its stored rules bill the leaf its evaluation reaches, or nothing when that leaf's
   rates price nothing of the usage.
   */
  ghost predicate BilledRight(e: Expr, q: Request, prices: R.Rates -> bool) {
    && Walk(e, ROOT).Ok? && Eval(e, q).Ok?
    && RatesOf(Billed(StoredRules(e), q, prices)) == Meant(Eval(e, q).value.rates, prices)
  }

  /** A closed context yields no rule that matches. */
  lemma {:induction false} ClosedContext(e: Expr, context: Breakdown, q: Request)
    requires Walk(e, context).Ok? && !Open(context, q)
    requires !LengthAdmits(context.minInput, context.maxInput, q.length) || NoSchedule(e)
    ensures forall b :: b in Walk(e, context).value ==> !Matches(SyncedRule(b), q)
  {
    match e
    case Leaf(_) =>
    case Ternary(c, t, f) =>
      match c
      case ScheduleCondition(s) =>
        ClosedContext(f, Otherwise(context), q);
        ClosedContext(t, During(context, ParseSchedule(s).value), q);
      case LengthCondition(op, bound) =>
        var b := ParseLength(op, bound).value;
        NarrowIsIntersection(context, b.trueMin, b.trueMax, q);
        NarrowIsIntersection(context, b.falseMin, b.falseMax, q);
        ClosedContext(t, Narrow(context, b.trueMin, b.trueMax), q);
        ClosedContext(f, Narrow(context, b.falseMin, b.falseMax), q);
      case ParamCondition(role) =>
        ClosedContext(f, ParameterOff(context, role), q);
      case UnknownCondition =>
  }

  lemma {:induction false} SyncedRulesAppend(a: seq<Breakdown>, b: seq<Breakdown>)
    ensures SyncedRules(a + b) == SyncedRules(a) + SyncedRules(b)
  {
  }

  lemma {:induction false} NothingBilled(bs: seq<Breakdown>, q: Request, prices: R.Rates -> bool)
    requires forall b :: b in bs ==> !Matches(SyncedRule(b), q)
    ensures Billed(SyncedRules(bs), q, prices) == None
  {
  }

  /** Of two appended walks, a branch whose context is closed has no say. */
  lemma {:induction false} AppendedWalks(a: seq<Breakdown>, b: seq<Breakdown>, q: Request, prices: R.Rates -> bool)
    ensures Billed(SyncedRules(a + b), q, prices)
            == if Billed(SyncedRules(b), q, prices).Some? then Billed(SyncedRules(b), q, prices)
               else Billed(SyncedRules(a), q, prices)
  {
    SyncedRulesAppend(a, b);
    BilledAppends(SyncedRules(a), SyncedRules(b), q, prices);
  }

  /**
   In an open context the rules of a well-formed expression bill the first of the tried leaves that prices the
   usage. A context with a time window has to hold an expression without schedules.
   */
  lemma {:induction false} WalkPreservesMeaning(e: Expr, context: Breakdown, q: Request, prices: R.Rates -> bool)
    requires ValidRequest(q) && WellFormed(e, q.zones) && Walk(e, context).Ok? && Open(context, q)
    requires Timed(context) ==> NoSchedule(e)
    ensures RatesOf(Billed(SyncedRules(Walk(e, context).value), q, prices)) == FirstPriced(Tried(e, q), prices)
    decreases e, 1
  {
    match e
    case Leaf(tier) =>
    case Ternary(c, t, f) =>
      match c
      case ScheduleCondition(s) => ScheduleCase(s, t, f, context, q, prices);
      case LengthCondition(op, bound) => LengthCase(op, bound, t, f, context, q, prices);
      case ParamCondition(role) =>
        WalkPreservesMeaning(f, ParameterOff(context, role), q, prices);
      case UnknownCondition =>
  }

  lemma {:induction false} ScheduleCase(s: Schedule, t: Expr, f: Expr, context: Breakdown, q: Request,
                                        prices: R.Rates -> bool)
    requires ValidRequest(q) && WellFormed(Ternary(ScheduleCondition(s), t, f), q.zones)
    requires Walk(Ternary(ScheduleCondition(s), t, f), context).Ok? && Open(context, q) && !Timed(context)
    ensures RatesOf(Billed(SyncedRules(Walk(Ternary(ScheduleCondition(s), t, f), context).value), q, prices))
         == FirstPriced(Tried(Ternary(ScheduleCondition(s), t, f), q), prices)
    decreases Ternary(ScheduleCondition(s), t, f), 0
  {
    var off := Otherwise(context);
    var hit := During(context, ParseSchedule(s).value);
    var a, b := Walk(f, off).value, Walk(t, hit).value;
    AppendedWalks(a, b, q, prices);
    SupportedIsExact(s, q.zones, q.local(s.zone));
    if Holds(s, q.local(s.zone)) {
      WalkPreservesMeaning(t, hit, q, prices);
      FirstPricedAppends(Tried(t, q), Tried(f, q), prices);
    } else {
      ClosedContext(t, hit, q);
      NothingBilled(b, q, prices);
    }
    WalkPreservesMeaning(f, off, q, prices);
  }

  lemma {:induction false} LengthCase(op: LengthOp, bound: nat, t: Expr, f: Expr, context: Breakdown, q: Request,
                                      prices: R.Rates -> bool)
    requires ValidRequest(q) && WellFormed(Ternary(LengthCondition(op, bound), t, f), q.zones)
    requires Walk(Ternary(LengthCondition(op, bound), t, f), context).Ok? && Open(context, q)
    requires Timed(context) ==> NoSchedule(Ternary(LengthCondition(op, bound), t, f))
    ensures RatesOf(Billed(SyncedRules(Walk(Ternary(LengthCondition(op, bound), t, f), context).value), q, prices))
         == FirstPriced(Tried(Ternary(LengthCondition(op, bound), t, f), q), prices)
    decreases Ternary(LengthCondition(op, bound), t, f), 0
  {
    var bounds := ParseLength(op, bound).value;
    var yes := Narrow(context, bounds.trueMin, bounds.trueMax);
    var no := Narrow(context, bounds.falseMin, bounds.falseMax);
    AppendedWalks(Walk(t, yes).value, Walk(f, no).value, q, prices);
    NarrowIsIntersection(context, bounds.trueMin, bounds.trueMax, q);
    NarrowIsIntersection(context, bounds.falseMin, bounds.falseMax, q);
    BranchesReached(op, bound, q.length);
    if Wraps(op, bound) {
      WalkPreservesMeaning(t, yes, q, prices);
      WalkPreservesMeaning(f, no, q, prices);
      FirstPricedAppends(Tried(f, q), Tried(t, q), prices);
    } else if LengthHolds(op, bound, q.length) {
      ClosedContext(f, no, q);
      NothingBilled(Walk(f, no).value, q, prices);
      WalkPreservesMeaning(t, yes, q, prices);
    } else {
      ClosedContext(t, yes, q);
      NothingBilled(Walk(t, yes).value, q, prices);
      WalkPreservesMeaning(f, no, q, prices);
    }
  }

  // ---------- The storage order changes nothing ----------

  /** A context that already has a condition only yields conditional rules. */
  predicate Conditional(context: Breakdown) {
    HasConditions(SyncedRule(context))
  }

  lemma {:induction false} ConditionalContext(e: Expr, context: Breakdown)
    requires Walk(e, context).Ok? && Conditional(context)
    requires Timed(context) && context.minInput.None? && context.maxInput.None? ==> NoSchedule(e)
    ensures forall b :: b in Walk(e, context).value ==> Conditional(b)
  {
    match e
    case Leaf(_) =>
    case Ternary(c, t, f) =>
      match c
      case ScheduleCondition(s) =>
        ConditionalContext(f, Otherwise(context));
        ConditionalContext(t, During(context, ParseSchedule(s).value));
      case LengthCondition(op, bound) =>
        var b := ParseLength(op, bound).value;
        ConditionalContext(t, Narrow(context, b.trueMin, b.trueMax));
        ConditionalContext(f, Narrow(context, b.falseMin, b.falseMax));
      case ParamCondition(role) =>
        ConditionalContext(f, ParameterOff(context, role));
      case UnknownCondition =>
  }

  /** At most one rule of a well-formed expression is unconditional, and it comes first. */
  lemma {:induction false} FallbackComesFirst(e: Expr, context: Breakdown, zones: set<string>)
    requires Walk(e, context).Ok? && WellFormed(e, zones) && !Conditional(context)
    ensures forall i :: 0 < i < |Walk(e, context).value| ==> Conditional(Walk(e, context).value[i])
    ensures Walk(e, context).value != []
  {
    match e
    case Leaf(_) =>
    case Ternary(c, t, f) =>
      match c
      case ScheduleCondition(s) =>
        var off := Otherwise(context);
        var hit := During(context, ParseSchedule(s).value);
        FallbackComesFirst(f, off, zones);
        ConditionalContext(t, hit);
        assert forall i :: 0 <= i < |Walk(t, hit).value| ==> Walk(t, hit).value[i] in Walk(t, hit).value;
      case LengthCondition(op, bound) =>
        var b := ParseLength(op, bound).value;
        var yes, no := Narrow(context, b.trueMin, b.trueMax), Narrow(context, b.falseMin, b.falseMax);
        ConditionalContext(t, yes);
        ConditionalContext(f, no);
        WalkIsNotEmpty(t, yes);
        var all := Walk(e, context).value;
        assert forall i :: 0 <= i < |all| ==> all[i] in all;
      case ParamCondition(role) =>
        FallbackComesFirst(f, ParameterOff(context, role), zones);
      case UnknownCondition =>
  }

  lemma {:induction false} WalkIsNotEmpty(e: Expr, context: Breakdown)
    requires Walk(e, context).Ok?
    ensures Walk(e, context).value != []
  {
    match e
    case Leaf(_) =>
    case Ternary(c, t, f) =>
      match c
      case ScheduleCondition(s) => WalkIsNotEmpty(f, Otherwise(context));
      case LengthCondition(op, bound) =>
        var b := ParseLength(op, bound).value;
        WalkIsNotEmpty(t, Narrow(context, b.trueMin, b.trueMax));
      case ParamCondition(role) => WalkIsNotEmpty(f, ParameterOff(context, role));
      case UnknownCondition =>
  }

  /** On the rules of one well-formed expression the storage order is the order they were made in. */
  lemma {:induction false} OrderIsIdentity(e: Expr, zones: set<string>)
    requires Walk(e, ROOT).Ok? && WellFormed(e, zones)
    ensures StoredRules(e) == SyncedRules(Walk(e, ROOT).value)
  {
    FallbackComesFirst(e, ROOT, zones);
    var rules := SyncedRules(Walk(e, ROOT).value);
    assert FallbacksFirst(rules);
    SortedIsSplit(rules);
  }

  /**
   What the stored rules of a well-formed expression bill, for every instant, length and usage: the first of the
   tried leaves that prices the usage, beginning with the leaf that evaluation reaches. So compilation preserves
   meaning if and only if that leaf prices the usage or no tried one does.
   */
  lemma {:induction false} CompilationPreservesMeaning(e: Expr, q: Request, prices: R.Rates -> bool)
    requires ValidRequest(q) && WellFormed(e, q.zones) && Walk(e, ROOT).Ok?
    ensures RatesOf(Billed(StoredRules(e), q, prices)) == FirstPriced(Tried(e, q), prices)
    ensures Eval(e, q).Ok? && Tried(e, q) != [] && Tried(e, q)[0] == Eval(e, q).value.rates
    ensures BilledRight(e, q, prices)
       <==> prices(Eval(e, q).value.rates) || forall r :: r in Tried(e, q) ==> !prices(r)
  {
    OrderIsIdentity(e, q.zones);
    WalkPreservesMeaning(e, ROOT, q, prices);
    TriesLeafFirst(e, ROOT, q);
  }
}
