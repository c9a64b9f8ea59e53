/**
 What the stored rules of an expression bill, read off the expression itself: exactly, for every expression that
 compiles, and from it where billing departs from evaluation.
 */
module BillingMeaning {
  import opened GoStrings
  import opened Schedules
  import opened BillingCompiler
  import R = BillingRates

  // ---------- Which expressions compile ----------

  /** Every condition and leaf that the walk meets is one it can read. */
  predicate Compiles(e: Expr) {
    match e
    case Leaf(tier) => tier.Ok?
    case Ternary(c, t, f) =>
      match c
      case ScheduleCondition(s) => Readable(s) && Compiles(t) && Compiles(f)
      case LengthCondition(_, bound) => 0 < bound < LIMIT && Compiles(t) && Compiles(f)
      case ParamCondition(_) => Compiles(f)
      case UnknownCondition => false
  }

  lemma {:induction false} CompilesIff(e: Expr, context: Breakdown)
    ensures Walk(e, context).Ok? <==> Compiles(e)
  {
    match e
    case Leaf(_) =>
    case Ternary(c, t, f) =>
      match c
      case ScheduleCondition(s) =>
        if Readable(s) {
          CompilesIff(t, During(context, ParseSchedule(s).value));
          CompilesIff(f, Otherwise(context));
        }
      case LengthCondition(op, bound) =>
        if ParseLength(op, bound).Ok? {
          var b := ParseLength(op, bound).value;
          CompilesIff(t, Narrow(context, b.trueMin, b.trueMax));
          CompilesIff(f, Narrow(context, b.falseMin, b.falseMax));
        }
      case ParamCondition(role) => CompilesIff(f, ParameterOff(context, role));
      case UnknownCondition =>
  }

  /** The rates of the leaf that evaluation reaches. */
  function EvalRates(e: Expr, q: Request): Option<R.Rates> {
    match Eval(e, q)
    case Ok(tier) => Some(tier.rates)
    case Err(_) => None
  }

  /** Evaluation only reaches leaves that the walk has read. */
  lemma {:induction false} CompiledEvaluates(e: Expr, q: Request)
    requires Compiles(e)
    ensures EvalRates(e, q).Some?
  {
    match e
    case Leaf(_) =>
    case Ternary(c, t, f) =>
      if ConditionHolds(c, q) {
        CompiledEvaluates(t, q);
      } else {
        CompiledEvaluates(f, q);
      }
  }

  // ---------- What is billed, on the expression ----------

  /** The window a rule would carry: none, one that admits the request, or one that does not. */
  datatype WindowState = NoWindow | OpenWindow | ClosedWindow

  function StateOf(w: Window, q: Request): WindowState {
    if w.zone == "" then NoWindow
    else if Admits(w, q.zones, q.local(Trim(w.zone))) then OpenWindow
    else ClosedWindow
  }

  /**
   The rates that answer among the rules with conditions, or among those without. A schedule replaces whatever
   window is around it and tries its true branch first; a cut tries its else branch first, if both are reached.
   */
  function Answer(e: Expr, q: Request, w: WindowState, bounded: bool, conditional: bool,
                  prices: R.Rates -> bool): Option<R.Rates> {
    match e
    case Leaf(tier) =>
      if tier.Ok? && !w.ClosedWindow? && conditional == (bounded || w.OpenWindow?) && prices(tier.value.rates)
      then Some(tier.value.rates) else None
    case Ternary(c, t, f) =>
      match c
      case ScheduleCondition(s) =>
        if ParseSchedule(s).Err? then None
        else
          var hit := Answer(t, q, StateOf(ParseSchedule(s).value, q), bounded, conditional, prices);
          if hit.Some? then hit else Answer(f, q, NoWindow, bounded, conditional, prices)
      case LengthCondition(op, bound) =>
        var holds := LengthHolds(op, bound, q.length);
        var other := if !holds || Wraps(op, bound) then Answer(f, q, w, true, conditional, prices) else None;
        if other.Some? then other
        else if holds || Wraps(op, bound) then Answer(t, q, w, true, conditional, prices)
        else None
      case ParamCondition(_) => Answer(f, q, w, bounded, conditional, prices)
      case UnknownCondition => None
  }

  /** What is billed: a rule with conditions if one answers, and else one without. */
  function Bill(e: Expr, q: Request, prices: R.Rates -> bool): Option<R.Rates> {
    var answer := Answer(e, q, NoWindow, false, true, prices);
    if answer.Some? then answer else Answer(e, q, NoWindow, false, false, prices)
  }

  // ---------- The compiled rules bill just that ----------

  /** What the rules of one kind bill. */
  function KindBills(bs: seq<Breakdown>, conditional: bool, q: Request, prices: R.Rates -> bool): Option<R.Rates> {
    RatesOf(Billed(Only(SyncedRules(bs), conditional), q, prices))
  }

  lemma {:induction false} KindBillsTogether(a: seq<Breakdown>, b: seq<Breakdown>, conditional: bool, q: Request,
                                             prices: R.Rates -> bool)
    ensures KindBills(a + b, conditional, q, prices)
         == if KindBills(b, conditional, q, prices).Some? then KindBills(b, conditional, q, prices)
            else KindBills(a, conditional, q, prices)
  {
    SyncedRulesAppend(a, b);
    OnlyAppends(SyncedRules(a), SyncedRules(b), conditional);
    BilledAppends(Only(SyncedRules(a), conditional), Only(SyncedRules(b), conditional), q, prices);
  }

  lemma {:induction false} KindBillsOne(b: Breakdown, conditional: bool, q: Request, prices: R.Rates -> bool)
    ensures KindBills([b], conditional, q, prices)
         == if HasConditions(SyncedRule(b)) == conditional && Matches(SyncedRule(b), q) && prices(b.rates)
            then Some(b.rates) else None
  {
    var rule := SyncedRule(b);
    assert SyncedRules([b]) == [rule] && [rule][..0] == [];
    assert Only([rule], conditional) == if HasConditions(rule) == conditional then [rule] else [];
  }

  /** No rule of a branch that the bounds around it shut out is billed. */
  lemma {:induction false} ShutOut(e: Expr, context: Breakdown, conditional: bool, q: Request, prices: R.Rates -> bool)
    requires Walk(e, context).Ok? && !LengthAdmits(context.minInput, context.maxInput, q.length)
    ensures KindBills(Walk(e, context).value, conditional, q, prices) == None
  {
    ClosedContext(e, context, q);
    OnlyMembers(SyncedRules(Walk(e, context).value), conditional);
  }

  predicate Bounded(context: Breakdown) {
    context.minInput.Some? || context.maxInput.Some?
  }

  /** A branch of a cut bills nothing when it is not reached, and else what it answers behind a bound. */
  lemma {:induction false} BranchBills(e: Expr, context: Breakdown, min: Option<Count>, max: Option<Count>,
                                       conditional: bool, q: Request, prices: R.Rates -> bool)
    requires Compiles(e) && (min.Some? || max.Some?) && LengthAdmits(context.minInput, context.maxInput, q.length)
    ensures Walk(e, Narrow(context, min, max)).Ok?
    ensures KindBills(Walk(e, Narrow(context, min, max)).value, conditional, q, prices)
         == if LengthAdmits(min, max, q.length) then Answer(e, q, StateOf(context.window, q), true, conditional, prices)
            else None
    decreases e, 1
  {
    var narrow := Narrow(context, min, max);
    CompilesIff(e, narrow);
    NarrowIsIntersection(context, min, max, q);
    if LengthAdmits(min, max, q.length) {
      WalkBills(e, narrow, conditional, q, prices);
    } else {
      ShutOut(e, narrow, conditional, q, prices);
    }
  }

  /** In a context whose bounds let the request through, the rules of each kind bill what the expression answers. */
  lemma {:induction false} WalkBills(e: Expr, context: Breakdown, conditional: bool, q: Request,
                                     prices: R.Rates -> bool)
    requires Compiles(e) && LengthAdmits(context.minInput, context.maxInput, q.length)
    ensures Walk(e, context).Ok?
    ensures KindBills(Walk(e, context).value, conditional, q, prices)
         == Answer(e, q, StateOf(context.window, q), Bounded(context), conditional, prices)
    decreases e, 0
  {
    CompilesIff(e, context);
    match e
    case Leaf(tier) =>
      KindBillsOne(context.(tier := tier.value.name, rates := tier.value.rates), conditional, q, prices);
    case Ternary(c, t, f) =>
      match c
      case ScheduleCondition(s) =>
        var off, hit := Otherwise(context), During(context, ParseSchedule(s).value);
        WalkBills(t, hit, conditional, q, prices);
        WalkBills(f, off, conditional, q, prices);
        KindBillsTogether(Walk(f, off).value, Walk(t, hit).value, conditional, q, prices);
      case LengthCondition(op, bound) =>
        var b := ParseLength(op, bound).value;
        BranchesReached(op, bound, q.length);
        BranchBills(t, context, b.trueMin, b.trueMax, conditional, q, prices);
        BranchBills(f, context, b.falseMin, b.falseMax, conditional, q, prices);
        KindBillsTogether(Walk(t, Narrow(context, b.trueMin, b.trueMax)).value,
                          Walk(f, Narrow(context, b.falseMin, b.falseMax)).value, conditional, q, prices);
      case ParamCondition(role) => WalkBills(f, ParameterOff(context, role), conditional, q, prices);
      case UnknownCondition =>
  }

  /**
   The stored rules of every expression that compiles bill what is read off the expression, for every request and
   usage.
   */
  lemma {:induction false} StoredRulesBill(e: Expr, q: Request, prices: R.Rates -> bool)
    requires Compiles(e)
    ensures Walk(e, ROOT).Ok?
    ensures RatesOf(Billed(StoredRules(e), q, prices)) == Bill(e, q, prices)
  {
    WalkBills(e, ROOT, true, q, prices);
    WalkBills(e, ROOT, false, q, prices);
    var rules := SyncedRules(Walk(e, ROOT).value);
    BilledAppends(Only(rules, false), Only(rules, true), q, prices);
  }

  /**
   Billing is right exactly when the bill read off the expression is the leaf that evaluation reaches, or nothing
   where that leaf's rates price nothing of the usage.
   */
  lemma {:induction false} BilledRightIff(e: Expr, q: Request, prices: R.Rates -> bool)
    requires Compiles(e)
    ensures EvalRates(e, q).Some?
    ensures BilledRight(e, q, prices) <==> Bill(e, q, prices) == Meant(EvalRates(e, q).value, prices)
  {
    StoredRulesBill(e, q, prices);
    CompiledEvaluates(e, q);
  }

  // ---------- Well-formed expressions ----------

  /** Usage that any rates put a price on. */
  predicate PricesAll(rates: R.Rates) {
    true
  }

  /** The rates come from a rule with conditions: a cut or an open schedule is on the way to them. */
  predicate Conditioned(e: Expr, q: Request) {
    match e
    case Leaf(_) => false
    case Ternary(c, t, f) =>
      match c
      case ScheduleCondition(s) => Holds(s, q.local(s.zone)) || Conditioned(f, q)
      case LengthCondition(_, _) => true
      case ParamCondition(_) => Conditioned(f, q)
      case UnknownCondition => false
  }

  lemma {:induction false} ClosedAnswersNone(e: Expr, q: Request, bounded: bool, conditional: bool)
    requires NoSchedule(e)
    ensures Answer(e, q, ClosedWindow, bounded, conditional, PricesAll) == None
  {
    match e
    case Leaf(_) =>
    case Ternary(c, t, f) =>
      match c
      case ScheduleCondition(_) =>
      case LengthCondition(_, _) =>
        ClosedAnswersNone(t, q, true, conditional);
        ClosedAnswersNone(f, q, true, conditional);
      case ParamCondition(_) => ClosedAnswersNone(f, q, bounded, conditional);
      case UnknownCondition =>
  }

  /** The window of a supported schedule is open exactly when the schedule holds. */
  lemma {:induction false} SupportedState(s: Schedule, q: Request)
    requires ValidRequest(q) && Supported(s, q.zones)
    ensures ParseSchedule(s).Ok?
    ensures StateOf(ParseSchedule(s).value, q) == if Holds(s, q.local(s.zone)) then OpenWindow else ClosedWindow
  {
    SupportedIsExact(s, q.zones, q.local(s.zone));
  }

  /** A well-formed expression answers with the leaf that evaluation reaches. */
  lemma {:induction false} WellFormedAnswers(e: Expr, q: Request, w: WindowState, bounded: bool)
    requires ValidRequest(q) && WellFormed(e, q.zones) && Compiles(e) && !w.ClosedWindow?
    requires w.OpenWindow? ==> NoSchedule(e)
    ensures Answer(e, q, w, bounded, true, PricesAll)
         == if bounded || w.OpenWindow? || Conditioned(e, q) then EvalRates(e, q) else None
    ensures !(bounded || w.OpenWindow? || Conditioned(e, q)) ==>
              Answer(e, q, w, bounded, false, PricesAll) == EvalRates(e, q)
    ensures EvalRates(e, q).Some?
  {
    CompiledEvaluates(e, q);
    match e
    case Leaf(_) =>
    case Ternary(c, t, f) =>
      match c
      case ScheduleCondition(s) =>
        SupportedState(s, q);
        if Holds(s, q.local(s.zone)) {
          WellFormedAnswers(t, q, OpenWindow, bounded);
        } else {
          ClosedAnswersNone(t, q, bounded, true);
          ClosedAnswersNone(t, q, bounded, false);
          WellFormedAnswers(f, q, NoWindow, bounded);
        }
      case LengthCondition(op, bound) =>
        if LengthHolds(op, bound, q.length) {
          WellFormedAnswers(t, q, w, true);
        } else {
          WellFormedAnswers(f, q, w, true);
        }
      case ParamCondition(_) => WellFormedAnswers(f, q, w, bounded);
      case UnknownCondition =>
  }

  /** For well-formed expressions, the bill is the first of the tried leaves that prices the usage. */
  lemma {:induction false} WellFormedBill(e: Expr, q: Request, prices: R.Rates -> bool)
    requires ValidRequest(q) && WellFormed(e, q.zones) && Compiles(e)
    ensures Bill(e, q, prices) == FirstPriced(Tried(e, q), prices)
  {
    StoredRulesBill(e, q, prices);
    CompilationPreservesMeaning(e, q, prices);
  }

  // ---------- Where the meaning is lost ----------

  lemma {:induction false} ConditionalOrderIsIdentity(rules: seq<Rule>)
    requires Uniform(rules, true)
    ensures OrderSyncedRules(rules) == rules
  {
    SortedIsSplit(rules);
  }

  /**
   Behind `len <= 2^64 - 1` the else branch claims every length and is tried first; the true branch, which
   evaluation always takes, is left with what the else branch does not price.
   */
  lemma {:induction false} LargestBoundTakesElse(t: Expr, f: Expr, q: Request, prices: R.Rates -> bool)
    requires ValidRequest(q) && WellFormed(f, q.zones)
    requires Walk(Ternary(LengthCondition(AtMost, LIMIT - 1), t, f), ROOT).Ok?
    ensures var bill := RatesOf(Billed(StoredRules(Ternary(LengthCondition(AtMost, LIMIT - 1), t, f)), q, prices));
            var other := FirstPriced(Tried(f, q), prices);
            && (other.Some? ==> bill == other)
            && (other.None? && WellFormed(t, q.zones) ==> bill == FirstPriced(Tried(t, q), prices))
  {
    var e := Ternary(LengthCondition(AtMost, LIMIT - 1), t, f);
    var yes, no := Narrow(ROOT, None, Some(LIMIT - 1)), Narrow(ROOT, Some(0), None);
    assert Successor(LIMIT - 1) == 0;
    var a, b := Walk(t, yes).value, Walk(f, no).value;
    assert Walk(e, ROOT).value == a + b;
    ConditionalContext(t, yes);
    ConditionalContext(f, no);
    assert forall i :: 0 <= i < |a + b| ==> (a + b)[i] in a || (a + b)[i] in b;
    ConditionalOrderIsIdentity(SyncedRules(a + b));
    AppendedWalks(a, b, q, prices);
    WalkPreservesMeaning(f, no, q, prices);
    if WellFormed(t, q.zones) {
      WalkPreservesMeaning(t, yes, q, prices);
    }
  }

  /**
   A cut at `len <= bound` between well-formed branches is billed right if and only if the bound is not the
   largest one or both branches reach the same rates anyway.
   */
  lemma {:induction false} LengthTiersIff(bound: nat, t: Expr, f: Expr, q: Request)
    requires ValidRequest(q) && WellFormed(t, q.zones) && WellFormed(f, q.zones)
    requires Compiles(Ternary(LengthCondition(AtMost, bound), t, f))
    ensures BilledRight(Ternary(LengthCondition(AtMost, bound), t, f), q, PricesAll)
       <==> bound != LIMIT - 1 || EvalRates(t, q) == EvalRates(f, q)
  {
    BilledRightIff(Ternary(LengthCondition(AtMost, bound), t, f), q, PricesAll);
    WellFormedAnswers(t, q, NoWindow, true);
    WellFormedAnswers(f, q, NoWindow, true);
  }

  /** A schedule that excludes nothing: no hours, and weekday comparisons all seven days satisfy. */
  predicate AlwaysOn(s: Schedule) {
    s.hours.None? && forall d :: 1 <= d <= 7 ==> DaysHold(s.days, d)
  }

  /** A supported schedule is on at every local time exactly when it has no hours and excludes no day. */
  lemma {:induction false} AlwaysOnIff(s: Schedule, zones: set<string>) returns (t: LocalTime)
    requires Supported(s, zones)
    ensures ValidTime(t)
    ensures Holds(s, t) ==> AlwaysOn(s)
    ensures AlwaysOn(s) ==> forall u :: ValidTime(u) ==> Holds(s, u)
  {
    t := LocalTime(1, 23 * 60);
    if s.hours.Some? {
      var hours := s.hours.value;
      forall i | 0 <= i < |hours|
        ensures !HourHolds(hours[i], 23)
      {
        assert !(hours[i].start < EndOf(hours[i]) && EndOf(hours[i]) == 24);
      }
    } else if d :| 1 <= d <= 7 && !DaysHold(s.days, d) {
      t := LocalTime(d, 0);
    }
  }

  /** A schedule whose true branch is again a schedule. */
  function NestedExpr(outer: Schedule, inner: Schedule, a: Expr, b: Expr, c: Expr): Expr {
    Ternary(ScheduleCondition(outer), Ternary(ScheduleCondition(inner), a, b), c)
  }

  /** A schedule answers the same whatever window is around it. */
  lemma {:induction false} ScheduleForgetsAround(s: Schedule, t: Expr, f: Expr, q: Request, w: WindowState,
                                                 v: WindowState, bounded: bool, conditional: bool,
                                                 prices: R.Rates -> bool)
    ensures Answer(Ternary(ScheduleCondition(s), t, f), q, w, bounded, conditional, prices)
         == Answer(Ternary(ScheduleCondition(s), t, f), q, v, bounded, conditional, prices)
  {
  }

  /** The outer else branch has a condition met on the way to its leaf, and the inner schedule has none. */
  predicate ElseShadows(inner: Schedule, b: Expr, c: Expr, q: Request) {
    Conditioned(c, q) && !Holds(inner, q.local(inner.zone)) && !Conditioned(b, q)
  }

  /**
   The rules of a nested schedule forget the outer window, whatever the branches are: the inner schedule is
   billed as if it stood alone, unless the outer else branch shadows it, which is then billed whether or not the
   outer window is open.
   */
  lemma {:induction false} NestedScheduleForgetsOuter(outer: Schedule, inner: Schedule, a: Expr, b: Expr, c: Expr,
                                                      q: Request)
    requires ValidRequest(q) && Compiles(NestedExpr(outer, inner, a, b, c))
    requires WellFormed(Ternary(ScheduleCondition(inner), a, b), q.zones) && WellFormed(c, q.zones)
    ensures Bill(NestedExpr(outer, inner, a, b, c), q, PricesAll)
         == EvalRates(if ElseShadows(inner, b, c, q) then c else Ternary(ScheduleCondition(inner), a, b), q)
  {
    var t := Ternary(ScheduleCondition(inner), a, b);
    var w := StateOf(ParseSchedule(outer).value, q);
    ScheduleForgetsAround(inner, a, b, q, w, NoWindow, false, true, PricesAll);
    ScheduleForgetsAround(inner, a, b, q, w, NoWindow, false, false, PricesAll);
    WellFormedAnswers(t, q, NoWindow, false);
    WellFormedAnswers(c, q, NoWindow, false);
  }

  /**
   A nested schedule is billed right if and only if its inner part and the outer else branch reach the same
   rates, or the outer schedule holds exactly when the else branch does not shadow the inner part.
   */
  lemma {:induction false} NestedScheduleIff(outer: Schedule, inner: Schedule, a: Expr, b: Expr, c: Expr, q: Request)
    requires ValidRequest(q) && Compiles(NestedExpr(outer, inner, a, b, c))
    requires WellFormed(Ternary(ScheduleCondition(inner), a, b), q.zones) && WellFormed(c, q.zones)
    ensures BilledRight(NestedExpr(outer, inner, a, b, c), q, PricesAll)
       <==> EvalRates(Ternary(ScheduleCondition(inner), a, b), q) == EvalRates(c, q)
            || (Holds(outer, q.local(outer.zone)) <==> !ElseShadows(inner, b, c, q))
  {
    NestedScheduleForgetsOuter(outer, inner, a, b, c, q);
    BilledRightIff(NestedExpr(outer, inner, a, b, c), q, PricesAll);
  }

  /** A length for which a cut holds only reaches the true branch. */
  lemma {:induction false} CutReachesTrue(op: LengthOp, bound: nat, t: Expr, f: Expr, q: Request, w: WindowState)
    requires LengthHolds(op, bound, q.length) && !Wraps(op, bound)
    ensures Answer(Ternary(LengthCondition(op, bound), t, f), q, w, false, true, PricesAll)
         == Answer(t, q, w, true, true, PricesAll)
    ensures EvalRates(Ternary(LengthCondition(op, bound), t, f), q) == EvalRates(t, q)
  {
  }

  /** What a schedule bills and evaluates to whose true branch answers with its rates under any window. */
  lemma {:induction false} ScheduleBillsTrue(s: Schedule, t: Expr, f: Expr, q: Request)
    requires Compiles(Ternary(ScheduleCondition(s), t, f)) && EvalRates(t, q).Some?
    requires Answer(t, q, StateOf(ParseSchedule(s).value, q), false, true, PricesAll) == EvalRates(t, q)
    ensures Bill(Ternary(ScheduleCondition(s), t, f), q, PricesAll) == EvalRates(t, q)
    ensures BilledRight(Ternary(ScheduleCondition(s), t, f), q, PricesAll)
       <==> Holds(s, q.local(s.zone)) || EvalRates(t, q) == EvalRates(f, q)
  {
    BilledRightIff(Ternary(ScheduleCondition(s), t, f), q, PricesAll);
  }

  /**
   A cut does not keep an outer window either: where the length holds, a schedule behind it is billed whether or
   not the outer schedule holds, whatever the other branches are.
   */
  lemma {:induction false} ScheduleBehindCutIff(outer: Schedule, op: LengthOp, bound: nat, inner: Schedule, a: Expr,
                                                b: Expr, d: Expr, c: Expr, q: Request)
    requires ValidRequest(q) && LengthHolds(op, bound, q.length) && !Wraps(op, bound)
    requires WellFormed(Ternary(ScheduleCondition(inner), a, b), q.zones)
    requires Compiles(CutNestedExpr(outer, op, bound, inner, a, b, d, c))
    ensures Bill(CutNestedExpr(outer, op, bound, inner, a, b, d, c), q, PricesAll)
         == EvalRates(Ternary(ScheduleCondition(inner), a, b), q)
    ensures BilledRight(CutNestedExpr(outer, op, bound, inner, a, b, d, c), q, PricesAll)
       <==> Holds(outer, q.local(outer.zone))
            || EvalRates(Ternary(ScheduleCondition(inner), a, b), q) == EvalRates(c, q)
  {
    var t := Ternary(ScheduleCondition(inner), a, b);
    var cut := Ternary(LengthCondition(op, bound), t, d);
    assert Compiles(cut);
    assert Compiles(t);
    var w := StateOf(ParseSchedule(outer).value, q);
    CutReachesTrue(op, bound, t, d, q, w);
    ScheduleForgetsAround(inner, a, b, q, w, NoWindow, true, true, PricesAll);
    WellFormedAnswers(t, q, NoWindow, true);
    ScheduleBillsTrue(outer, cut, c, q);
  }

  /** A length cut between two schedules. */
  function CutNestedExpr(outer: Schedule, op: LengthOp, bound: nat, inner: Schedule, a: Expr, b: Expr, d: Expr,
                         c: Expr): Expr {
    var nested := Ternary(ScheduleCondition(inner), a, b);
    Ternary(ScheduleCondition(outer), Ternary(LengthCondition(op, bound), nested, d), c)
  }

  /** Expressions that yield one rule without conditions: a leaf, behind any number of parameters. */
  predicate Unconditional(e: Expr) {
    match e
    case Leaf(_) => true
    case Ternary(c, _, f) => c.ParamCondition? && Unconditional(f)
  }

  lemma {:induction false} UnconditionalIsWellFormed(e: Expr, q: Request)
    requires Unconditional(e)
    ensures WellFormed(e, q.zones) && !Conditioned(e, q)
  {
    if e.Ternary? {
      UnconditionalIsWellFormed(e.whenFalse, q);
    }
  }

  /**
   With an unconditional outer else branch, a nested schedule is billed right if and only if the outer
   schedule holds or its inner part reaches the else branch's rates.
   */
  lemma {:induction false} NestedBesideFallbackIff(outer: Schedule, inner: Schedule, a: Expr, b: Expr, c: Expr,
                                                   q: Request)
    requires ValidRequest(q) && Compiles(NestedExpr(outer, inner, a, b, c))
    requires WellFormed(Ternary(ScheduleCondition(inner), a, b), q.zones) && Unconditional(c)
    ensures BilledRight(NestedExpr(outer, inner, a, b, c), q, PricesAll)
       <==> Holds(outer, q.local(outer.zone))
            || EvalRates(Ternary(ScheduleCondition(inner), a, b), q) == EvalRates(c, q)
  {
    UnconditionalIsWellFormed(c, q);
    NestedScheduleIff(outer, inner, a, b, c, q);
  }

  /**
   When the inner part never reaches the else branch's rates, it is billed right at every instant and length
   if and only if the outer schedule excludes nothing.
   */
  lemma {:induction false} NestedNeedsAlwaysOn(outer: Schedule, inner: Schedule, a: Expr, b: Expr, c: Expr,
                                               zones: set<string>)
    requires Supported(outer, zones) && WellFormed(Ternary(ScheduleCondition(inner), a, b), zones) && Unconditional(c)
    requires Compiles(NestedExpr(outer, inner, a, b, c))
    requires forall q :: ValidRequest(q) && q.zones == zones ==>
                           EvalRates(Ternary(ScheduleCondition(inner), a, b), q) != EvalRates(c, q)
    ensures (forall q :: ValidRequest(q) && q.zones == zones ==>
               BilledRight(NestedExpr(outer, inner, a, b, c), q, PricesAll))
       <==> AlwaysOn(outer)
  {
    var t := AlwaysOnIff(outer, zones);
    forall q | ValidRequest(q) && q.zones == zones
      ensures BilledRight(NestedExpr(outer, inner, a, b, c), q, PricesAll) <==> Holds(outer, q.local(outer.zone))
    {
      NestedBesideFallbackIff(outer, inner, a, b, c, q);
    }
    var q := Request(_ => t, zones, 0);
    assert ValidRequest(q) && q.zones == zones;
  }
}
