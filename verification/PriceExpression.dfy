/**
 The compiler as it runs: the recursive walk over the expression text, which splits, classifies and
 appends branches to an output list, and what it yields for printed expression trees.
 */
module PriceExpression {
  import opened GoStrings
  import opened BillingCompiler
  import opened Schedules
  import T = TernaryText
  import R = BillingRates
  import M = BillingMeaning

  /** What the regular expressions make of a condition text and of a leaf text. */
  datatype Grammar = Grammar(condition: string -> Condition, leaf: string -> Result<Tier, CompileError>)

  /** A text without surrounding space and parentheses. */
  function Core(text: string): (r: string)
    ensures |r| <= |text|
  {
    T.Unwrap(Trim(text))
  }

  function Length(p: T.Pieces): nat {
    if |p.whenTrue| < |p.whenFalse| then |p.whenFalse| else |p.whenTrue|
  }

  /** The walk on texts; every piece is shorter than the text it was cut from. */
  function WalkText(g: Grammar, text: string, context: Breakdown): Branches
    decreases |text|, 0
  {
    match T.Split(Core(text))
    case None => Walk(Leaf(g.leaf(Core(text))), context)
    case Some(pieces) => WalkPieces(g, pieces, context)
  }

  function WalkPieces(g: Grammar, pieces: T.Pieces, context: Breakdown): Branches
    decreases Length(pieces), 1
  {
    match g.condition(pieces.condition)
    case ScheduleCondition(s) =>
      var w := ParseSchedule(s);
      if w.Err? then Err(BadSchedule)
      else Append(WalkText(g, pieces.whenFalse, Otherwise(context)),
                  WalkText(g, pieces.whenTrue, During(context, w.value)))
    case LengthCondition(op, bound) =>
      var b := ParseLength(op, bound);
      if b.Err? then Err(BadLength)
      else Append(WalkText(g, pieces.whenTrue, Narrow(context, b.value.trueMin, b.value.trueMax)),
                  WalkText(g, pieces.whenFalse, Narrow(context, b.value.falseMin, b.value.falseMax)))
    case ParamCondition(role) => WalkText(g, pieces.whenFalse, ParameterOff(context, role))
    case UnknownCondition => Err(BadCondition)
  }

  /** The list the walk appends to. */
  class Output {
    var items: seq<Breakdown>

    constructor ()
      ensures items == []
    {
      items := [];
    }
  }

  /** What a walk leaves behind: its branches appended, or its error. */
  predicate Appended(result: Branches, error: Option<CompileError>, before: seq<Breakdown>, after: seq<Breakdown>) {
    match result
    case Ok(branches) => error == None && after == before + branches
    case Err(e) => error == Some(e)
  }

  /** Two walks one after the other leave behind what the appended walk does. */
  lemma {:induction false} AppendedInTurn(first: Branches, second: Branches, error: Option<CompileError>,
                       before: seq<Breakdown>, between: seq<Breakdown>, after: seq<Breakdown>)
    requires first.Ok? ==> Appended(first, None, before, between) && Appended(second, error, between, after)
    requires first.Err? ==> error == Some(first.error)
    ensures Appended(Append(first, second), error, before, after)
  {
  }

  /** The recursive walk of the source. On an error the list keeps what was appended before it. */
  method WalkBillingExpression(g: Grammar, text: string, context: Breakdown, output: Output)
    returns (error: Option<CompileError>)
    modifies output
    ensures Appended(WalkText(g, text, context), error, old(output.items), output.items)
    decreases |text|, 0
  {
    var expression := T.UnwrapBillingParens(Trim(text));
    var split := T.SplitBillingTernary(expression);
    if split.None? {
      var leaf := g.leaf(expression);
      if leaf.Err? {
        return Some(leaf.error);
      }
      output.items := output.items + [context.(tier := leaf.value.name, rates := leaf.value.rates)];
      return None;
    }
    error := WalkTernary(g, split.value, context, output);
  }

  method WalkTernary(g: Grammar, pieces: T.Pieces, context: Breakdown, output: Output)
    returns (error: Option<CompileError>)
    modifies output
    ensures Appended(WalkPieces(g, pieces, context), error, old(output.items), output.items)
    decreases Length(pieces), 2
  {
    match g.condition(pieces.condition) {
      case ScheduleCondition(s) =>
        var schedule := ParseSchedule(s);
        if schedule.Err? {
          return Some(BadSchedule);
        }
        error := WalkBoth(g, pieces.whenFalse, Otherwise(context), pieces.whenTrue, During(context, schedule.value),
                          output);
      case LengthCondition(op, bound) =>
        var bounds := ParseLength(op, bound);
        if bounds.Err? {
          return Some(BadLength);
        }
        error := WalkBoth(g, pieces.whenTrue, Narrow(context, bounds.value.trueMin, bounds.value.trueMax),
                          pieces.whenFalse, Narrow(context, bounds.value.falseMin, bounds.value.falseMax), output);
      case ParamCondition(role) =>
        error := WalkBillingExpression(g, pieces.whenFalse, ParameterOff(context, role), output);
      case UnknownCondition =>
        error := Some(BadCondition);
    }
  }

  /** One branch after the other; an error in the first ends the walk. */
  method WalkBoth(g: Grammar, first: string, firstContext: Breakdown, second: string, secondContext: Breakdown,
                  output: Output)
    returns (error: Option<CompileError>)
    modifies output
    ensures Appended(Append(WalkText(g, first, firstContext), WalkText(g, second, secondContext)),
                     error, old(output.items), output.items)
    decreases if |first| < |second| then |second| else |first|, 1
  {
    error := WalkBillingExpression(g, first, firstContext, output);
    if error.Some? {
      return;
    }
    ghost var between := output.items;
    error := WalkBillingExpression(g, second, secondContext, output);
    AppendedInTurn(WalkText(g, first, firstContext), WalkText(g, second, secondContext), error,
                   old(output.items), between, output.items);
  }

  /** `parseBillingExpression`: an empty text is an error of its own, and so is an empty result. */
  method ParseBillingExpression(g: Grammar, text: string) returns (r: Branches)
    ensures Trim(text) == "" ==> r == Err(Empty)
    ensures Trim(text) != "" ==> r == WalkText(g, Trim(text), ROOT)
    ensures r.Ok? ==> r.value != []
  {
    var expression := Trim(text);
    if expression == "" {
      return Err(Empty);
    }
    var output := new Output();
    var error := WalkBillingExpression(g, expression, ROOT, output);
    if error.Some? {
      return Err(error.value);
    }
    WalkTextIsNotEmpty(g, expression, ROOT);
    assert output.items == WalkText(g, expression, ROOT).value;
    if |output.items| == 0 {
      return Err(Empty);
    }
    r := Ok(output.items);
  }

  lemma {:induction false} WalkTextIsNotEmpty(g: Grammar, text: string, context: Breakdown)
    requires WalkText(g, text, context).Ok?
    ensures WalkText(g, text, context).value != []
    decreases |text|, 0
  {
    var split := T.Split(Core(text));
    if split.Some? {
      WalkPiecesIsNotEmpty(g, split.value, context);
    }
  }

  lemma {:induction false} WalkPiecesIsNotEmpty(g: Grammar, pieces: T.Pieces, context: Breakdown)
    requires WalkPieces(g, pieces, context).Ok?
    ensures WalkPieces(g, pieces, context).value != []
    decreases Length(pieces), 1
  {
    match g.condition(pieces.condition)
    case ScheduleCondition(s) => WalkTextIsNotEmpty(g, pieces.whenFalse, Otherwise(context));
    case LengthCondition(op, bound) =>
      var b := ParseLength(op, bound).value;
      WalkTextIsNotEmpty(g, pieces.whenTrue, Narrow(context, b.trueMin, b.trueMax));
    case ParamCondition(role) => WalkTextIsNotEmpty(g, pieces.whenFalse, ParameterOff(context, role));
    case UnknownCondition =>
  }

  /** The expression a printed tree stands for. */
  function Meaning(g: Grammar, e: T.Spelling): Expr {
    match e
    case Leaf(text) => Leaf(g.leaf(text))
    case Ternary(condition, _, t, _, f) => Ternary(g.condition(condition), Meaning(g, t), Meaning(g, f))
  }

  /** A printed tree, in any number of parentheses, falls into the pieces it was printed from. */
  lemma {:induction false} CoreRecovers(e: T.Spelling, layers: nat)
    requires T.Readable(e) && T.Guarded(e)
    ensures Core(T.Branch(e, layers)) == T.Print(e)
    ensures T.Split(T.Print(e)) == if e.Leaf? then None
                                   else Some(T.Pieces(e.condition, T.Branch(e.whenTrue, e.trueParens),
                                                      T.Branch(e.whenFalse, e.falseParens)))
  {
    T.BranchIsSolid(e, layers);
    T.UnwrapRecovers(e, layers);
    if e.Leaf? {
      T.LeafDoesNotSplit(e);
    } else {
      T.SplitRecovers(e);
    }
  }

  /** Walking the text of a tree, in any number of parentheses, is walking the tree. */
  lemma {:induction false} WalkTextIsWalk(g: Grammar, e: T.Spelling, layers: nat, context: Breakdown)
    requires T.Readable(e) && T.Guarded(e)
    ensures WalkText(g, T.Branch(e, layers), context) == Walk(Meaning(g, e), context)
    decreases e, 1
  {
    CoreRecovers(e, layers);
    if e.Ternary? {
      WalkPiecesIsWalk(g, e, context);
    }
  }

  lemma {:induction false} WalkPiecesIsWalk(g: Grammar, e: T.Spelling, context: Breakdown)
    requires T.Readable(e) && T.Guarded(e) && e.Ternary?
    ensures WalkPieces(g, T.Pieces(e.condition, T.Branch(e.whenTrue, e.trueParens),
                                   T.Branch(e.whenFalse, e.falseParens)), context)
            == Walk(Meaning(g, e), context)
    decreases e, 0
  {
    match g.condition(e.condition)
    case ScheduleCondition(s) =>
      var w := ParseSchedule(s);
      if w.Ok? {
        WalkTextIsWalk(g, e.whenFalse, e.falseParens, Otherwise(context));
        WalkTextIsWalk(g, e.whenTrue, e.trueParens, During(context, w.value));
      }
    case LengthCondition(op, bound) =>
      var b := ParseLength(op, bound);
      if b.Ok? {
        WalkTextIsWalk(g, e.whenTrue, e.trueParens, Narrow(context, b.value.trueMin, b.value.trueMax));
        WalkTextIsWalk(g, e.whenFalse, e.falseParens, Narrow(context, b.value.falseMin, b.value.falseMax));
      }
    case ParamCondition(role) =>
      WalkTextIsWalk(g, e.whenFalse, e.falseParens, ParameterOff(context, role));
    case UnknownCondition =>
  }

  /**
   From text to bill: a guarded, readable, well-formed expression that parses is billed, for every request and
   usage, at the rates of the first tried leaf that prices the usage. The leaf its ternaries evaluate to is tried
   first, so the bill is right if and only if that leaf prices the usage or no tried one does.
   */
  lemma {:induction false} ParsedTextBillsItsLeaf(g: Grammar, e: T.Spelling, layers: nat, q: Request,
                                                  prices: R.Rates -> bool)
    requires T.Readable(e) && T.Guarded(e)
    requires ValidRequest(q) && WellFormed(Meaning(g, e), q.zones)
    requires WalkText(g, T.Branch(e, layers), ROOT).Ok?
    ensures Eval(Meaning(g, e), q).Ok? && Tried(Meaning(g, e), q) != []
    ensures Tried(Meaning(g, e), q)[0] == Eval(Meaning(g, e), q).value.rates
    ensures var rules := OrderSyncedRules(SyncedRules(WalkText(g, T.Branch(e, layers), ROOT).value));
            var leaf, tried := Eval(Meaning(g, e), q).value.rates, Tried(Meaning(g, e), q);
            && RatesOf(Billed(rules, q, prices)) == FirstPriced(tried, prices)
            && (RatesOf(Billed(rules, q, prices)) == Meant(leaf, prices) <==>
                  prices(leaf) || forall r :: r in tried ==> !prices(r))
  {
    WalkTextIsWalk(g, e, layers, ROOT);
    CompilationPreservesMeaning(Meaning(g, e), q, prices);
  }

  /** Without well-formedness, the text is billed at the rates that are read off its tree. */
  lemma {:induction false} ParsedTextBills(g: Grammar, e: T.Spelling, layers: nat, q: Request, prices: R.Rates -> bool)
    requires T.Readable(e) && T.Guarded(e)
    requires WalkText(g, T.Branch(e, layers), ROOT).Ok?
    ensures var rules := OrderSyncedRules(SyncedRules(WalkText(g, T.Branch(e, layers), ROOT).value));
            RatesOf(Billed(rules, q, prices)) == M.Bill(Meaning(g, e), q, prices)
  {
    WalkTextIsWalk(g, e, layers, ROOT);
    M.CompilesIff(Meaning(g, e), ROOT);
    M.StoredRulesBill(Meaning(g, e), q, prices);
  }
}
