/**
 What a request is charged at the rates of a rule: tokens without a rate of their own fall back to the input or
 output rate, and the details of a total never count for more than the total.
 */
module BillingCharge {
  import opened GoStrings
  import opened Schedules
  import opened BillingCompiler
  import R = BillingRates
  import P = PriceExpression
  import T = TernaryText

  /** The counts an upstream reports, any of which may be missing. */
  datatype Tokens = Tokens(input: Option<Count>, cachedInput: Option<Count>, cacheWrite: Option<Count>,
                           imageInput: Option<Count>, audioInput: Option<Count>,
                           output: Option<Count>, audioOutput: Option<Count>)

  /** Image tokens have a rate which no expression sets. */
  datatype Kind = Rated(field: R.Field) | ImageInput

  function RatedKinds(fields: seq<R.Field>): (r: seq<Kind>)
    ensures |r| == |fields| && forall i :: 0 <= i < |r| ==> r[i] == Rated(fields[i])
  {
    seq(|fields|, i requires 0 <= i < |fields| => Rated(fields[i]))
  }

  const KINDS := [ImageInput] + RatedKinds(R.FIELDS)

  datatype PriceRates = PriceRates(fields: R.Rates, imageInput: Option<real>)

  function PriceOf(rates: PriceRates, kind: Kind): Option<real> {
    match kind
    case ImageInput => rates.imageInput
    case Rated(field) => if field in rates.fields then Some(rates.fields[field]) else None
  }

  /** One line of the bill; `source` names the rate that was applied. */
  datatype Item = Item(kind: Kind, quantity: Count, price: real, source: Kind)

  datatype Bill = Bill(items: seq<Item>, subtotal: real)

  const MILLION := 1_000_000.0

  function TokenCount(value: Option<Count>): Count {
    if value.Some? then value.value else 0
  }

  /** A count taken as a signed number of 64 bits. */
  function Signed(n: Count): int {
    if n < LIMIT / 2 then n else n - LIMIT
  }

  /** It is the number from -2^63 to 2^63 - 1 that differs by a multiple of 2^64. */
  lemma {:induction false} SignedIs(n: Count)
    ensures -0x8000_0000_0000_0000 <= Signed(n) < 0x8000_0000_0000_0000
    ensures (Signed(n) - n) % 0x1_0000_0000_0000_0000 == 0
  {
  }

  /** Millions of tokens. */
  function Units(n: Count): real {
    Signed(n) as real / MILLION
  }

  /** The amount of a line: the price of the request itself, or that of so many millions of tokens. */
  function AmountOf(item: Item): real {
    if item.kind == Rated(R.Request) then item.price else Signed(item.quantity) as real * item.price / MILLION
  }

  function Cost(items: seq<Item>): real {
    if items == [] then 0.0 else Cost(items[..|items| - 1]) + AmountOf(items[|items| - 1])
  }

  // ---------- How many tokens are charged as what ----------

  /** The part of a total that `wanted` tokens take up. */
  function Served(total: Option<Count>, wanted: nat): nat {
    if total.Some? && total.value < wanted then total.value else wanted
  }

  /** The tokens counted for one detail, when `before` tokens were wanted by the details ahead of it. */
  function Part(total: Option<Count>, before: nat, value: Option<Count>): (q: Count)
    ensures q <= TokenCount(value)
    ensures total.Some? ==> q <= total.value
  {
    Served(total, before + TokenCount(value)) - Served(total, before)
  }

  /** What no detail has taken up; nothing when there is no total. */
  function Remainder(total: Option<Count>, wanted: nat): Count {
    if total.Some? then total.value - Served(total, wanted) else 0
  }

  function BeforeWrite(t: Tokens): nat {
    TokenCount(t.cachedInput)
  }

  function BeforeImage(t: Tokens): nat {
    BeforeWrite(t) + TokenCount(t.cacheWrite)
  }

  function BeforeAudio(t: Tokens): nat {
    BeforeImage(t) + TokenCount(t.imageInput)
  }

  function AllDetails(t: Tokens): nat {
    BeforeAudio(t) + TokenCount(t.audioInput)
  }

  /** The tokens of a detail, within its total; for the totals, what the details leave. */
  function Quantity(t: Tokens, kind: Kind): Count {
    match kind
    case ImageInput => Part(t.input, BeforeImage(t), t.imageInput)
    case Rated(field) =>
      match field
      case CachedInput => Part(t.input, 0, t.cachedInput)
      case CacheWrite => Part(t.input, BeforeWrite(t), t.cacheWrite)
      case AudioInput => Part(t.input, BeforeAudio(t), t.audioInput)
      case Input => Remainder(t.input, AllDetails(t))
      case AudioOutput => Part(t.output, 0, t.audioOutput)
      case Output => Remainder(t.output, TokenCount(t.audioOutput))
      case Request => 1
  }

  function Quantities(t: Tokens): Kind -> Count {
    kind => Quantity(t, kind)
  }

  /** The details of a total take up no more than the total, and the remainder is what they leave. */
  lemma {:induction false} QuantitiesAddUp(t: Tokens)
    ensures t.input.Some? ==>
              Quantity(t, Rated(R.CachedInput)) + Quantity(t, Rated(R.CacheWrite)) + Quantity(t, ImageInput)
              + Quantity(t, Rated(R.AudioInput)) + Quantity(t, Rated(R.Input)) == t.input.value
    ensures t.output.Some? ==> Quantity(t, Rated(R.AudioOutput)) + Quantity(t, Rated(R.Output)) == t.output.value
  {
  }

  /** Where the details of each total fit into it, every one of them is charged for the count reported for it. */
  lemma {:induction false} CountsAsReported(t: Tokens)
    requires t.input.Some? ==>
               TokenCount(t.cachedInput) + TokenCount(t.cacheWrite) + TokenCount(t.imageInput)
               + TokenCount(t.audioInput) <= t.input.value
    requires t.output.Some? ==> TokenCount(t.audioOutput) <= t.output.value
    ensures Quantity(t, Rated(R.CachedInput)) == TokenCount(t.cachedInput)
    ensures Quantity(t, Rated(R.CacheWrite)) == TokenCount(t.cacheWrite)
    ensures Quantity(t, ImageInput) == TokenCount(t.imageInput)
    ensures Quantity(t, Rated(R.AudioInput)) == TokenCount(t.audioInput)
    ensures Quantity(t, Rated(R.AudioOutput)) == TokenCount(t.audioOutput)
  {
  }

  function Lesser(a: int, b: int): int {
    if a <= b then a else b
  }

  /**
   A detail of a total is charged for its own count or for what the details before it have left, whichever is
   less: cached tokens first, then cache writes, image and audio; the rest is charged as the total's own.
   */
  lemma {:induction false} CountsAreCapped(t: Tokens)
    ensures t.input.Some? ==>
              var n, cached := t.input.value, Quantity(t, Rated(R.CachedInput));
              var write := Quantity(t, Rated(R.CacheWrite));
              var image, audio := Quantity(t, ImageInput), Quantity(t, Rated(R.AudioInput));
              && cached == Lesser(TokenCount(t.cachedInput), n)
              && write == Lesser(TokenCount(t.cacheWrite), n - cached)
              && image == Lesser(TokenCount(t.imageInput), n - cached - write)
              && audio == Lesser(TokenCount(t.audioInput), n - cached - write - image)
              && Quantity(t, Rated(R.Input)) == n - cached - write - image - audio
    ensures t.output.Some? ==>
              var audio := Quantity(t, Rated(R.AudioOutput));
              && audio == Lesser(TokenCount(t.audioOutput), t.output.value)
              && Quantity(t, Rated(R.Output)) == t.output.value - audio
    ensures t.input.None? ==> Quantity(t, Rated(R.Input)) == 0
    ensures t.output.None? ==> Quantity(t, Rated(R.Output)) == 0
  {
  }

  // ---------- The estimate ----------

  /** The rate of its own, or else the fallback's. */
  function Preferred(rates: PriceRates, kind: Kind, fallback: Kind): Option<real> {
    if PriceOf(rates, kind).Some? then PriceOf(rates, kind) else PriceOf(rates, fallback)
  }

  /** The line for some tokens: none without a rate, nor for no tokens unless a rate of their own is to be kept. */
  function Line(rates: PriceRates, kind: Kind, fallback: Kind, quantity: Count, keepZero: bool): seq<Item> {
    var price := Preferred(rates, kind, fallback);
    var own := PriceOf(rates, kind).Some?;
    if price.None? || (quantity == 0 && !(keepZero && own)) then []
    else [Item(kind, quantity, price.value, if own then kind else fallback)]
  }

  function RequestLine(rates: PriceRates): seq<Item> {
    match PriceOf(rates, Rated(R.Request))
    case None => []
    case Some(price) => [Item(Rated(R.Request), 1, price, Rated(R.Request))]
  }

  function InputLine(n: Kind -> Count, rates: PriceRates, kind: Kind, keepZero: bool): seq<Item> {
    Line(rates, kind, Rated(R.Input), n(kind), keepZero)
  }

  function OutputLine(n: Kind -> Count, rates: PriceRates, kind: Kind, keepZero: bool): seq<Item> {
    Line(rates, kind, Rated(R.Output), n(kind), keepZero)
  }

  function InputLines(n: Kind -> Count, rates: PriceRates, keepZero: bool): seq<Item> {
    InputLine(n, rates, Rated(R.CachedInput), keepZero) + InputLine(n, rates, Rated(R.CacheWrite), keepZero)
    + InputLine(n, rates, ImageInput, keepZero) + InputLine(n, rates, Rated(R.AudioInput), keepZero)
    + InputLine(n, rates, Rated(R.Input), keepZero)
  }

  function OutputLines(n: Kind -> Count, rates: PriceRates, keepZero: bool): seq<Item> {
    OutputLine(n, rates, Rated(R.AudioOutput), keepZero) + OutputLine(n, rates, Rated(R.Output), keepZero)
  }

  /** The lines of the bill, in their order. */
  function Lines(n: Kind -> Count, rates: PriceRates, keepZero: bool): seq<Item> {
    InputLines(n, rates, keepZero) + OutputLines(n, rates, keepZero) + RequestLine(rates)
  }

  /** What the running estimate captures: the lines so far, their cost, and the tokens not yet charged. */
  class Estimate {
    const rates: PriceRates
    const keepZero: bool
    var items: seq<Item>
    var cost: real
    var priced: bool
    var inputRemaining: Option<Count>
    var outputRemaining: Option<Count>

    ghost predicate Balanced()
      reads this
    {
      cost == Cost(items) && (priced <==> items != [])
    }

    constructor (t: Tokens, rates: PriceRates, keepZero: bool)
      ensures Balanced() && items == []
      ensures this.rates == rates && this.keepZero == keepZero
      ensures inputRemaining == t.input && outputRemaining == t.output
    {
      this.rates, this.keepZero := rates, keepZero;
      items, cost, priced := [], 0.0, false;
      inputRemaining, outputRemaining := t.input, t.output;
    }

    method AddItem(item: Item)
      requires Balanced()
      modifies this`items, this`cost, this`priced
      ensures Balanced() && items == old(items) + [item]
    {
      items := items + [item];
      cost := cost + AmountOf(item);
      priced := true;
    }

    method Charge(kind: Kind, fallback: Kind, quantity: Count)
      requires Balanced()
      modifies this`items, this`cost, this`priced
      ensures Balanced() && items == old(items) + Line(rates, kind, fallback, quantity, keepZero)
    {
      var price, source := PriceOf(rates, kind), kind;
      if price.None? {
        price, source := PriceOf(rates, fallback), fallback;
      }
      if price.None? || (quantity == 0 && !(keepZero && PriceOf(rates, kind).Some?)) {
        return;
      }
      AddItem(Item(kind, quantity, price.value, source));
    }

    method ChargeInput(kind: Kind, value: Option<Count>, ghost total: Option<Count>, ghost before: nat,
                       ghost n: Kind -> Count)
      requires Balanced() && n(kind) == Part(total, before, value)
      requires inputRemaining.Some? <==> total.Some?
      requires total.Some? ==> inputRemaining == Some(Remainder(total, before))
      modifies this
      ensures Balanced() && items == old(items) + InputLine(n, rates, kind, keepZero)
      ensures inputRemaining.Some? <==> total.Some?
      ensures total.Some? ==> inputRemaining == Some(Remainder(total, before + TokenCount(value)))
      ensures outputRemaining == old(outputRemaining)
    {
      var quantity := TokenCount(value);
      if inputRemaining.Some? {
        if quantity > inputRemaining.value {
          quantity := inputRemaining.value;
        }
        inputRemaining := Some(inputRemaining.value - quantity);
      }
      assert quantity == Part(total, before, value);
      Charge(kind, Rated(R.Input), quantity);
    }

    method ChargeOutput(kind: Kind, value: Option<Count>, ghost total: Option<Count>)
      requires Balanced() && outputRemaining == total
      modifies this
      ensures Balanced() && items == old(items) + Line(rates, kind, Rated(R.Output), Part(total, 0, value), keepZero)
      ensures outputRemaining.Some? <==> total.Some?
      ensures total.Some? ==> outputRemaining == Some(Remainder(total, TokenCount(value)))
      ensures inputRemaining == old(inputRemaining)
    {
      var quantity := TokenCount(value);
      if outputRemaining.Some? {
        if quantity > outputRemaining.value {
          quantity := outputRemaining.value;
        }
        outputRemaining := Some(outputRemaining.value - quantity);
      }
      assert quantity == Part(total, 0, value);
      Charge(kind, Rated(R.Output), quantity);
    }

    /** What the details have left of a total, at the rate of the total. */
    method ChargeRemainder(kind: Kind, remaining: Option<Count>)
      requires Balanced()
      modifies this`items, this`cost, this`priced
      ensures Balanced() && items == old(items) + Line(rates, kind, kind, TokenCount(remaining), keepZero)
    {
      var price := PriceOf(rates, kind);
      if price.Some? && (keepZero || TokenCount(remaining) > 0) {
        AddItem(Item(kind, TokenCount(remaining), price.value, kind));
      }
    }

    method ChargeCache(t: Tokens, ghost n: Kind -> Count)
      requires Balanced() && items == [] && inputRemaining == t.input && n == Quantities(t)
      modifies this
      ensures Balanced()
      ensures items
           == InputLine(n, rates, Rated(R.CachedInput), keepZero) + InputLine(n, rates, Rated(R.CacheWrite), keepZero)
      ensures inputRemaining.Some? <==> t.input.Some?
      ensures t.input.Some? ==> inputRemaining == Some(Remainder(t.input, BeforeImage(t)))
      ensures outputRemaining == old(outputRemaining)
    {
      ChargeInput(Rated(R.CachedInput), t.cachedInput, t.input, 0, n);
      ChargeInput(Rated(R.CacheWrite), t.cacheWrite, t.input, BeforeWrite(t), n);
    }

    method ChargeMedia(t: Tokens, ghost n: Kind -> Count)
      requires Balanced() && n == Quantities(t) && (inputRemaining.Some? <==> t.input.Some?)
      requires t.input.Some? ==> inputRemaining == Some(Remainder(t.input, BeforeImage(t)))
      modifies this
      ensures Balanced()
      ensures items == old(items) + InputLine(n, rates, ImageInput, keepZero)
                       + InputLine(n, rates, Rated(R.AudioInput), keepZero)
      ensures TokenCount(inputRemaining) == n(Rated(R.Input))
      ensures outputRemaining == old(outputRemaining)
    {
      ChargeInput(ImageInput, t.imageInput, t.input, BeforeImage(t), n);
      ChargeInput(Rated(R.AudioInput), t.audioInput, t.input, BeforeAudio(t), n);
    }

    method ChargeInputs(t: Tokens, ghost n: Kind -> Count)
      requires Balanced() && items == [] && inputRemaining == t.input && n == Quantities(t)
      modifies this
      ensures Balanced() && items == InputLines(n, rates, keepZero)
      ensures outputRemaining == old(outputRemaining)
    {
      ChargeCache(t, n);
      ChargeMedia(t, n);
      ChargeRemainder(Rated(R.Input), inputRemaining);
    }

    method ChargeOutputs(t: Tokens)
      requires Balanced() && outputRemaining == t.output
      modifies this
      ensures Balanced() && items == old(items) + OutputLines(Quantities(t), rates, keepZero)
    {
      ChargeOutput(Rated(R.AudioOutput), t.audioOutput, t.output);
      ChargeRemainder(Rated(R.Output), outputRemaining);
    }

    method ChargeRequest()
      requires Balanced()
      modifies this`items, this`cost, this`priced
      ensures Balanced() && items == old(items) + RequestLine(rates)
    {
      var price := PriceOf(rates, Rated(R.Request));
      if price.Some? {
        AddItem(Item(Rated(R.Request), 1, price.value, Rated(R.Request)));
      }
    }
  }

  /** The bill, or nothing when no rate applies to any token. */
  method EstimateBreakdown(t: Tokens, rates: PriceRates, keepZero: bool) returns (bill: Option<Bill>)
    ensures bill == if Lines(Quantities(t), rates, keepZero) == [] then None
                    else Some(Bill(Lines(Quantities(t), rates, keepZero), Due(Quantities(t), rates)))
  {
    var e := new Estimate(t, rates, keepZero);
    e.ChargeInputs(t, Quantities(t));
    e.ChargeOutputs(t);
    e.ChargeRequest();
    LinesCostDue(Quantities(t), rates, keepZero);
    if !e.priced {
      return None;
    }
    bill := Some(Bill(e.items, e.cost));
  }

  // ---------- What is due, rate by rate ----------

  /** Details that are counted apart from their total. */
  type Selection = Kind -> bool

  function Joined(n: Kind -> Count, apart: Selection, kind: Kind): real {
    if apart(kind) then 0.0 else Units(n(kind))
  }

  /** The units counted under a rate when the details that are not apart are counted with their total. */
  function Counted(n: Kind -> Count, apart: Selection, kind: Kind): real {
    match kind
    case Rated(Input) =>
      Joined(n, apart, Rated(R.CachedInput)) + Joined(n, apart, Rated(R.CacheWrite)) + Joined(n, apart, ImageInput)
      + Joined(n, apart, Rated(R.AudioInput)) + Units(n(Rated(R.Input)))
    case Rated(Output) => Joined(n, apart, Rated(R.AudioOutput)) + Units(n(Rated(R.Output)))
    case Rated(Request) => 1.0
    case _ => if apart(kind) then Units(n(kind)) else 0.0
  }

  function CountedWhere(n: Kind -> Count, apart: Selection): Kind -> real {
    kind => Counted(n, apart, kind)
  }

  /** The details with a rate of their own. */
  function WithRate(rates: PriceRates): Selection {
    kind => PriceOf(rates, kind).Some?
  }

  function PricesBy(rates: PriceRates): Kind -> real {
    kind => if PriceOf(rates, kind).Some? then PriceOf(rates, kind).value else 0.0
  }

  /** Every rate times the usage counted for it, details without a rate being counted with their total. */
  function Due(n: Kind -> Count, rates: PriceRates): real {
    R.Total(KINDS, PricesBy(rates), CountedWhere(n, WithRate(rates)))
  }

  // ---------- The lines add up to what is due ----------

  function UnitsOf(item: Item): real {
    if item.source == Rated(R.Request) then item.quantity as real else Units(item.quantity)
  }

  /** The line is charged at the rate it names, for all of its units. */
  ghost predicate Honest(item: Item, price: Kind -> real, units: Item -> real) {
    AmountOf(item) == price(item.source) * units(item)
  }

  /** The units charged at one rate. */
  function Used(items: seq<Item>, units: Item -> real, source: Kind): real {
    if items == [] then 0.0
    else
      var last := items[|items| - 1];
      Used(items[..|items| - 1], units, source) + if last.source == source then units(last) else 0.0
  }

  function UsedBy(items: seq<Item>, units: Item -> real): Kind -> real {
    kind => Used(items, units, kind)
  }

  lemma {:induction false} UsedAdds(a: seq<Item>, b: seq<Item>, units: Item -> real, source: Kind)
    ensures Used(a + b, units, source) == Used(a, units, source) + Used(b, units, source)
  {
    if b == [] {
      assert a + b == a;
    } else {
      UsedAdds(a, b[..|b| - 1], units, source);
      assert (a + b)[..|a + b| - 1] == a + b[..|b| - 1];
    }
  }

  lemma {:induction false} KindsAreComplete()
    ensures R.Complete(KINDS)
  {
    R.FieldsAreComplete();
    forall kind: Kind
      ensures kind in KINDS
    {
      match kind
      case ImageInput => assert KINDS[0] == kind;
      case Rated(field) =>
        assert field in R.FIELDS;
        var i :| 0 <= i < |R.FIELDS| && R.FIELDS[i] == field;
        assert KINDS[i + 1] == kind;
    }
  }

  /** Honest lines cost each rate times the units charged at it. */
  lemma {:induction false} HonestCost(kinds: seq<Kind>, items: seq<Item>, price: Kind -> real, units: Item -> real)
    requires R.Complete(kinds)
    requires forall i :: 0 <= i < |items| ==> Honest(items[i], price, units)
    ensures Cost(items) == R.Total(kinds, price, UsedBy(items, units))
  {
    if items == [] {
      R.TotalOfNoUsage(kinds, price, UsedBy(items, units));
    } else {
      var front, last := items[..|items| - 1], items[|items| - 1];
      HonestCost(kinds, front, price, units);
      R.UsageStep(kinds, price, UsedBy(front, units), UsedBy(items, units), last.source, units(last));
    }
  }

  lemma {:induction false} PerMillion(quantity: real, price: real)
    ensures quantity * price / MILLION == price * (quantity / MILLION)
  {
  }

  lemma {:induction false} LineIsHonest(rates: PriceRates, kind: Kind, fallback: Kind, quantity: Count, keepZero: bool)
    requires kind != Rated(R.Request) && fallback != Rated(R.Request)
    ensures forall item :: item in Line(rates, kind, fallback, quantity, keepZero) ==>
              Honest(item, PricesBy(rates), UnitsOf)
  {
    if Preferred(rates, kind, fallback).Some? {
      PerMillion(Signed(quantity) as real, Preferred(rates, kind, fallback).value);
    }
  }

  lemma {:induction false} LineUses(rates: PriceRates, kind: Kind, fallback: Kind, quantity: Count, keepZero: bool,
                                    source: Kind)
    requires kind != Rated(R.Request) && fallback != Rated(R.Request) && PriceOf(rates, source).Some?
    ensures Used(Line(rates, kind, fallback, quantity, keepZero), UnitsOf, source)
         == if source == (if PriceOf(rates, kind).Some? then kind else fallback) then Units(quantity) else 0.0
  {
    var line := Line(rates, kind, fallback, quantity, keepZero);
    if line != [] {
      assert line[..0] == [];
    } else if quantity == 0 {
      assert Units(quantity) == 0.0;
    }
  }

  /** The rates of the input total and of its details. */
  predicate OfInput(kind: Kind) {
    kind == ImageInput
    || (kind.Rated? && (kind.field == R.Input || kind.field == R.CachedInput || kind.field == R.CacheWrite
                        || kind.field == R.AudioInput))
  }

  lemma {:induction false} InputUsesAdd(n: Kind -> Count, rates: PriceRates, keepZero: bool, source: Kind)
    ensures Used(InputLines(n, rates, keepZero), UnitsOf, source)
         == Used(InputLine(n, rates, Rated(R.CachedInput), keepZero), UnitsOf, source)
            + Used(InputLine(n, rates, Rated(R.CacheWrite), keepZero), UnitsOf, source)
            + Used(InputLine(n, rates, ImageInput, keepZero), UnitsOf, source)
            + Used(InputLine(n, rates, Rated(R.AudioInput), keepZero), UnitsOf, source)
            + Used(InputLine(n, rates, Rated(R.Input), keepZero), UnitsOf, source)
  {
    var a, b := InputLine(n, rates, Rated(R.CachedInput), keepZero), InputLine(n, rates, Rated(R.CacheWrite), keepZero);
    var c, d := InputLine(n, rates, ImageInput, keepZero), InputLine(n, rates, Rated(R.AudioInput), keepZero);
    UsedAdds(a + b + c + d, InputLine(n, rates, Rated(R.Input), keepZero), UnitsOf, source);
    UsedAdds(a + b + c, d, UnitsOf, source);
    UsedAdds(a + b, c, UnitsOf, source);
    UsedAdds(a, b, UnitsOf, source);
  }

  lemma {:induction false} InputUses(n: Kind -> Count, rates: PriceRates, keepZero: bool, source: Kind)
    requires PriceOf(rates, source).Some?
    ensures Used(InputLines(n, rates, keepZero), UnitsOf, source)
         == if OfInput(source) then Counted(n, WithRate(rates), source) else 0.0
  {
    var input := Rated(R.Input);
    InputUsesAdd(n, rates, keepZero, source);
    LineUses(rates, Rated(R.CachedInput), input, n(Rated(R.CachedInput)), keepZero, source);
    LineUses(rates, Rated(R.CacheWrite), input, n(Rated(R.CacheWrite)), keepZero, source);
    LineUses(rates, ImageInput, input, n(ImageInput), keepZero, source);
    LineUses(rates, Rated(R.AudioInput), input, n(Rated(R.AudioInput)), keepZero, source);
    LineUses(rates, input, input, n(input), keepZero, source);
  }

  lemma {:induction false} OutputUses(n: Kind -> Count, rates: PriceRates, keepZero: bool, source: Kind)
    requires PriceOf(rates, source).Some?
    ensures Used(OutputLines(n, rates, keepZero), UnitsOf, source)
         == if OfInput(source) || source == Rated(R.Request) then 0.0 else Counted(n, WithRate(rates), source)
  {
    var output := Rated(R.Output);
    UsedAdds(OutputLine(n, rates, Rated(R.AudioOutput), keepZero), OutputLine(n, rates, output, keepZero), UnitsOf,
             source);
    LineUses(rates, Rated(R.AudioOutput), output, n(Rated(R.AudioOutput)), keepZero, source);
    LineUses(rates, output, output, n(output), keepZero, source);
  }

  /** The lines use each rate for the units counted under it. */
  lemma {:induction false} UsedIsCounted(n: Kind -> Count, rates: PriceRates, keepZero: bool, source: Kind)
    requires PriceOf(rates, source).Some?
    ensures Used(Lines(n, rates, keepZero), UnitsOf, source) == Counted(n, WithRate(rates), source)
  {
    UsedAdds(InputLines(n, rates, keepZero) + OutputLines(n, rates, keepZero), RequestLine(rates), UnitsOf, source);
    UsedAdds(InputLines(n, rates, keepZero), OutputLines(n, rates, keepZero), UnitsOf, source);
    InputUses(n, rates, keepZero, source);
    OutputUses(n, rates, keepZero, source);
    RequestUses(rates, source);
  }

  lemma {:induction false} RequestUses(rates: PriceRates, source: Kind)
    requires PriceOf(rates, source).Some?
    ensures Used(RequestLine(rates), UnitsOf, source) == if source == Rated(R.Request) then 1.0 else 0.0
  {
    if RequestLine(rates) != [] {
      assert RequestLine(rates)[..0] == [];
    }
  }

  lemma {:induction false} LinesAreHonest(n: Kind -> Count, rates: PriceRates, keepZero: bool)
    ensures forall item :: item in Lines(n, rates, keepZero) ==> Honest(item, PricesBy(rates), UnitsOf)
  {
    var input, output := Rated(R.Input), Rated(R.Output);
    LineIsHonest(rates, Rated(R.CachedInput), input, n(Rated(R.CachedInput)), keepZero);
    LineIsHonest(rates, Rated(R.CacheWrite), input, n(Rated(R.CacheWrite)), keepZero);
    LineIsHonest(rates, ImageInput, input, n(ImageInput), keepZero);
    LineIsHonest(rates, Rated(R.AudioInput), input, n(Rated(R.AudioInput)), keepZero);
    LineIsHonest(rates, input, input, n(input), keepZero);
    LineIsHonest(rates, Rated(R.AudioOutput), output, n(Rated(R.AudioOutput)), keepZero);
    LineIsHonest(rates, output, output, n(output), keepZero);
  }

  /** The lines add up to what is due, whether or not those for no tokens are kept. */
  lemma {:induction false} LinesCostDue(n: Kind -> Count, rates: PriceRates, keepZero: bool)
    ensures Cost(Lines(n, rates, keepZero)) == Due(n, rates)
  {
    var lines, apart := Lines(n, rates, keepZero), WithRate(rates);
    LinesAreHonest(n, rates, keepZero);
    KindsAreComplete();
    HonestCost(KINDS, lines, PricesBy(rates), UnitsOf);
    forall kind: Kind
      ensures PricesBy(rates)(kind) == 0.0 || UsedBy(lines, UnitsOf)(kind) == CountedWhere(n, apart)(kind)
    {
      if PriceOf(rates, kind).Some? {
        UsedIsCounted(n, rates, keepZero, kind);
      }
    }
    R.TotalOfPriced(KINDS, PricesBy(rates), UsedBy(lines, UnitsOf), CountedWhere(n, apart));
  }

  // ---------- The details of a total ----------

  /** The tokens of some detail when it is counted apart. */
  function Taken(t: Tokens, apart: Selection, kind: Kind): nat {
    if apart(kind) then Quantity(t, kind) else 0
  }

  function InputTaken(t: Tokens, apart: Selection): nat {
    Taken(t, apart, Rated(R.CachedInput)) + Taken(t, apart, Rated(R.CacheWrite)) + Taken(t, apart, ImageInput)
    + Taken(t, apart, Rated(R.AudioInput))
  }

  /**
   Whichever details are counted apart, the rest of the total is counted under the input or the output rate: what
   is taken apart and what is left always make up the total.
   */
  lemma {:induction false} RestIsLeft(t: Tokens, apart: Selection)
    ensures t.input.Some? && t.input.value < LIMIT / 2 ==>
              InputTaken(t, apart) <= t.input.value
              && Counted(Quantities(t), apart, Rated(R.Input))
                == (t.input.value - InputTaken(t, apart)) as real / MILLION
    ensures t.output.Some? && t.output.value < LIMIT / 2 ==>
              Taken(t, apart, Rated(R.AudioOutput)) <= t.output.value
              && Counted(Quantities(t), apart, Rated(R.Output))
                 == (t.output.value - Taken(t, apart, Rated(R.AudioOutput))) as real / MILLION
  {
    QuantitiesAddUp(t);
  }

  // ---------- What a leaf's rates charge ----------

  /** The rates of a leaf; none of them is for images. */
  function LeafRates(rates: R.Rates): PriceRates {
    PriceRates(rates, None)
  }

  function UsageWhere(n: Kind -> Count, apart: Selection): R.Usage {
    field => Counted(n, apart, Rated(field))
  }

  lemma {:induction false} RatedTotal(fields: seq<R.Field>, price: Kind -> real, usage: Kind -> real,
                                      fieldPrice: R.Field -> real, fieldUsage: R.Usage)
    requires forall field :: fieldPrice(field) == price(Rated(field)) && fieldUsage(field) == usage(Rated(field))
    ensures R.Total(RatedKinds(fields), price, usage) == R.Total(fields, fieldPrice, fieldUsage)
  {
    if fields != [] {
      assert RatedKinds(fields)[1..] == RatedKinds(fields[1..]);
      RatedTotal(fields[1..], price, usage, fieldPrice, fieldUsage);
    }
  }

  lemma {:induction false} DueIsCharge(n: Kind -> Count, rates: R.Rates)
    ensures Due(n, LeafRates(rates)) == R.Charge(rates, UsageWhere(n, WithRate(LeafRates(rates))))
  {
    var price, usage := PricesBy(LeafRates(rates)), CountedWhere(n, WithRate(LeafRates(rates)));
    assert KINDS[1..] == RatedKinds(R.FIELDS);
    RatedTotal(R.FIELDS, price, usage, R.RatesBy(rates), UsageWhere(n, WithRate(LeafRates(rates))));
    assert price(ImageInput) * usage(ImageInput) == 0.0;
  }

  /**
   What is due at the rates of a leaf is the leaf's expression, with `p` and `c` counting the tokens that have no
   rate of their own.
   */
  lemma {:induction false} LeafIsCharged(terms: seq<R.Term>, acc: R.Terms, rates: R.Rates, n: Kind -> Count)
    requires R.Collected(terms, acc) && R.RatesFor(acc, Ok(rates))
    ensures Due(n, LeafRates(rates)) == R.Linear(terms, UsageWhere(n, WithRate(LeafRates(rates))), R.ChargedWrites(acc))
  {
    DueIsCharge(n, rates);
    R.ChargeIsLinear(terms, acc, Ok(rates), UsageWhere(n, WithRate(LeafRates(rates))));
  }

  // ---------- The documented meaning of an expression ----------

  /** The details whose variable the expression mentions, whatever its coefficient. */
  function Mentioned(terms: seq<R.Term>): Selection {
    (kind: Kind) =>
      match kind
      case ImageInput => false
      case Rated(CacheWrite) =>
        R.Mentions(terms, R.Of(R.CacheWrite)) || R.Mentions(terms, R.CacheWrite1h) || R.Mentions(terms, R.CacheWrite12h)
      case Rated(field) => R.Mentions(terms, R.Of(field))
  }

  /** Units of a mentioned detail that has no rate, because its coefficients add up to zero. */
  function Free(n: Kind -> Count, mentioned: Selection, rated: Selection, kind: Kind): real {
    if mentioned(kind) && !rated(kind) then Units(n(kind)) else 0.0
  }

  function FreeInput(n: Kind -> Count, mentioned: Selection, rated: Selection): real {
    Free(n, mentioned, rated, Rated(R.CachedInput)) + Free(n, mentioned, rated, Rated(R.CacheWrite))
    + Free(n, mentioned, rated, Rated(R.AudioInput))
  }

  function FreeOutput(n: Kind -> Count, mentioned: Selection, rated: Selection): real {
    Free(n, mentioned, rated, Rated(R.AudioOutput))
  }

  function Raised(u: R.Usage, changed: R.Field, more: real): R.Usage {
    field => u(field) + if field == changed then more else 0.0
  }

  /** Only mentioned variables get a rate. */
  lemma {:induction false} RatedIsMentioned(terms: seq<R.Term>, acc: R.Terms, rates: R.Rates, field: R.Field)
    requires R.Collected(terms, acc) && R.RatesFor(acc, Ok(rates)) && field in rates
    ensures Mentioned(terms)(Rated(field))
  {
    assert R.Price(acc, field) != 0.0;
    assert R.Of(field) in acc || (field == R.CacheWrite && (R.CacheWrite1h in acc || R.CacheWrite12h in acc));
  }

  /** Counting by rate instead of by mention adds the free units to the input and the output. */
  lemma {:induction false} FreeIsAdded(n: Kind -> Count, mentioned: Selection, rated: Selection, field: R.Field)
    requires forall kind :: rated(kind) && kind != Rated(R.Request) ==> mentioned(kind)
    requires !mentioned(ImageInput) && (field in R.FIELDS[..2] || field == R.Request || rated(Rated(field)))
    ensures UsageWhere(n, rated)(field)
         == Raised(Raised(UsageWhere(n, mentioned), R.Input, FreeInput(n, mentioned, rated)),
                   R.Output, FreeOutput(n, mentioned, rated))(field)
  {
  }

  lemma {:induction false} RaisedTotal(fields: seq<R.Field>, price: R.Field -> real, u: R.Usage, changed: R.Field,
                                       more: real)
    requires R.Complete(fields)
    ensures R.Total(fields, price, Raised(u, changed, more)) == R.Total(fields, price, u) + price(changed) * more
  {
    R.UsageStep(fields, price, u, Raised(u, changed, more), changed, more);
  }

  lemma {:induction false} RaisedCharge(rates: R.Rates, u: R.Usage, changed: R.Field, more: real)
    ensures R.Charge(rates, Raised(u, changed, more)) == R.Charge(rates, u) + R.RateOf(rates, changed) * more
  {
    R.FieldsAreComplete();
    RaisedTotal(R.FIELDS, R.RatesBy(rates), u, changed, more);
  }

  /** The expression with the tokens of every mentioned variable taken out of `p` and `c`. */
  function Documented(terms: seq<R.Term>, acc: R.Terms, n: Kind -> Count): real {
    R.Linear(terms, UsageWhere(n, Mentioned(terms)), R.ChargedWrites(acc))
  }

  /** Usage that where a price applies is more by `a` input and `b` output. */
  lemma {:induction false} RaisedTwice(rates: R.Rates, u: R.Usage, v: R.Usage, a: real, b: real)
    requires forall field :: R.RatesBy(rates)(field) == 0.0
               || v(field) == Raised(Raised(u, R.Input, a), R.Output, b)(field)
    ensures R.Charge(rates, v) == R.Charge(rates, u) + Extra(rates, a, b)
  {
    RaisedCharge(rates, u, R.Input, a);
    RaisedCharge(rates, Raised(u, R.Input, a), R.Output, b);
    R.TotalOfPriced(R.FIELDS, R.RatesBy(rates), v, Raised(Raised(u, R.Input, a), R.Output, b));
  }

  function Extra(rates: R.Rates, input: real, output: real): real {
    R.RateOf(rates, R.Input) * input + R.RateOf(rates, R.Output) * output
  }

  /** Beyond its documented meaning, a leaf is charged for the free units, at the input and output rates. */
  lemma {:induction false} ChargedBeyondMeaning(terms: seq<R.Term>, acc: R.Terms, rates: R.Rates, n: Kind -> Count,
                                                input: real, output: real)
    requires R.Collected(terms, acc) && R.RatesFor(acc, Ok(rates))
    requires input == FreeInput(n, Mentioned(terms), WithRate(LeafRates(rates)))
    requires output == FreeOutput(n, Mentioned(terms), WithRate(LeafRates(rates)))
    ensures Due(n, LeafRates(rates)) == Documented(terms, acc, n) + Extra(rates, input, output)
  {
    DueIsCharge(n, rates);
    R.ChargeIsLinear(terms, acc, Ok(rates), UsageWhere(n, Mentioned(terms)));
    RatedUsage(terms, acc, rates, n);
    RaisedTwice(rates, UsageWhere(n, Mentioned(terms)), UsageWhere(n, WithRate(LeafRates(rates))), input, output);
  }

  lemma {:induction false} RatedUsage(terms: seq<R.Term>, acc: R.Terms, rates: R.Rates, n: Kind -> Count)
    requires R.Collected(terms, acc) && R.RatesFor(acc, Ok(rates))
    ensures var mentioned, rated := Mentioned(terms), WithRate(LeafRates(rates));
            var u := UsageWhere(n, mentioned);
            var more := Raised(u, R.Input, FreeInput(n, mentioned, rated));
            forall field :: R.RatesBy(rates)(field) == 0.0
                            || UsageWhere(n, rated)(field)
                               == Raised(more, R.Output, FreeOutput(n, mentioned, rated))(field)
  {
    var mentioned, rated := Mentioned(terms), WithRate(LeafRates(rates));
    forall kind | rated(kind) && kind != Rated(R.Request)
      ensures mentioned(kind)
    {
      RatedIsMentioned(terms, acc, rates, kind.field);
    }
    forall field | R.RatesBy(rates)(field) != 0.0
      ensures UsageWhere(n, rated)(field)
           == Raised(Raised(UsageWhere(n, mentioned), R.Input, FreeInput(n, mentioned, rated)),
                     R.Output, FreeOutput(n, mentioned, rated))(field)
    {
      FreeIsAdded(n, mentioned, rated, field);
    }
  }

  /** The rate that tokens without a rate of their own fall back to. */
  function FallbackOf(kind: Kind): R.Field {
    if kind == Rated(R.AudioOutput) || kind == Rated(R.Output) then R.Output else R.Input
  }

  predicate IsDetail(kind: Kind) {
    kind == ImageInput
    || (kind.Rated? && (kind.field == R.CachedInput || kind.field == R.CacheWrite || kind.field == R.AudioInput
                        || kind.field == R.AudioOutput))
  }

  lemma {:induction false} SumNonNegative(terms: seq<R.Term>, v: R.Variable)
    requires forall i :: 0 <= i < |terms| && terms[i].Priced? ==> terms[i].coefficient >= 0.0
    ensures R.Sum(terms, v) >= 0.0
  {
    if terms != [] {
      SumNonNegative(terms[..|terms| - 1], v);
    }
  }

  lemma {:induction false} ExtraVanishes(rates: R.Rates, x: real, y: real)
    requires R.RateOf(rates, R.Input) >= 0.0 && x >= 0.0 && R.RateOf(rates, R.Output) >= 0.0 && y >= 0.0
    ensures Extra(rates, x, y) == 0.0
       <==> (R.RateOf(rates, R.Input) == 0.0 || x == 0.0) && (R.RateOf(rates, R.Output) == 0.0 || y == 0.0)
  {
    var a, b := R.RateOf(rates, R.Input), R.RateOf(rates, R.Output);
    if a != 0.0 && x != 0.0 {
      assert a * x > 0.0;
    }
    if b != 0.0 && y != 0.0 {
      assert b * y > 0.0;
    }
  }

  lemma {:induction false} RateNonNegative(terms: seq<R.Term>, acc: R.Terms, rates: R.Rates, field: R.Field)
    requires R.Collected(terms, acc) && R.RatesFor(acc, Ok(rates)) && field != R.CacheWrite
    requires forall i :: 0 <= i < |terms| && terms[i].Priced? ==> terms[i].coefficient >= 0.0
    ensures R.RateOf(rates, field) >= 0.0
  {
    SumNonNegative(terms, R.Of(field));
    assert R.Price(acc, field) == R.Coefficient(acc, R.Of(field));
  }

  /**
   A leaf is charged by its documented meaning, in which the tokens of every mentioned variable are taken out of
   `p` and `c`, if and only if no tokens occur whose variable has coefficient zero while the rate they then fall
   back to has a price.
   */
  lemma {:induction false} DocumentedMeaningIff(terms: seq<R.Term>, acc: R.Terms, rates: R.Rates, n: Kind -> Count)
    requires R.Collected(terms, acc) && R.RatesFor(acc, Ok(rates))
    requires forall i :: 0 <= i < |terms| && terms[i].Priced? ==> terms[i].coefficient >= 0.0
    requires forall kind: Kind :: n(kind) < LIMIT / 2
    ensures Due(n, LeafRates(rates)) == Documented(terms, acc, n)
       <==> forall kind :: IsDetail(kind) && Mentioned(terms)(kind) && PriceOf(LeafRates(rates), kind).None?
                           && n(kind) > 0 ==>
                             R.RateOf(rates, FallbackOf(kind)) == 0.0
  {
    var mentioned, rated := Mentioned(terms), WithRate(LeafRates(rates));
    var x, y := FreeInput(n, mentioned, rated), FreeOutput(n, mentioned, rated);
    ChargedBeyondMeaning(terms, acc, rates, n, x, y);
    RateNonNegative(terms, acc, rates, R.Input);
    RateNonNegative(terms, acc, rates, R.Output);
    FreeVanishes(n, mentioned, rated);
    ExtraVanishes(rates, x, y);
  }

  lemma {:induction false} FreeVanishes(n: Kind -> Count, mentioned: Selection, rated: Selection)
    requires !mentioned(ImageInput) && forall kind: Kind :: n(kind) < LIMIT / 2
    ensures FreeInput(n, mentioned, rated) >= 0.0 && FreeOutput(n, mentioned, rated) >= 0.0
    ensures FreeInput(n, mentioned, rated) == 0.0
       <==> forall kind :: IsDetail(kind) && FallbackOf(kind) == R.Input && mentioned(kind) && !rated(kind) ==>
              n(kind) == 0
    ensures FreeOutput(n, mentioned, rated) == 0.0
       <==> forall kind :: IsDetail(kind) && FallbackOf(kind) == R.Output && mentioned(kind) && !rated(kind) ==>
              n(kind) == 0
  {
  }

  /** The terms `p * price + cr * 0`, and the rates they are converted to. */
  lemma {:induction false} FreeCachedRates(price: real, terms: seq<R.Term>, acc: R.Terms)
    requires price > 0.0
    requires terms == [R.Priced(R.Of(R.Input), price), R.Priced(R.Of(R.CachedInput), 0.0)]
    requires acc == map[R.Of(R.Input) := price, R.Of(R.CachedInput) := 0.0]
    ensures R.Collected(terms, acc) && R.RatesFor(acc, Ok(map[R.Input := price]))
  {
    var first := map[R.Of(R.Input) := price];
    R.CollectedStep([], map[], terms[0]);
    assert [] + [terms[0]] == terms[..1] && map[][R.Of(R.Input) := price] == first;
    R.CollectedStep(terms[..1], first, terms[1]);
    assert terms[..1] + [terms[1]] == terms && first[R.Of(R.CachedInput) := 0.0] == acc;
    assert R.Coefficient(acc, R.Of(R.Input)) != 0.0;
  }

  /** An input of cached tokens only is charged at the input rate, although by the meaning of the terms it is free. */
  lemma {:induction false} FreeCachedIsCharged(price: real, cached: Count, terms: seq<R.Term>, acc: R.Terms)
    requires price > 0.0 && 0 < cached < LIMIT / 2
    requires terms == [R.Priced(R.Of(R.Input), price), R.Priced(R.Of(R.CachedInput), 0.0)]
    requires acc == map[R.Of(R.Input) := price, R.Of(R.CachedInput) := 0.0]
    ensures var n := Quantities(Tokens(Some(cached), Some(cached), None, None, None, None, None));
            Due(n, LeafRates(map[R.Input := price])) != Documented(terms, acc, n)
  {
    var n := Quantities(Tokens(Some(cached), Some(cached), None, None, None, None, None));
    FreeCachedRates(price, terms, acc);
    DocumentedMeaningIff(terms, acc, map[R.Input := price], n);
    assert terms[1].Priced? && Mentioned(terms)(Rated(R.CachedInput)) && n(Rated(R.CachedInput)) == cached;
  }

  // ---------- From the expression's text to the charge ----------

  /** The rates that put some line on the bill. */
  function Prices(t: Tokens, keepZero: bool): R.Rates -> bool {
    rates => Lines(Quantities(t), LeafRates(rates), keepZero) != []
  }

  /** What is charged at some rates, and nothing without rates. */
  function Charged(n: Kind -> Count, rates: Option<R.Rates>): real {
    if rates.Some? then Due(n, LeafRates(rates.value)) else 0.0
  }

  /** Rates that put no line on the bill charge nothing. */
  lemma {:induction false} UnpricedIsFree(t: Tokens, keepZero: bool, rates: R.Rates)
    requires !Prices(t, keepZero)(rates)
    ensures Due(Quantities(t), LeafRates(rates)) == 0.0
  {
    LinesCostDue(Quantities(t), LeafRates(rates), keepZero);
  }

  /**
   From text to charge: a guarded, readable, well-formed expression charges, for every request and all tokens, what
   is due at the first tried rates that put a line on the bill. That is the linear expression of the leaf that the
   ternaries evaluate to if and only if this leaf's rates do so, or what is due is nothing.
   */
  lemma {:induction false} ParsedTextIsCharged(g: P.Grammar, e: T.Spelling, layers: nat, q: Request, t: Tokens,
                                               keepZero: bool, tier: Tier, terms: seq<R.Term>, acc: R.Terms)
    requires T.Readable(e) && T.Guarded(e) && P.WalkText(g, T.Branch(e, layers), ROOT).Ok?
    requires ValidRequest(q) && WellFormed(P.Meaning(g, e), q.zones) && q.length == TokenCount(t.input)
    requires Eval(P.Meaning(g, e), q) == Ok(tier) && R.Collected(terms, acc) && R.RatesFor(acc, Ok(tier.rates))
    ensures var rules := OrderSyncedRules(SyncedRules(P.WalkText(g, T.Branch(e, layers), ROOT).value));
            var n, prices := Quantities(t), Prices(t, keepZero);
            var charged := Charged(n, RatesOf(Billed(rules, q, prices)));
            var due := Charged(n, FirstPriced(Tried(P.Meaning(g, e), q), prices));
            && charged == due
            && (charged == R.Linear(terms, UsageWhere(n, WithRate(LeafRates(tier.rates))), R.ChargedWrites(acc)) <==>
                  prices(tier.rates) || due == 0.0)
  {
    P.ParsedTextBillsItsLeaf(g, e, layers, q, Prices(t, keepZero));
    LeafIsCharged(terms, acc, tier.rates, Quantities(t));
    if !Prices(t, keepZero)(tier.rates) {
      UnpricedIsFree(t, keepZero, tier.rates);
    }
  }

  // ---------- Where another leaf is charged ----------

  predicate Positive(rates: R.Rates) {
    forall field :: field in rates ==> rates[field] > 0.0
  }

  /** Unsigned coefficients give positive rates, and at least one. */
  lemma {:induction false} UnsignedIsPositive(terms: seq<R.Term>, acc: R.Terms, rates: R.Rates)
    requires R.Collected(terms, acc) && R.RatesFor(acc, Ok(rates))
    requires forall i :: 0 <= i < |terms| && terms[i].Priced? ==> terms[i].coefficient >= 0.0
    ensures Positive(rates) && rates != map[]
  {
    forall v: R.Variable
      ensures R.Coefficient(acc, v) >= 0.0
    {
      SumNonNegative(terms, v);
    }
    forall field: R.Field
      ensures R.Price(acc, field) >= 0.0
    {
    }
    var field: R.Field :| R.Coefficient(acc, R.Of(field)) != 0.0;
    assert R.Price(acc, field) != 0.0;
  }

  lemma {:induction false} PositiveCost(items: seq<Item>)
    requires forall item :: item in items ==> AmountOf(item) > 0.0
    ensures Cost(items) >= 0.0 && (items != [] ==> Cost(items) > 0.0)
  {
    if items != [] {
      assert items[|items| - 1] in items;
      PositiveCost(items[..|items| - 1]);
    }
  }

  lemma {:induction false} PositiveLine(rates: R.Rates, kind: Kind, fallback: Kind, quantity: Count)
    requires Positive(rates) && quantity < LIMIT / 2 && kind != Rated(R.Request)
    ensures forall item :: item in Line(LeafRates(rates), kind, fallback, quantity, false) ==> AmountOf(item) > 0.0
  {
    var price := Preferred(LeafRates(rates), kind, fallback);
    if price.Some? && quantity > 0 {
      ProductIsPositive(Signed(quantity) as real, price.value);
    }
  }

  lemma {:induction false} ProductIsPositive(quantity: real, price: real)
    requires quantity > 0.0 && price > 0.0
    ensures quantity * price / MILLION > 0.0
  {
  }

  /** Positive rates that put a line on the bill charge something, when lines for no tokens are not kept. */
  lemma {:induction false} PricedIsCharged(t: Tokens, rates: R.Rates)
    requires Positive(rates) && Prices(t, false)(rates)
    requires forall kind: Kind :: Quantities(t)(kind) < LIMIT / 2
    ensures Due(Quantities(t), LeafRates(rates)) > 0.0
  {
    var n := Quantities(t);
    var input, output := Rated(R.Input), Rated(R.Output);
    PositiveLine(rates, Rated(R.CachedInput), input, n(Rated(R.CachedInput)));
    PositiveLine(rates, Rated(R.CacheWrite), input, n(Rated(R.CacheWrite)));
    PositiveLine(rates, ImageInput, input, n(ImageInput));
    PositiveLine(rates, Rated(R.AudioInput), input, n(Rated(R.AudioInput)));
    PositiveLine(rates, input, input, n(input));
    PositiveLine(rates, Rated(R.AudioOutput), output, n(Rated(R.AudioOutput)));
    PositiveLine(rates, output, output, n(output));
    PositiveCost(Lines(n, LeafRates(rates), false));
    LinesCostDue(n, LeafRates(rates), false);
  }

  /** Rates that are kept for no tokens too always put a line on the bill. */
  lemma {:induction false} KeptRatesPrice(t: Tokens, rates: R.Rates)
    requires rates != map[]
    ensures Prices(t, true)(rates)
  {
    var field :| field in rates;
    var n := Quantities(t);
    assert PriceOf(LeafRates(rates), Rated(field)) == Some(rates[field]);
    if field == R.Request {
      assert RequestLine(LeafRates(rates)) != [];
    } else if FallbackOf(Rated(field)) == R.Output {
      assert OutputLine(n, LeafRates(rates), Rated(field), true) != [];
    } else {
      assert InputLine(n, LeafRates(rates), Rated(field), true) != [];
    }
  }

  /** With positive rates, where the first ones do not price, nothing is charged exactly if none do. */
  lemma {:induction false} ChargedIffPriced(tried: seq<R.Rates>, t: Tokens, keepZero: bool)
    requires tried != [] && forall r :: r in tried ==> Positive(r) && r != map[]
    requires forall kind: Kind :: Quantities(t)(kind) < LIMIT / 2
    ensures var prices := Prices(t, keepZero);
            (prices(tried[0]) || Charged(Quantities(t), FirstPriced(tried, prices)) == 0.0)
            <==> (prices(tried[0]) || forall r :: r in tried ==> !prices(r))
  {
    assert tried[0] in tried;
    if keepZero {
      KeptRatesPrice(t, tried[0]);
    } else if FirstPriced(tried, Prices(t, false)).Some? {
      PricedIsCharged(t, FirstPriced(tried, Prices(t, false)).value);
    }
  }

  /**
   With positive rates and counts below 2^63, the text charges the linear expression of the leaf that the ternaries
   evaluate to if and only if this leaf's rates put a line on the bill or those of no other tried leaf do.
   */
  lemma {:induction false} ParsedTextChargedRightIff(g: P.Grammar, e: T.Spelling, layers: nat, q: Request, t: Tokens,
                                                     keepZero: bool, tier: Tier, terms: seq<R.Term>, acc: R.Terms)
    requires T.Readable(e) && T.Guarded(e) && P.WalkText(g, T.Branch(e, layers), ROOT).Ok?
    requires ValidRequest(q) && WellFormed(P.Meaning(g, e), q.zones) && q.length == TokenCount(t.input)
    requires Eval(P.Meaning(g, e), q) == Ok(tier) && R.Collected(terms, acc) && R.RatesFor(acc, Ok(tier.rates))
    requires forall r :: r in Tried(P.Meaning(g, e), q) ==> Positive(r) && r != map[]
    requires forall kind: Kind :: Quantities(t)(kind) < LIMIT / 2
    ensures var rules := OrderSyncedRules(SyncedRules(P.WalkText(g, T.Branch(e, layers), ROOT).value));
            var n, prices := Quantities(t), Prices(t, keepZero);
            Charged(n, RatesOf(Billed(rules, q, prices)))
              == R.Linear(terms, UsageWhere(n, WithRate(LeafRates(tier.rates))), R.ChargedWrites(acc))
            <==> prices(tier.rates) || forall r :: r in Tried(P.Meaning(g, e), q) ==> !prices(r)
  {
    ParsedTextIsCharged(g, e, layers, q, t, keepZero, tier, terms, acc);
    P.ParsedTextBillsItsLeaf(g, e, layers, q, Prices(t, keepZero));
    ChargedIffPriced(Tried(P.Meaning(g, e), q), t, keepZero);
  }

  /** An expression with an output price while a schedule holds and an input price otherwise. */
  function OutputOrInput(s: Schedule, x: real, y: real): Expr {
    Ternary(ScheduleCondition(s),
            Leaf(Ok(Tier("output", map[R.Output := y]))),
            Leaf(Ok(Tier("input", map[R.Input := x]))))
  }

  function InputOnly(n: Count): Tokens {
    Tokens(Some(n), None, None, None, None, None, None)
  }

  /** Input alone is free at an output price, and is charged at an input price. */
  lemma {:induction false} InputOnlyPrices(x: real, y: real, n: Count)
    requires x > 0.0 && y > 0.0 && 0 < n < LIMIT / 2
    ensures !Prices(InputOnly(n), false)(map[R.Output := y]) && Prices(InputOnly(n), false)(map[R.Input := x])
    ensures Due(Quantities(InputOnly(n)), LeafRates(map[R.Output := y])) == 0.0
    ensures Due(Quantities(InputOnly(n)), LeafRates(map[R.Input := x])) > 0.0
  {
    var t := InputOnly(n);
    UnpricedIsFree(t, false, map[R.Output := y]);
    assert InputLine(Quantities(t), LeafRates(map[R.Input := x]), Rated(R.Input), false) != [];
    PricedIsCharged(t, map[R.Input := x]);
  }

  lemma {:induction false} OutputOrInputTries(s: Schedule, x: real, y: real, q: Request)
    requires ValidRequest(q) && Supported(s, q.zones) && Holds(s, q.local(s.zone))
    ensures var e := OutputOrInput(s, x, y);
            && WellFormed(e, q.zones) && Walk(e, ROOT).Ok?
            && Eval(e, q).Ok? && Eval(e, q).value.rates == map[R.Output := y]
            && Tried(e, q) == [map[R.Output := y], map[R.Input := x]]
  {
    SupportedIsExact(s, q.zones, q.local(s.zone));
  }

  /**
   While the schedule holds, input alone is free by that expression; it is charged at the rates of the other leaf.
   */
  lemma {:induction false} UnpricedLeafIsPassedOver(s: Schedule, x: real, y: real, n: Count, q: Request)
    requires ValidRequest(q) && Supported(s, q.zones) && Holds(s, q.local(s.zone))
    requires x > 0.0 && y > 0.0 && 0 < n < LIMIT / 2
    ensures var e, t := OutputOrInput(s, x, y), InputOnly(n);
            && WellFormed(e, q.zones) && Walk(e, ROOT).Ok? && !BilledRight(e, q, Prices(t, false))
            && Eval(e, q).Ok? && Due(Quantities(t), LeafRates(Eval(e, q).value.rates)) == 0.0
            && RatesOf(Billed(StoredRules(e), q, Prices(t, false))) == Some(map[R.Input := x])
            && Due(Quantities(t), LeafRates(map[R.Input := x])) > 0.0
  {
    OutputOrInputTries(s, x, y, q);
    CompilationPreservesMeaning(OutputOrInput(s, x, y), q, Prices(InputOnly(n), false));
    InputOnlyPrices(x, y, n);
  }
}
