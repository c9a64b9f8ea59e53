/**
 Leaf prices: a linear expression such as `p * 3 + c * 15 + cc1h * 6 + fixed(0.04)` turned into the
 rate fields of a price rule.
 */
module BillingRates {
  import opened GoStrings

  datatype Field = Input | Output | CachedInput | CacheWrite | AudioInput | AudioOutput | Request

  /** A variable of the expression; every rate field but none else has a variable of its own. */
  datatype Variable = Of(field: Field) | CacheWrite1h | CacheWrite12h | Unknown(name: string)

  /** One `+`-separated term; `Blank` is an empty one, `Unreadable` fits no pattern. */
  datatype Term = Priced(variable: Variable, coefficient: real) | Blank | Unreadable

  type Terms = map<Variable, real>
  type Rates = map<Field, real>

  datatype RateError = UnsupportedTerm | NoTerm | UnsupportedVariable | NoPrice

  // ---------- Adding up coefficients ----------

  function Sum(terms: seq<Term>, v: Variable): real {
    if terms == [] then 0.0
    else
      var last := terms[|terms| - 1];
      Sum(terms[..|terms| - 1], v) + if last.Priced? && last.variable == v then last.coefficient else 0.0
  }

  predicate Mentions(terms: seq<Term>, v: Variable) {
    exists i :: 0 <= i < |terms| && terms[i].Priced? && terms[i].variable == v
  }

  /** `acc` holds the summed coefficient of every variable the terms mention, and nothing else. */
  ghost predicate Collected(terms: seq<Term>, acc: Terms) {
    forall v :: (v in acc <==> Mentions(terms, v)) && (v in acc ==> acc[v] == Sum(terms, v))
  }

  function Coefficient(acc: Terms, v: Variable): real {
    if v in acc then acc[v] else 0.0
  }

  lemma {:induction false} UnmentionedSumsToZero(terms: seq<Term>, v: Variable)
    requires !Mentions(terms, v)
    ensures Sum(terms, v) == 0.0
  {
    if terms != [] {
      var front := terms[..|terms| - 1];
      assert forall i :: 0 <= i < |front| ==> front[i] == terms[i];
      UnmentionedSumsToZero(front, v);
    }
  }

  lemma {:induction false} CollectedStep(front: seq<Term>, acc: Terms, term: Term)
    requires Collected(front, acc)
    ensures term.Blank? ==> Collected(front + [term], acc)
    ensures term.Priced? ==>
              Collected(front + [term], acc[term.variable := Coefficient(acc, term.variable) + term.coefficient])
  {
    var all := front + [term];
    assert all[..|all| - 1] == front;
    forall v
      ensures Mentions(all, v) <==> Mentions(front, v) || (term.Priced? && term.variable == v)
    {
      if Mentions(front, v) {
        var i :| 0 <= i < |front| && front[i].Priced? && front[i].variable == v;
        assert all[i] == front[i];
      }
      if term.Priced? && term.variable == v {
        assert all[|front|] == term;
      }
    }
    if term.Priced? && term.variable !in acc {
      UnmentionedSumsToZero(front, term.variable);
    }
  }

  // ---------- From coefficients to rates ----------

  function RateOf(rates: Rates, field: Field): real {
    if field in rates then rates[field] else 0.0
  }

  /** The coefficient charged for cache writes: the shortest lifetime that is priced. */
  function CacheWritePrice(acc: Terms): real {
    if Coefficient(acc, Of(CacheWrite)) != 0.0 then Coefficient(acc, Of(CacheWrite))
    else if Coefficient(acc, CacheWrite1h) != 0.0 then Coefficient(acc, CacheWrite1h)
    else Coefficient(acc, CacheWrite12h)
  }

  function Price(acc: Terms, field: Field): real {
    if field == CacheWrite then CacheWritePrice(acc) else Coefficient(acc, Of(field))
  }

  predicate AllKnown(acc: Terms) {
    forall v :: v in acc ==> !v.Unknown?
  }

  /** Some variable with a rate field of its own has a price. */
  predicate PricesSomething(acc: Terms) {
    exists field: Field :: Coefficient(acc, Of(field)) != 0.0
  }

  /** What the rate map has to be: a field is present exactly when its price is not zero. */
  ghost predicate RatesFor(acc: Terms, r: Result<Rates, RateError>) {
    if !AllKnown(acc) then r == Err(UnsupportedVariable)
    else if !PricesSomething(acc) then r == Err(NoPrice)
    else r.Ok? && forall field: Field :: (field in r.value <==> Price(acc, field) != 0.0)
                                         && (field in r.value ==> r.value[field] == Price(acc, field))
  }

  /** The conversion loop; the map is visited in any order. */
  method BillingExprRatesFromTerms(acc: Terms) returns (r: Result<Rates, RateError>)
    ensures RatesFor(acc, r)
  {
    var rates: Rates := map[];
    var left := acc.Keys;
    while left != {}
      invariant left <= acc.Keys
      invariant forall v :: v in acc && v !in left ==> !v.Unknown?
      invariant forall field :: field in rates <==> Of(field) in acc && Of(field) !in left && acc[Of(field)] != 0.0
      invariant forall field :: field in rates ==> rates[field] == acc[Of(field)]
      decreases left
    {
      var v :| v in left;
      left := left - {v};
      if v.Unknown? {
        return Err(UnsupportedVariable);
      }
      if acc[v] == 0.0 {
        continue;
      }
      if v.Of? {
        rates := rates[v.field := RateOf(rates, v.field) + acc[v]];
      }
    }
    if rates == map[] {
      forall field: Field
        ensures Coefficient(acc, Of(field)) == 0.0
      {
        assert field !in rates;
      }
      return Err(NoPrice);
    }
    assert PricesSomething(acc) by {
      var field :| field in rates;
      assert Coefficient(acc, Of(field)) != 0.0;
    }
    if CacheWrite !in rates {
      if CacheWrite1h in acc && acc[CacheWrite1h] != 0.0 {
        rates := rates[CacheWrite := acc[CacheWrite1h]];
      } else if CacheWrite12h in acc && acc[CacheWrite12h] != 0.0 {
        rates := rates[CacheWrite := acc[CacheWrite12h]];
      }
    }
    r := Ok(rates);
  }

  /** `parseBillingLinearRates` behind the term patterns. */
  method ParseBillingLinearRates(terms: seq<Term>) returns (r: Result<Rates, RateError>, ghost acc: Terms)
    ensures (exists i :: 0 <= i < |terms| && terms[i].Unreadable?) ==> r == Err(UnsupportedTerm)
    ensures (forall i :: 0 <= i < |terms| ==> !terms[i].Unreadable?) ==>
              && Collected(terms, acc)
              && (if acc == map[] then r == Err(NoTerm) else RatesFor(acc, r))
  {
    var sums: Terms := map[];
    acc := map[];
    for i := 0 to |terms|
      invariant Collected(terms[..i], sums)
      invariant forall j :: 0 <= j < i ==> !terms[j].Unreadable?
    {
      assert terms[..i + 1] == terms[..i] + [terms[i]];
      CollectedStep(terms[..i], sums, terms[i]);
      match terms[i] {
        case Blank =>
        case Priced(v, coefficient) =>
          sums := sums[v := (if v in sums then sums[v] else 0.0) + coefficient];
        case Unreadable =>
          return Err(UnsupportedTerm), sums;
      }
    }
    assert terms[..|terms|] == terms;
    acc := sums;
    if sums == map[] {
      return Err(NoTerm), acc;
    }
    r := BillingExprRatesFromTerms(sums);
  }

  // ---------- What the rates charge ----------

  /** Usage of one request per rate field, `Request` being the number of requests. */
  type Usage = Field -> real

  const FIELDS := [Input, Output, CachedInput, CacheWrite, AudioInput, AudioOutput, Request]

  /** Usage times price, added up over some fields. */
  function Total<K>(fields: seq<K>, price: K -> real, usage: K -> real): real {
    if fields == [] then 0.0 else price(fields[0]) * usage(fields[0]) + Total(fields[1..], price, usage)
  }

  function RatesBy(rates: Rates): Field -> real {
    field => RateOf(rates, field)
  }

  function Charge(rates: Rates, usage: Usage): real {
    Total(FIELDS, RatesBy(rates), usage)
  }

  /** The field a term is charged under when cache writes are charged at `writes`. */
  function ChargedField(v: Variable, writes: Variable): Option<Field> {
    if v == writes then Some(CacheWrite)
    else if v.Of? && v.field != CacheWrite then Some(v.field)
    else None
  }

  /** The linear expression itself, all cache writes being made at the lifetime `writes`. */
  function Linear(terms: seq<Term>, usage: Usage, writes: Variable): real {
    if terms == [] then 0.0
    else
      var last := terms[|terms| - 1];
      Linear(terms[..|terms| - 1], usage, writes) + Value(last, usage, writes)
  }

  function Value(term: Term, usage: Usage, writes: Variable): real {
    if !term.Priced? then 0.0
    else match ChargedField(term.variable, writes)
         case None => 0.0
         case Some(field) => term.coefficient * usage(field)
  }

  /** The variable whose price a cache write is charged at. */
  function ChargedWrites(acc: Terms): Variable {
    if Coefficient(acc, Of(CacheWrite)) != 0.0 then Of(CacheWrite)
    else if Coefficient(acc, CacheWrite1h) != 0.0 then CacheWrite1h
    else CacheWrite12h
  }

  function VariableOf(field: Field, writes: Variable): Variable {
    if field == CacheWrite then writes else Of(field)
  }

  /** Raising one field's price by `more` raises the total by that much per unit of its usage. */
  lemma {:induction false} TotalStep<K>(fields: seq<K>, before: K -> real, after: K -> real, usage: K -> real,
                                     changed: K, more: real)
    requires forall i, j :: 0 <= i < j < |fields| ==> fields[i] != fields[j]
    requires forall field :: after(field) == before(field) + (if field == changed then more else 0.0)
    ensures Total(fields, after, usage)
            == Total(fields, before, usage) + (if changed in fields then more * usage(changed) else 0.0)
  {
    if fields != [] {
      TotalStep(fields[1..], before, after, usage, changed, more);
      if fields[0] == changed {
        assert (before(changed) + more) * usage(changed) == before(changed) * usage(changed) + more * usage(changed);
      }
    }
  }

  /** Raising one field's usage by `more` raises the total by its price for each unit. */
  lemma {:induction false} UsageStep<K>(fields: seq<K>, price: K -> real, before: K -> real, after: K -> real,
                                     changed: K, more: real)
    requires forall i, j :: 0 <= i < j < |fields| ==> fields[i] != fields[j]
    requires forall field :: after(field) == before(field) + (if field == changed then more else 0.0)
    ensures Total(fields, price, after)
         == Total(fields, price, before) + (if changed in fields then price(changed) * more else 0.0)
  {
    if fields != [] {
      UsageStep(fields[1..], price, before, after, changed, more);
      if fields[0] == changed {
        assert price(changed) * (before(changed) + more) == price(changed) * before(changed) + price(changed) * more;
      }
    }
  }

  /** Usage of fields without a price does not count. */
  lemma {:induction false} TotalOfPriced<K>(fields: seq<K>, price: K -> real, a: K -> real, b: K -> real)
    requires forall field :: price(field) == 0.0 || a(field) == b(field)
    ensures Total(fields, price, a) == Total(fields, price, b)
  {
    if fields != [] {
      TotalOfPriced(fields[1..], price, a, b);
    }
  }

  lemma {:induction false} TotalOfNoUsage<K>(fields: seq<K>, price: K -> real, usage: K -> real)
    requires forall field :: usage(field) == 0.0
    ensures Total(fields, price, usage) == 0.0
  {
    if fields != [] {
      TotalOfNoUsage(fields[1..], price, usage);
    }
  }

  lemma {:induction false} TotalAgrees<K>(fields: seq<K>, a: K -> real, b: K -> real, usage: K -> real)
    requires forall field :: a(field) == b(field)
    ensures Total(fields, a, usage) == Total(fields, b, usage)
  {
    if fields != [] {
      TotalAgrees(fields[1..], a, b, usage);
    }
  }

  lemma {:induction false} TotalOfNothing<K>(fields: seq<K>, price: K -> real, usage: K -> real)
    requires forall field :: price(field) == 0.0
    ensures Total(fields, price, usage) == 0.0
  {
    if fields != [] {
      TotalOfNothing(fields[1..], price, usage);
    }
  }

  lemma {:induction false} SumStep(terms: seq<Term>, field: Field, writes: Variable)
    requires terms != []
    requires writes == Of(CacheWrite) || writes == CacheWrite1h || writes == CacheWrite12h
    ensures var last := terms[|terms| - 1];
            Sum(terms, VariableOf(field, writes))
            == Sum(terms[..|terms| - 1], VariableOf(field, writes))
               + (if last.Priced? && ChargedField(last.variable, writes) == Some(field) then last.coefficient else 0.0)
  {
  }

  /** A list with every field on it, once. */
  ghost predicate Complete<K(!new)>(fields: seq<K>) {
    (forall i, j :: 0 <= i < j < |fields| ==> fields[i] != fields[j]) && forall field: K :: field in fields
  }

  /** The summed coefficient each field is charged at. */
  function Coefficients(terms: seq<Term>, writes: Variable): Field -> real {
    field => Sum(terms, VariableOf(field, writes))
  }

  /** The expression splits into one product per rate field. */
  lemma {:induction false} LinearIsTotal(fields: seq<Field>, terms: seq<Term>, usage: Usage, writes: Variable)
    requires Complete(fields)
    requires writes == Of(CacheWrite) || writes == CacheWrite1h || writes == CacheWrite12h
    ensures Linear(terms, usage, writes) == Total(fields, Coefficients(terms, writes), usage)
  {
    if terms == [] {
      TotalOfNothing(fields, Coefficients(terms, writes), usage);
    } else {
      LinearIsTotal(fields, terms[..|terms| - 1], usage, writes);
      TotalOfOneMore(fields, terms, usage, writes);
    }
  }

  lemma {:induction false} TotalOfOneMore(fields: seq<Field>, terms: seq<Term>, usage: Usage, writes: Variable)
    requires Complete(fields) && terms != []
    requires writes == Of(CacheWrite) || writes == CacheWrite1h || writes == CacheWrite12h
    ensures Total(fields, Coefficients(terms, writes), usage)
            == Total(fields, Coefficients(terms[..|terms| - 1], writes), usage)
               + Value(terms[|terms| - 1], usage, writes)
  {
    var front, last := terms[..|terms| - 1], terms[|terms| - 1];
    forall field: Field
      ensures Coefficients(terms, writes)(field)
           == Coefficients(front, writes)(field)
              + (if last.Priced? && ChargedField(last.variable, writes) == Some(field) then last.coefficient else 0.0)
    {
      SumStep(terms, field, writes);
    }
    TermRaisesTotal(fields, Coefficients(front, writes), Coefficients(terms, writes), last, usage, writes);
  }

  /** Raising the price of one field, or of none, raises the total by that much per unit of its usage. */
  lemma {:induction false} TotalRaised(fields: seq<Field>, before: Field -> real, after: Field -> real,
                                       changed: Option<Field>, more: real, usage: Usage)
    requires Complete(fields)
    requires forall field :: after(field) == before(field) + (if changed == Some(field) then more else 0.0)
    ensures Total(fields, after, usage)
         == Total(fields, before, usage) + (if changed.Some? then more * usage(changed.value) else 0.0)
  {
    if changed.Some? {
      TotalStep(fields, before, after, usage, changed.value, more);
    } else {
      TotalAgrees(fields, before, after, usage);
    }
  }

  lemma {:induction false} TermRaisesTotal(fields: seq<Field>, before: Field -> real, after: Field -> real,
                                           term: Term, usage: Usage, writes: Variable)
    requires Complete(fields)
    requires forall field ::
               after(field) == before(field)
                 + (if term.Priced? && ChargedField(term.variable, writes) == Some(field)
                    then term.coefficient else 0.0)
    ensures Total(fields, after, usage) == Total(fields, before, usage) + Value(term, usage, writes)
  {
    if term.Priced? {
      TotalRaised(fields, before, after, ChargedField(term.variable, writes), term.coefficient, usage);
    } else {
      TotalAgrees(fields, before, after, usage);
    }
  }

  lemma {:induction false} FieldsAreComplete()
    ensures Complete(FIELDS)
  {
    forall field: Field
      ensures field in FIELDS
    {
      EveryFieldListed(field);
    }
  }

  lemma {:induction false} EveryFieldListed(field: Field)
    ensures field in FIELDS
  {
    match field
    case Input => assert FIELDS[0] == field;
    case Output => assert FIELDS[1] == field;
    case CachedInput => assert FIELDS[2] == field;
    case CacheWrite => assert FIELDS[3] == field;
    case AudioInput => assert FIELDS[4] == field;
    case AudioOutput => assert FIELDS[5] == field;
    case Request => assert FIELDS[6] == field;
  }

  /** The rates of a leaf charge exactly what the leaf's expression evaluates to. */
  lemma {:induction false} ChargeIsLinear(terms: seq<Term>, acc: Terms, r: Result<Rates, RateError>, usage: Usage)
    requires Collected(terms, acc) && RatesFor(acc, r) && r.Ok?
    ensures Charge(r.value, usage) == Linear(terms, usage, ChargedWrites(acc))
  {
    var writes := ChargedWrites(acc);
    FieldsAreComplete();
    LinearIsTotal(FIELDS, terms, usage, writes);
    forall v: Variable
      ensures Coefficient(acc, v) == Sum(terms, v)
    {
      if v !in acc {
        UnmentionedSumsToZero(terms, v);
      }
    }
    forall field: Field
      ensures RateOf(r.value, field) == Sum(terms, VariableOf(field, writes))
    {
      assert RateOf(r.value, field) == Price(acc, field);
    }
    TotalAgrees(FIELDS, RatesBy(r.value), Coefficients(terms, writes), usage);
  }

  /**
   A readable leaf of known variables is refused as unpriced exactly when every variable with a
   rate field of its own sums to zero, whatever the longer cache lifetimes cost.
   */
  lemma {:induction false} RefusedIff(terms: seq<Term>, acc: Terms, r: Result<Rates, RateError>)
    requires Collected(terms, acc) && AllKnown(acc) && RatesFor(acc, r)
    ensures r == Err(NoPrice) <==> forall field: Field :: Sum(terms, Of(field)) == 0.0
  {
    forall field: Field
      ensures Coefficient(acc, Of(field)) == Sum(terms, Of(field))
    {
      if Of(field) !in acc {
        UnmentionedSumsToZero(terms, Of(field));
      }
    }
  }

  /** Cache writes are priced by the first of `cc`, `cc1h` and `cc12h` whose coefficients do not add up to zero. */
  lemma {:induction false} CacheWritesByLifetime(terms: seq<Term>, acc: Terms, r: Result<Rates, RateError>)
    requires Collected(terms, acc) && RatesFor(acc, r) && r.Ok?
    ensures RateOf(r.value, CacheWrite)
         == if Sum(terms, Of(CacheWrite)) != 0.0 then Sum(terms, Of(CacheWrite))
            else if Sum(terms, CacheWrite1h) != 0.0 then Sum(terms, CacheWrite1h)
            else Sum(terms, CacheWrite12h)
    ensures forall field :: field != CacheWrite ==> RateOf(r.value, field) == Sum(terms, Of(field))
  {
    forall v: Variable
      ensures Coefficient(acc, v) == Sum(terms, v)
    {
      if v !in acc {
        UnmentionedSumsToZero(terms, v);
      }
    }
    assert forall field :: RateOf(r.value, field) == Price(acc, field);
  }

  /** A leaf is refused for a variable exactly when it mentions one that is none of the nine known ones. */
  lemma {:induction false} UnknownIsRefusedIff(terms: seq<Term>, acc: Terms, r: Result<Rates, RateError>)
    requires Collected(terms, acc) && RatesFor(acc, r)
    ensures r == Err(UnsupportedVariable)
       <==> exists i :: 0 <= i < |terms| && terms[i].Priced? && terms[i].variable.Unknown?
  {
    if v :| v in acc && v.Unknown? {
      assert Mentions(terms, v);
    }
    if i :| 0 <= i < |terms| && terms[i].Priced? && terms[i].variable.Unknown? {
      assert Mentions(terms, terms[i].variable);
    }
  }

  /**
   A leaf that has a price is refused as unpriced exactly when it prices nothing but cache writes of the two
   longer lifetimes, at least one of them.
   */
  lemma {:induction false} LongCacheWritesAloneAreRefused(terms: seq<Term>, acc: Terms, r: Result<Rates, RateError>)
    requires Collected(terms, acc) && AllKnown(acc) && RatesFor(acc, r)
    ensures r == Err(NoPrice) && (exists field: Field :: Price(acc, field) != 0.0)
       <==> (forall field: Field :: Sum(terms, Of(field)) == 0.0)
            && (Sum(terms, CacheWrite1h) != 0.0 || Sum(terms, CacheWrite12h) != 0.0)
  {
    RefusedIff(terms, acc, r);
    forall v: Variable
      ensures Coefficient(acc, v) == Sum(terms, v)
    {
      if v !in acc {
        UnmentionedSumsToZero(terms, v);
      }
    }
    assert Price(acc, CacheWrite) == CacheWritePrice(acc);
  }
}
