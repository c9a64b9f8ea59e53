/**
 The model id a public name's rules are stored under. Of the models an entry matches under one name only the
 first is kept, and which one is first can depend on the order in which the runtime visits the index.
 */
module CanonicalIds {
  import opened GoStrings
  import opened Lists
  import opened ModelNames
  import opened RulePlan

  // ---------- First matches ----------

  /** The first model with a public name. */
  function FirstUnder(models: seq<Model>, name: string): Option<Model> {
    if models == [] then None
    else
      var front := FirstUnder(models[..|models| - 1], name);
      if front.Some? then front
      else if models[|models| - 1].publicName == name then Some(models[|models| - 1])
      else None
  }

  function ModelsOf(matches: seq<RuleMatch>): (models: seq<Model>)
    ensures |models| == |matches|
    ensures forall i :: 0 <= i < |matches| ==> models[i] == matches[i].model
  {
    seq(|matches|, i requires 0 <= i < |matches| => matches[i].model)
  }

  /** The model an entry is kept for under a name. */
  function Kept(byName: ByName, keys: seq<string>, rule: SyncedRule, name: string): Option<Model> {
    FirstUnder(ModelsOf(Scan(byName, keys, rule.model)), name)
  }

  lemma {:induction false} FirstUnderIsOne(models: seq<Model>, name: string)
    ensures FirstUnder(models, name).Some? ==>
              FirstUnder(models, name).value in models && FirstUnder(models, name).value.publicName == name
    ensures FirstUnder(models, name).None? ==> forall m :: m in models ==> m.publicName != name
  {
    if models != [] {
      FirstUnderIsOne(models[..|models| - 1], name);
      assert models == models[..|models| - 1] + [models[|models| - 1]];
    }
  }

  lemma {:induction false} FirstUnderAppends(a: seq<Model>, b: seq<Model>, name: string)
    ensures FirstUnder(a + b, name) == if FirstUnder(a, name).Some? then FirstUnder(a, name) else FirstUnder(b, name)
  {
    if b == [] {
      assert a + b == a;
    } else {
      assert (a + b)[..|a + b| - 1] == a + b[..|b| - 1];
      FirstUnderAppends(a, b[..|b| - 1], name);
    }
  }

  /** An entry matches the model under its public name. */
  predicate Matched(byName: ByName, keys: seq<string>, rules: seq<SyncedRule>, m: Model) {
    exists rule :: rule in rules && m in ModelsOf(Scan(byName, keys, rule.model))
  }

  /** The id is that of a matched model with this name, and no larger than that of any other. */
  ghost predicate IsLeast(byName: ByName, keys: seq<string>, rules: seq<SyncedRule>, name: string, id: nat) {
    && (exists m :: Matched(byName, keys, rules, m) && m.publicName == name && m.id == id)
    && (forall m :: Matched(byName, keys, rules, m) && m.publicName == name ==> id <= m.id)
  }

  // ---------- The canonical id is the least of the kept ones ----------

  /** The smaller of two ids, 0 standing for none. */
  function Smaller(a: nat, b: nat): nat {
    if b == 0 then a else if a == 0 || b < a then b else a
  }

  lemma {:induction false} LeastIdAppends(a: seq<Hit>, b: seq<Hit>, name: string)
    requires Proper(b)
    ensures LeastId(a + b, name) == Smaller(LeastId(a, name), LeastId(b, name))
  {
    if b == [] {
      assert a + b == a;
    } else {
      assert (a + b)[..|a + b| - 1] == a + b[..|b| - 1];
      LeastIdAppends(a, b[..|b| - 1], name);
    }
  }

  function IdOf(m: Option<Model>): nat {
    if m.Some? then m.value.id else 0
  }

  lemma {:induction false} OneMatchHits(kept: seq<RuleMatch>, last: RuleMatch, rule: SyncedRule, excluded: set<string>,
                                        name: string)
    requires name !in excluded && last.model.id > 0 && last.rank > 0
    ensures LeastId(HitsOf(kept + [last], rule, excluded), name)
         == Smaller(LeastId(HitsOf(kept, rule, excluded), name),
                    if last.model.publicName == name then last.model.id else 0)
  {
    assert (kept + [last])[..|kept|] == kept;
    var hit := Hit(last.model.publicName, last.model.id, rule, last.rank);
    if last.model.publicName in excluded {
      assert HitsOf(kept, rule, excluded) + [] == HitsOf(kept, rule, excluded);
    } else {
      LeastIdAppends(HitsOf(kept, rule, excluded), [hit], name);
      assert [hit][..0] == [];
      assert LeastId([hit], name) == if hit.name == name then hit.id else 0;
    }
  }

  /** One more match of an entry: what is kept, its id, and the bucket calls it makes. */
  lemma {:induction false} OneMoreMatch(front: seq<RuleMatch>, last: RuleMatch, rule: SyncedRule, excluded: set<string>,
                                        name: string)
    requires name !in excluded && last.model.id > 0 && last.rank > 0
    requires LeastId(HitsOf(FirstPerName(front), rule, excluded), name) == IdOf(FirstUnder(ModelsOf(front), name))
    requires FirstUnder(ModelsOf(front), name).Some? <==> Named(FirstPerName(front), name)
    ensures LeastId(HitsOf(FirstPerName(front + [last]), rule, excluded), name)
         == IdOf(FirstUnder(ModelsOf(front + [last]), name))
    ensures FirstUnder(ModelsOf(front + [last]), name).Some? <==> Named(FirstPerName(front + [last]), name)
  {
    var kept := FirstPerName(front);
    assert (front + [last])[..|front|] == front;
    assert ModelsOf(front + [last]) == ModelsOf(front) + [last.model];
    assert (ModelsOf(front) + [last.model])[..|front|] == ModelsOf(front);
    if !Named(kept, last.model.publicName) {
      NamedAppends(kept, last);
      OneMatchHits(kept, last, rule, excluded, name);
    }
  }

  /** One entry adds the id of the model it is kept for. */
  lemma {:induction false} OneEntryHits(matches: seq<RuleMatch>, rule: SyncedRule, excluded: set<string>, name: string)
    requires name !in excluded && forall i :: 0 <= i < |matches| ==> matches[i].model.id > 0 && matches[i].rank > 0
    ensures LeastId(HitsOf(FirstPerName(matches), rule, excluded), name) == IdOf(FirstUnder(ModelsOf(matches), name))
    ensures FirstUnder(ModelsOf(matches), name).Some? <==> Named(FirstPerName(matches), name)
  {
    if matches != [] {
      var front, last := matches[..|matches| - 1], matches[|matches| - 1];
      OneEntryHits(front, rule, excluded, name);
      OneMoreMatch(front, last, rule, excluded, name);
      assert matches == front + [last];
    }
  }

  /** The ids that entries keep under a name, 0 for an entry that keeps none. */
  function KeptIds(byName: ByName, keys: seq<string>, rules: seq<SyncedRule>, name: string): (ids: seq<nat>)
    ensures |ids| == |rules|
    ensures forall i :: 0 <= i < |rules| ==> ids[i] == IdOf(Kept(byName, keys, rules[i], name))
  {
    seq(|rules|, i requires 0 <= i < |rules| => IdOf(Kept(byName, keys, rules[i], name)))
  }

  function LeastOf(ids: seq<nat>): nat {
    if ids == [] then 0 else Smaller(LeastOf(ids[..|ids| - 1]), ids[|ids| - 1])
  }

  lemma {:induction false} LeastOfIsLeast(ids: seq<nat>)
    ensures forall id :: id in ids && id > 0 ==> 0 < LeastOf(ids) <= id
    ensures LeastOf(ids) > 0 ==> LeastOf(ids) in ids
  {
    if ids != [] {
      LeastOfIsLeast(ids[..|ids| - 1]);
      assert ids == ids[..|ids| - 1] + [ids[|ids| - 1]];
    }
  }

  lemma {:induction false} EntryHits(byName: ByName, keys: seq<string>, rule: SyncedRule, excluded: set<string>,
                                     name: string)
    requires Usable(byName, keys) && Stored(byName) && name !in excluded
    ensures Proper(HitsOf(FirstPerName(Scan(byName, keys, rule.model)), rule, excluded))
    ensures LeastId(HitsOf(FirstPerName(Scan(byName, keys, rule.model)), rule, excluded), name)
         == IdOf(Kept(byName, keys, rule, name))
  {
    var matches := Scan(byName, keys, rule.model);
    ScanIsStored(byName, keys, rule.model);
    OneEntryHits(matches, rule, excluded, name);
    UniqueMatchesAreStored(byName, keys, rule.model);
    HitsOfAreProper(FirstPerName(matches), rule, excluded);
  }

  lemma {:induction false} KeptIdsStep(byName: ByName, keys: seq<string>, rules: seq<SyncedRule>, name: string)
    requires rules != []
    ensures LeastOf(KeptIds(byName, keys, rules, name))
         == Smaller(LeastOf(KeptIds(byName, keys, rules[..|rules| - 1], name)),
                    IdOf(Kept(byName, keys, rules[|rules| - 1], name)))
  {
    assert KeptIds(byName, keys, rules, name)[..|rules| - 1] == KeptIds(byName, keys, rules[..|rules| - 1], name);
  }

  /** The canonical id is the least of the kept ids. */
  lemma {:induction false} LeastIdIsLeastKept(byName: ByName, keys: seq<string>, rules: seq<SyncedRule>,
                                              excluded: set<string>, name: string)
    requires Usable(byName, keys) && Stored(byName) && name !in excluded
    ensures LeastId(AllHits(byName, keys, rules, excluded), name) == LeastOf(KeptIds(byName, keys, rules, name))
  {
    if rules != [] {
      var front, last := rules[..|rules| - 1], rules[|rules| - 1];
      LeastIdIsLeastKept(byName, keys, front, excluded, name);
      EntryHits(byName, keys, last, excluded, name);
      LeastIdAppends(AllHits(byName, keys, front, excluded),
                     HitsOf(FirstPerName(Scan(byName, keys, last.model)), last, excluded), name);
      KeptIdsStep(byName, keys, rules, name);
    }
  }

  lemma {:induction false} KeptIsMatched(byName: ByName, keys: seq<string>, rules: seq<SyncedRule>, id: nat,
                                         name: string)
    requires id in KeptIds(byName, keys, rules, name) && id > 0
    ensures exists m :: Matched(byName, keys, rules, m) && m.publicName == name && m.id == id
  {
    var i :| 0 <= i < |rules| && KeptIds(byName, keys, rules, name)[i] == id;
    var m := Kept(byName, keys, rules[i], name).value;
    FirstUnderIsOne(ModelsOf(Scan(byName, keys, rules[i].model)), name);
    assert rules[i] in rules && Matched(byName, keys, rules, m);
  }

  lemma {:induction false} LeastIsPositive(byName: ByName, keys: seq<string>, rules: seq<SyncedRule>, name: string,
                                           id: nat)
    requires Usable(byName, keys) && Stored(byName) && IsLeast(byName, keys, rules, name, id)
    ensures id > 0
  {
    var m :| Matched(byName, keys, rules, m) && m.publicName == name && m.id == id;
    var rule :| rule in rules && m in ModelsOf(Scan(byName, keys, rule.model));
    ScanIsStored(byName, keys, rule.model);
  }

  // ---------- Which entry is kept, in any order ----------

  /** The first model with a name under some local names, in turn. */
  function FirstOver(byName: ByName, keys: seq<string>, name: string): Option<Model> {
    if keys == [] then None
    else
      var front, last := FirstOver(byName, keys[..|keys| - 1], name), keys[|keys| - 1];
      if front.Some? then front else if last in byName then FirstUnder(byName[last], name) else None
  }

  lemma {:induction false} GatherKeepsFirst(byName: ByName, keys: seq<string>, rank: nat, name: string)
    ensures FirstUnder(ModelsOf(Gather(byName, keys, rank)), name) == FirstOver(byName, keys, name)
  {
    if keys != [] {
      var front, last := keys[..|keys| - 1], keys[|keys| - 1];
      GatherKeepsFirst(byName, front, rank, name);
      if last in byName {
        var a, b := Gather(byName, front, rank), Ranked(byName[last], rank);
        assert ModelsOf(a + b) == ModelsOf(a) + ModelsOf(b);
        assert ModelsOf(b) == byName[last];
        FirstUnderAppends(ModelsOf(a), ModelsOf(b), name);
      } else {
        assert Gather(byName, keys, rank) == Gather(byName, front, rank);
      }
    }
  }

  lemma {:induction false} FirstOverAppends(byName: ByName, a: seq<string>, b: seq<string>, name: string)
    ensures FirstOver(byName, a + b, name)
         == if FirstOver(byName, a, name).Some? then FirstOver(byName, a, name) else FirstOver(byName, b, name)
  {
    if b == [] {
      assert a + b == a;
    } else {
      assert (a + b)[..|a + b| - 1] == a + b[..|b| - 1];
      FirstOverAppends(byName, a, b[..|b| - 1], name);
    }
  }

  lemma {:induction false} FirstOverIsOne(byName: ByName, keys: seq<string>, name: string)
    ensures FirstOver(byName, keys, name).Some? ==>
              exists k :: k in keys && k in byName && FirstUnder(byName[k], name) == FirstOver(byName, keys, name)
    ensures FirstOver(byName, keys, name).None? ==>
              forall k :: k in keys && k in byName ==> FirstUnder(byName[k], name).None?
  {
    if keys != [] {
      FirstOverIsOne(byName, keys[..|keys| - 1], name);
      assert keys == keys[..|keys| - 1] + [keys[|keys| - 1]];
    }
  }

  lemma {:induction false} KeysOfStrengthAppends(a: seq<string>, b: seq<string>, strength: string -> nat, wanted: nat)
    ensures KeysOfStrength(a + b, strength, wanted)
         == KeysOfStrength(a, strength, wanted) + KeysOfStrength(b, strength, wanted)
  {
    if b == [] {
      assert a + b == a;
    } else {
      assert (a + b)[..|a + b| - 1] == a + b[..|b| - 1];
      KeysOfStrengthAppends(a, b[..|b| - 1], strength, wanted);
    }
  }

  /** A local name that answers an entry as strongly as any, and has a model with the public name. */
  ghost predicate KeyReaches(byName: ByName, text: string, name: string, k: string) {
    && k in byName && Trim(text) != "" && Strength(k, Trim(text)) > 0
    && (forall other :: other in byName ==> Strength(other, Trim(text)) <= Strength(k, Trim(text)))
    && FirstUnder(byName[k], name).Some?
  }

  lemma {:induction false} StrongKeys(byName: ByName, keys: seq<string>, text: string, name: string, k: string)
    requires Usable(byName, keys) && Trim(text) != ""
    ensures var best := Best(keys, StrengthFor(Trim(text)));
            KeyReaches(byName, text, name, k)
            <==> best > 0 && k in KeysOfStrength(keys, StrengthFor(Trim(text)), best) && k in byName
                 && FirstUnder(byName[k], name).Some?
  {
    var f := StrengthFor(Trim(text));
    BestIsGreatest(keys, f);
    KeysOfStrengthMembers(keys, f, Best(keys, f));
    assert forall other :: f(other) == Strength(other, Trim(text));
  }

  lemma {:induction false} KeptIsFirstOver(byName: ByName, keys: seq<string>, rule: SyncedRule, name: string)
    requires Trim(rule.model) != ""
    ensures var f := StrengthFor(Trim(rule.model));
            Kept(byName, keys, rule, name)
            == if Best(keys, f) == 0 then None else FirstOver(byName, KeysOfStrength(keys, f, Best(keys, f)), name)
  {
    var f := StrengthFor(Trim(rule.model));
    if Best(keys, f) > 0 {
      GatherKeepsFirst(byName, KeysOfStrength(keys, f, Best(keys, f)), RankOf(Best(keys, f)), name);
    }
  }

  /** The kept model is the first one of some reaching key; none is kept when no key reaches. */
  lemma {:induction false} KeptByKey(byName: ByName, keys: seq<string>, rule: SyncedRule, name: string)
    requires Usable(byName, keys)
    ensures Kept(byName, keys, rule, name).Some? ==>
              exists k :: KeyReaches(byName, rule.model, name, k)
                && FirstUnder(byName[k], name) == Kept(byName, keys, rule, name)
    ensures Kept(byName, keys, rule, name).None? ==> forall k :: !KeyReaches(byName, rule.model, name, k)
  {
    if Trim(rule.model) != "" {
      var f := StrengthFor(Trim(rule.model));
      KeptIsFirstOver(byName, keys, rule, name);
      forall k
        ensures KeyReaches(byName, rule.model, name, k)
           <==> Best(keys, f) > 0 && k in KeysOfStrength(keys, f, Best(keys, f)) && k in byName
                && FirstUnder(byName[k], name).Some?
      {
        StrongKeys(byName, keys, rule.model, name, k);
      }
      FirstOverIsOne(byName, KeysOfStrength(keys, f, Best(keys, f)), name);
    }
  }

  /** Of two parts of the visiting order, the first one decides as soon as one of its keys reaches. */
  lemma {:induction false} KeptByEarlierKey(byName: ByName, a: seq<string>, b: seq<string>, rule: SyncedRule,
                                            name: string, k: string)
    requires Usable(byName, a + b) && k in a && KeyReaches(byName, rule.model, name, k)
    ensures Kept(byName, a + b, rule, name).Some?
    ensures exists first :: first in a && first in byName
              && FirstUnder(byName[first], name) == Kept(byName, a + b, rule, name)
  {
    var f := StrengthFor(Trim(rule.model));
    var best := Best(a + b, f);
    KeptIsFirstOver(byName, a + b, rule, name);
    StrongKeys(byName, a + b, rule.model, name, k);
    KeysOfStrengthAppends(a, b, f, best);
    var early := KeysOfStrength(a, f, best);
    FirstOverAppends(byName, early, KeysOfStrength(b, f, best), name);
    KeysOfStrengthMembers(a + b, f, best);
    KeysOfStrengthMembers(a, f, best);
    FirstOverIsOne(byName, early, name);
  }

  // ---------- Least in every order ----------

  lemma {:induction false} MatchedInAnyOrder(byName: ByName, keys: seq<string>, keys': seq<string>,
                                             rules: seq<SyncedRule>, m: Model)
    requires Usable(byName, keys) && Usable(byName, keys') && Matched(byName, keys, rules, m)
    ensures Matched(byName, keys', rules, m)
  {
    var rule :| rule in rules && m in ModelsOf(Scan(byName, keys, rule.model));
    var i :| 0 <= i < |Scan(byName, keys, rule.model)| && ModelsOf(Scan(byName, keys, rule.model))[i] == m;
    var x := Scan(byName, keys, rule.model)[i];
    assert x in Scan(byName, keys, rule.model);
    ScanIsStrongest(byName, keys, rule.model);
    ScanIsStrongest(byName, keys', rule.model);
    assert Justified(byName, keys, Trim(rule.model), x);
    JustifiedInAnyOrder(byName, keys, keys', Trim(rule.model), x);
    var j :| 0 <= j < |Scan(byName, keys', rule.model)| && Scan(byName, keys', rule.model)[j] == x;
    assert ModelsOf(Scan(byName, keys', rule.model))[j] == m;
  }

  lemma {:induction false} JustifiedInAnyOrder(byName: ByName, keys: seq<string>, keys': seq<string>, text: string,
                                               x: RuleMatch)
    requires Usable(byName, keys) && Usable(byName, keys') && Justified(byName, keys, text, x)
    ensures Justified(byName, keys', text, x)
  {
  }

  lemma {:induction false} LeastInAnyOrder(byName: ByName, keys: seq<string>, keys': seq<string>,
                                           rules: seq<SyncedRule>, name: string, id: nat)
    requires Usable(byName, keys) && Usable(byName, keys') && IsLeast(byName, keys, rules, name, id)
    ensures IsLeast(byName, keys', rules, name, id)
  {
    var m :| Matched(byName, keys, rules, m) && m.publicName == name && m.id == id;
    MatchedInAnyOrder(byName, keys, keys', rules, m);
    forall x | Matched(byName, keys', rules, x) && x.publicName == name
      ensures id <= x.id
    {
      MatchedInAnyOrder(byName, keys', keys, rules, x);
    }
  }

  /** Some entry reaches the name, and under every key that reaches it for this entry the first model has this id. */
  ghost predicate AlwaysKept(byName: ByName, rules: seq<SyncedRule>, name: string, id: nat) {
    exists rule :: && rule in rules
                   && (exists k :: KeyReaches(byName, rule.model, name, k))
                   && forall k :: KeyReaches(byName, rule.model, name, k) ==> FirstUnder(byName[k], name).value.id == id
  }

  lemma {:induction false} RearrangedIsUsable(byName: ByName, keys: seq<string>, f: string -> bool)
    requires Usable(byName, keys)
    ensures Usable(byName, Rearranged(keys, f))
  {
    RearrangedIsDistinct(keys, f);
    forall k
      ensures k in Rearranged(keys, f) <==> k in keys
    {
      RearrangedMembers(keys, f, k);
    }
  }

  /** An order in which a local name whose first model is not the least comes before the ones where it is. */
  lemma {:induction false} BadOrder(byName: ByName, keys: seq<string>, rules: seq<SyncedRule>, name: string, id: nat)
    returns (order: seq<string>)
    requires Usable(byName, keys) && id > 0 && !AlwaysKept(byName, rules, name, id)
    ensures Usable(byName, order) && LeastOf(KeptIds(byName, order, rules, name)) != id
  {
    var bad := k => k in byName && FirstUnder(byName[k], name).Some? && FirstUnder(byName[k], name).value.id != id;
    var a, b := Those(keys, bad), Those(keys, Not(bad));
    order := Rearranged(keys, bad);
    assert order == a + b;
    RearrangedIsUsable(byName, keys, bad);
    LeastOfIsLeast(KeptIds(byName, order, rules, name));
    forall i | 0 <= i < |rules|
      ensures KeptIds(byName, order, rules, name)[i] != id
    {
      KeptByKey(byName, order, rules[i], name);
      if Kept(byName, order, rules[i], name).Some? {
        assert rules[i] in rules;
        var k :| KeyReaches(byName, rules[i].model, name, k) && FirstUnder(byName[k], name).value.id != id;
        ThoseMembers(keys, bad, k);
        KeptByEarlierKey(byName, a, b, rules[i], name, k);
        var first :| first in a && first in byName
                     && FirstUnder(byName[first], name) == Kept(byName, order, rules[i], name);
        ThoseMembers(keys, bad, first);
      }
    }
  }

  /**
   The canonical id under a name is the least id of all matched models in every order in which the runtime may
   visit the index exactly when some entry keeps that id under every local name it can be kept under.
   */
  lemma {:induction false} LeastInEveryOrderIff(byName: ByName, keys: seq<string>, rules: seq<SyncedRule>,
                                                excluded: set<string>, name: string, id: nat)
    requires Usable(byName, keys) && Stored(byName) && name !in excluded && IsLeast(byName, keys, rules, name, id)
    ensures (forall order :: Usable(byName, order) ==> LeastId(AllHits(byName, order, rules, excluded), name) == id)
       <==> AlwaysKept(byName, rules, name, id)
  {
    LeastIsPositive(byName, keys, rules, name, id);
    if AlwaysKept(byName, rules, name, id) {
      forall order | Usable(byName, order)
        ensures LeastId(AllHits(byName, order, rules, excluded), name) == id
      {
        LeastIdIsLeastKept(byName, order, rules, excluded, name);
        LeastInAnyOrder(byName, keys, order, rules, name, id);
        AlwaysKeptIsLeast(byName, order, rules, name, id);
      }
    } else {
      var order := BadOrder(byName, keys, rules, name, id);
      LeastIdIsLeastKept(byName, order, rules, excluded, name);
    }
  }

  lemma {:induction false} KeptInEveryOrder(byName: ByName, order: seq<string>, rule: SyncedRule, name: string, id: nat)
    requires Usable(byName, order) && exists k :: KeyReaches(byName, rule.model, name, k)
    requires forall k :: KeyReaches(byName, rule.model, name, k) ==> FirstUnder(byName[k], name).value.id == id
    ensures IdOf(Kept(byName, order, rule, name)) == id
  {
    KeptByKey(byName, order, rule, name);
  }

  lemma {:induction false} AlwaysKeptIsLeast(byName: ByName, order: seq<string>, rules: seq<SyncedRule>, name: string,
                                             id: nat)
    requires Usable(byName, order) && id > 0 && IsLeast(byName, order, rules, name, id)
    requires AlwaysKept(byName, rules, name, id)
    ensures LeastOf(KeptIds(byName, order, rules, name)) == id
  {
    var ids := KeptIds(byName, order, rules, name);
    LeastOfIsLeast(ids);
    SomeoneKeeps(byName, order, rules, name, id);
    KeptIsMatched(byName, order, rules, LeastOf(ids), name);
  }

  lemma {:induction false} SomeoneKeeps(byName: ByName, order: seq<string>, rules: seq<SyncedRule>, name: string,
                                        id: nat)
    requires Usable(byName, order) && AlwaysKept(byName, rules, name, id)
    ensures id in KeptIds(byName, order, rules, name)
  {
    var rule :| && rule in rules
                && (exists k :: KeyReaches(byName, rule.model, name, k))
                && forall k :: KeyReaches(byName, rule.model, name, k) ==> FirstUnder(byName[k], name).value.id == id;
    KeptInEveryOrder(byName, order, rule, name, id);
    var i :| 0 <= i < |rules| && rules[i] == rule;
    assert KeptIds(byName, order, rules, name)[i] == id;
  }

  // ---------- The plan's ids ----------

  /** Some entry matches a model with this public name. */
  ghost predicate Reached(byName: ByName, keys: seq<string>, rules: seq<SyncedRule>, name: string) {
    exists m :: Matched(byName, keys, rules, m) && m.publicName == name
  }

  lemma {:induction false} ReachedIff(byName: ByName, keys: seq<string>, rules: seq<SyncedRule>, name: string)
    requires Usable(byName, keys) && Stored(byName)
    ensures Reached(byName, keys, rules, name) <==> LeastOf(KeptIds(byName, keys, rules, name)) > 0
  {
    var ids := KeptIds(byName, keys, rules, name);
    LeastOfIsLeast(ids);
    if LeastOf(ids) > 0 {
      KeptIsMatched(byName, keys, rules, LeastOf(ids), name);
    }
    if m :| Matched(byName, keys, rules, m) && m.publicName == name {
      var rule :| rule in rules && m in ModelsOf(Scan(byName, keys, rule.model));
      FirstUnderIsOne(ModelsOf(Scan(byName, keys, rule.model)), name);
      KeptIsStored(byName, keys, rule, name);
      var i :| 0 <= i < |rules| && rules[i] == rule;
      assert ids[i] in ids;
    }
  }

  lemma {:induction false} KeptIsStored(byName: ByName, keys: seq<string>, rule: SyncedRule, name: string)
    requires Usable(byName, keys) && Stored(byName)
    ensures Kept(byName, keys, rule, name).Some? ==> IdOf(Kept(byName, keys, rule, name)) > 0
  {
    ScanIsStored(byName, keys, rule.model);
    FirstUnderIsOne(ModelsOf(Scan(byName, keys, rule.model)), name);
  }

  lemma {:induction false} TopRankIffReached(byName: ByName, keys: seq<string>, rules: seq<SyncedRule>,
                                             excluded: set<string>, name: string)
    requires Usable(byName, keys) && Stored(byName) && name !in excluded
    ensures TopRank(AllHits(byName, keys, rules, excluded), name) > 0 <==> Reached(byName, keys, rules, name)
  {
    AllHitsAreProper(byName, keys, rules, excluded);
    HitHasId(AllHits(byName, keys, rules, excluded), name);
    LeastIdIsLeastKept(byName, keys, rules, excluded, name);
    ReachedIff(byName, keys, rules, name);
  }

  /**
   The plan stores a name's rules under the least id among the matches kept, of the direct matches if there is
   one and of the alias ones otherwise; a name has an id exactly when some entry reaches it.
   */
  lemma {:induction false} PlanCanonicalId(byPublic: ByName, publicKeys: seq<string>, byUpstream: ByName,
                                           upstreamKeys: seq<string>, rules: seq<SyncedRule>, plan: Plan, name: string)
    requires Usable(byPublic, publicKeys) && Stored(byPublic) && Usable(byUpstream, upstreamKeys) && Stored(byUpstream)
    requires var direct := AllHits(byPublic, publicKeys, rules, {});
             IsPlan(plan, direct, AllHits(byUpstream, upstreamKeys, rules, Names(direct)))
    ensures name in plan.canonical
       <==> Reached(byPublic, publicKeys, rules, name) || Reached(byUpstream, upstreamKeys, rules, name)
    ensures name in plan.canonical ==>
              plan.canonical[name]
                == LeastOf(if Reached(byPublic, publicKeys, rules, name) then KeptIds(byPublic, publicKeys, rules, name)
                           else KeptIds(byUpstream, upstreamKeys, rules, name))
  {
    var direct := AllHits(byPublic, publicKeys, rules, {});
    TopRankIffReached(byPublic, publicKeys, rules, {}, name);
    LeastIdIsLeastKept(byPublic, publicKeys, rules, {}, name);
    AllHitsAreProper(byPublic, publicKeys, rules, {});
    TopRankIsGreatest(direct, name);
    if name !in Names(direct) {
      TopRankIffReached(byUpstream, upstreamKeys, rules, Names(direct), name);
      LeastIdIsLeastKept(byUpstream, upstreamKeys, rules, Names(direct), name);
    }
  }

  /** Every model stands under its own public name, as in the index of the first level. */
  ghost predicate ByPublicName(byName: ByName) {
    forall k, m :: k in byName && m in byName[k] ==> m.publicName == k
  }

  /** On the first level the id is that of the first stored model with the name, in every order. */
  lemma {:induction false} DirectIdIsFirst(byPublic: ByName, order: seq<string>, rules: seq<SyncedRule>,
                                           excluded: set<string>, name: string)
    requires Usable(byPublic, order) && Stored(byPublic) && ByPublicName(byPublic) && name !in excluded
    requires Reached(byPublic, order, rules, name)
    ensures name in byPublic && LeastId(AllHits(byPublic, order, rules, excluded), name) == byPublic[name][0].id
  {
    var ids := KeptIds(byPublic, order, rules, name);
    LeastIdIsLeastKept(byPublic, order, rules, excluded, name);
    ReachedIff(byPublic, order, rules, name);
    LeastOfIsLeast(ids);
    var i :| 0 <= i < |rules| && ids[i] == LeastOf(ids);
    KeptByKey(byPublic, order, rules[i], name);
    var k :| KeyReaches(byPublic, rules[i].model, name, k)
             && FirstUnder(byPublic[k], name) == Kept(byPublic, order, rules[i], name);
    FirstUnderIsOne(byPublic[k], name);
    FirstOfNamed(byPublic[k], name);
  }

  lemma {:induction false} FirstOfNamed(models: seq<Model>, name: string)
    requires models != [] && forall m :: m in models ==> m.publicName == name
    ensures FirstUnder(models, name) == Some(models[0])
  {
    var n := |models| - 1;
    assert models[n] in models;
    if n > 0 {
      FirstOfNamed(models[..n], name);
    }
  }

  /** Two upstream names that differ only in case, and an entry that spells the name a third way. */
  predicate ThirdSpelling(a: string, b: string, rule: SyncedRule) {
    a != b && ToLower(a) == ToLower(b) == ToLower(Trim(rule.model)) && Trim(rule.model) !in {"", a, b}
  }

  /**
   On the second level the order can decide: each of two such names has one model of the same public name, both
   are matched, and the id is that of whichever name is visited first.
   */
  lemma {:induction false} AliasIdDependsOnOrder(a: string, b: string, i: nat, j: nat, name: string, rule: SyncedRule)
    requires ThirdSpelling(a, b, rule) && i > 0 && j > 0
    ensures var byName := map[a := [Model(i, name)], b := [Model(j, name)]];
            && Usable(byName, [a, b]) && Usable(byName, [b, a]) && Stored(byName)
            && LeastId(AllHits(byName, [a, b], [rule], {}), name) == i
            && LeastId(AllHits(byName, [b, a], [rule], {}), name) == j
            && Matched(byName, [a, b], [rule], Model(i, name)) && Matched(byName, [b, a], [rule], Model(j, name))
  {
    TwoNames(a, b, i, j, name);
    FirstVisitedIsKept(map[a := [Model(i, name)], b := [Model(j, name)]], a, b, i, name, rule);
    FirstVisitedIsKept(map[a := [Model(i, name)], b := [Model(j, name)]], b, a, j, name, rule);
  }

  lemma {:induction false} TwoNames(a: string, b: string, i: nat, j: nat, name: string)
    requires a != b && i > 0 && j > 0
    ensures var byName := map[a := [Model(i, name)], b := [Model(j, name)]];
            && Usable(byName, [a, b]) && Usable(byName, [b, a]) && Stored(byName)
            && byName[a] == [Model(i, name)] && byName[b] == [Model(j, name)]
  {
  }

  lemma {:induction false} ThirdSpellingReaches(byName: ByName, a: string, b: string, i: nat, name: string,
                                                rule: SyncedRule)
    requires ThirdSpelling(a, b, rule) && Usable(byName, [a, b]) && byName[a] == [Model(i, name)]
    ensures FirstUnder(byName[a], name) == Some(Model(i, name)) && KeyReaches(byName, rule.model, name, a)
  {
    var text := Trim(rule.model);
    assert Strength(a, text) == 4 && Strength(b, text) == 4;
    assert byName[a][..0] == [];
  }

  lemma {:induction false} OneKeptId(byName: ByName, keys: seq<string>, rule: SyncedRule, name: string)
    ensures LeastOf(KeptIds(byName, keys, [rule], name)) == IdOf(Kept(byName, keys, rule, name))
  {
    assert KeptIds(byName, keys, [rule], name)[..0] == [];
  }

  lemma {:induction false} FirstVisitedIsKept(byName: ByName, a: string, b: string, i: nat, name: string,
                                              rule: SyncedRule)
    requires ThirdSpelling(a, b, rule) && i > 0
    requires Usable(byName, [a, b]) && Stored(byName) && byName[a] == [Model(i, name)]
    ensures LeastId(AllHits(byName, [a, b], [rule], {}), name) == i
    ensures Matched(byName, [a, b], [rule], Model(i, name))
  {
    ThirdSpellingReaches(byName, a, b, i, name, rule);
    assert [a] + [b] == [a, b];
    KeptByEarlierKey(byName, [a], [b], rule, name, a);
    OneKeptId(byName, [a, b], rule, name);
    LeastIdIsLeastKept(byName, [a, b], [rule], {}, name);
    FirstUnderIsOne(ModelsOf(Scan(byName, [a, b], rule.model)), name);
    assert rule in [rule];
  }
}
