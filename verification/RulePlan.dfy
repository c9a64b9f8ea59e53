/**
 Which synchronised rules reach which public model: a bucket that keeps only the strongest matches
 of every name, and the two-level plan built on it.
 */
module RulePlan {
  import opened GoStrings
  import opened ModelNames
  import C = BillingCompiler

  /** A rule as it comes from upstream, under the upstream's name for the model. */
  datatype SyncedRule = SyncedRule(model: string, rule: C.Rule)

  /** One call of the bucket's `add`. */
  datatype Hit = Hit(name: string, id: nat, rule: SyncedRule, rank: nat)

  // ---------- What a list of hits amounts to ----------

  /** The greatest rank a name was hit with; 0 when it was not hit. */
  function TopRank(hits: seq<Hit>, name: string): nat {
    if hits == [] then 0
    else
      var last := hits[|hits| - 1];
      var top := TopRank(hits[..|hits| - 1], name);
      if last.name == name && last.rank > top then last.rank else top
  }

  /** The rules that hit a name with the given rank, in order. */
  function RulesAt(hits: seq<Hit>, name: string, rank: nat): seq<SyncedRule> {
    if hits == [] then []
    else
      var last := hits[|hits| - 1];
      RulesAt(hits[..|hits| - 1], name, rank) + if last.name == name && last.rank == rank then [last.rule] else []
  }

  /** The least id among the models hit under a name; 0 when there is none. */
  function LeastId(hits: seq<Hit>, name: string): nat {
    if hits == [] then 0
    else
      var last := hits[|hits| - 1];
      var least := LeastId(hits[..|hits| - 1], name);
      if last.name == name && (least == 0 || last.id < least) then last.id else least
  }

  function Names(hits: seq<Hit>): set<string> {
    set h | h in hits :: h.name
  }

  /** Ids and ranks are positive. */
  predicate Proper(hits: seq<Hit>) {
    forall i :: 0 <= i < |hits| ==> hits[i].id > 0 && hits[i].rank > 0
  }

  lemma {:induction false} TopRankIsGreatest(hits: seq<Hit>, name: string)
    ensures forall h :: h in hits && h.name == name ==> h.rank <= TopRank(hits, name)
    ensures TopRank(hits, name) > 0 ==> exists h :: h in hits && h.name == name && h.rank == TopRank(hits, name)
    ensures Proper(hits) ==> (TopRank(hits, name) > 0 <==> name in Names(hits))
  {
    if hits != [] {
      var front, last := hits[..|hits| - 1], hits[|hits| - 1];
      assert hits == front + [last];
      assert Proper(hits) ==> Proper(front);
      TopRankIsGreatest(front, name);
      assert name in Names(hits) <==> name in Names(front) || last.name == name;
      assert last in hits;
      if TopRank(front, name) > 0 {
        var h :| h in front && h.name == name && h.rank == TopRank(front, name);
        assert h in hits;
      }
    }
  }

  lemma {:induction false} NoRulesAboveTop(hits: seq<Hit>, name: string, rank: nat)
    requires rank > TopRank(hits, name)
    ensures RulesAt(hits, name, rank) == []
  {
    if hits != [] {
      NoRulesAboveTop(hits[..|hits| - 1], name, rank);
    }
  }

  lemma {:induction false} NamesOfOneMore(front: seq<Hit>, last: Hit)
    ensures Names(front + [last]) == Names(front) + {last.name}
  {
    assert last in front + [last];
    assert forall h :: h in front + [last] <==> h in front || h == last;
  }

  /** The least id is one of the ids, and no larger than any other. */
  lemma {:induction false} LeastIdIsLeast(hits: seq<Hit>, name: string)
    requires Proper(hits)
    ensures forall h :: h in hits && h.name == name ==> 0 < LeastId(hits, name) <= h.id
    ensures name in Names(hits) ==> exists h :: h in hits && h.name == name && h.id == LeastId(hits, name)
    ensures name !in Names(hits) ==> LeastId(hits, name) == 0
  {
    if hits != [] {
      var front, last := hits[..|hits| - 1], hits[|hits| - 1];
      assert hits == front + [last];
      LeastIdIsLeast(front, name);
      NamesOfOneMore(front, last);
      assert last in hits;
      if name in Names(front) {
        var h :| h in front && h.name == name && h.id == LeastId(front, name);
        assert h in hits;
      }
    }
  }

  /** The canonical id does not depend on the order of the hits. */
  lemma {:induction false} LeastIdIgnoresOrder(a: seq<Hit>, b: seq<Hit>, name: string)
    requires Proper(a) && Proper(b) && multiset(a) == multiset(b)
    ensures LeastId(a, name) == LeastId(b, name)
  {
    forall h
      ensures h in a <==> h in b
    {
      assert h in a <==> h in multiset(a);
      assert h in b <==> h in multiset(b);
    }
    LeastIdIsLeast(a, name);
    LeastIdIsLeast(b, name);
    assert Names(a) == Names(b);
    if name in Names(a) {
      var x :| x in a && x.name == name && x.id == LeastId(a, name);
      var y :| y in b && y.name == name && y.id == LeastId(b, name);
    }
  }

  // ---------- The bucket ----------

  /** What the three maps of a bucket hold for one name. */
  ghost predicate Shows(ranks: map<string, nat>, rules: map<string, seq<SyncedRule>>, canonical: map<string, nat>,
                        hits: seq<Hit>, n: string)
  {
    if TopRank(hits, n) == 0 then n !in ranks && n !in rules && n !in canonical
    else n in ranks && ranks[n] == TopRank(hits, n)
         && n in rules && rules[n] == RulesAt(hits, n, TopRank(hits, n))
         && n in canonical && canonical[n] == LeastId(hits, n)
  }

  class RuleBucket {
    var ranks: map<string, nat>
    var rules: map<string, seq<SyncedRule>>
    var canonical: map<string, nat>
    const excluded: set<string>
    /** The calls that were not turned away. */
    ghost var hits: seq<Hit>

    /** The maps show, for every name, what the calls amount to. */
    ghost predicate Valid()
      reads this
    {
      Proper(hits) && forall n :: Shows(ranks, rules, canonical, hits, n)
    }

    constructor (excluded: set<string>)
      ensures Valid() && hits == [] && this.excluded == excluded
    {
      this.excluded := excluded;
      ranks, rules, canonical, hits := map[], map[], map[], [];
    }

    method Add(model: Model, rule: SyncedRule, rank: nat)
      requires Valid() && model.id > 0 && rank > 0
      modifies this
      ensures Valid()
      ensures hits
           == old(hits) + if model.publicName in excluded then [] else [Hit(model.publicName, model.id, rule, rank)]
    {
      var name := model.publicName;
      if name in excluded {
        return;
      }
      ghost var hit := Hit(name, model.id, rule, rank);
      ShowsStep(ranks, rules, canonical, hits, hit);
      if name !in ranks || rank > ranks[name] {
        ranks := ranks[name := rank];
        rules := rules[name := [rule]];
      } else if rank == ranks[name] {
        rules := rules[name := (if name in rules then rules[name] else []) + [rule]];
      }
      if name !in canonical || model.id < canonical[name] {
        canonical := canonical[name := model.id];
      }
      assert ranks == RanksAfter(old(ranks), hit);
      assert rules == RulesAfter(old(ranks), old(rules), hit);
      assert canonical == CanonicalAfter(old(canonical), hit);
      hits := hits + [hit];
    }
  }

  /** The maps after one more hit. */
  function RanksAfter(ranks: map<string, nat>, hit: Hit): map<string, nat> {
    if hit.name !in ranks || hit.rank > ranks[hit.name] then ranks[hit.name := hit.rank] else ranks
  }

  function CanonicalAfter(canonical: map<string, nat>, hit: Hit): map<string, nat> {
    if hit.name !in canonical || hit.id < canonical[hit.name] then canonical[hit.name := hit.id] else canonical
  }

  function RulesAfter(ranks: map<string, nat>, rules: map<string, seq<SyncedRule>>,
                      hit: Hit): map<string, seq<SyncedRule>> {
    if hit.name !in ranks || hit.rank > ranks[hit.name] then rules[hit.name := [hit.rule]]
    else if hit.rank == ranks[hit.name] then
      rules[hit.name := (if hit.name in rules then rules[hit.name] else []) + [hit.rule]]
    else rules
  }

  lemma {:induction false} ShowsStepAt(ranks: map<string, nat>, rules: map<string, seq<SyncedRule>>,
                                       canonical: map<string, nat>, hits: seq<Hit>, hit: Hit, n: string)
    requires Proper(hits) && hit.id > 0 && hit.rank > 0 && Shows(ranks, rules, canonical, hits, n)
    ensures Shows(RanksAfter(ranks, hit), RulesAfter(ranks, rules, hit), CanonicalAfter(canonical, hit), hits + [hit],
                  n)
  {
    HitHasId(hits, n);
    OneMoreHit(hits, hit, n);
  }

  lemma {:induction false} ShowsStep(ranks: map<string, nat>, rules: map<string, seq<SyncedRule>>,
                                     canonical: map<string, nat>, hits: seq<Hit>, hit: Hit)
    requires Proper(hits) && hit.id > 0 && hit.rank > 0 && forall n :: Shows(ranks, rules, canonical, hits, n)
    ensures forall n :: Shows(RanksAfter(ranks, hit), RulesAfter(ranks, rules, hit), CanonicalAfter(canonical, hit),
                              hits + [hit], n)
  {
    forall n
      ensures Shows(RanksAfter(ranks, hit), RulesAfter(ranks, rules, hit), CanonicalAfter(canonical, hit), hits + [hit],
                    n)
    {
      ShowsStepAt(ranks, rules, canonical, hits, hit, n);
    }
  }

  /** How one more hit changes what a list amounts to for a name. */
  ghost predicate OneMore(hits: seq<Hit>, hit: Hit, n: string) {
    var all := hits + [hit];
    && TopRank(all, n) == (if hit.name == n && hit.rank > TopRank(hits, n) then hit.rank else TopRank(hits, n))
    && LeastId(all, n)
       == (if hit.name == n && (LeastId(hits, n) == 0 || hit.id < LeastId(hits, n)) then hit.id else LeastId(hits, n))
    && RulesAt(all, n, TopRank(all, n))
       == if hit.name != n || hit.rank < TopRank(hits, n) then RulesAt(hits, n, TopRank(hits, n))
          else if hit.rank == TopRank(hits, n) then RulesAt(hits, n, TopRank(hits, n)) + [hit.rule]
          else [hit.rule]
  }

  lemma {:induction false} OneMoreHit(hits: seq<Hit>, hit: Hit, n: string)
    ensures OneMore(hits, hit, n)
  {
    var all := hits + [hit];
    assert all[..|hits|] == hits;
    if hit.rank > TopRank(hits, n) {
      NoRulesAboveTop(hits, n, hit.rank);
    }
  }

  /** A name has a least id exactly when it has a top rank. */
  lemma {:induction false} HitHasId(hits: seq<Hit>, name: string)
    requires Proper(hits)
    ensures TopRank(hits, name) > 0 <==> LeastId(hits, name) > 0
  {
    if hits != [] {
      HitHasId(hits[..|hits| - 1], name);
    }
  }

  // ---------- One upstream entry ----------

  predicate Named(matches: seq<RuleMatch>, name: string) {
    exists m :: m in matches && m.model.publicName == name
  }

  /** The first match of every public name. */
  function FirstPerName(matches: seq<RuleMatch>): seq<RuleMatch> {
    if matches == [] then []
    else
      var front, last := FirstPerName(matches[..|matches| - 1]), matches[|matches| - 1];
      if Named(front, last.model.publicName) then front else front + [last]
  }

  ghost predicate NamesDistinct(matches: seq<RuleMatch>) {
    forall i, j :: 0 <= i < j < |matches| ==> matches[i].model.publicName != matches[j].model.publicName
  }

  /** Only matches of the list are kept, one for each of its names. */
  lemma {:induction false} FirstPerNameMembers(matches: seq<RuleMatch>)
    ensures forall m :: m in FirstPerName(matches) ==> m in matches
    ensures forall n :: Named(matches, n) <==> Named(FirstPerName(matches), n)
    ensures NamesDistinct(FirstPerName(matches))
  {
    if matches != [] {
      var front, last := matches[..|matches| - 1], matches[|matches| - 1];
      FirstPerNameMembers(front);
      assert matches == front + [last];
      var kept := FirstPerName(front);
      NamedAppends(front, last);
      NamedAppends(kept, last);
      if !Named(kept, last.model.publicName) {
        assert FirstPerName(matches) == kept + [last];
        assert forall i :: 0 <= i < |kept| ==> kept[i] in kept;
      }
    }
  }

  lemma {:induction false} NamedAppends(matches: seq<RuleMatch>, last: RuleMatch)
    ensures forall n :: Named(matches + [last], n) <==> Named(matches, n) || last.model.publicName == n
  {
    forall n
      ensures Named(matches + [last], n) <==> Named(matches, n) || last.model.publicName == n
    {
      assert forall m :: m in matches + [last] <==> m in matches || m == last;
      if last.model.publicName == n {
        assert last in matches + [last];
      }
    }
  }

  method MatchPublicModels(lookup: NameLookup, ruleModel: string) returns (unique: seq<RuleMatch>)
    requires lookup.Valid()
    ensures unique == FirstPerName(Scan(lookup.byName, lookup.keys, ruleModel))
  {
    var matches := lookup.Match(ruleModel);
    if |matches| < 2 {
      FewMatches(matches);
      return matches;
    }
    unique := DropRepeated(matches);
  }

  lemma {:induction false} FewMatches(matches: seq<RuleMatch>)
    requires |matches| < 2
    ensures FirstPerName(matches) == matches
  {
    assert |matches| == 1 ==> matches[..0] == [];
  }

  method DropRepeated(matches: seq<RuleMatch>) returns (unique: seq<RuleMatch>)
    ensures unique == FirstPerName(matches)
  {
    var seen: set<string> := {};
    unique := [];
    for i := 0 to |matches|
      invariant unique == FirstPerName(matches[..i])
      invariant forall n :: n in seen <==> Named(unique, n)
    {
      assert matches[..i + 1][..i] == matches[..i];
      var name := matches[i].model.publicName;
      if name in seen {
        continue;
      }
      seen := seen + {name};
      NamedAppends(unique, matches[i]);
      unique := unique + [matches[i]];
    }
    assert matches[..|matches|] == matches;
  }

  // ---------- All entries ----------

  function HitsOf(matches: seq<RuleMatch>, rule: SyncedRule, excluded: set<string>): seq<Hit> {
    if matches == [] then []
    else
      var m := matches[|matches| - 1];
      HitsOf(matches[..|matches| - 1], rule, excluded)
      + if m.model.publicName in excluded then [] else [Hit(m.model.publicName, m.model.id, rule, m.rank)]
  }

  /** The bucket calls made for a list of rules. */
  function AllHits(byName: ByName, keys: seq<string>, rules: seq<SyncedRule>, excluded: set<string>): seq<Hit> {
    if rules == [] then []
    else
      var last := rules[|rules| - 1];
      AllHits(byName, keys, rules[..|rules| - 1], excluded)
      + HitsOf(FirstPerName(Scan(byName, keys, last.model)), last, excluded)
  }

  /** Stored models have positive ids. */
  ghost predicate Stored(byName: ByName) {
    forall k, m :: k in byName && m in byName[k] ==> m.id > 0
  }

  /** Every match of a scan is a stored model at a positive rank. */
  lemma {:induction false} ScanIsStored(byName: ByName, keys: seq<string>, text: string)
    requires Usable(byName, keys) && Stored(byName)
    ensures forall m :: m in Scan(byName, keys, text) ==> m.model.id > 0 && m.rank > 0
  {
    if Trim(text) != "" {
      ScanIsStrongest(byName, keys, text);
    }
  }

  /** The bucket calls for the matches of one rule. */
  method AddAll(bucket: RuleBucket, matches: seq<RuleMatch>, rule: SyncedRule)
    requires bucket.Valid() && forall m :: m in matches ==> m.model.id > 0 && m.rank > 0
    modifies bucket
    ensures bucket.Valid() && bucket.hits == old(bucket.hits) + HitsOf(matches, rule, bucket.excluded)
  {
    for j := 0 to |matches|
      invariant bucket.Valid()
      invariant bucket.hits == old(bucket.hits) + HitsOf(matches[..j], rule, bucket.excluded)
    {
      assert matches[..j + 1][..j] == matches[..j];
      assert matches[j] in matches;
      bucket.Add(matches[j].model, rule, matches[j].rank);
    }
    assert matches[..|matches|] == matches;
  }

  method Fill(bucket: RuleBucket, lookup: NameLookup, rules: seq<SyncedRule>)
    requires bucket.Valid() && bucket.hits == [] && lookup.Valid() && Stored(lookup.byName)
    modifies bucket
    ensures bucket.Valid() && bucket.hits == AllHits(lookup.byName, lookup.keys, rules, bucket.excluded)
  {
    for i := 0 to |rules|
      invariant bucket.Valid()
      invariant bucket.hits == AllHits(lookup.byName, lookup.keys, rules[..i], bucket.excluded)
    {
      assert rules[..i + 1][..i] == rules[..i];
      var matches := MatchPublicModels(lookup, rules[i].model);
      UniqueMatchesAreStored(lookup.byName, lookup.keys, rules[i].model);
      AddAll(bucket, matches, rules[i]);
    }
    assert rules[..|rules|] == rules;
  }

  lemma {:induction false} UniqueMatchesAreStored(byName: ByName, keys: seq<string>, text: string)
    requires Usable(byName, keys) && Stored(byName)
    ensures forall m :: m in FirstPerName(Scan(byName, keys, text)) ==> m.model.id > 0 && m.rank > 0
  {
    ScanIsStored(byName, keys, text);
    FirstPerNameMembers(Scan(byName, keys, text));
  }

  datatype Plan = Plan(rules: map<string, seq<SyncedRule>>, canonical: map<string, nat>)

  /** The plan two lists of hits amount to; alias hits count only for names without a direct one. */
  ghost predicate IsPlan(plan: Plan, direct: seq<Hit>, alias: seq<Hit>) {
    forall n :: var hits := if TopRank(direct, n) > 0 then direct else alias;
                if TopRank(hits, n) == 0 then n !in plan.rules && n !in plan.canonical
                else n in plan.rules && plan.rules[n] == RulesAt(hits, n, TopRank(hits, n))
                     && n in plan.canonical && plan.canonical[n] == LeastId(hits, n)
  }

  method BuildPublicRulePlan(byPublic: ByName, publicOrder: seq<string>, byUpstream: ByName, upstreamOrder: seq<string>,
                             rules: seq<SyncedRule>) returns (plan: Plan)
    requires Usable(byPublic, publicOrder) && Stored(byPublic)
    requires Usable(byUpstream, upstreamOrder) && Stored(byUpstream)
    ensures var direct := AllHits(byPublic, publicOrder, rules, {});
            IsPlan(plan, direct, AllHits(byUpstream, upstreamOrder, rules, Names(direct)))
  {
    var direct := new RuleBucket({});
    var publicLookup := new NameLookup(byPublic, publicOrder);
    Fill(direct, publicLookup, rules);
    var alias := new RuleBucket(direct.rules.Keys);
    var upstreamLookup := new NameLookup(byUpstream, upstreamOrder);
    Fill(alias, upstreamLookup, rules);
    plan := Plan(direct.rules + alias.rules, direct.canonical + alias.canonical);
    PlanIsMerged(direct.ranks, direct.rules, direct.canonical, direct.hits,
                 alias.ranks, alias.rules, alias.canonical, alias.hits,
                 byUpstream, upstreamOrder, rules);
  }

  /** Merging the maps of the two buckets gives the plan. */
  lemma {:induction false} PlanIsMerged(r1: map<string, nat>, u1: map<string, seq<SyncedRule>>, c1: map<string, nat>,
                                        direct: seq<Hit>, r2: map<string, nat>, u2: map<string, seq<SyncedRule>>,
                                        c2: map<string, nat>, alias: seq<Hit>, byUpstream: ByName, keys: seq<string>,
                                        rules: seq<SyncedRule>)
    requires Proper(direct) && Usable(byUpstream, keys) && Stored(byUpstream)
    requires (forall n :: Shows(r1, u1, c1, direct, n)) && forall n :: Shows(r2, u2, c2, alias, n)
    requires alias == AllHits(byUpstream, keys, rules, u1.Keys)
    ensures u1.Keys == Names(direct)
    ensures IsPlan(Plan(u1 + u2, c1 + c2), direct, alias)
  {
    assert forall n :: Shows(r1, u1, c1, direct, n) ==> (n in u1 <==> TopRank(direct, n) > 0);
    DirectNames(direct, u1.Keys);
    AllHitsAreProper(byUpstream, keys, rules, u1.Keys);
    forall n
      ensures TopRank(direct, n) > 0 ==> TopRank(alias, n) == 0
    {
      TopRankIsGreatest(alias, n);
      assert Shows(r1, u1, c1, direct, n);
    }
    forall n
      ensures var hits := if TopRank(direct, n) > 0 then direct else alias;
              if TopRank(hits, n) == 0 then n !in u1 + u2 && n !in c1 + c2
              else n in u1 + u2 && (u1 + u2)[n] == RulesAt(hits, n, TopRank(hits, n))
                   && n in c1 + c2 && (c1 + c2)[n] == LeastId(hits, n)
    {
      assert Shows(r1, u1, c1, direct, n) && Shows(r2, u2, c2, alias, n);
    }
  }

  lemma {:induction false} DirectNames(hits: seq<Hit>, names: set<string>)
    requires Proper(hits) && forall n :: n in names <==> TopRank(hits, n) > 0
    ensures names == Names(hits)
  {
    forall n
      ensures n in names <==> n in Names(hits)
    {
      TopRankIsGreatest(hits, n);
    }
  }

  // ---------- Strongest group wins ----------

  /** The rank at which a rule reaches a public name through an index; 0 when it does not. */
  function ReachedRank(matches: seq<RuleMatch>, name: string): nat {
    if matches == [] then 0
    else
      var last := matches[|matches| - 1];
      if last.model.publicName == name then last.rank else ReachedRank(matches[..|matches| - 1], name)
  }

  function RankFor(byName: ByName, keys: seq<string>, rule: SyncedRule, name: string): nat {
    ReachedRank(Scan(byName, keys, rule.model), name)
  }

  /** The rules that reach a name at one rank, in upstream order. */
  function RulesReaching(byName: ByName, keys: seq<string>, rules: seq<SyncedRule>, name: string,
                         rank: nat): seq<SyncedRule> {
    if rules == [] then []
    else
      var last := rules[|rules| - 1];
      RulesReaching(byName, keys, rules[..|rules| - 1], name, rank)
      + if RankFor(byName, keys, last, name) == rank then [last] else []
  }

  lemma {:induction false} ReachedRankIsShared(matches: seq<RuleMatch>, name: string)
    requires forall m, n :: m in matches && n in matches ==> m.rank == n.rank
    ensures forall m :: m in matches && m.model.publicName == name ==> ReachedRank(matches, name) == m.rank
    ensures (forall m :: m in matches ==> m.model.publicName != name) ==> ReachedRank(matches, name) == 0
  {
    if matches != [] {
      var front, last := matches[..|matches| - 1], matches[|matches| - 1];
      assert matches == front + [last];
      ReachedRankIsShared(front, name);
      assert last in matches;
    }
  }

  lemma {:induction false} RulesAtAppends(a: seq<Hit>, b: seq<Hit>, name: string, rank: nat)
    ensures RulesAt(a + b, name, rank) == RulesAt(a, name, rank) + RulesAt(b, name, rank)
  {
    if b == [] {
      assert a + b == a;
    } else {
      assert (a + b)[..|a + b| - 1] == a + b[..|b| - 1];
      RulesAtAppends(a, b[..|b| - 1], name, rank);
    }
  }

  /** Some match reaches the name at the rank. */
  predicate Reaches(matches: seq<RuleMatch>, name: string, rank: nat) {
    exists m :: m in matches && m.model.publicName == name && m.rank == rank
  }

  lemma {:induction false} ReachesOneMore(front: seq<RuleMatch>, last: RuleMatch, name: string, rank: nat)
    ensures Reaches(front + [last], name, rank)
       <==> Reaches(front, name, rank) || (last.model.publicName == name && last.rank == rank)
  {
    assert forall m :: m in front + [last] <==> m in front || m == last;
    if last.model.publicName == name && last.rank == rank {
      assert last in front + [last];
    }
  }

  lemma {:induction false} ReachedOnce(front: seq<RuleMatch>, last: RuleMatch, rank: nat)
    requires NamesDistinct(front + [last])
    ensures !Reaches(front, last.model.publicName, rank)
  {
    if m :| m in front && m.model.publicName == last.model.publicName {
      var i :| 0 <= i < |front| && front[i] == m;
      assert (front + [last])[i].model.publicName != (front + [last])[|front|].model.publicName;
    }
  }

  lemma {:induction false} NamesStayDistinct(front: seq<RuleMatch>, last: RuleMatch)
    requires NamesDistinct(front + [last])
    ensures NamesDistinct(front)
  {
    assert forall i :: 0 <= i < |front| ==> (front + [last])[i] == front[i];
  }

  lemma {:induction false} OneMatchAddsOnce(front: seq<RuleMatch>, last: RuleMatch, rule: SyncedRule,
                                            excluded: set<string>, name: string, rank: nat)
    requires name !in excluded
    ensures RulesAt(HitsOf(front + [last], rule, excluded), name, rank)
         == RulesAt(HitsOf(front, rule, excluded), name, rank)
            + if last.model.publicName == name && last.rank == rank then [rule] else []
  {
    assert (front + [last])[..|front|] == front;
    var added := if last.model.publicName in excluded then []
                 else [Hit(last.model.publicName, last.model.id, rule, last.rank)];
    RulesAtAppends(HitsOf(front, rule, excluded), added, name, rank);
    assert added != [] ==> added[..0] == [];
  }

  /** The hits of one rule add it once under every name it reaches. */
  lemma {:induction false} OneRuleAddsOnce(unique: seq<RuleMatch>, rule: SyncedRule, excluded: set<string>,
                                           name: string, rank: nat)
    requires name !in excluded
    requires NamesDistinct(unique)
    ensures RulesAt(HitsOf(unique, rule, excluded), name, rank) == if Reaches(unique, name, rank) then [rule] else []
  {
    if unique != [] {
      var front, last := unique[..|unique| - 1], unique[|unique| - 1];
      assert unique == front + [last];
      NamesStayDistinct(front, last);
      OneRuleAddsOnce(front, rule, excluded, name, rank);
      ReachesOneMore(front, last, name, rank);
      ReachedOnce(front, last, rank);
      OneMatchAddsOnce(front, last, rule, excluded, name, rank);
    }
  }

  /** The kept matches of one entry reach a name at exactly the rank the entry has for it. */
  lemma {:induction false} KeptMatchesReach(byName: ByName, keys: seq<string>, rule: SyncedRule, name: string,
                                            rank: nat)
    requires Usable(byName, keys) && rank > 0
    ensures Reaches(FirstPerName(Scan(byName, keys, rule.model)), name, rank)
       <==> RankFor(byName, keys, rule, name) == rank
  {
    var matches := Scan(byName, keys, rule.model);
    var unique := FirstPerName(matches);
    FirstPerNameMembers(matches);
    if Trim(rule.model) != "" {
      ScanIsStrongest(byName, keys, rule.model);
    }
    ReachedRankIsShared(matches, name);
    if Named(matches, name) {
      assert Named(unique, name);
      var u :| u in unique && u.model.publicName == name;
      assert u in matches;
    } else {
      assert !Named(unique, name);
    }
  }

  /** The rules a bucket lists under a name at a rank are those that reach it at that rank. */
  lemma {:induction false} HitsListReachingRules(byName: ByName, keys: seq<string>, rules: seq<SyncedRule>,
                                                excluded: set<string>, name: string, rank: nat)
    requires Usable(byName, keys) && rank > 0 && name !in excluded
    ensures RulesAt(AllHits(byName, keys, rules, excluded), name, rank)
         == RulesReaching(byName, keys, rules, name, rank)
  {
    if rules != [] {
      var front, last := rules[..|rules| - 1], rules[|rules| - 1];
      HitsListReachingRules(byName, keys, front, excluded, name, rank);
      var unique := FirstPerName(Scan(byName, keys, last.model));
      FirstPerNameMembers(Scan(byName, keys, last.model));
      KeptMatchesReach(byName, keys, last, name, rank);
      OneRuleAddsOnce(unique, last, excluded, name, rank);
      RulesAtAppends(AllHits(byName, keys, front, excluded), HitsOf(unique, last, excluded), name, rank);
    }
  }

  lemma {:induction false} AllHitsAreProper(byName: ByName, keys: seq<string>, rules: seq<SyncedRule>,
                                            excluded: set<string>)
    requires Usable(byName, keys) && Stored(byName)
    ensures Proper(AllHits(byName, keys, rules, excluded))
    ensures forall n :: n in Names(AllHits(byName, keys, rules, excluded)) ==> n !in excluded
  {
    if rules != [] {
      var front, last := rules[..|rules| - 1], rules[|rules| - 1];
      AllHitsAreProper(byName, keys, front, excluded);
      ScanIsStored(byName, keys, last.model);
      FirstPerNameMembers(Scan(byName, keys, last.model));
      HitsOfAreProper(FirstPerName(Scan(byName, keys, last.model)), last, excluded);
    }
  }

  lemma {:induction false} HitsOfAreProper(matches: seq<RuleMatch>, rule: SyncedRule, excluded: set<string>)
    requires forall m :: m in matches ==> m.model.id > 0 && m.rank > 0
    ensures Proper(HitsOf(matches, rule, excluded))
    ensures forall h :: h in HitsOf(matches, rule, excluded) ==> h.name !in excluded
  {
    if matches != [] {
      var front, last := matches[..|matches| - 1], matches[|matches| - 1];
      assert matches == front + [last];
      HitsOfAreProper(front, rule, excluded);
    }
  }

  /** No rule of the list reaches the name at a higher rank, and one reaches it at `rank`. */
  ghost predicate GreatestRank(byName: ByName, keys: seq<string>, rules: seq<SyncedRule>, name: string, rank: nat) {
    rank > 0 && RulesReaching(byName, keys, rules, name, rank) != []
    && forall higher :: higher > rank ==> RulesReaching(byName, keys, rules, name, higher) == []
  }

  lemma {:induction false} TopRankIsGreatestRank(byName: ByName, keys: seq<string>, rules: seq<SyncedRule>,
                                                excluded: set<string>, name: string)
    requires Usable(byName, keys) && Stored(byName) && name !in excluded
    ensures var top := TopRank(AllHits(byName, keys, rules, excluded), name);
            if top > 0 then GreatestRank(byName, keys, rules, name, top)
            else forall rank: nat :: rank > 0 ==> RulesReaching(byName, keys, rules, name, rank) == []
  {
    var hits := AllHits(byName, keys, rules, excluded);
    var top := TopRank(hits, name);
    TopRankIsGreatest(hits, name);
    forall rank: nat | rank > top
      ensures RulesReaching(byName, keys, rules, name, rank) == []
    {
      NoRulesAboveTop(hits, name, rank);
      HitsListReachingRules(byName, keys, rules, excluded, name, rank);
    }
    if top > 0 {
      HitsListReachingRules(byName, keys, rules, excluded, name, top);
      SomeRuleAtTop(hits, name);
    }
  }

  lemma {:induction false} SomeRuleAtTop(hits: seq<Hit>, name: string)
    requires TopRank(hits, name) > 0
    ensures RulesAt(hits, name, TopRank(hits, name)) != []
  {
    var front, last := hits[..|hits| - 1], hits[|hits| - 1];
    if !(last.name == name && last.rank > TopRank(front, name)) {
      SomeRuleAtTop(front, name);
    }
  }

  /**
   For every name of the plan: if some rule reaches it directly, its rules are exactly those that
   reach it directly at the greatest rank, in upstream order; otherwise the same holds through the
   upstream names. A name is left out only when no rule reaches it either way.
   */
  lemma {:induction false} StrongestGroupWins(byPublic: ByName, publicKeys: seq<string>, byUpstream: ByName,
                                              upstreamKeys: seq<string>, rules: seq<SyncedRule>, plan: Plan,
                                              name: string)
    requires Usable(byPublic, publicKeys) && Stored(byPublic) && Usable(byUpstream, upstreamKeys) && Stored(byUpstream)
    requires var direct := AllHits(byPublic, publicKeys, rules, {});
             IsPlan(plan, direct, AllHits(byUpstream, upstreamKeys, rules, Names(direct)))
    ensures forall rank :: GreatestRank(byPublic, publicKeys, rules, name, rank) ==>
                             name in plan.rules
                             && plan.rules[name] == RulesReaching(byPublic, publicKeys, rules, name, rank)
    ensures (forall rank: nat :: rank > 0 ==> RulesReaching(byPublic, publicKeys, rules, name, rank) == []) ==>
              forall rank :: GreatestRank(byUpstream, upstreamKeys, rules, name, rank) ==>
                               name in plan.rules
                               && plan.rules[name] == RulesReaching(byUpstream, upstreamKeys, rules, name, rank)
    ensures name in plan.rules <==>
            exists rank: nat :: rank > 0 && (RulesReaching(byPublic, publicKeys, rules, name, rank) != []
                                             || RulesReaching(byUpstream, upstreamKeys, rules, name, rank) != [])
  {
    var direct := AllHits(byPublic, publicKeys, rules, {});
    var alias := AllHits(byUpstream, upstreamKeys, rules, Names(direct));
    AllHitsAreProper(byPublic, publicKeys, rules, {});
    AllHitsAreProper(byUpstream, upstreamKeys, rules, Names(direct));
    TopRankIsGreatest(direct, name);
    TopRankIsGreatest(alias, name);
    var top := TopRank(direct, name);
    TopRankIsGreatestRank(byPublic, publicKeys, rules, {}, name);
    if top > 0 {
      HitsListReachingRules(byPublic, publicKeys, rules, {}, name, top);
    } else {
      var aliasTop := TopRank(alias, name);
      TopRankIsGreatestRank(byUpstream, upstreamKeys, rules, Names(direct), name);
      if aliasTop > 0 {
        HitsListReachingRules(byUpstream, upstreamKeys, rules, Names(direct), name, aliasTop);
      }
    }
  }
}
