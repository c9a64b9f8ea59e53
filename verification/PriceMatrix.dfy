/**
 The price overview of a model: a matrix of length tiers and time columns that is drawn only when
 it shows what first-match billing does.
 */
module PriceMatrix {
  import opened GoStrings
  import opened Lists

  // ---------- Rules ----------

  /** A length bound in the conditions: absent, an integer, or something else that billing reads as `n`. */
  datatype Bound = Absent | Limit(n: nat) | Unsafe(n: nat)

  const MAX_SAFE_INTEGER: nat := 0x1f_ffff_ffff_ffff

  predicate IsSafe(b: Bound) {
    b.Absent? || (b.Limit? && b.n <= MAX_SAFE_INTEGER)
  }

  /**
   A stored rule. `window` is the description of its time window when that window restricts anything,
   `invalid` says that billing refuses its time block, restricting or not, `extra` that it has conditions
   besides length and time.
   */
  datatype Rule = Rule(id: nat, enabled: bool, priority: int, manual: bool, min: Bound, max: Bound,
                       window: Option<string>, invalid: bool, extra: bool)

  datatype Tier = Tier(min: Bound, max: Bound)

  datatype TimeLabel = Unlimited | OtherTimes | During(window: string)

  function TierOf(r: Rule): Tier {
    Tier(r.min, r.max)
  }

  predicate SameTier(a: Rule, b: Rule) {
    a.min == b.min && a.max == b.max
  }

  function Active(rules: seq<Rule>): seq<Rule> {
    if rules == [] then []
    else Active(rules[..|rules| - 1]) + if rules[|rules| - 1].enabled then [rules[|rules| - 1]] else []
  }

  /** An unrestricted rule has a peak sibling when a restricted rule has the same length bounds. */
  predicate HasPeakSibling(r: Rule, active: seq<Rule>) {
    r.window.None? && exists i :: 0 <= i < |active| && active[i].id != r.id && active[i].window.Some?
                        && SameTier(active[i], r)
  }

  function LabelOf(r: Rule, active: seq<Rule>): TimeLabel {
    if HasPeakSibling(r, active) then OtherTimes
    else match r.window case None => Unlimited case Some(w) => During(w)
  }

  // ---------- First match ----------

  /** The order in which the rules are listed: higher priority first, then the newer rule. */
  predicate Before(a: Rule, b: Rule) {
    a.priority > b.priority || (a.priority == b.priority && a.id > b.id)
  }

  /** The order in which billing tries them: at one priority, manual rules come before synchronised ones. */
  predicate BilledBefore(a: Rule, b: Rule) {
    || a.priority > b.priority
    || (a.priority == b.priority && ((a.manual && !b.manual) || (a.manual == b.manual && a.id > b.id)))
  }

  /** The listed order is total on rules with ids of their own, and goes by priority, then by id. */
  lemma {:induction false} ListedOrder(a: Rule, b: Rule)
    requires a.id != b.id
    ensures Before(a, b) <==> !Before(b, a)
    ensures a.priority > b.priority ==> Before(a, b)
    ensures a.priority == b.priority && a.id > b.id ==> Before(a, b)
  {
  }

  /** So is the order of billing, but at one priority manual rules come first. */
  lemma {:induction false} BillingOrder(a: Rule, b: Rule)
    requires a.id != b.id
    ensures BilledBefore(a, b) <==> !BilledBefore(b, a)
    ensures a.priority > b.priority ==> BilledBefore(a, b)
    ensures a.priority == b.priority && a.manual && !b.manual ==> BilledBefore(a, b)
    ensures a.priority == b.priority && a.manual == b.manual && a.id > b.id ==> BilledBefore(a, b)
  {
  }

  predicate InTier(t: Tier, n: nat) {
    (!t.min.Absent? ==> n >= t.min.n) && (!t.max.Absent? ==> n <= t.max.n)
  }

  /**
   The rule matches `n` input tokens at a moment at which the windows of the rules in `open` are open, for a
   request that meets the other conditions of the rules in `met`.
   */
  predicate Applies(r: Rule, n: nat, open: set<nat>, met: set<nat>) {
    InTier(TierOf(r), n) && (r.window.Some? ==> r.id in open) && (r.extra ==> r.id in met)
  }

  /** The first match, in the given order, of the active rules that count. */
  ghost predicate FirstMatch(active: seq<Rule>, order: (Rule, Rule) -> bool, counts: Rule -> bool, n: nat,
                             open: set<nat>, met: set<nat>, r: Rule) {
    && r in active && Applies(r, n, open, met) && counts(r)
    && forall other :: other in active && other != r && Applies(other, n, open, met) && counts(other) ==>
                         order(r, other)
  }

  /** As listed, every rule counts. */
  predicate Any(r: Rule) {
    true
  }

  /**
   The rules that can be billed: billing passes over a rule whose time block is invalid or whose rates
   price nothing of the usage; `prices` says which rates do.
   */
  function Billable(prices: Rule -> bool): Rule -> bool {
    (r: Rule) => !r.invalid && prices(r)
  }

  predicate DistinctIds(rules: seq<Rule>) {
    forall i, j :: 0 <= i < j < |rules| ==> rules[i].id != rules[j].id
  }

  lemma {:induction false} ActiveMembers(rules: seq<Rule>)
    ensures forall r :: r in Active(rules) <==> r in rules && r.enabled
    ensures DistinctIds(rules) ==> DistinctIds(Active(rules))
  {
    if rules != [] {
      var front, last := rules[..|rules| - 1], rules[|rules| - 1];
      assert rules == front + [last];
      ActiveMembers(front);
      if DistinctIds(rules) {
        assert forall i :: 0 <= i < |Active(front)| ==> Active(front)[i] in front;
        assert forall r :: r in front ==> r.id != last.id;
      }
    }
  }

  // ---------- Columns and tiers ----------

  function Columns(rules: seq<Rule>, active: seq<Rule>): seq<TimeLabel> {
    if rules == [] then []
    else
      var front, time := Columns(rules[..|rules| - 1], active), LabelOf(rules[|rules| - 1], active);
      if time in front then front else front + [time]
  }

  function Tiers(rules: seq<Rule>): seq<Tier> {
    if rules == [] then []
    else
      var front, tier := Tiers(rules[..|rules| - 1]), TierOf(rules[|rules| - 1]);
      if tier in front then front else front + [tier]
  }

  lemma {:induction false} ColumnsMembers(rules: seq<Rule>, active: seq<Rule>)
    ensures forall l :: l in Columns(rules, active) <==> exists r :: r in rules && LabelOf(r, active) == l
    ensures NoRepeats(Columns(rules, active))
  {
    if rules != [] {
      var front, last := rules[..|rules| - 1], rules[|rules| - 1];
      assert rules == front + [last];
      ColumnsMembers(front, active);
      assert last in rules;
      assert forall i :: 0 <= i < |Columns(front, active)| ==> Columns(front, active)[i] in Columns(front, active);
    }
  }

  lemma {:induction false} TiersMembers(rules: seq<Rule>)
    ensures forall t :: t in Tiers(rules) <==> exists r :: r in rules && TierOf(r) == t
    ensures NoRepeats(Tiers(rules))
  {
    if rules != [] {
      var front, last := rules[..|rules| - 1], rules[|rules| - 1];
      assert rules == front + [last];
      TiersMembers(front);
      assert last in rules;
      assert forall i :: 0 <= i < |Tiers(front)| ==> Tiers(front)[i] in Tiers(front);
    }
  }

  // ---------- Contiguous ranges ----------

  /** The token range of a tier; no upper end stands for infinity. */
  datatype Range = Range(min: nat, max: Option<nat>)

  function RangeOf(t: Tier): Range {
    Range(if t.min.Limit? then t.min.n else 0, if t.max.Limit? then Some(t.max.n) else None)
  }

  predicate InRange(r: Range, n: nat) {
    r.min <= n && (r.max.Some? ==> n <= r.max.value)
  }

  /** A stable sort by the lower end. */
  function Insert(r: Range, sorted: seq<Range>): seq<Range> {
    if sorted == [] then [r]
    else if sorted[|sorted| - 1].min <= r.min then sorted + [r]
    else Insert(r, sorted[..|sorted| - 1]) + [sorted[|sorted| - 1]]
  }

  function SortedRanges(tiers: seq<Tier>): seq<Range> {
    if tiers == [] then []
    else Insert(RangeOf(tiers[|tiers| - 1]), SortedRanges(tiers[..|tiers| - 1]))
  }

  predicate Follows(a: Range, b: Range) {
    a.max.Some? && b.min == a.max.value + 1
  }

  /** Starting at 0, every range starts right behind the one before it. */
  predicate Chained(ranges: seq<Range>) {
    && ranges != [] && ranges[0].min == 0
    && forall i :: 0 <= i < |ranges| - 1 ==> Follows(ranges[i], ranges[i + 1])
  }

  predicate Ascending(ranges: seq<Range>) {
    forall i, j :: 0 <= i <= j < |ranges| ==> ranges[i].min <= ranges[j].min
  }

  /** How many of the ranges hold a number. */
  function Holding(ranges: seq<Range>, n: nat): nat {
    if ranges == [] then 0
    else Holding(ranges[..|ranges| - 1], n) + if InRange(ranges[|ranges| - 1], n) then 1 else 0
  }

  function HoldingTiers(tiers: seq<Tier>, n: nat): nat {
    if tiers == [] then 0
    else HoldingTiers(tiers[..|tiers| - 1], n) + if InTier(tiers[|tiers| - 1], n) then 1 else 0
  }

  lemma {:induction false} InsertMembers(r: Range, sorted: seq<Range>)
    ensures forall x :: x in Insert(r, sorted) <==> x == r || x in sorted
  {
    if sorted != [] {
      var front := sorted[..|sorted| - 1];
      assert sorted == front + [sorted[|sorted| - 1]];
      InsertMembers(r, front);
    }
  }

  lemma {:induction false} InsertHolds(r: Range, sorted: seq<Range>, n: nat)
    ensures Holding(Insert(r, sorted), n) == Holding(sorted, n) + if InRange(r, n) then 1 else 0
  {
    if sorted == [] {
      assert [r][..0] == [];
    } else {
      var front, last := sorted[..|sorted| - 1], sorted[|sorted| - 1];
      if last.min <= r.min {
        assert (sorted + [r])[..|sorted|] == sorted;
      } else {
        InsertHolds(r, front, n);
        var inner := Insert(r, front);
        assert (inner + [last])[..|inner|] == inner;
      }
    }
  }

  lemma {:induction false} InsertAscends(r: Range, sorted: seq<Range>)
    requires Ascending(sorted)
    ensures Ascending(Insert(r, sorted))
  {
    if sorted != [] && sorted[|sorted| - 1].min > r.min {
      var front, last := sorted[..|sorted| - 1], sorted[|sorted| - 1];
      InsertAscends(r, front);
      InsertMembers(r, front);
      var inner := Insert(r, front);
      forall i | 0 <= i < |inner|
        ensures inner[i].min <= last.min
      {
        assert inner[i] in inner;
      }
    }
  }

  /** Every bound is absent or an integer. */
  predicate Exact(tiers: seq<Tier>) {
    forall i :: 0 <= i < |tiers| ==> !tiers[i].min.Unsafe? && !tiers[i].max.Unsafe?
  }

  lemma {:induction false} SortKeeps(tiers: seq<Tier>, n: nat)
    requires Exact(tiers)
    ensures Ascending(SortedRanges(tiers))
    ensures Holding(SortedRanges(tiers), n) == HoldingTiers(tiers, n)
  {
    if tiers != [] {
      SortKeeps(tiers[..|tiers| - 1], n);
      InsertAscends(RangeOf(tiers[|tiers| - 1]), SortedRanges(tiers[..|tiers| - 1]));
      InsertHolds(RangeOf(tiers[|tiers| - 1]), SortedRanges(tiers[..|tiers| - 1]), n);
    }
  }

  /** At most one of some chained ranges holds a number. */
  lemma {:induction false} ChainHoldsOnce(ranges: seq<Range>, n: nat)
    requires Ascending(ranges) && Chained(ranges)
    ensures Holding(ranges, n) <= 1
    ensures n < ranges[|ranges| - 1].min ==> Holding(ranges[..|ranges| - 1], n) <= 1
    ensures n >= ranges[|ranges| - 1].min ==> Holding(ranges[..|ranges| - 1], n) == 0
  {
    var front, last := ranges[..|ranges| - 1], ranges[|ranges| - 1];
    if |ranges| > 1 {
      forall i | 0 <= i < |front| - 1
        ensures Follows(front[i], front[i + 1])
      {
        assert Follows(ranges[i], ranges[i + 1]);
      }
      assert Follows(ranges[|front| - 1], last);
      ChainHoldsOnce(front, n);
      if n >= last.min {
        assert front[|front| - 1].max.value < n;
        assert ranges[|front| - 1].min <= last.min;
      }
    } else {
      assert front == [];
    }
  }

  lemma {:induction false} TwoHoldingTiers(tiers: seq<Tier>, i: nat, j: nat, n: nat)
    requires i < j < |tiers| && InTier(tiers[i], n) && InTier(tiers[j], n)
    ensures HoldingTiers(tiers, n) >= 2
  {
    var front := tiers[..|tiers| - 1];
    if j == |front| {
      OneHoldingTier(front, i, n);
    } else {
      TwoHoldingTiers(front, i, j, n);
    }
  }

  lemma {:induction false} OneHoldingTier(tiers: seq<Tier>, i: nat, n: nat)
    requires i < |tiers| && InTier(tiers[i], n)
    ensures HoldingTiers(tiers, n) >= 1
  {
    if i < |tiers| - 1 {
      OneHoldingTier(tiers[..|tiers| - 1], i, n);
    }
  }

  /** The tiers of a chain are pairwise disjoint. */
  lemma {:induction false} ChainedTiersAreDisjoint(tiers: seq<Tier>, i: nat, j: nat, n: nat)
    requires i < j < |tiers| && Exact(tiers) && Chained(SortedRanges(tiers))
    ensures !(InTier(tiers[i], n) && InTier(tiers[j], n))
  {
    SortKeeps(tiers, n);
    ChainHoldsOnce(SortedRanges(tiers), n);
    if InTier(tiers[i], n) && InTier(tiers[j], n) {
      TwoHoldingTiers(tiers, i, j, n);
    }
  }

  /** A range that holds at least its lower end. */
  predicate HoldsSome(r: Range) {
    r.max.Some? ==> r.min <= r.max.value
  }

  /** Every number up to the greatest one held at all is held exactly once. */
  ghost predicate OnceUpTo(holding: nat -> nat) {
    forall n: nat, m: nat :: n <= m && holding(m) >= 1 ==> holding(n) == 1
  }

  function HoldingOf(ranges: seq<Range>): nat -> nat {
    n => Holding(ranges, n)
  }

  function HoldingTiersOf(tiers: seq<Tier>): nat -> nat {
    n => HoldingTiers(tiers, n)
  }

  lemma {:induction false} ChainFront(ranges: seq<Range>)
    requires Chained(ranges) && |ranges| > 1
    ensures Chained(ranges[..|ranges| - 1]) && Follows(ranges[|ranges| - 2], ranges[|ranges| - 1])
  {
    var front := ranges[..|ranges| - 1];
    forall i | 0 <= i < |front| - 1
      ensures Follows(front[i], front[i + 1])
    {
      assert Follows(ranges[i], ranges[i + 1]);
    }
    assert Follows(ranges[|ranges| - 2], ranges[|ranges| - 2 + 1]);
  }

  /** Chained ranges hold every number up to the last end exactly once. */
  lemma {:induction false} ChainCovers(ranges: seq<Range>, n: nat)
    requires Chained(ranges) && forall i :: 0 <= i < |ranges| ==> HoldsSome(ranges[i])
    ensures var end := ranges[|ranges| - 1].max;
            Holding(ranges, n) == if end.Some? && n > end.value then 0 else 1
  {
    if |ranges| > 1 {
      ChainFront(ranges);
      ChainCovers(ranges[..|ranges| - 1], n);
    } else {
      assert ranges[..|ranges| - 1] == [];
    }
  }

  /** A number that the last of some ascending ranges holds, where every number is held once. */
  lemma {:induction false} LastHolds(ranges: seq<Range>)
    requires ranges != [] && OnceUpTo(HoldingOf(ranges)) && HoldsSome(ranges[|ranges| - 1])
    ensures var front, start := ranges[..|ranges| - 1], ranges[|ranges| - 1].min;
            && Holding(front, start) == 0
            && forall n: nat :: n < start ==> Holding(front, n) == 1
  {
    var front, start := ranges[..|ranges| - 1], ranges[|ranges| - 1].min;
    assert HoldingOf(ranges)(start) >= 1;
    assert HoldingOf(ranges)(start) == Holding(front, start) + 1;
    forall n: nat | n < start
      ensures Holding(front, n) == 1
    {
      assert HoldingOf(ranges)(n) == Holding(front, n);
    }
  }

  lemma {:induction false} HoldingStops(ranges: seq<Range>, start: nat, m: nat)
    requires Holding(ranges, start) == 0 && start <= m
    requires forall i :: 0 <= i < |ranges| ==> ranges[i].min <= start
    ensures Holding(ranges, m) == 0
  {
    if ranges != [] {
      HoldingStops(ranges[..|ranges| - 1], start, m);
    }
  }

  /** Ascending ranges that hold every number once are chained. */
  lemma {:induction false} CoverChains(ranges: seq<Range>)
    requires ranges != [] && Ascending(ranges) && forall i :: 0 <= i < |ranges| ==> HoldsSome(ranges[i])
    requires OnceUpTo(HoldingOf(ranges))
    ensures Chained(ranges)
  {
    var front, start := ranges[..|ranges| - 1], ranges[|ranges| - 1].min;
    LastHolds(ranges);
    if front == [] {
      assert start > 0 ==> Holding(front, 0) == 1;
    } else {
      forall n: nat, m: nat | n <= m && HoldingOf(front)(m) >= 1
        ensures HoldingOf(front)(n) == 1
      {
        if start <= m {
          HoldingStops(front, start, m);
        }
      }
      CoverChains(front);
      ChainCovers(front, start);
      if start > 0 {
        ChainCovers(front, start - 1);
      }
      forall i | 0 <= i < |ranges| - 1
        ensures Follows(ranges[i], ranges[i + 1])
      {
        assert i < |front| - 1 ==> Follows(front[i], front[i + 1]);
      }
    }
  }

  lemma {:induction false} SortedMembers(tiers: seq<Tier>)
    ensures forall r :: r in SortedRanges(tiers) ==> exists t :: t in tiers && r == RangeOf(t)
    ensures SortedRanges(tiers) == [] <==> tiers == []
  {
    if tiers != [] {
      var front, last := tiers[..|tiers| - 1], tiers[|tiers| - 1];
      SortedMembers(front);
      InsertMembers(RangeOf(last), SortedRanges(front));
      assert tiers == front + [last];
      assert RangeOf(last) in SortedRanges(tiers);
    }
  }

  /**
   Tiers with integer bounds, none of them empty, are accepted exactly when they hold every number of tokens up
   to the greatest one they hold exactly once.
   */
  lemma {:induction false} ChainedIff(tiers: seq<Tier>)
    requires Exact(tiers) && forall t :: t in tiers ==> HoldsSome(RangeOf(t))
    ensures Chained(SortedRanges(tiers)) <==> tiers != [] && OnceUpTo(HoldingTiersOf(tiers))
  {
    var ranges := SortedRanges(tiers);
    SortedMembers(tiers);
    SortKeeps(tiers, 0);
    forall i | 0 <= i < |ranges|
      ensures HoldsSome(ranges[i])
    {
      assert ranges[i] in ranges;
    }
    forall n: nat
      ensures HoldingOf(ranges)(n) == HoldingTiersOf(tiers)(n)
    {
      SortKeeps(tiers, n);
    }
    if Chained(ranges) {
      forall n: nat, m: nat | n <= m && HoldingTiersOf(tiers)(m) >= 1
        ensures HoldingTiersOf(tiers)(n) == 1
      {
        ChainCovers(ranges, n);
        ChainCovers(ranges, m);
      }
    } else if tiers != [] && OnceUpTo(HoldingTiersOf(tiers)) {
      CoverChains(ranges);
    }
  }

  // ---------- The overview ----------

  /** A matrix: one cell, holding a rule id, for every tier and column. */
  datatype Overview = Overview(columns: seq<TimeLabel>, tiers: seq<Tier>, cells: seq<seq<nat>>)

  /** A rule the matrix cannot show. */
  predicate Foreign(r: Rule) {
    r.extra || !IsSafe(r.min) || !IsSafe(r.max)
  }

  /** Some unrestricted rule comes before a restricted one of its tier. */
  predicate Shadowed(active: seq<Rule>) {
    exists i, j :: 0 <= i < |active| && 0 <= j < |active|
                   && active[i].window.None? && active[j].window.Some? && active[j].id != active[i].id
                   && SameTier(active[i], active[j]) && !Before(active[j], active[i])
  }

  /** Two restricted rules with differently described windows. */
  predicate MixedWindows(active: seq<Rule>) {
    exists i, j :: 0 <= i < |active| && 0 <= j < |active| && active[j].id != active[i].id
                   && active[i].window.Some? && active[j].window.Some? && active[i].window != active[j].window
  }

  /** The rules of one cell. */
  function CellRules(rules: seq<Rule>, active: seq<Rule>, tier: Tier, time: TimeLabel): seq<Rule> {
    if rules == [] then []
    else
      var last := rules[|rules| - 1];
      CellRules(rules[..|rules| - 1], active, tier, time)
      + if TierOf(last) == tier && LabelOf(last, active) == time then [last] else []
  }

  /** Everything but the filling of the cells. */
  predicate Drawable(active: seq<Rule>) {
    && active != []
    && (forall i :: 0 <= i < |active| ==> !Foreign(active[i]))
    && Chained(SortedRanges(Tiers(active)))
    && !Shadowed(active)
    && |Columns(active, active)| <= 3 && |Tiers(active)| <= 6
    && !(|Columns(active, active)| > 1 && MixedWindows(active))
  }

  method ActiveRules(rules: seq<Rule>) returns (active: seq<Rule>)
    ensures active == Active(rules)
  {
    active := [];
    for i := 0 to |rules|
      invariant active == Active(rules[..i])
    {
      assert rules[..i + 1][..i] == rules[..i];
      if rules[i].enabled {
        active := active + [rules[i]];
      }
    }
    assert rules[..|rules|] == rules;
  }

  /** The ids of one row's cells are those of their only rules. */
  predicate RowFilled(active: seq<Rule>, columns: seq<TimeLabel>, tier: Tier, row: seq<nat>) {
    && |row| == |columns|
    && forall j :: 0 <= j < |columns| ==>
                     var found := CellRules(active, active, tier, columns[j]);
                     |found| == 1 && found[0].id == row[j]
  }

  /** Every cell has exactly one rule, the one shown. */
  predicate Filled(active: seq<Rule>, o: Overview) {
    && o.columns == Columns(active, active) && o.tiers == Tiers(active)
    && |o.cells| == |o.tiers|
    && forall i :: 0 <= i < |o.tiers| ==> RowFilled(active, o.columns, o.tiers[i], o.cells[i])
  }

  /** Some cell has no rule or several. */
  predicate BadCell(active: seq<Rule>, columns: seq<TimeLabel>, tiers: seq<Tier>) {
    exists t, l :: t in tiers && l in columns && |CellRules(active, active, t, l)| != 1
  }

  /** With such a cell, no overview has exactly one rule in every cell. */
  lemma {:induction false} BadCellIsNotFilled(active: seq<Rule>)
    requires BadCell(active, Columns(active, active), Tiers(active))
    ensures forall o :: !Filled(active, o)
  {
    var columns, tiers := Columns(active, active), Tiers(active);
    var t, l :| t in tiers && l in columns && |CellRules(active, active, t, l)| != 1;
    var i :| 0 <= i < |tiers| && tiers[i] == t;
    var j :| 0 <= j < |columns| && columns[j] == l;
    forall o
      ensures !Filled(active, o)
    {
      assert !RowFilled(active, columns, tiers[i], if i < |o.cells| then o.cells[i] else []);
    }
  }

  method FillRow(active: seq<Rule>, columns: seq<TimeLabel>, tier: Tier) returns (cells: Option<seq<nat>>)
    ensures cells.Some? ==> RowFilled(active, columns, tier, cells.value)
    ensures cells.None? ==> BadCell(active, columns, [tier])
  {
    var row := [];
    for j := 0 to |columns|
      invariant RowFilled(active, columns[..j], tier, row)
    {
      var matches := CellRules(active, active, tier, columns[j]);
      if |matches| != 1 {
        assert tier in [tier] && columns[j] in columns;
        return None;
      }
      row := row + [matches[0].id];
    }
    assert columns[..|columns|] == columns;
    cells := Some(row);
  }

  method FillCells(active: seq<Rule>, columns: seq<TimeLabel>, tiers: seq<Tier>) returns (r: Option<seq<seq<nat>>>)
    ensures r.Some? ==>
              |r.value| == |tiers| && forall i :: 0 <= i < |tiers| ==> RowFilled(active, columns, tiers[i], r.value[i])
    ensures r.None? ==> BadCell(active, columns, tiers)
  {
    var cells: seq<seq<nat>> := [];
    for i := 0 to |tiers|
      invariant |cells| == i
      invariant forall k :: 0 <= k < i ==> RowFilled(active, columns, tiers[k], cells[k])
    {
      var row := FillRow(active, columns, tiers[i]);
      if row.None? {
        assert tiers[i] in tiers;
        return None;
      }
      cells := cells + [row.value];
    }
    r := Some(cells);
  }

  /** The loop over the active rules; None when one of them cannot be shown. */
  method CollectLabels(active: seq<Rule>) returns (r: Option<(seq<TimeLabel>, seq<Tier>)>)
    ensures r.None? <==> exists i :: 0 <= i < |active| && Foreign(active[i])
    ensures r.Some? ==> r.value == (Columns(active, active), Tiers(active))
  {
    var columns, tiers := [], [];
    for i := 0 to |active|
      invariant columns == Columns(active[..i], active) && tiers == Tiers(active[..i])
      invariant forall k :: 0 <= k < i ==> !Foreign(active[k])
    {
      assert active[..i + 1][..i] == active[..i];
      if Foreign(active[i]) {
        return None;
      }
      var time, tier := LabelOf(active[i], active), TierOf(active[i]);
      if time !in columns {
        columns := columns + [time];
      }
      if tier !in tiers {
        tiers := tiers + [tier];
      }
    }
    assert active[..|active|] == active;
    r := Some((columns, tiers));
  }

  /** `buildPriceRuleOverview`: None stands for "show the rules one by one instead". */
  method BuildPriceRuleOverview(rules: seq<Rule>) returns (r: Option<Overview>)
    ensures r.Some? ==> Drawable(Active(rules)) && Filled(Active(rules), r.value)
    ensures r.None? ==> !Drawable(Active(rules)) || forall o :: !Filled(Active(rules), o)
  {
    var active := ActiveRules(rules);
    if |active| == 0 {
      return None;
    }
    var labels := CollectLabels(active);
    if labels.None? {
      return None;
    }
    var (columns, tiers) := labels.value;
    if !Chained(SortedRanges(tiers)) || Shadowed(active) || |columns| > 3 || |tiers| > 6
       || (|columns| > 1 && MixedWindows(active))
    {
      return None;
    }
    var cells := FillCells(active, columns, tiers);
    if cells.None? {
      BadCellIsNotFilled(active);
      return None;
    }
    r := Some(Overview(columns, tiers, cells.value));
  }

  // ---------- The matrix is faithful ----------

  /** The row that holds a number of tokens; None when the matrix does not cover it. */
  ghost predicate RowFor(o: Overview, n: nat, i: int) {
    0 <= i < |o.tiers| && i < |o.cells| && InTier(o.tiers[i], n)
  }

  /** The id stands in a column with a window that is open. */
  predicate OpenPeak(o: Overview, i: nat, open: set<nat>, id: nat)
    requires i < |o.cells|
  {
    id in open && exists j :: 0 <= j < |o.columns| && j < |o.cells[i]| && o.columns[j].During? && o.cells[i][j] == id
  }

  /** The rule id the matrix shows for a row: the open peak window first, else the column without one. */
  ghost predicate Shown(o: Overview, i: nat, open: set<nat>, id: nat)
    requires i < |o.cells|
  {
    || OpenPeak(o, i, open, id)
    || ((forall other :: !OpenPeak(o, i, open, other))
        && exists j :: 0 <= j < |o.columns| && j < |o.cells[i]| && !o.columns[j].During? && o.cells[i][j] == id)
  }

  lemma {:induction false} CellRulesMembers(rules: seq<Rule>, active: seq<Rule>, tier: Tier, time: TimeLabel)
    ensures forall r :: r in CellRules(rules, active, tier, time)
              <==> r in rules && TierOf(r) == tier && LabelOf(r, active) == time
  {
    if rules != [] {
      var front, last := rules[..|rules| - 1], rules[|rules| - 1];
      assert rules == front + [last];
      CellRulesMembers(front, active, tier, time);
    }
  }

  /** The one rule of a cell. */
  lemma {:induction false} CellRule(active: seq<Rule>, o: Overview, i: nat, j: nat) returns (r: Rule)
    requires Filled(active, o) && i < |o.tiers| && j < |o.columns|
    ensures r in active && r.id == o.cells[i][j] && TierOf(r) == o.tiers[i] && LabelOf(r, active) == o.columns[j]
    ensures forall x :: x in active && TierOf(x) == o.tiers[i] && LabelOf(x, active) == o.columns[j] ==> x == r
  {
    assert RowFilled(active, o.columns, o.tiers[i], o.cells[i]);
    var found := CellRules(active, active, o.tiers[i], o.columns[j]);
    CellRulesMembers(active, active, o.tiers[i], o.columns[j]);
    r := found[0];
    assert r in found;
    assert forall x :: x in found ==> x == r;
  }

  lemma {:induction false} SiblingFound(r: Rule, active: seq<Rule>, peak: Rule)
    requires peak in active && r.window.None? && peak.window.Some? && peak.id != r.id && SameTier(peak, r)
    ensures HasPeakSibling(r, active)
  {
    var i :| 0 <= i < |active| && active[i] == peak;
  }

  /**
   A rule with a window is labelled with it, a rule without one "other times" when some rule with a window has its
   length bounds, and else "unlimited".
   */
  lemma {:induction false} LabelIff(active: seq<Rule>, r: Rule)
    requires DistinctIds(active) && r in active
    ensures LabelOf(r, active).During? ==> r.window == Some(LabelOf(r, active).window)
    ensures LabelOf(r, active).During? <==> r.window.Some?
    ensures LabelOf(r, active).OtherTimes?
       <==> r.window.None?
            && exists peak :: peak in active && peak.window.Some? && peak.min == r.min && peak.max == r.max
  {
    if r.window.None? {
      if peak :| peak in active && peak.window.Some? && peak.min == r.min && peak.max == r.max {
        IdsDiffer(active, peak, r);
        SiblingFound(r, active, peak);
      }
      if HasPeakSibling(r, active) {
        var i :| 0 <= i < |active| && active[i].id != r.id && active[i].window.Some? && SameTier(active[i], r);
        assert active[i] in active;
      }
    }
  }

  lemma {:induction false} IdsIdentify(active: seq<Rule>, a: Rule, b: Rule)
    requires DistinctIds(active) && a in active && b in active && a.id == b.id
    ensures a == b
  {
    var i :| 0 <= i < |active| && active[i] == a;
    var j :| 0 <= j < |active| && active[j] == b;
  }

  lemma {:induction false} SameWindow(active: seq<Rule>, a: Rule, b: Rule)
    requires DistinctIds(active) && !MixedWindows(active) && a in active && b in active && a.window.Some?
    requires b.window.Some?
    ensures a.window == b.window
  {
    var x :| 0 <= x < |active| && active[x] == a;
    var y :| 0 <= y < |active| && active[y] == b;
    if a.id == b.id {
      IdsIdentify(active, a, b);
    }
  }

  /** In a drawn matrix all columns with a window have the same one. */
  lemma {:induction false} OneWindow(active: seq<Rule>, o: Overview, j: nat, k: nat)
    requires DistinctIds(active) && Drawable(active) && Filled(active, o)
    requires j < |o.columns| && k < |o.columns| && o.columns[j].During? && o.columns[k].During?
    ensures j == k
  {
    ColumnsMembers(active, active);
    if |o.columns| > 1 {
      var a := FirstRowRule(active, o, j);
      var b := FirstRowRule(active, o, k);
      SameWindow(active, a, b);
      assert o.columns[j] == o.columns[k];
    }
  }

  /** The first row's rule in a column. */
  lemma {:induction false} FirstRowRule(active: seq<Rule>, o: Overview, j: nat) returns (r: Rule)
    requires Drawable(active) && Filled(active, o) && j < |o.columns|
    ensures o.tiers != [] && r in active && TierOf(r) == o.tiers[0] && LabelOf(r, active) == o.columns[j]
  {
    TiersMembers(active);
    assert TierOf(active[0]) in o.tiers;
    r := CellRule(active, o, 0, j);
  }

  /** A rule with a restricted rule in its tier is not labelled "unlimited". */
  lemma {:induction false} NotUnlimited(active: seq<Rule>, r: Rule, x: Rule)
    requires DistinctIds(active) && r in active && x in active && TierOf(r) == TierOf(x)
    requires LabelOf(r, active).Unlimited?
    ensures LabelOf(x, active).Unlimited?
  {
    if LabelOf(x, active).During? {
      IdsDiffer(active, x, r);
      SiblingFound(r, active, x);
    } else if LabelOf(x, active).OtherTimes? {
      var i :| 0 <= i < |active| && active[i].id != x.id && active[i].window.Some? && SameTier(active[i], x);
      IdsDiffer(active, active[i], r);
      SiblingFound(r, active, active[i]);
    }
  }

  /** The "unlimited" column is the only kind of column where it occurs. */
  lemma {:induction false} UnlimitedStandsAlone(active: seq<Rule>, o: Overview, j: nat, k: nat)
    requires DistinctIds(active) && Drawable(active) && Filled(active, o)
    requires j < |o.columns| && k < |o.columns| && o.columns[j].Unlimited?
    ensures o.columns[k].Unlimited?
  {
    var u := FirstRowRule(active, o, j);
    var x := FirstRowRule(active, o, k);
    NotUnlimited(active, u, x);
  }

  lemma {:induction false} IdsDiffer(active: seq<Rule>, a: Rule, b: Rule)
    requires DistinctIds(active) && a in active && b in active && a.window.Some? && b.window.None?
    ensures a.id != b.id
  {
    if a.id == b.id {
      IdsIdentify(active, a, b);
    }
  }

  /** At most one column is without a window. */
  lemma {:induction false} OneColumnWithoutWindow(active: seq<Rule>, o: Overview, j: nat, k: nat)
    requires DistinctIds(active) && Drawable(active) && Filled(active, o)
    requires j < |o.columns| && k < |o.columns| && !o.columns[j].During? && !o.columns[k].During?
    ensures j == k
  {
    ColumnsMembers(active, active);
    if o.columns[j].Unlimited? {
      UnlimitedStandsAlone(active, o, j, k);
    } else if o.columns[k].Unlimited? {
      UnlimitedStandsAlone(active, o, k, j);
    }
  }

  /** The tiers of rules that can be shown have integer bounds. */
  lemma {:induction false} DrawableTiersAreExact(active: seq<Rule>)
    requires Drawable(active)
    ensures Exact(Tiers(active))
  {
    TiersMembers(active);
    forall i | 0 <= i < |Tiers(active)|
      ensures !Tiers(active)[i].min.Unsafe? && !Tiers(active)[i].max.Unsafe?
    {
      assert Tiers(active)[i] in Tiers(active);
    }
  }

  /** A rule that applies has the tier of the row, and stands in one of its cells. */
  lemma {:induction false} ApplicableRuleHasCell(active: seq<Rule>, o: Overview, i: nat, n: nat, r: Rule)
    returns (j: nat)
    requires Drawable(active) && Filled(active, o) && RowFor(o, n, i) && r in active && InTier(TierOf(r), n)
    ensures j < |o.columns| && o.columns[j] == LabelOf(r, active) && TierOf(r) == o.tiers[i] && o.cells[i][j] == r.id
  {
    TiersMembers(active);
    ColumnsMembers(active, active);
    DrawableTiersAreExact(active);
    assert TierOf(r) in o.tiers && LabelOf(r, active) in o.columns;
    var k :| 0 <= k < |o.tiers| && o.tiers[k] == TierOf(r);
    if k < i {
      ChainedTiersAreDisjoint(o.tiers, k, i, n);
    } else if i < k {
      ChainedTiersAreDisjoint(o.tiers, i, k, n);
    }
    j :| 0 <= j < |o.columns| && o.columns[j] == LabelOf(r, active);
    var x := CellRule(active, o, i, j);
  }

  /** A restricted and an unrestricted rule of one tier. */
  predicate PeakAndFallback(peak: Rule, fallback: Rule) {
    peak.window.Some? && fallback.window.None? && SameTier(peak, fallback)
  }

  /** For `n` tokens, a peak rule that counts comes before the fallback of its tier, if that counts too. */
  ghost predicate PeaksFirst(active: seq<Rule>, order: (Rule, Rule) -> bool, counts: Rule -> bool, n: nat) {
    forall peak, fallback :: peak in active && fallback in active && PeakAndFallback(peak, fallback)
                             && InTier(TierOf(peak), n) ==>
                               counts(peak) && counts(fallback) ==> order(peak, fallback)
  }

  /** Every rule whose tier holds `n` counts. */
  ghost predicate AllCount(active: seq<Rule>, counts: Rule -> bool, n: nat) {
    forall r :: r in active && InTier(TierOf(r), n) ==> counts(r)
  }

  ghost predicate Asymmetric(order: (Rule, Rule) -> bool) {
    forall a, b :: order(a, b) ==> !order(b, a)
  }

  /** What is drawn: an overview of rules with ids of their own. */
  ghost predicate Drawn(active: seq<Rule>, o: Overview) {
    DistinctIds(active) && Drawable(active) && Filled(active, o)
  }

  /** Next to a fallback that is the first match, no peak window of the row is open. */
  lemma {:induction false} NoOpenPeak(active: seq<Rule>, o: Overview, order: (Rule, Rule) -> bool, counts: Rule -> bool,
                                      n: nat, open: set<nat>, met: set<nat>, r: Rule, i: nat, id: nat)
    requires Drawn(active, o) && PeaksFirst(active, order, counts, n) && AllCount(active, counts, n)
    requires Asymmetric(order)
    requires FirstMatch(active, order, counts, n, open, met, r)
    requires RowFor(o, n, i) && TierOf(r) == o.tiers[i] && r.window.None?
    ensures !OpenPeak(o, i, open, id)
  {
    if k :| 0 <= k < |o.columns| && k < |o.cells[i]| && o.columns[k].During? && o.cells[i][k] == id {
      var p := CellRule(active, o, i, k);
      assert PeakAndFallback(p, r);
      assert order(p, r) && !order(r, p);
    }
  }

  /** The first match stands in the row of its tier, where the matrix shows it. */
  lemma {:induction false} FirstMatchIsShown(active: seq<Rule>, o: Overview, order: (Rule, Rule) -> bool,
                                             counts: Rule -> bool, n: nat, open: set<nat>, met: set<nat>, r: Rule)
    returns (i: nat)
    requires Drawn(active, o) && PeaksFirst(active, order, counts, n) && AllCount(active, counts, n)
    requires Asymmetric(order)
    requires FirstMatch(active, order, counts, n, open, met, r)
    ensures RowFor(o, n, i) && Shown(o, i, open, r.id)
  {
    i := TierRow(active, o, r);
    var j := ApplicableRuleHasCell(active, o, i, n, r);
    assert |o.cells[i]| == |o.columns| by {
      assert RowFilled(active, o.columns, o.tiers[i], o.cells[i]);
    }
    if r.window.None? {
      forall other
        ensures !OpenPeak(o, i, open, other)
      {
        NoOpenPeak(active, o, order, counts, n, open, met, r, i, other);
      }
    }
  }

  lemma {:induction false} TierRow(active: seq<Rule>, o: Overview, r: Rule) returns (i: nat)
    requires Drawn(active, o) && r in active
    ensures i < |o.tiers| && o.tiers[i] == TierOf(r)
  {
    TiersMembers(active);
    assert TierOf(r) in o.tiers;
    i :| i < |o.tiers| && o.tiers[i] == TierOf(r);
  }

  /** Beside the rule shown, the only other rule that can apply is the fallback of its tier. */
  lemma {:induction false} RivalIsFallback(active: seq<Rule>, o: Overview, n: nat, open: set<nat>, met: set<nat>,
                                           r: Rule, i: nat, other: Rule)
    requires Drawn(active, o) && r in active && RowFor(o, n, i) && Shown(o, i, open, r.id)
    requires other in active && other != r && Applies(other, n, open, met)
    ensures PeakAndFallback(r, other) && InTier(TierOf(r), n)
  {
    var j := ShownColumn(o, i, open, r.id);
    var x := CellRule(active, o, i, j);
    IdsIdentify(active, x, r);
    var k := ApplicableRuleHasCell(active, o, i, n, other);
    ColumnsDiffer(active, o, i, j, k, r, other);
    assert |o.cells[i]| == |o.columns| by {
      assert RowFilled(active, o.columns, o.tiers[i], o.cells[i]);
    }
    if o.columns[j].During? {
      OnlyOneDuring(active, o, j, k);
    } else {
      assert !OpenPeak(o, i, open, other.id);
      OnlyOneWithoutWindow(active, o, j, k);
    }
  }

  lemma {:induction false} ColumnsDiffer(active: seq<Rule>, o: Overview, i: nat, j: nat, k: nat, r: Rule, other: Rule)
    requires Drawn(active, o) && r in active && other in active && r != other && i < |o.cells| && j < |o.cells[i]|
    requires k < |o.cells[i]|
    requires o.cells[i][j] == r.id && o.cells[i][k] == other.id
    ensures j != k
  {
    if r.id == other.id {
      IdsIdentify(active, r, other);
    }
  }

  lemma {:induction false} OnlyOneDuring(active: seq<Rule>, o: Overview, j: nat, k: nat)
    requires Drawn(active, o) && j < |o.columns| && k < |o.columns| && j != k && o.columns[j].During?
    ensures !o.columns[k].During?
  {
    if o.columns[k].During? {
      OneWindow(active, o, j, k);
    }
  }

  lemma {:induction false} OnlyOneWithoutWindow(active: seq<Rule>, o: Overview, j: nat, k: nat)
    requires Drawn(active, o) && j < |o.columns| && k < |o.columns| && j != k && !o.columns[j].During?
    ensures o.columns[k].During?
  {
    if !o.columns[k].During? {
      OneColumnWithoutWindow(active, o, j, k);
    }
  }

  /** What the matrix shows for a row is the first match there, if it counts. */
  lemma {:induction false} ShownIsFirstMatch(active: seq<Rule>, o: Overview, order: (Rule, Rule) -> bool,
                                             counts: Rule -> bool, n: nat, open: set<nat>, met: set<nat>, r: Rule,
                                             i: nat)
    requires Drawn(active, o) && PeaksFirst(active, order, counts, n) && r in active && counts(r)
    requires RowFor(o, n, i) && Shown(o, i, open, r.id)
    ensures FirstMatch(active, order, counts, n, open, met, r)
  {
    ShownApplies(active, o, n, open, met, r, i);
    forall other | other in active && other != r && Applies(other, n, open, met) && counts(other)
      ensures order(r, other)
    {
      RivalIsFallback(active, o, n, open, met, r, i, other);
    }
  }

  lemma {:induction false} ShownApplies(active: seq<Rule>, o: Overview, n: nat, open: set<nat>, met: set<nat>, r: Rule,
                                        i: nat)
    requires Drawn(active, o) && r in active && RowFor(o, n, i) && Shown(o, i, open, r.id)
    ensures Applies(r, n, open, met)
  {
    var j := ShownColumn(o, i, open, r.id);
    var x := CellRule(active, o, i, j);
    IdsIdentify(active, x, r);
  }

  /** The column a shown id stands in. A column without window is shown only when no peak window is open. */
  lemma {:induction false} ShownColumn(o: Overview, i: nat, open: set<nat>, id: nat) returns (j: nat)
    requires i < |o.cells| && Shown(o, i, open, id)
    ensures j < |o.columns| && j < |o.cells[i]| && o.cells[i][j] == id
    ensures o.columns[j].During? ==> id in open
    ensures !o.columns[j].During? ==> forall other :: !OpenPeak(o, i, open, other)
  {
    if OpenPeak(o, i, open, id) {
      j :| 0 <= j < |o.columns| && j < |o.cells[i]| && o.columns[j].During? && o.cells[i][j] == id;
    } else {
      j :| 0 <= j < |o.columns| && j < |o.cells[i]| && !o.columns[j].During? && o.cells[i][j] == id;
    }
  }

  /** For `n` tokens, whichever windows are open and other conditions met, the rule shown is the first match. */
  ghost predicate Faithful(active: seq<Rule>, o: Overview, order: (Rule, Rule) -> bool, counts: Rule -> bool, n: nat) {
    forall open, met, r :: r in active ==>
                        (FirstMatch(active, order, counts, n, open, met, r) <==>
                           exists i: nat :: RowFor(o, n, i) && Shown(o, i, open, r.id))
  }

  lemma {:induction false} PeaksFirstIsFaithful(active: seq<Rule>, o: Overview, order: (Rule, Rule) -> bool,
                                                counts: Rule -> bool, n: nat)
    requires Drawn(active, o) && PeaksFirst(active, order, counts, n) && AllCount(active, counts, n)
    requires Asymmetric(order)
    ensures Faithful(active, o, order, counts, n)
  {
    forall open, met, r | r in active
      ensures FirstMatch(active, order, counts, n, open, met, r)
         <==> exists i: nat :: RowFor(o, n, i) && Shown(o, i, open, r.id)
    {
      if FirstMatch(active, order, counts, n, open, met, r) {
        var i := FirstMatchIsShown(active, o, order, counts, n, open, met, r);
      }
      if i: nat :| RowFor(o, n, i) && Shown(o, i, open, r.id) {
        ShownInTier(active, o, n, open, r, i);
        ShownIsFirstMatch(active, o, order, counts, n, open, met, r, i);
      }
    }
  }

  lemma {:induction false} ShownInTier(active: seq<Rule>, o: Overview, n: nat, open: set<nat>, r: Rule, i: nat)
    requires Drawn(active, o) && r in active && RowFor(o, n, i) && Shown(o, i, open, r.id)
    ensures TierOf(r) == o.tiers[i]
  {
    var j := ShownColumn(o, i, open, r.id);
    var x := CellRule(active, o, i, j);
    IdsIdentify(active, x, r);
  }

  /**
   Whenever a matrix is drawn, its tiers are disjoint, and for every length, whichever windows are open and
   whichever other conditions the request meets, it shows exactly the first match in the listed order.
   */
  lemma {:induction false} MatrixIsFaithful(rules: seq<Rule>, o: Overview, n: nat)
    requires DistinctIds(rules) && Drawable(Active(rules)) && Filled(Active(rules), o)
    ensures forall i, j :: 0 <= i < j < |o.tiers| && RowFor(o, n, i) ==> !RowFor(o, n, j)
    ensures Faithful(Active(rules), o, Before, Any, n)
  {
    var active := Active(rules);
    ActiveMembers(rules);
    DrawableTiersAreExact(active);
    forall i, j | 0 <= i < j < |o.tiers| && RowFor(o, n, i)
      ensures !RowFor(o, n, j)
    {
      ChainedTiersAreDisjoint(o.tiers, i, j, n);
    }
    forall peak, fallback | peak in active && fallback in active && PeakAndFallback(peak, fallback)
      ensures Before(peak, fallback)
    {
      PeakIsBefore(active, peak, fallback);
    }
    PeaksFirstIsFaithful(active, o, Before, Any, n);
  }

  lemma {:induction false} PeakIsBefore(active: seq<Rule>, peak: Rule, fallback: Rule)
    requires DistinctIds(active) && Drawable(active) && peak in active && fallback in active
    requires PeakAndFallback(peak, fallback)
    ensures Before(peak, fallback)
  {
    ShadowedIff(active);
  }

  /** No length bound, or an integer that JavaScript holds exactly. */
  predicate PlainBound(b: Bound) {
    b.Absent? || (b.Limit? && b.n <= 9_007_199_254_740_991)
  }

  lemma {:induction false} TiersHoldSome(active: seq<Rule>)
    requires forall r :: r in active ==> HoldsSome(RangeOf(TierOf(r))) && PlainBound(r.min) && PlainBound(r.max)
    ensures Exact(Tiers(active)) && forall t :: t in Tiers(active) ==> HoldsSome(RangeOf(t))
    ensures Tiers(active) != [] <==> active != []
  {
    TiersMembers(active);
    if active != [] {
      assert active[0] in active && TierOf(active[0]) in Tiers(active);
    }
    forall i | 0 <= i < |Tiers(active)|
      ensures !Tiers(active)[i].min.Unsafe? && !Tiers(active)[i].max.Unsafe?
    {
      assert Tiers(active)[i] in Tiers(active);
    }
  }

  lemma {:induction false} ForeignIff(active: seq<Rule>)
    ensures (forall i :: 0 <= i < |active| ==> !Foreign(active[i]))
       <==> forall r :: r in active ==> !r.extra && PlainBound(r.min) && PlainBound(r.max)
  {
    forall r | r in active
      ensures !Foreign(r) <==> !r.extra && PlainBound(r.min) && PlainBound(r.max)
    {
    }
    assert forall i :: 0 <= i < |active| ==> active[i] in active;
  }

  lemma {:induction false} ShadowedIff(active: seq<Rule>)
    requires DistinctIds(active)
    ensures !Shadowed(active)
       <==> forall peak, fallback :: peak in active && fallback in active && PeakAndFallback(peak, fallback) ==>
                                       Before(peak, fallback)
  {
    if !Shadowed(active) {
      forall peak, fallback | peak in active && fallback in active && PeakAndFallback(peak, fallback)
        ensures Before(peak, fallback)
      {
        IdsDiffer(active, peak, fallback);
        var i :| 0 <= i < |active| && active[i] == fallback;
        var j :| 0 <= j < |active| && active[j] == peak;
        assert SameTier(active[i], active[j]) && active[j].id != active[i].id;
      }
    } else {
      var i, j :| 0 <= i < |active| && 0 <= j < |active|
                  && active[i].window.None? && active[j].window.Some? && active[j].id != active[i].id
                  && SameTier(active[i], active[j]) && !Before(active[j], active[i]);
      assert PeakAndFallback(active[j], active[i]) && active[i] in active && active[j] in active;
    }
  }

  lemma {:induction false} MixedIff(active: seq<Rule>)
    requires DistinctIds(active)
    ensures !MixedWindows(active)
       <==> forall a, b :: a in active && b in active && a.window.Some? && b.window.Some? ==> a.window == b.window
  {
    if !MixedWindows(active) {
      forall a, b | a in active && b in active && a.window.Some? && b.window.Some?
        ensures a.window == b.window
      {
        SameWindow(active, a, b);
      }
    } else {
      var i, j :| 0 <= i < |active| && 0 <= j < |active| && active[j].id != active[i].id
                  && active[i].window.Some? && active[j].window.Some? && active[i].window != active[j].window;
      assert active[i] in active && active[j] in active;
    }
  }

  /**
   Which rules, their length bounds not crossed, can be drawn as a matrix, cells aside: there is one; all have
   only plain length bounds and windows; every number of tokens up to the greatest one belongs to exactly one
   tier; a peak rule stands before the fallback of its tier; there are at most three columns and six tiers; and
   beside another column all windows are the same.
   */
  lemma {:induction false} DrawableIff(active: seq<Rule>)
    requires DistinctIds(active) && forall r :: r in active ==> HoldsSome(RangeOf(TierOf(r)))
    ensures Drawable(active)
       <==> && active != []
            && (forall r :: r in active ==> !r.extra && PlainBound(r.min) && PlainBound(r.max))
            && OnceUpTo(HoldingTiersOf(Tiers(active)))
            && (forall peak, fallback :: peak in active && fallback in active && PeakAndFallback(peak, fallback) ==>
                                           Before(peak, fallback))
            && |Columns(active, active)| <= 3 && |Tiers(active)| <= 6
            && (|Columns(active, active)| > 1 ==>
                  forall a, b :: a in active && b in active && a.window.Some? && b.window.Some? ==>
                                   a.window == b.window)
  {
    ForeignIff(active);
    ShadowedIff(active);
    MixedIff(active);
    if forall r :: r in active ==> !r.extra && PlainBound(r.min) && PlainBound(r.max) {
      TiersHoldSome(active);
      ChainedIff(Tiers(active));
    }
  }

  // ---------- The matrix and billing ----------

  /** A manual fallback with the priority of a synchronised peak rule in the same tier, which holds `n`. */
  ghost predicate ManualFallback(active: seq<Rule>, n: nat, peak: Rule, fallback: Rule) {
    && peak in active && fallback in active && PeakAndFallback(peak, fallback) && InTier(TierOf(peak), n)
    && peak.priority == fallback.priority && fallback.manual && !peak.manual
  }

  /** In a drawn matrix billing tries the peak rule first unless the fallback is such a manual one. */
  lemma {:induction false} BilledFirstIff(active: seq<Rule>, n: nat, peak: Rule, fallback: Rule)
    requires DistinctIds(active) && Drawable(active) && peak in active && fallback in active
    requires PeakAndFallback(peak, fallback) && InTier(TierOf(peak), n)
    ensures BilledBefore(peak, fallback) <==> !ManualFallback(active, n, peak, fallback)
    ensures BilledBefore(fallback, peak) <==> ManualFallback(active, n, peak, fallback)
  {
    PeakIsBefore(active, peak, fallback);
  }

  /**
   Billing passes over rules that cannot be billed, and puts manual rules first at equal priority;
   the matrix looks at neither. For `n` tokens of any usage, a drawn matrix shows what is billed, whichever
   windows are open, if and only if every rule whose tier holds `n` can be billed for that usage and no
   manual fallback of such a tier shares its priority with a synchronised peak rule.
   */
  lemma {:induction false} MatrixShowsBillingIff(rules: seq<Rule>, o: Overview, n: nat, prices: Rule -> bool)
    requires DistinctIds(rules) && Drawable(Active(rules)) && Filled(Active(rules), o)
    ensures Faithful(Active(rules), o, BilledBefore, Billable(prices), n)
       <==> AllCount(Active(rules), Billable(prices), n)
            && forall peak, fallback :: !ManualFallback(Active(rules), n, peak, fallback)
  {
    var active, counts := Active(rules), Billable(prices);
    ActiveMembers(rules);
    if Faithful(active, o, BilledBefore, counts, n) {
      forall r | r in active && InTier(TierOf(r), n)
        ensures counts(r)
      {
        var open, i := ShownSometimes(active, o, r, n);
        assert FirstMatch(active, BilledBefore, counts, n, open, {}, r);
      }
      forall peak, fallback
        ensures !ManualFallback(active, n, peak, fallback)
      {
        if ManualFallback(active, n, peak, fallback) {
          var i := PeakIsShown(active, o, peak, n, {peak.id});
          assert FirstMatch(active, BilledBefore, counts, n, {peak.id}, {}, peak);
          BilledPeakHasNoManual(active, n, counts, peak, fallback);
        }
      }
    } else {
      if AllCount(active, counts, n) && forall peak, fallback :: !ManualFallback(active, n, peak, fallback) {
        BilledPeaksFirst(active, n, counts);
        PeaksFirstIsFaithful(active, o, BilledBefore, counts, n);
      }
    }
  }

  lemma {:induction false} BilledPeakHasNoManual(active: seq<Rule>, n: nat, counts: Rule -> bool, peak: Rule,
                                                 fallback: Rule)
    requires Drawable(active) && AllCount(active, counts, n)
    requires FirstMatch(active, BilledBefore, counts, n, {peak.id}, {}, peak)
    ensures !ManualFallback(active, n, peak, fallback)
  {
  }

  lemma {:induction false} BilledPeaksFirst(active: seq<Rule>, n: nat, counts: Rule -> bool)
    requires DistinctIds(active) && Drawable(active)
    requires forall peak, fallback :: ManualFallback(active, n, peak, fallback) ==> !counts(peak) || !counts(fallback)
    ensures PeaksFirst(active, BilledBefore, counts, n)
  {
    forall peak, fallback | peak in active && fallback in active && PeakAndFallback(peak, fallback)
                            && InTier(TierOf(peak), n) && counts(peak) && counts(fallback)
      ensures BilledBefore(peak, fallback)
    {
      BilledFirstIff(active, n, peak, fallback);
    }
  }

  /**
   When the rule shown can be billed at all: a drawn matrix shows only what is billed, for `n` tokens of any
   usage and whichever windows are open, if and only if no manual fallback and synchronised peak rule of
   one priority in a tier that holds `n` can both be billed.
   */
  lemma {:induction false} ShownIsBilledIff(rules: seq<Rule>, o: Overview, n: nat, prices: Rule -> bool)
    requires DistinctIds(rules) && Drawable(Active(rules)) && Filled(Active(rules), o)
    ensures (forall open, met, i: nat, r :: r in Active(rules) && RowFor(o, n, i) && Shown(o, i, open, r.id)
                                            && Billable(prices)(r) ==>
                                              FirstMatch(Active(rules), BilledBefore, Billable(prices), n, open, met,
                                                         r))
       <==> forall peak, fallback :: ManualFallback(Active(rules), n, peak, fallback) ==>
                                       !Billable(prices)(peak) || !Billable(prices)(fallback)
  {
    var active, counts := Active(rules), Billable(prices);
    ActiveMembers(rules);
    if peak, fallback :| ManualFallback(active, n, peak, fallback) && counts(peak) && counts(fallback) {
      ManualFallbackIsBilledFirst(active, o, n, {}, prices, peak, fallback);
      BilledFirstIff(active, n, peak, fallback);
      assert !FirstMatch(active, BilledBefore, counts, n, {peak.id}, {}, peak);
    } else {
      BilledPeaksFirst(active, n, counts);
      forall open, met, i: nat, r | r in active && RowFor(o, n, i) && Shown(o, i, open, r.id) && counts(r)
        ensures FirstMatch(active, BilledBefore, counts, n, open, met, r)
      {
        ShownIsFirstMatch(active, o, BilledBefore, counts, n, open, met, r, i);
      }
    }
  }

  /** Every rule whose tier holds `n` is shown at some moment. */
  lemma {:induction false} ShownSometimes(active: seq<Rule>, o: Overview, r: Rule, n: nat)
    returns (open: set<nat>, i: nat)
    requires Drawn(active, o) && r in active && InTier(TierOf(r), n)
    ensures RowFor(o, n, i) && Shown(o, i, open, r.id)
  {
    if r.window.Some? {
      open := {r.id};
      i := PeakIsShown(active, o, r, n, open);
    } else {
      open := {};
      i := TierRow(active, o, r);
      var j := ApplicableRuleHasCell(active, o, i, n, r);
      assert RowFilled(active, o.columns, o.tiers[i], o.cells[i]);
    }
  }

  lemma {:induction false} PeakIsShown(active: seq<Rule>, o: Overview, peak: Rule, n: nat, open: set<nat>)
    returns (i: nat)
    requires Drawn(active, o) && peak in active && peak.window.Some? && peak.id in open && InTier(TierOf(peak), n)
    ensures RowFor(o, n, i) && Shown(o, i, open, peak.id)
  {
    i := TierRow(active, o, peak);
    var j := ApplicableRuleHasCell(active, o, i, n, peak);
    assert RowFilled(active, o.columns, o.tiers[i], o.cells[i]);
    assert OpenPeak(o, i, open, peak.id);
  }

  /** A tier with a peak rule and a fallback has no third rule. */
  lemma {:induction false} NoThirdRule(active: seq<Rule>, o: Overview, n: nat, peak: Rule, fallback: Rule, other: Rule)
    requires Drawn(active, o) && peak in active && fallback in active && other in active
    requires PeakAndFallback(peak, fallback) && InTier(TierOf(peak), n) && InTier(TierOf(other), n)
    ensures other == peak || other == fallback
  {
    var i := TierRow(active, o, peak);
    var j := ApplicableRuleHasCell(active, o, i, n, peak);
    var k := ApplicableRuleHasCell(active, o, i, n, fallback);
    var l := ApplicableRuleHasCell(active, o, i, n, other);
    if o.columns[l].During? {
      OneWindow(active, o, l, j);
      IdsIdentify(active, other, peak);
    } else {
      OneColumnWithoutWindow(active, o, l, k);
      IdsIdentify(active, other, fallback);
    }
  }

  /**
   With the peak window open the matrix shows the peak rule, and the fallback is billed instead exactly when
   it can be billed and the peak rule cannot, or is tried later.
   */
  lemma {:induction false} FallbackIsBilledIff(active: seq<Rule>, o: Overview, n: nat, met: set<nat>,
                                               prices: Rule -> bool, peak: Rule, fallback: Rule)
    requires Drawn(active, o) && peak in active && fallback in active && PeakAndFallback(peak, fallback)
    requires InTier(TierOf(peak), n)
    ensures exists i: nat :: RowFor(o, n, i) && Shown(o, i, {peak.id}, peak.id)
    ensures FirstMatch(active, BilledBefore, Billable(prices), n, {peak.id}, met, fallback)
       <==> Billable(prices)(fallback) && (Billable(prices)(peak) ==> ManualFallback(active, n, peak, fallback))
  {
    var i := PeakIsShown(active, o, peak, n, {peak.id});
    BilledFirstIff(active, n, peak, fallback);
    assert peak != fallback && Applies(peak, n, {peak.id}, met) && Applies(fallback, n, {peak.id}, met);
    forall other | other in active && Applies(other, n, {peak.id}, met)
      ensures other == peak || other == fallback
    {
      NoThirdRule(active, o, n, peak, fallback, other);
    }
  }

  /**
   With its window open, a peak rule beside a manual fallback is shown although the fallback is billed, if it can be.
   */
  lemma {:induction false} ManualFallbackIsBilledFirst(active: seq<Rule>, o: Overview, n: nat, met: set<nat>,
                                                       prices: Rule -> bool, peak: Rule, fallback: Rule)
    requires Drawn(active, o) && ManualFallback(active, n, peak, fallback) && Billable(prices)(fallback)
    ensures exists i: nat :: RowFor(o, n, i) && Shown(o, i, {peak.id}, peak.id)
    ensures FirstMatch(active, BilledBefore, Billable(prices), n, {peak.id}, met, fallback)
  {
    FallbackIsBilledIff(active, o, n, met, prices, peak, fallback);
  }

  /**
   So is a peak rule whose time block is invalid or whose rates price nothing of the usage, whoever made the rules.
   */
  lemma {:induction false} UnbillablePeakIsShown(active: seq<Rule>, o: Overview, n: nat, met: set<nat>,
                                                 prices: Rule -> bool, peak: Rule, fallback: Rule)
    requires Drawn(active, o) && peak in active && fallback in active && PeakAndFallback(peak, fallback)
    requires InTier(TierOf(peak), n)
    requires !fallback.invalid && prices(fallback) && (peak.invalid || !prices(peak))
    ensures exists i: nat :: RowFor(o, n, i) && Shown(o, i, {peak.id}, peak.id)
    ensures FirstMatch(active, BilledBefore, Billable(prices), n, {peak.id}, met, fallback)
  {
    FallbackIsBilledIff(active, o, n, met, prices, peak, fallback);
  }
}
