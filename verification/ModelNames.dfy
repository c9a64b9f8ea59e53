/**
 Matching an upstream model name against the local names: a three-map index, and the ranked linear
 scan it has to agree with.
 */
module ModelNames {
  import opened GoStrings

  // ---------- Normalisation ----------

  const PEFT := ":peft:"
  const SAMPLING := ":sampling-"

  /** The text in front of the first occurrence. */
  function CutAt(s: string, pattern: string): (r: string)
    ensures r <= s
  {
    match Index(s, pattern) case None => s case Some(i) => s[..i]
  }

  /** One round of the stripping loop. */
  function Strip(s: string): (r: string)
    ensures r <= s
  {
    CutAt(CutAt(s, PEFT), SAMPLING)
  }

  function LastSegment(s: string): string {
    match LastIndexOf(s, '/') case None => s case Some(i) => s[i + 1..]
  }

  function Normalize(name: string): string {
    Trim(LastSegment(Strip(ToLower(Trim(name)))))
  }

  lemma {:induction false} SliceOfSlice(s: string, i: nat, j: nat, a: nat, b: nat)
    requires i <= j <= |s| && a <= b <= j - i
    ensures s[i..j][a..b] == s[i + a..i + b]
  {
    assert forall k :: 0 <= k < b - a ==> s[i..j][a..b][k] == s[i + a..i + b][k];
  }

  lemma {:induction false} SliceKeepsAbsence(s: string, i: nat, j: nat, pattern: string)
    requires i <= j <= |s| && !Contains(s, pattern)
    ensures !Contains(s[i..j], pattern)
  {
    var sub := s[i..j];
    IndexIsFirst(s, pattern);
    IndexIsFirst(sub, pattern);
    if Contains(sub, pattern) {
      var k := Index(sub, pattern).value;
      SliceOfSlice(s, i, j, k, k + |pattern|);
      assert OccursAt(s, pattern, i + k);
    }
  }

  lemma {:induction false} CutRemoves(s: string, pattern: string)
    requires pattern != ""
    ensures !Contains(CutAt(s, pattern), pattern)
  {
    var r := CutAt(s, pattern);
    IndexIsFirst(s, pattern);
    IndexIsFirst(r, pattern);
    if Contains(s, pattern) && Contains(r, pattern) {
      var k := Index(r, pattern).value;
      assert s[k..k + |pattern|] == r[k..k + |pattern|];
      assert OccursAt(s, pattern, k);
    }
  }

  /** Nothing is left to strip after one round. */
  lemma {:induction false} StripLeavesNone(s: string)
    ensures !Contains(Strip(s), PEFT) && !Contains(Strip(s), SAMPLING)
    ensures Strip(Strip(s)) == Strip(s)
  {
    var a := CutAt(s, PEFT);
    CutRemoves(s, PEFT);
    CutRemoves(a, SAMPLING);
    var r := Strip(s);
    assert r == a[0..|r|];
    SliceKeepsAbsence(a, 0, |r|, PEFT);
  }

  method CutFrom(s: string, pattern: string) returns (r: string)
    ensures r == CutAt(s, pattern)
  {
    var index := Index(s, pattern);
    r := if index.Some? then s[..index.value] else s;
  }

  /** The source's loop, which strips until nothing changes. */
  method StripAll(text: string) returns (name: string)
    ensures name == Strip(text)
  {
    name := text;
    while true
      invariant Strip(name) == Strip(text)
      decreases |name|
    {
      var stripped := CutFrom(name, PEFT);
      stripped := CutFrom(stripped, SAMPLING);
      if stripped == name {
        break;
      }
      StripLeavesNone(name);
      name := stripped;
    }
  }

  /** `normalizeModelName`. */
  method NormalizeModelName(text: string) returns (name: string)
    ensures name == Normalize(text)
  {
    name := StripAll(ToLower(Trim(text)));
    var slash := LastIndexOf(name, '/');
    if slash.Some? {
      name := name[slash.value + 1..];
    }
    name := Trim(name);
  }

  /** Everything that makes a text its own normal form. */
  predicate Normal(s: string) {
    (s == "" || Trimmed(s)) && Clean(s)
  }

  predicate Clean(s: string) {
    (forall c :: c in s ==> LowerCaseChar(c) && c != '/') && !Contains(s, PEFT) && !Contains(s, SAMPLING)
  }

  lemma {:induction false} SegmentSliceIsClean(stripped: string, i: nat, j: nat)
    requires forall k :: 0 <= k < |stripped| ==> LowerCaseChar(stripped[k])
    requires !Contains(stripped, PEFT) && !Contains(stripped, SAMPLING)
    requires i <= j <= |LastSegment(stripped)|
    ensures Clean(LastSegment(stripped)[i..j])
  {
    var segment := LastSegment(stripped);
    var from := |stripped| - |segment|;
    LastIndexIsLast(stripped, '/');
    assert segment == stripped[from..|stripped|];
    SliceOfSlice(stripped, from, |stripped|, i, j);
    var r := segment[i..j];
    SliceKeepsAbsence(stripped, from + i, from + j, PEFT);
    SliceKeepsAbsence(stripped, from + i, from + j, SAMPLING);
    forall c | c in r
      ensures LowerCaseChar(c) && c != '/'
    {
      var k :| 0 <= k < |r| && r[k] == c;
      assert segment[i + k] == r[k] && stripped[from + i + k] == r[k];
      assert segment[i + k] in segment;
    }
  }

  lemma {:induction false} NormalizeIsNormal(name: string)
    ensures Normal(Normalize(name))
  {
    var lower := ToLower(Trim(name));
    var stripped := Strip(lower);
    StripLeavesNone(lower);
    assert forall k :: 0 <= k < |stripped| ==> stripped[k] == lower[k];
    var i, j := TrimTakesSpace(LastSegment(stripped));
    SegmentSliceIsClean(stripped, i, j);
  }

  lemma {:induction false} NormalIsKept(s: string)
    requires Normal(s)
    ensures Normalize(s) == s
  {
    assert Trim(s) == s;
    assert forall i :: 0 <= i < |s| ==> s[i] in s;
    assert ToLower(s) == s;
    assert Strip(s) == s;
    LastIndexIsLast(s, '/');
    assert LastSegment(s) == s;
  }

  /** Normalising twice is normalising once. */
  lemma {:induction false} NormalizeIsIdempotent(name: string)
    ensures Normalize(Normalize(name)) == Normalize(name)
  {
    NormalizeIsNormal(name);
    NormalIsKept(Normalize(name));
  }

  /** A cut leaves what stands in front of the first occurrence, or everything. */
  lemma {:induction false} CutsAtFirst(s: string, pattern: string)
    ensures !Contains(s, pattern) ==> CutAt(s, pattern) == s
    ensures Contains(s, pattern) ==>
              && OccursAt(s, pattern, |CutAt(s, pattern)|) && CutAt(s, pattern) == s[..|CutAt(s, pattern)|]
              && forall j :: OccursAt(s, pattern, j) ==> |CutAt(s, pattern)| <= j
  {
    IndexIsFirst(s, pattern);
  }

  lemma {:induction false} OccurrencesStartWith(s: string, pattern: string)
    requires pattern != ""
    ensures forall j :: OccursAt(s, pattern, j) ==> s[j] == pattern[0]
  {
    forall j | OccursAt(s, pattern, j)
      ensures s[j] == pattern[0]
    {
      assert s[j..j + |pattern|][0] == s[j];
    }
  }

  /** A mark behind a text without colons is where the cut is made. */
  lemma {:induction false} CutAtMark(s: string, front: string, mark: string)
    requires mark != "" && mark[0] == ':' && ':' !in front && front + mark <= s
    ensures CutAt(s, mark) == front && Contains(s, mark)
  {
    CutsAtFirst(s, mark);
    IndexIsFirst(s, mark);
    OccurrencesStartWith(s, mark);
    assert OccursAt(s, mark, |front|);
    assert forall k :: 0 <= k < |front| ==> s[k] == front[k] && front[k] in front;
  }

  lemma {:induction false} NothingToCut(front: string, mark: string)
    requires mark != "" && mark[0] == ':' && ':' !in front
    ensures CutAt(front, mark) == front
  {
    CutsAtFirst(front, mark);
    OccurrencesStartWith(front, mark);
    assert forall k :: 0 <= k < |front| ==> front[k] in front;
  }

  /** In a text that goes on with the mark of sampling behind a front without colons, the other mark comes later. */
  lemma {:induction false} PeftComesLater(s: string, front: string, j: int)
    requires ':' !in front && front + SAMPLING <= s && OccursAt(s, PEFT, j)
    ensures j >= |front| + |SAMPLING|
  {
    assert s[j..j + |PEFT|][0] == s[j] && s[j..j + |PEFT|][1] == s[j + 1];
    assert PEFT[0] == ':' && PEFT[1] == 'p' && SAMPLING[1] == 's';
    assert forall k :: 0 <= k < |front| ==> s[k] == front[k] && front[k] in front;
    assert forall k :: 0 <= k < |SAMPLING| ==> s[|front| + k] == SAMPLING[k];
    assert forall k :: 0 < k < |SAMPLING| ==> SAMPLING[k] != ':';
  }

  /** A mark of sampling behind a text without colons survives the cut at a fine-tuning mark. */
  lemma {:induction false} SamplingIsKept(s: string, front: string)
    requires ':' !in front && front + SAMPLING <= s
    ensures front + SAMPLING <= CutAt(s, PEFT)
  {
    CutsAtFirst(s, PEFT);
    if Contains(s, PEFT) {
      PeftComesLater(s, front, |CutAt(s, PEFT)|);
    }
  }

  /** What is left of a vendor's variant, such as `Vendor/Short:peft:262144`, is its short name in lower case. */
  lemma {:induction false} VariantNormalizes(name: string, vendor: string, short: string, mark: string, rest: string)
    requires Trimmed(name) && (mark == ":peft:" || mark == ":sampling-")
    requires ':' !in vendor && ':' !in short && '/' !in short
    requires ToLower(name) == vendor + "/" + short + mark + rest
    ensures IsVariant(name) && Normalize(name) == Trim(short)
    ensures VariantOf(name) == if Trim(short) == "" then None else Some(Trim(short))
  {
    var lower, front := ToLower(name), vendor + "/" + short;
    assert front + mark <= lower;
    CutAtMark(lower, front, mark);
    if mark == PEFT {
      NothingToCut(front, SAMPLING);
    } else {
      SamplingIsKept(lower, front);
      CutAtMark(CutAt(lower, PEFT), front, SAMPLING);
    }
    assert Strip(lower) == front;
    LastIndexIsLast(front, '/');
    assert front[|vendor|] == '/' && front[|vendor| + 1..] == short;
    NoneBehind(front, '/', |vendor|);
    NoneBehind(front, '/', LastIndexOf(front, '/').value);
  }

  lemma {:induction false} NoneBehind(s: string, c: char, i: nat)
    requires i < |s| && c !in s[i + 1..]
    ensures forall j :: i < j < |s| ==> s[j] != c
  {
    assert forall j :: i < j < |s| ==> s[j] == s[i + 1..][j - i - 1];
  }

  predicate IsVariant(name: string) {
    Contains(ToLower(name), PEFT) || Contains(ToLower(name), SAMPLING)
  }

  /** A name is a variant exactly when one of the two marks occurs in it, in letters of either case. */
  lemma {:induction false} IsVariantIff(name: string)
    ensures IsVariant(name)
       <==> exists i :: OccursAt(ToLower(name), ":peft:", i) || OccursAt(ToLower(name), ":sampling-", i)
    ensures !IsVariant(name) ==> VariantOf(name) == None
  {
    IndexIsFirst(ToLower(name), PEFT);
    IndexIsFirst(ToLower(name), SAMPLING);
  }

  // ---------- The ranked scan ----------

  datatype Model = Model(id: nat, publicName: string)

  datatype RuleMatch = RuleMatch(model: Model, rank: nat)

  const EXACT := 4
  const FOLD := 3
  const SUFFIX := 2
  const VARIANT := 1

  /** The part behind the last slash; None when there is no slash or nothing behind it. */
  function SuffixOf(name: string): Option<string> {
    match LastIndexOf(name, '/')
    case None => None
    case Some(i) => if Trim(name[i + 1..]) == "" then None else Some(Trim(name[i + 1..]))
  }

  /** A name has a suffix exactly when something but space stands behind its last slash, and that is the suffix. */
  lemma {:induction false} SuffixOfIff(name: string, suffix: string)
    ensures SuffixOf(name) == Some(suffix)
       <==> suffix != "" && exists i :: 0 <= i < |name| && IsLastSlash(name, i) && suffix == Trim(name[i + 1..])
  {
    LastIndexIsLast(name, '/');
    var r := LastIndexOf(name, '/');
    if r.Some? {
      assert IsLastSlash(name, r.value);
      NoneBehind(name, '/', r.value);
    }
    if i :| 0 <= i < |name| && IsLastSlash(name, i) {
      NoneBehind(name, '/', i);
    }
  }

  predicate IsLastSlash(name: string, i: int)
    requires 0 <= i < |name|
  {
    name[i] == '/' && '/' !in name[i + 1..]
  }

  /** The short name of a variant; None for names without a variant suffix. */
  function VariantOf(name: string): Option<string> {
    if IsVariant(name) && Normalize(name) != "" then Some(Normalize(name)) else None
  }

  /**
   How strongly a local name answers to a trimmed upstream name, 0 for not at all. A suffix with the
   same letters beats one that only agrees when case is ignored, though both have rank SUFFIX.
   */
  function Strength(local: string, name: string): nat {
    if local == name then 5
    else if ToLower(local) == ToLower(name) then 4
    else if SuffixOf(name) == Some(local) then 3
    else if SuffixOf(name).Some? && ToLower(local) == ToLower(SuffixOf(name).value) then 2
    else if VariantOf(name) == Some(Normalize(local)) then 1
    else 0
  }

  function RankOf(strength: nat): nat {
    if strength == 5 then EXACT
    else if strength == 4 then FOLD
    else if strength == 3 || strength == 2 then SUFFIX
    else VARIANT
  }

  /** Two names are the same but for the case of their letters. */
  predicate SameFolded(a: string, b: string) {
    ToLower(a) == ToLower(b)
  }

  /** A local name answers with rank 4 to itself, 3 in other letters, 2 to what is behind a slash, 1 to its variants. */
  lemma {:induction false} RankMeans(local: string, name: string)
    ensures Strength(local, name) > 0
       <==> SameFolded(local, name) || (SuffixOf(name).Some? && SameFolded(local, SuffixOf(name).value))
            || VariantOf(name) == Some(Normalize(local))
    ensures Strength(local, name) > 0 ==>
              RankOf(Strength(local, name))
              == if local == name then 4
                 else if SameFolded(local, name) then 3
                 else if SuffixOf(name).Some? && SameFolded(local, SuffixOf(name).value) then 2
                 else 1
  {
  }

  function StrengthFor(name: string): string -> nat {
    local => Strength(local, name)
  }

  type ByName = map<string, seq<Model>>

  /** The greatest strength any of the local names reaches. */
  function Best(keys: seq<string>, strength: string -> nat): nat {
    if keys == [] then 0
    else
      var rest := Best(keys[..|keys| - 1], strength);
      var last := strength(keys[|keys| - 1]);
      if last > rest then last else rest
  }

  function Ranked(models: seq<Model>, rank: nat): (r: seq<RuleMatch>)
    ensures |r| == |models|
    ensures forall i :: 0 <= i < |models| ==> r[i] == RuleMatch(models[i], rank)
  {
    seq(|models|, i requires 0 <= i < |models| => RuleMatch(models[i], rank))
  }

  /** The models of some local names, in turn. */
  function Gather(byName: ByName, keys: seq<string>, rank: nat): seq<RuleMatch> {
    if keys == [] then []
    else Gather(byName, keys[..|keys| - 1], rank)
         + var k := keys[|keys| - 1]; if k in byName then Ranked(byName[k], rank) else []
  }

  function KeysOfStrength(keys: seq<string>, strength: string -> nat, wanted: nat): seq<string> {
    if keys == [] then []
    else KeysOfStrength(keys[..|keys| - 1], strength, wanted)
         + var k := keys[|keys| - 1]; if strength(k) == wanted then [k] else []
  }

  /** The models of the local names of the greatest strength. */
  function Strongest(byName: ByName, keys: seq<string>, strength: string -> nat): seq<RuleMatch> {
    var best := Best(keys, strength);
    if best == 0 then [] else Gather(byName, KeysOfStrength(keys, strength, best), RankOf(best))
  }

  /** Linear scan: the models of the local names that answer most strongly, with that strength's rank. */
  function Scan(byName: ByName, keys: seq<string>, text: string): seq<RuleMatch> {
    if Trim(text) == "" then [] else Strongest(byName, keys, StrengthFor(Trim(text)))
  }

  // ---------- Reading off the scan ----------

  /** No local name is stronger. */
  ghost predicate AtMost(keys: seq<string>, strength: string -> nat, bound: nat) {
    forall k :: k in keys ==> strength(k) <= bound
  }

  lemma {:induction false} BestIsGreatest(keys: seq<string>, strength: string -> nat)
    ensures AtMost(keys, strength, Best(keys, strength))
    ensures Best(keys, strength) > 0 ==> exists k :: k in keys && strength(k) == Best(keys, strength)
  {
    if keys != [] {
      var front, last := keys[..|keys| - 1], keys[|keys| - 1];
      BestIsGreatest(front, strength);
      assert keys == front + [last];
    }
  }

  lemma {:induction false} KeysOfStrengthMembers(keys: seq<string>, strength: string -> nat, wanted: nat)
    ensures forall k :: k in KeysOfStrength(keys, strength, wanted) <==> k in keys && strength(k) == wanted
  {
    if keys != [] {
      KeysOfStrengthMembers(keys[..|keys| - 1], strength, wanted);
      assert keys == keys[..|keys| - 1] + [keys[|keys| - 1]];
    }
  }

  lemma {:induction false} GatherMembers(byName: ByName, keys: seq<string>, rank: nat)
    ensures forall m :: m in Gather(byName, keys, rank)
                        <==> m.rank == rank && exists k :: k in keys && k in byName && m.model in byName[k]
  {
    if keys != [] {
      var front, last := keys[..|keys| - 1], keys[|keys| - 1];
      GatherMembers(byName, front, rank);
      assert keys == front + [last];
      if last in byName {
        RankedMembers(byName[last], rank);
      }
    }
  }

  lemma {:induction false} RankedMembers(models: seq<Model>, rank: nat)
    ensures forall m :: m in Ranked(models, rank) <==> m.rank == rank && m.model in models
  {
    var r := Ranked(models, rank);
    forall m: RuleMatch | m.rank == rank && m.model in models
      ensures m in r
    {
      var i :| 0 <= i < |models| && models[i] == m.model;
      assert r[i] == m;
    }
  }

  /** The distinct local names, each with at least one model. */
  ghost predicate Usable(byName: ByName, keys: seq<string>) {
    && (forall k :: k in keys <==> k in byName)
    && (forall i, j :: 0 <= i < j < |keys| ==> keys[i] != keys[j])
    && (forall k :: k in byName ==> byName[k] != [])
  }

  /** A match stands for a model under a local name that nothing beats, at that name's rank. */
  ghost predicate Justified(byName: ByName, keys: seq<string>, name: string, m: RuleMatch) {
    exists k :: && k in byName && m.model in byName[k]
                && Strength(k, name) > 0 && m.rank == RankOf(Strength(k, name))
                && forall other :: other in keys ==> Strength(other, name) <= Strength(k, name)
  }

  /**
   The scan returns exactly the models under local names of the greatest strength, all at one rank,
   and returns nothing only when no local name answers at all.
   */
  lemma {:induction false} ScanIsStrongest(byName: ByName, keys: seq<string>, text: string)
    requires Trim(text) != "" && Usable(byName, keys)
    ensures forall m :: m in Scan(byName, keys, text) <==> Justified(byName, keys, Trim(text), m)
    ensures forall m, n :: m in Scan(byName, keys, text) && n in Scan(byName, keys, text) ==> m.rank == n.rank
    ensures Scan(byName, keys, text) == [] <==> forall k :: k in keys ==> Strength(k, Trim(text)) == 0
  {
    var name := Trim(text);
    var f := StrengthFor(name);
    assert forall k :: f(k) == Strength(k, name);
    StrongestMembers(byName, keys, f);
    forall m
      ensures m in Scan(byName, keys, text) <==> Justified(byName, keys, name, m)
    {
      if m in Scan(byName, keys, text) {
        var k :| k in keys && m.model in byName[k] && f(k) > 0 && m.rank == RankOf(f(k)) && AtMost(keys, f, f(k));
        assert Strength(k, name) == f(k);
      }
      if Justified(byName, keys, name, m) {
        var k :| && k in byName && m.model in byName[k] && Strength(k, name) > 0 && m.rank == RankOf(Strength(k, name))
                 && forall other :: other in keys ==> Strength(other, name) <= Strength(k, name);
        assert f(k) == Strength(k, name) && AtMost(keys, f, f(k));
      }
    }
  }

  lemma {:induction false} StrongestMembers(byName: ByName, keys: seq<string>, f: string -> nat)
    requires Usable(byName, keys)
    ensures var r := Strongest(byName, keys, f);
            && (forall m :: m in r <==>
                  exists k :: k in keys && m.model in byName[k] && f(k) > 0 && m.rank == RankOf(f(k))
                              && AtMost(keys, f, f(k)))
            && (forall m :: m in r ==> m.rank == RankOf(Best(keys, f)))
            && (r == [] <==> forall k :: k in keys ==> f(k) == 0)
  {
    var best := Best(keys, f);
    BestIsGreatest(keys, f);
    KeysOfStrengthMembers(keys, f, best);
    GatherMembers(byName, KeysOfStrength(keys, f, best), RankOf(best));
    if best > 0 {
      var k :| k in keys && f(k) == best;
      assert RuleMatch(byName[k][0], RankOf(best)) in Strongest(byName, keys, f);
    }
  }

  // ---------- The index ----------

  /** The local names with a given view, in order. */
  function KeysWith(keys: seq<string>, view: string -> string, target: string): seq<string> {
    if keys == [] then []
    else KeysWith(keys[..|keys| - 1], view, target)
         + var k := keys[|keys| - 1]; if view(k) == target then [k] else []
  }

  /** A view map lists, for every target, the names with that view; empty lists may be missing. */
  ghost predicate ListsKeys(m: map<string, seq<string>>, keys: seq<string>, view: string -> string) {
    forall t :: (if t in m then m[t] else []) == KeysWith(keys, view, t)
  }

  /** The same, where the empty view is not listed at all. */
  ghost predicate ListsNonEmptyKeys(m: map<string, seq<string>>, keys: seq<string>, view: string -> string) {
    forall t :: t != "" ==> (if t in m then m[t] else []) == KeysWith(keys, view, t)
  }

  /** Adding one name to its list. */
  function Push(m: map<string, seq<string>>, target: string, key: string): map<string, seq<string>> {
    m[target := (if target in m then m[target] else []) + [key]]
  }

  lemma {:induction false} PushLists(m: map<string, seq<string>>, keys: seq<string>, view: string -> string,
                                     key: string)
    requires ListsKeys(m, keys, view)
    ensures ListsKeys(Push(m, view(key), key), keys + [key], view)
  {
    assert (keys + [key])[..|keys|] == keys;
  }

  lemma {:induction false} PushListsNonEmpty(m: map<string, seq<string>>, keys: seq<string>, view: string -> string,
                                             key: string)
    requires ListsNonEmptyKeys(m, keys, view)
    ensures ListsNonEmptyKeys(if view(key) == "" then m else Push(m, view(key), key), keys + [key], view)
  {
    assert (keys + [key])[..|keys|] == keys;
  }

  /** A level read off a list answers with its names, when nothing stronger does. */
  lemma {:induction false} LevelAnswers(byName: ByName, keys: seq<string>, f: string -> nat, level: nat,
                                        view: string -> string, target: string)
    requires Usable(byName, keys) && level > 0 && AtMost(keys, f, level)
    requires forall k :: k in keys ==> (f(k) == level <==> view(k) == target)
    ensures var r := Gather(byName, KeysWith(keys, view, target), RankOf(level));
            if r == [] then AtMost(keys, f, level - 1) else r == Strongest(byName, keys, f)
  {
    SameKeys(keys, f, level, view, target);
    LevelOfStrength(byName, keys, f, level);
  }

  lemma {:induction false} LevelOfStrength(byName: ByName, keys: seq<string>, f: string -> nat, level: nat)
    requires Usable(byName, keys) && level > 0 && AtMost(keys, f, level)
    ensures var r := Gather(byName, KeysOfStrength(keys, f, level), RankOf(level));
            if r == [] then AtMost(keys, f, level - 1) else r == Strongest(byName, keys, f)
  {
    BestIsGreatest(keys, f);
    KeysOfStrengthMembers(keys, f, level);
    GatherMembers(byName, KeysOfStrength(keys, f, level), RankOf(level));
    if k :| k in keys && f(k) == level {
      assert RuleMatch(byName[k][0], RankOf(level)) in Gather(byName, KeysOfStrength(keys, f, level), RankOf(level));
    } else {
      NoKeysOfStrength(keys, f, level);
    }
  }

  lemma {:induction false} NoKeysOfStrength(keys: seq<string>, f: string -> nat, wanted: nat)
    requires forall k :: k in keys ==> f(k) != wanted
    ensures KeysOfStrength(keys, f, wanted) == []
  {
    if keys != [] {
      var front := keys[..|keys| - 1];
      assert keys == front + [keys[|keys| - 1]];
      NoKeysOfStrength(front, f, wanted);
    }
  }

  lemma {:induction false} SameKeys(keys: seq<string>, f: string -> nat, level: nat, view: string -> string,
                                    target: string)
    requires forall k :: k in keys ==> (f(k) == level <==> view(k) == target)
    ensures KeysWith(keys, view, target) == KeysOfStrength(keys, f, level)
  {
    if keys != [] {
      var front := keys[..|keys| - 1];
      assert forall k :: k in front ==> k in keys;
      SameKeys(front, f, level, view, target);
      assert keys[|keys| - 1] in keys;
    }
  }

  /** A level that one name alone can reach. */
  lemma {:induction false} OneKey(byName: ByName, keys: seq<string>, f: string -> nat, key: string, level: nat)
    requires Usable(byName, keys) && level > 0 && AtMost(keys, f, level)
    requires forall k :: k in keys ==> (f(k) == level <==> k == key)
    ensures if key in byName then Strongest(byName, keys, f) == Ranked(byName[key], RankOf(level))
            else AtMost(keys, f, level - 1)
  {
    if key in byName {
      BestIsGreatest(keys, f);
      OnlyKey(keys, f, key, level);
      assert Gather(byName, [key][..0], RankOf(level)) == [];
    }
  }

  lemma {:induction false} OnlyKey(keys: seq<string>, f: string -> nat, key: string, level: nat)
    requires forall i, j :: 0 <= i < j < |keys| ==> keys[i] != keys[j]
    requires forall k :: k in keys ==> (f(k) == level <==> k == key)
    ensures KeysOfStrength(keys, f, level) == if key in keys then [key] else []
  {
    if keys != [] {
      var front, last := keys[..|keys| - 1], keys[|keys| - 1];
      assert keys == front + [last];
      OnlyKey(front, f, key, level);
    }
  }

  lemma {:induction false} NothingAnswers(byName: ByName, keys: seq<string>, f: string -> nat)
    requires AtMost(keys, f, 0)
    ensures Strongest(byName, keys, f) == []
  {
    BestIsGreatest(keys, f);
  }

  /** What each strength means, once the stronger ones are out. */
  ghost predicate Graded(f: string -> nat, name: string, suffix: Option<string>, variant: Option<string>) {
    forall k :: && f(k) <= 5
                && (f(k) == 5 <==> k == name)
                && (f(k) <= 4 ==> (f(k) == 4 <==> ToLower(k) == ToLower(name)))
                && (f(k) <= 3 ==> (f(k) == 3 <==> suffix == Some(k)))
                && (f(k) <= 2 ==> (f(k) == 2 <==> suffix.Some? && ToLower(k) == ToLower(suffix.value)))
                && (f(k) <= 1 ==> (f(k) == 1 <==> variant == Some(Normalize(k))))
  }

  lemma {:induction false} StrengthIsGraded(name: string)
    ensures Graded(StrengthFor(name), name, SuffixOf(name), VariantOf(name))
  {
  }

  lemma {:induction false} NameLevels(byName: ByName, keys: seq<string>, f: string -> nat, name: string,
                                      suffix: Option<string>, variant: Option<string>)
    requires Usable(byName, keys) && Graded(f, name, suffix, variant)
    ensures if name in byName then Strongest(byName, keys, f) == Ranked(byName[name], EXACT) else AtMost(keys, f, 4)
    ensures name !in byName ==>
              var r := Gather(byName, KeysWith(keys, ToLower, ToLower(name)), FOLD);
              if r == [] then AtMost(keys, f, 3) else r == Strongest(byName, keys, f)
  {
    OneKey(byName, keys, f, name, 5);
    if name !in byName {
      LevelAnswers(byName, keys, f, 4, ToLower, ToLower(name));
    }
  }

  lemma {:induction false} SuffixLevels(byName: ByName, keys: seq<string>, f: string -> nat, name: string,
                                        suffix: string, variant: Option<string>)
    requires Usable(byName, keys) && Graded(f, name, Some(suffix), variant) && AtMost(keys, f, 3)
    ensures if suffix in byName then Strongest(byName, keys, f) == Ranked(byName[suffix], SUFFIX)
            else AtMost(keys, f, 2)
    ensures suffix !in byName ==>
              var r := Gather(byName, KeysWith(keys, ToLower, ToLower(suffix)), SUFFIX);
              if r == [] then AtMost(keys, f, 1) else r == Strongest(byName, keys, f)
  {
    OneKey(byName, keys, f, suffix, 3);
    if suffix !in byName {
      LevelAnswers(byName, keys, f, 2, ToLower, ToLower(suffix));
    }
  }

  /** Without a suffix the two suffix levels stay empty. */
  lemma {:induction false} NoSuffixLevels(keys: seq<string>, f: string -> nat, name: string, variant: Option<string>)
    requires Graded(f, name, None, variant) && AtMost(keys, f, 3)
    ensures AtMost(keys, f, 1)
  {
  }

  lemma {:induction false} VariantLevel(byName: ByName, keys: seq<string>, f: string -> nat, name: string,
                                        suffix: Option<string>, variant: Option<string>)
    requires Usable(byName, keys) && Graded(f, name, suffix, variant) && AtMost(keys, f, 1)
    ensures Strongest(byName, keys, f)
            == match variant
               case None => []
               case Some(target) => Gather(byName, KeysWith(keys, Normalize, target), VARIANT)
  {
    if variant.None? {
      NothingAnswers(byName, keys, f);
    } else {
      LevelAnswers(byName, keys, f, 1, Normalize, variant.value);
      if Gather(byName, KeysWith(keys, Normalize, variant.value), VARIANT) == [] {
        NothingAnswers(byName, keys, f);
      }
    }
  }

  class NameLookup {
    var byName: ByName
    var byFold: map<string, seq<string>>
    var byNormalized: map<string, seq<string>>
    /** The local names in the order the map was visited. */
    ghost var keys: seq<string>

    ghost predicate Valid()
      reads this
    {
      && Usable(byName, keys)
      && ListsKeys(byFold, keys, ToLower)
      && ListsNonEmptyKeys(byNormalized, keys, Normalize)
    }

    /** `newNameLookup`; `order` is the order in which the runtime visits the map. */
    constructor (index: ByName, order: seq<string>)
      requires Usable(index, order)
      ensures Valid() && byName == index && keys == order
    {
      var fold: map<string, seq<string>>, normal: map<string, seq<string>> := map[], map[];
      for i := 0 to |order|
        invariant ListsKeys(fold, order[..i], ToLower)
        invariant ListsNonEmptyKeys(normal, order[..i], Normalize)
      {
        var key := order[i];
        assert order[..i + 1] == order[..i] + [key];
        PushLists(fold, order[..i], ToLower, key);
        PushListsNonEmpty(normal, order[..i], Normalize, key);
        fold := Push(fold, ToLower(key), key);
        var normalized := NormalizeModelName(key);
        if normalized != "" {
          normal := Push(normal, normalized, key);
        }
      }
      assert order[..|order|] == order;
      byName, byFold, byNormalized, keys := index, fold, normal, order;
    }

    /** The models behind the names of one list, in turn. */
    method Collect(names: seq<string>, rank: nat) returns (r: seq<RuleMatch>)
      ensures r == Gather(byName, names, rank)
    {
      r := [];
      for i := 0 to |names|
        invariant r == Gather(byName, names[..i], rank)
      {
        assert names[..i + 1][..i] == names[..i];
        if names[i] in byName {
          r := r + Ranked(byName[names[i]], rank);
        }
      }
      assert names[..|names|] == names;
    }

    method MatchFolded(name: string, rank: nat) returns (r: seq<RuleMatch>)
      requires Valid()
      ensures r == Gather(byName, KeysWith(keys, ToLower, ToLower(name)), rank)
    {
      var folded := ToLower(name);
      r := Collect(if folded in byFold then byFold[folded] else [], rank);
    }

    method MatchNormalized(normalized: string) returns (r: seq<RuleMatch>)
      requires Valid()
      ensures r == if normalized == "" then [] else Gather(byName, KeysWith(keys, Normalize, normalized), VARIANT)
    {
      if normalized == "" {
        return [];
      }
      r := Collect(if normalized in byNormalized then byNormalized[normalized] else [], VARIANT);
    }

    /** `match`: level by level through the maps, with the result of the linear scan. */
    method Match(text: string) returns (r: seq<RuleMatch>)
      requires Valid()
      ensures r == Scan(byName, keys, text)
    {
      var name := Trim(text);
      if name == "" {
        return [];
      }
      StrengthIsGraded(name);
      r := MatchLevels(name, SuffixOf(name), VariantOf(name), StrengthFor(name));
    }

    /** The levels of a non-empty name, strongest first. */
    method MatchLevels(name: string, suffix: Option<string>, variant: Option<string>, ghost f: string -> nat)
      returns (r: seq<RuleMatch>)
      requires Valid() && Graded(f, name, suffix, variant)
      requires variant.Some? ==> variant.value != ""
      ensures r == Strongest(byName, keys, f)
    {
      NameLevels(byName, keys, f, name, suffix, variant);
      if name in byName {
        return Ranked(byName[name], EXACT);
      }
      r := MatchFolded(name, FOLD);
      if |r| > 0 {
        return;
      }
      if suffix.None? {
        NoSuffixLevels(keys, f, name, variant);
      } else {
        SuffixLevels(byName, keys, f, name, suffix.value, variant);
        if suffix.value in byName {
          return Ranked(byName[suffix.value], SUFFIX);
        }
        r := MatchFolded(suffix.value, SUFFIX);
        if |r| > 0 {
          return;
        }
      }
      VariantLevel(byName, keys, f, name, suffix, variant);
      if variant.None? {
        return [];
      }
      r := MatchNormalized(variant.value);
    }
  }
}
