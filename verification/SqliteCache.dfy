/**
 The cache of a worker node: two tables in an embedded database, with expired rows left lying about
 until something removes them.
 */
module SqliteCache {
  import opened GoStrings
  import opened Runs

  // ---------- The tables ----------

  /** A stored entry; `expiresAt` is a Unix time, 0 for never. */
  datatype Row = Row(value: string, expiresAt: int)

  type Entries = map<string, Row>

  datatype Store = Store(entries: Entries, counters: map<string, int>)

  const SECOND := 1_000_000_000

  /** `expiryFor`: a time to live in nanoseconds, cut to whole seconds. */
  function ExpiryFor(ttl: int, now: int): int {
    if ttl <= 0 then 0 else now + ttl / SECOND
  }

  predicate Live(row: Row, now: int) {
    row.expiresAt == 0 || row.expiresAt > now
  }

  predicate LiveKey(entries: Entries, key: string, now: int) {
    key in entries && Live(entries[key], now)
  }

  datatype Op =
    | Get(key: string)
    | GetDel(key: string)
    | Set(key: string, value: string, ttl: int)
    | SetNX(key: string, value: string, ttl: int)
    | Del(keys: seq<string>)
    | Exists(key: string)
    | Incr(key: string)
    | Expire(key: string, ttl: int)
    | Ttl(key: string)
    | Purge

  datatype Reply = Value(found: Option<string>) | Done | Flag(flag: bool) | Number(n: int)

  function WithoutKeys(entries: Entries, keys: set<string>): Entries {
    map k | k in entries && k !in keys :: entries[k]
  }

  /** Every operation as one step on the tables. */
  function Step(s: Store, op: Op, now: int): (Store, Reply) {
    var e := s.entries;
    match op
    case Get(k) => (s, Value(if LiveKey(e, k, now) then Some(e[k].value) else None))
    case GetDel(k) =>
      if LiveKey(e, k, now) then (s.(entries := WithoutKeys(e, {k})), Value(Some(e[k].value))) else (s, Value(None))
    case Set(k, v, ttl) => (s.(entries := e[k := Row(v, ExpiryFor(ttl, now))]), Done)
    case SetNX(k, v, ttl) =>
      if LiveKey(e, k, now) then (s, Flag(false))
      else (s.(entries := e[k := Row(v, ExpiryFor(ttl, now))]), Flag(true))
    case Del(keys) =>
      var gone := set k | k in keys;
      (Store(WithoutKeys(e, gone), map k | k in s.counters && k !in gone :: s.counters[k]),
       Number(|gone * e.Keys| + |gone * s.counters.Keys|))
    case Exists(k) => (s, Number(if LiveKey(e, k, now) then 1 else 0))
    case Incr(k) =>
      var n := (if k in s.counters then s.counters[k] else 0) + 1;
      (s.(counters := s.counters[k := n]), Number(n))
    case Expire(k, ttl) =>
      if k in e then (s.(entries := e[k := e[k].(expiresAt := ExpiryFor(ttl, now))]), Flag(true)) else (s, Flag(false))
    case Ttl(k) =>
      (s, Number(if k !in e then -2 * SECOND
                 else if e[k].expiresAt == 0 then -1 * SECOND
                 else if e[k].expiresAt - now <= 0 then -2 * SECOND
                 else (e[k].expiresAt - now) * SECOND))
    case Purge => (s.(entries := map k | k in e && Live(e[k], now) :: e[k]), Done)
  }

  /** The cache object; the current time is a parameter of every call. */
  class SqliteCache {
    var entries: Entries
    var counters: map<string, int>

    constructor ()
      ensures Tables() == Store(map[], map[])
    {
      entries, counters := map[], map[];
    }

    function Tables(): Store
      reads this
    {
      Store(entries, counters)
    }

    method Get(key: string, now: int) returns (found: Option<string>)
      ensures (Tables(), Value(found)) == Step(Tables(), Op.Get(key), now)
    {
      found := None;
      if key in entries && (entries[key].expiresAt == 0 || entries[key].expiresAt > now) {
        found := Some(entries[key].value);
      }
    }

    method GetDel(key: string, now: int) returns (found: Option<string>)
      modifies this
      ensures (Tables(), Value(found)) == Step(old(Tables()), Op.GetDel(key), now)
      ensures found.Some?
         <==> key in old(entries) && (old(entries)[key].expiresAt == 0 || old(entries)[key].expiresAt > now)
      ensures forall k :: k in entries <==> k in old(entries) && (k == key ==> found.None?)
      ensures forall k :: k in entries ==> entries[k] == old(entries)[k]
      ensures found.Some? ==> found.value == old(entries)[key].value
      ensures counters == old(counters)
    {
      found := Get(key, now);
      if found.None? {
        return;
      }
      entries := WithoutKeys(entries, {key});
    }

    method Set(key: string, value: string, ttl: int, now: int)
      modifies this
      ensures (Tables(), Done) == Step(old(Tables()), Op.Set(key, value, ttl), now)
    {
      entries := entries[key := Row(value, ExpiryFor(ttl, now))];
    }

    /** An expired row of the name is deleted first, so that it does not count as existing. */
    method SetNX(key: string, value: string, ttl: int, now: int) returns (created: bool)
      modifies this
      ensures (Tables(), Flag(created)) == Step(old(Tables()), Op.SetNX(key, value, ttl), now)
    {
      if key in entries && entries[key].expiresAt != 0 && entries[key].expiresAt <= now {
        entries := WithoutKeys(entries, {key});
      }
      if key in entries {
        return false;
      }
      entries := entries[key := Row(value, ExpiryFor(ttl, now))];
      assert entries == old(entries)[key := Row(value, ExpiryFor(ttl, now))];
      created := true;
    }

    method Del(keys: seq<string>, now: int) returns (removed: int)
      modifies this
      ensures (Tables(), Number(removed)) == Step(old(Tables()), Op.Del(keys), now)
    {
      var gone := set k | k in keys;
      removed := |gone * entries.Keys| + |gone * counters.Keys|;
      entries := WithoutKeys(entries, gone);
      counters := map k | k in counters && k !in gone :: counters[k];
    }

    method Exists(key: string, now: int) returns (n: int)
      ensures (Tables(), Number(n)) == Step(Tables(), Op.Exists(key), now)
    {
      n := if LiveKey(entries, key, now) then 1 else 0;
    }

    method Incr(key: string, now: int) returns (n: int)
      modifies this
      ensures (Tables(), Number(n)) == Step(old(Tables()), Op.Incr(key), now)
    {
      if key !in counters {
        counters := counters[key := 0];
      }
      counters := counters[key := counters[key] + 1];
      n := counters[key];
      assert counters == old(counters)[key := n];
    }

    method Expire(key: string, ttl: int, now: int) returns (changed: bool)
      modifies this
      ensures (Tables(), Flag(changed)) == Step(old(Tables()), Op.Expire(key, ttl), now)
    {
      changed := key in entries;
      if changed {
        entries := entries[key := entries[key].(expiresAt := ExpiryFor(ttl, now))];
      }
    }

    method Ttl(key: string, now: int) returns (left: int)
      ensures (Tables(), Number(left)) == Step(Tables(), Op.Ttl(key), now)
    {
      if key !in entries {
        return -2 * SECOND;
      }
      var expiresAt := entries[key].expiresAt;
      if expiresAt == 0 {
        return -1 * SECOND;
      }
      var remaining := expiresAt - now;
      if remaining <= 0 {
        return -2 * SECOND;
      }
      left := remaining * SECOND;
    }

    method Purge(now: int)
      modifies this
      ensures (Tables(), Done) == Step(old(Tables()), Op.Purge, now)
      ensures forall k :: k in entries
                <==> k in old(entries) && (old(entries)[k].expiresAt == 0 || old(entries)[k].expiresAt > now)
      ensures forall k :: k in entries ==> entries[k] == old(entries)[k]
      ensures counters == old(counters)
    {
      entries := map k | k in entries && Live(entries[k], now) :: entries[k];
    }
  }

  // ---------- The abstract cache ----------

  /** A value with a deadline, in a map from which expired keys are simply absent. */
  datatype Timed = Timed(value: string, deadline: Option<int>)

  type Cache = map<string, Timed>

  function Fade(c: Cache, now: int): Cache {
    map k | k in c && (c[k].deadline.Some? ==> c[k].deadline.value > now) :: c[k]
  }

  function Deadline(ttl: int, now: int): Option<int> {
    if ttl <= 0 then None else Some(now + ttl / SECOND)
  }

  /** One operation on the abstract cache, with the behaviour the interface takes from Redis. */
  function Act(before: Cache, op: Op, now: int): (Cache, Reply) {
    ActOn(Fade(before, now), op, now)
  }

  /** The operation where nothing has expired. */
  function ActOn(c: Cache, op: Op, now: int): (Cache, Reply) {
    match op
    case Get(k) => (c, Value(if k in c then Some(c[k].value) else None))
    case GetDel(k) => (c - {k}, Value(if k in c then Some(c[k].value) else None))
    case Set(k, v, ttl) => (Fade(c[k := Timed(v, Deadline(ttl, now))], now), Done)
    case SetNX(k, v, ttl) =>
      if k in c then (c, Flag(false)) else (Fade(c[k := Timed(v, Deadline(ttl, now))], now), Flag(true))
    case Del(keys) => (c - (set k | k in keys), Number(0))
    case Exists(k) => (c, Number(if k in c then 1 else 0))
    case Incr(k) => (c, Number(0))
    case Expire(k, ttl) =>
      if k !in c then (c, Flag(false))
      else if ttl <= 0 then (c - {k}, Flag(true))
      else (Fade(c[k := c[k].(deadline := Deadline(ttl, now))], now), Flag(true))
    case Ttl(k) =>
      (c, Number(if k !in c then -2 * SECOND
                 else if c[k].deadline.None? then -1 * SECOND
                 else (c[k].deadline.value - now) * SECOND))
    case Purge => (c, Done)
  }

  /** What the tables amount to at a time. */
  function Meaning(e: Entries, now: int): Cache {
    map k | k in e && Live(e[k], now) :: Timed(e[k].value, if e[k].expiresAt == 0 then None else Some(e[k].expiresAt))
  }

  /** Counts of deletions and counter values are outside the comparison. */
  predicate SameReply(op: Op, a: Reply, b: Reply) {
    op.Del? || op.Incr? || a == b
  }

  /** An Expire that finds no row, or a live one which it gives a positive time to live. */
  predicate Plain(e: Entries, op: Op, now: int) {
    op.Expire? && op.key in e ==> Live(e[op.key], now) && op.ttl > 0
  }

  lemma {:induction false} MeaningFades(e: Entries, now: int, later: int)
    requires now <= later
    ensures Meaning(e, later) == Fade(Meaning(e, now), later)
    ensures Fade(Meaning(e, now), now) == Meaning(e, now)
  {
  }

  lemma {:induction false} StoredMeans(e: Entries, key: string, value: string, ttl: int, now: int)
    requires now > 0
    ensures Meaning(e[key := Row(value, ExpiryFor(ttl, now))], now)
            == Fade(Meaning(e, now)[key := Timed(value, Deadline(ttl, now))], now)
  {
    var a := Meaning(e[key := Row(value, ExpiryFor(ttl, now))], now);
    var b := Fade(Meaning(e, now)[key := Timed(value, Deadline(ttl, now))], now);
    assert a.Keys == b.Keys;
  }

  /** The step and the abstract operation agree. */
  predicate Agrees(s: Store, op: Op, now: int) {
    && Meaning(Step(s, op, now).0.entries, now) == Act(Meaning(s.entries, now), op, now).0
    && SameReply(op, Step(s, op, now).1, Act(Meaning(s.entries, now), op, now).1)
  }

  lemma {:induction false} RemovalMeans(e: Entries, keys: set<string>, now: int)
    ensures Meaning(WithoutKeys(e, keys), now) == Meaning(e, now) - keys
  {
  }

  lemma {:induction false} PurgeAgrees(s: Store, now: int)
    ensures Agrees(s, Purge, now)
  {
    MeaningFades(s.entries, now, now);
    assert Meaning(Step(s, Purge, now).0.entries, now) == Meaning(s.entries, now);
  }

  lemma {:induction false} DelAgrees(s: Store, keys: seq<string>, now: int)
    ensures Agrees(s, Del(keys), now)
  {
    MeaningFades(s.entries, now, now);
    RemovalMeans(s.entries, (set k | k in keys), now);
  }

  lemma {:induction false} GetDelAgrees(s: Store, k: string, now: int)
    requires now > 0
    ensures Agrees(s, GetDel(k), now)
  {
    MeaningFades(s.entries, now, now);
    RemovalMeans(s.entries, {k}, now);
    if !LiveKey(s.entries, k, now) {
      assert Meaning(s.entries, now) - {k} == Meaning(s.entries, now);
    }
  }

  lemma {:induction false} WriteAgrees(s: Store, op: Op, now: int)
    requires now > 0 && (op.Set? || op.SetNX?)
    ensures Agrees(s, op, now)
  {
    MeaningFades(s.entries, now, now);
    StoredMeans(s.entries, op.key, op.value, op.ttl, now);
  }

  lemma {:induction false} QueryAgrees(s: Store, op: Op, now: int)
    requires now > 0 && (op.Get? || op.Exists? || op.Ttl? || op.Incr?)
    ensures Agrees(s, op, now)
  {
    MeaningFades(s.entries, now, now);
    assert op.key in Meaning(s.entries, now) <==> LiveKey(s.entries, op.key, now);
  }

  lemma {:induction false} ExpireAgreesIff(s: Store, k: string, ttl: int, now: int)
    requires now > 0
    ensures Agrees(s, Expire(k, ttl), now) <==> (k in s.entries ==> Live(s.entries[k], now) && ttl > 0)
  {
    var e := s.entries;
    MeaningFades(e, now, now);
    if k in e {
      StoredMeans(e, k, e[k].value, ttl, now);
      var next := Step(s, Expire(k, ttl), now).0.entries;
      if Live(e[k], now) && ttl <= 0 {
        assert k in Meaning(next, now) && k !in Act(Meaning(e, now), Expire(k, ttl), now).0;
      }
    }
  }

  /**
   A step does to the tables what the abstract operation does to their meaning, with the same reply,
   if and only if it is not an Expire that revives an expired row or that is given no positive time.
   */
  lemma {:induction false} StepRefinesIff(s: Store, op: Op, now: int)
    requires now > 0
    ensures Agrees(s, op, now) <==> Plain(s.entries, op, now)
  {
    match op
    case Expire(k, ttl) => ExpireAgreesIff(s, k, ttl, now);
    case Set(_, _, _) => WriteAgrees(s, op, now);
    case SetNX(_, _, _) => WriteAgrees(s, op, now);
    case Del(keys) => DelAgrees(s, keys, now);
    case GetDel(k) => GetDelAgrees(s, k, now);
    case Purge => PurgeAgrees(s, now);
    case _ => QueryAgrees(s, op, now);
  }

  // ---------- Whole runs ----------

  /** An operation and the time it happens at. */
  datatype Event = Event(op: Op, at: int)

  /** A clock that starts above 0 and never goes back. */
  predicate Ordered(trace: seq<Event>) {
    && (forall i :: 0 <= i < |trace| ==> trace[i].at > 0)
    && forall i, j :: 0 <= i <= j < |trace| ==> trace[i].at <= trace[j].at
  }

  function NextStore(s: Store, e: Event): Store {
    Step(s, e.op, e.at).0
  }

  function NextCache(c: Cache, e: Event): Cache {
    Act(c, e.op, e.at).0
  }

  function After(s: Store, trace: seq<Event>): Store {
    Fold(NextStore, s, trace)
  }

  function ReplyTo(s: Store, trace: seq<Event>, i: nat): Reply
    requires i < |trace|
  {
    Step(After(s, trace[..i]), trace[i].op, trace[i].at).1
  }

  function ActAfter(c: Cache, trace: seq<Event>): Cache {
    Fold(NextCache, c, trace)
  }

  function ActReply(c: Cache, trace: seq<Event>, i: nat): Reply
    requires i < |trace|
  {
    Act(ActAfter(c, trace[..i]), trace[i].op, trace[i].at).1
  }

  /** Every Expire names a key that is present at that moment, and gives it a positive time to live. */
  ghost predicate Sensible(c: Cache, trace: seq<Event>) {
    forall i: nat :: i < |trace| ==> SensibleAt(c, trace, i)
  }

  predicate SensibleAt(c: Cache, trace: seq<Event>, i: nat)
    requires i < |trace|
  {
    trace[i].op.Expire? ==> trace[i].op.ttl > 0 && trace[i].op.key in Fade(ActAfter(c, trace[..i]), trace[i].at)
  }

  lemma {:induction false} PrefixIsFine(c: Cache, trace: seq<Event>, n: nat)
    requires n <= |trace|
    ensures Ordered(trace) ==> Ordered(trace[..n])
    ensures Sensible(c, trace) ==> Sensible(c, trace[..n])
  {
    if Sensible(c, trace) {
      forall i: nat | i < n
        ensures SensibleAt(c, trace[..n], i)
      {
        assert SensibleAt(c, trace, i);
        assert trace[..n][..i] == trace[..i];
      }
    }
  }

  /** Up to the fading of later deadlines, the tables mean what the abstract run has arrived at. */
  lemma {:induction false} RunRefines(s: Store, start: int, trace: seq<Event>, now: int)
    requires Ordered(trace) && Sensible(Meaning(s.entries, start), trace)
    requires start <= now && forall i :: 0 <= i < |trace| ==> start <= trace[i].at <= now
    ensures Meaning(After(s, trace).entries, now) == Fade(ActAfter(Meaning(s.entries, start), trace), now)
  {
    var c := Meaning(s.entries, start);
    if trace == [] {
      MeaningFades(s.entries, start, now);
    } else {
      var front, last := trace[..|trace| - 1], trace[|trace| - 1];
      PrefixIsFine(c, trace, |trace| - 1);
      assert SensibleAt(c, trace, |trace| - 1);
      RunRefines(s, start, front, last.at);
      StepAgrees(After(s, front), ActAfter(c, front), last.op, last.at);
      MeaningFades(After(s, trace).entries, last.at, now);
    }
  }

  /** One step taken where the meaning is the abstract cache. */
  lemma {:induction false} StepAgrees(s: Store, c: Cache, op: Op, now: int)
    requires now > 0 && Meaning(s.entries, now) == Fade(c, now)
    requires op.Expire? ==> op.ttl > 0 && op.key in Fade(c, now)
    ensures Meaning(Step(s, op, now).0.entries, now) == Act(c, op, now).0
    ensures SameReply(op, Step(s, op, now).1, Act(c, op, now).1)
  {
    StepRefinesIff(s, op, now);
    MeaningFades(s.entries, now, now);
    assert Act(c, op, now) == Act(Meaning(s.entries, now), op, now);
  }

  /** Every reply of a sensible run under an ordered clock is the abstract cache's reply. */
  lemma {:induction false} RepliesAreAbstract(s: Store, start: int, trace: seq<Event>, i: nat)
    requires Ordered(trace) && Sensible(Meaning(s.entries, start), trace)
    requires i < |trace| && forall j :: 0 <= j < |trace| ==> start <= trace[j].at
    ensures SameReply(trace[i].op, ReplyTo(s, trace, i), ActReply(Meaning(s.entries, start), trace, i))
  {
    var c := Meaning(s.entries, start);
    PrefixIsFine(c, trace, i);
    assert SensibleAt(c, trace, i);
    RunRefines(s, start, trace[..i], trace[i].at);
    StepAgrees(After(s, trace[..i]), ActAfter(c, trace[..i]), trace[i].op, trace[i].at);
  }

  // ---------- Purging is invisible ----------

  /** A trace with a purge at position `p`. */
  function WithPurge(trace: seq<Event>, p: nat, at: int): seq<Event>
    requires p <= |trace|
  {
    trace[..p] + [Event(Purge, at)] + trace[p..]
  }

  /** `long` is the trace with a purge at position `p`. */
  ghost predicate Inserted(long: seq<Event>, trace: seq<Event>, p: nat, at: int) {
    && p <= |trace| && |long| == |trace| + 1 && long[..p] == trace[..p] && long[p] == Event(Purge, at)
    && forall i :: p <= i < |trace| ==> long[i + 1] == trace[i]
  }

  lemma {:induction false} PurgeIsInserted(trace: seq<Event>, p: nat, at: int)
    requires p <= |trace|
    ensures Inserted(WithPurge(trace, p, at), trace, p, at)
  {
  }

  lemma {:induction false} FadeTwice(c: Cache, now: int, later: int)
    requires now <= later
    ensures Fade(Fade(c, now), later) == Fade(c, later)
  {
  }

  /** A step that does not look at what has expired, and for which a purge only lets things expire. */
  ghost predicate Forgetful(step: (Cache, Event) -> Cache) {
    && (forall a, b, e: Event :: Fade(a, e.at) == Fade(b, e.at) ==> step(a, e) == step(b, e))
    && (forall a, at :: step(a, Event(Purge, at)) == Fade(a, at))
  }

  lemma {:induction false} ActForgets()
    ensures Forgetful(NextCache)
  {
  }

  /** Once the clock has moved on, such a run does not remember a purge. */
  lemma {:induction false} PurgeFades(step: (Cache, Event) -> Cache, c: Cache, trace: seq<Event>, long: seq<Event>,
                                      p: nat, at: int, n: nat, now: int)
    requires Forgetful(step) && p <= n <= |trace| && Inserted(long, trace, p, at) && Ordered(long)
    requires at <= now && forall i :: 0 <= i < n ==> trace[i].at <= now
    ensures Fade(Fold(step, c, long[..n + 1]), now) == Fade(Fold(step, c, trace[..n]), now)
  {
    FoldNext(step, c, long, n + 1);
    if n == p {
      FadeTwice(Fold(step, c, trace[..p]), at, now);
    } else {
      InsertedOrder(trace, long, p, at, n);
      PurgeFades(step, c, trace, long, p, at, n - 1, trace[n - 1].at);
      FoldNext(step, c, trace, n);
    }
  }

  lemma {:induction false} InsertedOrder(trace: seq<Event>, long: seq<Event>, p: nat, at: int, n: nat)
    requires p < n <= |trace| && Inserted(long, trace, p, at) && Ordered(long)
    ensures long[n] == trace[n - 1]
    ensures at <= trace[n - 1].at && forall i :: 0 <= i < n - 1 ==> trace[i].at <= trace[n - 1].at
  {
    assert long[p].at <= long[n].at;
    InsertedIsOrdered(trace, long, p, at);
  }

  lemma {:induction false} InsertedIsOrdered(trace: seq<Event>, long: seq<Event>, p: nat, at: int)
    requires Inserted(long, trace, p, at) && Ordered(long)
    ensures Ordered(trace)
  {
    assert forall j :: 0 <= j < p ==> long[..p][j] == trace[..p][j];
    assert forall j :: 0 <= j < |trace| ==> trace[j] == long[if j < p then j else j + 1];
  }

  /** The abstract run does not remember the purge when the next event comes. */
  lemma {:induction false} PurgeForgotten(c: Cache, trace: seq<Event>, long: seq<Event>, p: nat, at: int, i: nat)
    requires p <= i < |trace| && Inserted(long, trace, p, at) && Ordered(long)
    ensures long[i + 1] == trace[i]
    ensures Fade(ActAfter(c, long[..i + 1]), trace[i].at) == Fade(ActAfter(c, trace[..i]), trace[i].at)
  {
    InsertedOrder(trace, long, p, at, i + 1);
    ActForgets();
    PurgeFades(NextCache, c, trace, long, p, at, i, trace[i].at);
  }

  /** A purge anywhere in a sensible run changes no later reply. */
  lemma {:induction false} PurgeIsInvisible(s: Store, start: int, trace: seq<Event>, p: nat, at: int, i: nat)
    requires p <= i < |trace| && Ordered(WithPurge(trace, p, at)) && start <= at
    requires Sensible(Meaning(s.entries, start), trace) && forall j :: 0 <= j < |trace| ==> start <= trace[j].at
    ensures SameReply(trace[i].op, ReplyTo(s, trace, i), ReplyTo(s, WithPurge(trace, p, at), i + 1))
  {
    PurgeIsInserted(trace, p, at);
    PurgeChangesNoReply(s, start, trace, WithPurge(trace, p, at), p, at, i);
  }

  lemma {:induction false} PurgeChangesNoReply(s: Store, start: int, trace: seq<Event>, long: seq<Event>, p: nat,
                                               at: int, i: nat)
    requires p <= i < |trace| && Inserted(long, trace, p, at) && Ordered(long) && start <= at
    requires Sensible(Meaning(s.entries, start), trace) && forall j :: 0 <= j < |trace| ==> start <= trace[j].at
    ensures SameReply(trace[i].op, ReplyTo(s, trace, i), ReplyTo(s, long, i + 1))
  {
    InsertedIsOrdered(trace, long, p, at);
    RepliesAreAbstract(s, start, trace, i);
    PurgedRepliesAreAbstract(s, start, trace, long, p, at, i + 1);
    PurgedReply(Meaning(s.entries, start), trace, long, p, at, i);
    SameRepliesAgree(trace[i].op, ReplyTo(s, trace, i), ReplyTo(s, long, i + 1),
                     ActReply(Meaning(s.entries, start), trace, i));
  }

  lemma {:induction false} SameRepliesAgree(op: Op, a: Reply, b: Reply, abstracted: Reply)
    requires SameReply(op, a, abstracted) && SameReply(op, b, abstracted)
    ensures SameReply(op, a, b)
  {
  }

  /** With the purge inserted, the replies are the abstract ones of the longer trace. */
  lemma {:induction false} PurgedRepliesAreAbstract(s: Store, start: int, trace: seq<Event>, long: seq<Event>, p: nat,
                                                    at: int, i: nat)
    requires Inserted(long, trace, p, at) && Ordered(long) && start <= at && i < |long|
    requires Sensible(Meaning(s.entries, start), trace) && forall j :: 0 <= j < |trace| ==> start <= trace[j].at
    ensures SameReply(long[i].op, ReplyTo(s, long, i), ActReply(Meaning(s.entries, start), long, i))
  {
    PurgedIsSensible(Meaning(s.entries, start), trace, long, p, at);
    PurgedEvents(trace, long, p, at, start);
    RepliesAreAbstract(s, start, long, i);
  }

  lemma {:induction false} PurgedEvents(trace: seq<Event>, long: seq<Event>, p: nat, at: int, start: int)
    requires Inserted(long, trace, p, at) && start <= at && forall j :: 0 <= j < |trace| ==> start <= trace[j].at
    ensures forall j :: 0 <= j < |long| ==> start <= long[j].at
  {
    forall j | 0 <= j < |long|
      ensures start <= long[j].at
    {
      if j < p {
        assert long[..p][j] == trace[..p][j];
      } else if j > p {
        assert long[j - 1 + 1] == trace[j - 1];
      }
    }
  }

  /** The abstract replies agree. */
  lemma {:induction false} PurgedReply(c: Cache, trace: seq<Event>, long: seq<Event>, p: nat, at: int, i: nat)
    requires p <= i < |trace| && Inserted(long, trace, p, at) && Ordered(long)
    ensures long[i + 1] == trace[i] && ActReply(c, long, i + 1) == ActReply(c, trace, i)
  {
    PurgeForgotten(c, trace, long, p, at, i);
  }

  lemma {:induction false} PurgedIsSensible(c: Cache, trace: seq<Event>, long: seq<Event>, p: nat, at: int)
    requires Inserted(long, trace, p, at) && Ordered(long) && Sensible(c, trace)
    ensures Sensible(c, long)
  {
    forall i: nat | i < |long|
      ensures SensibleAt(c, long, i)
    {
      if i < p {
        EarlierIsSensible(c, trace, long, p, at, i);
      } else if i > p {
        LaterIsSensible(c, trace, long, p, at, i - 1);
      }
    }
  }

  lemma {:induction false} EarlierIsSensible(c: Cache, trace: seq<Event>, long: seq<Event>, p: nat, at: int, i: nat)
    requires Inserted(long, trace, p, at) && Sensible(c, trace) && i < p
    ensures SensibleAt(c, long, i)
  {
    assert SensibleAt(c, trace, i);
    assert long[..p][..i] == trace[..p][..i] && long[..p][i] == trace[..p][i];
    assert long[..i] == trace[..i];
  }

  lemma {:induction false} LaterIsSensible(c: Cache, trace: seq<Event>, long: seq<Event>, p: nat, at: int, i: nat)
    requires Inserted(long, trace, p, at) && Ordered(long) && Sensible(c, trace) && p <= i < |trace|
    ensures SensibleAt(c, long, i + 1)
  {
    assert SensibleAt(c, trace, i);
    PurgeForgotten(c, trace, long, p, at, i);
  }

  // ---------- Leases ----------

  /** The operations that may end a lease on a key early. */
  predicate Touches(op: Op, key: string) {
    match op
    case Set(k, _, _) => k == key
    case GetDel(k) => k == key
    case Expire(k, _) => k == key
    case Del(keys) => key in keys
    case _ => false
  }

  /** The lease is still on record, or its time has come. */
  predicate Held(e: Entries, key: string, expiresAt: int, now: int) {
    (key in e && e[key].expiresAt == expiresAt) || 0 < expiresAt <= now
  }

  lemma {:induction false} StepHolds(s: Store, op: Op, key: string, expiresAt: int, now: int)
    requires Held(s.entries, key, expiresAt, now) && !Touches(op, key) && expiresAt >= 0
    ensures Held(Step(s, op, now).0.entries, key, expiresAt, now)
    ensures op.SetNX? && op.key == key && Step(s, op, now).1 == Flag(true) ==> 0 < expiresAt <= now
  {
  }

  lemma {:induction false} LeaseStarts(s: Store, op: Op, now: int)
    requires op.SetNX? && Step(s, op, now).1 == Flag(true)
    ensures Held(Step(s, op, now).0.entries, op.key, ExpiryFor(op.ttl, now), now)
  {
  }

  /** What is held when an event comes is held when the next one comes, unless the event touches the key. */
  lemma {:induction false} EventHolds(before: Store, e: Event, key: string, expiresAt: int, now: int)
    requires Held(before.entries, key, expiresAt, e.at) && !Touches(e.op, key) && expiresAt >= 0 && e.at <= now
    ensures Held(NextStore(before, e).entries, key, expiresAt, now)
  {
    StepHolds(before, e.op, key, expiresAt, e.at);
  }

  /** A successful SetNX is held when the next event comes. */
  lemma {:induction false} EventStarts(before: Store, e: Event, now: int)
    requires e.op.SetNX? && Step(before, e.op, e.at).1 == Flag(true) && e.at <= now
    ensures Held(NextStore(before, e).entries, e.op.key, ExpiryFor(e.op.ttl, e.at), now)
  {
    LeaseStarts(before, e.op, e.at);
  }

  /** The lease is held in the tables that event `k` finds. */
  function HeldAt(trace: seq<Event>, key: string, expiresAt: int): (Store, nat) -> bool {
    (t: Store, k: nat) => k < |trace| && Held(t.entries, key, expiresAt, trace[k].at)
  }

  lemma {:induction false} LeaseHolds(s: Store, trace: seq<Event>, i: nat, j: nat, key: string, ttl: int)
    requires Ordered(trace) && i < j < |trace|
    requires trace[i].op.SetNX? && trace[i].op.key == key && trace[i].op.ttl == ttl
    requires ReplyTo(s, trace, i) == Flag(true)
    requires forall k :: i < k < j ==> !Touches(trace[k].op, key)
    ensures Held(After(s, trace[..j]).entries, key, ExpiryFor(ttl, trace[i].at), trace[j].at)
  {
    FoldNext(NextStore, s, trace, i + 1);
    EventStarts(After(s, trace[..i]), trace[i], trace[i + 1].at);
    var expiresAt := ExpiryFor(ttl, trace[i].at);
    forall t, k | i + 1 <= k < j && HeldAt(trace, key, expiresAt)(t, k)
      ensures HeldAt(trace, key, expiresAt)(NextStore(t, trace[k]), k + 1)
    {
      EventHolds(t, trace[k], key, expiresAt, trace[k + 1].at);
    }
    FoldKeeps(NextStore, s, trace, i + 1, j, HeldAt(trace, key, expiresAt));
  }

  /**
   Two successful SetNX on one key, with nothing in between that touches the key, are at least the
   first one's time to live apart; after one without a time to live there is no second.
   */
  lemma {:induction false} LeaseExcludes(s: Store, trace: seq<Event>, i: nat, j: nat, key: string)
    requires Ordered(trace) && i < j < |trace|
    requires trace[i].op.SetNX? && trace[i].op.key == key && ReplyTo(s, trace, i) == Flag(true)
    requires trace[j].op.SetNX? && trace[j].op.key == key && ReplyTo(s, trace, j) == Flag(true)
    requires forall k :: i < k < j ==> !Touches(trace[k].op, key)
    ensures trace[i].op.ttl > 0 && trace[j].at >= trace[i].at + trace[i].op.ttl / 1_000_000_000
  {
    var ttl := trace[i].op.ttl;
    LeaseHolds(s, trace, i, j, key, ttl);
    StepHolds(After(s, trace[..j]), trace[j].op, key, ExpiryFor(ttl, trace[i].at), trace[j].at);
  }

  // ---------- Times to live ----------

  /**
   A value set with a time to live in nanoseconds is found until so many whole seconds have gone by, and the time
   it has left is answered in nanoseconds; without one it stays, which is answered as minus one second. A missing
   or expired key is minus two seconds.
   */
  lemma {:induction false} TimeToLive(s: Store, key: string, value: string, ttl: int, at: int, now: int)
    requires 0 < at <= now
    ensures var t, seconds := Step(s, Set(key, value, ttl), at).0, ttl / 1_000_000_000;
            && Step(t, Get(key), now).1 == Value(if ttl <= 0 || now < at + seconds then Some(value) else None)
            && Step(t, Exists(key), now).1 == Number(if ttl <= 0 || now < at + seconds then 1 else 0)
            && Step(t, Ttl(key), now).1
               == Number(if ttl <= 0 then -1_000_000_000
                         else if now < at + seconds then (at + seconds - now) * 1_000_000_000
                         else -2_000_000_000)
    ensures key !in s.entries ==> Step(s, Ttl(key), now).1 == Number(-2_000_000_000)
  {
  }

  // ---------- Counters ----------

  predicate Writes(op: Op, key: string) {
    (op.Set? || op.SetNX?) && op.key == key
  }

  /** However often a key is incremented, reading it finds nothing unless it is also written as an entry. */
  lemma {:induction false} IncrIsInvisibleToGet(s: Store, trace: seq<Event>, key: string, now: int)
    requires key !in s.entries && forall i :: 0 <= i < |trace| ==> !Writes(trace[i].op, key)
    ensures Step(After(s, trace), Get(key), now).1 == Value(None)
  {
    NeverStored(s, trace, key);
  }

  function CounterOf(s: Store, key: string): int {
    if key in s.counters then s.counters[key] else 0
  }

  /** How often a key was incremented since its last deletion, on top of `start` when there was none. */
  function Increments(start: int, trace: seq<Event>, key: string): int {
    if trace == [] then start
    else
      var before := Increments(start, trace[..|trace| - 1], key);
      match trace[|trace| - 1].op
      case Incr(k) => if k == key then before + 1 else before
      case Del(keys) => if key in keys then 0 else before
      case _ => before
  }

  /** A counter counts, whatever else happens: the next increment answers with one more than there were before it. */
  lemma {:induction false} CountersCount(s: Store, trace: seq<Event>, key: string, now: int)
    ensures CounterOf(After(s, trace), key) == Increments(CounterOf(s, key), trace, key)
    ensures Step(After(s, trace), Incr(key), now).1 == Number(Increments(CounterOf(s, key), trace, key) + 1)
  {
    RunCounts(s, trace, key);
    IncrAnswers(After(s, trace), key, now);
  }

  lemma {:induction false} IncrAnswers(s: Store, key: string, now: int)
    ensures Step(s, Incr(key), now).1 == Number(CounterOf(s, key) + 1)
  {
  }

  lemma {:induction false} RunCounts(s: Store, trace: seq<Event>, key: string)
    ensures CounterOf(After(s, trace), key) == Increments(CounterOf(s, key), trace, key)
  {
    if trace != [] {
      var front, last := trace[..|trace| - 1], trace[|trace| - 1];
      RunCounts(s, front, key);
      StepCounts(After(s, front), last, key);
    }
  }

  lemma {:induction false} StepCounts(s: Store, e: Event, key: string)
    ensures CounterOf(NextStore(s, e), key)
         == match e.op
            case Incr(k) => if k == key then CounterOf(s, key) + 1 else CounterOf(s, key)
            case Del(keys) => if key in keys then 0 else CounterOf(s, key)
            case _ => CounterOf(s, key)
  {
  }

  /** A deletion removes the named keys from both tables, leaves the rest, and answers how many rows are gone. */
  lemma {:induction false} DelRemoves(s: Store, keys: seq<string>, now: int)
    ensures var (t, reply) := Step(s, Del(keys), now);
            && (forall k :: k in t.entries <==> k in s.entries && k !in keys)
            && (forall k :: k in t.entries ==> t.entries[k] == s.entries[k])
            && (forall k :: k in t.counters <==> k in s.counters && k !in keys)
            && (forall k :: k in t.counters ==> t.counters[k] == s.counters[k])
            && reply == Number(|s.entries| - |t.entries| + |s.counters| - |t.counters|)
  {
    var gone := set k | k in keys;
    RowsRemoved(s.entries, Step(s, Del(keys), now).0.entries, gone);
    RowsRemoved(s.counters, Step(s, Del(keys), now).0.counters, gone);
  }

  lemma {:induction false} RowsRemoved<T>(before: map<string, T>, after: map<string, T>, gone: set<string>)
    requires after == map k | k in before && k !in gone :: before[k]
    ensures |gone * before.Keys| == |before| - |after|
  {
    RemovedCount(before.Keys, gone, after.Keys);
  }

  lemma {:induction false} RemovedCount(all: set<string>, gone: set<string>, left: set<string>)
    requires left == all - gone
    ensures |gone * all| == |all| - |left|
  {
    assert all == left + gone * all && left !! gone * all;
  }

  lemma {:induction false} NeverStored(s: Store, trace: seq<Event>, key: string)
    requires key !in s.entries && forall i :: 0 <= i < |trace| ==> !Writes(trace[i].op, key)
    ensures key !in After(s, trace).entries
  {
    if trace != [] {
      var front, last := trace[..|trace| - 1], trace[|trace| - 1];
      NeverStored(s, front, key);
      StepNeverStores(After(s, front), last.op, key, last.at);
    }
  }

  lemma {:induction false} StepNeverStores(s: Store, op: Op, key: string, now: int)
    requires key !in s.entries && !Writes(op, key)
    ensures key !in Step(s, op, now).0.entries
  {
  }
}
