/**
 The pool of usable credentials is cached under keys that contain a version number. Writers commit
 to the table first and increment the number afterwards; readers and writers interleave freely.
 */
module CredentialCache {
  import opened GoStrings
  import opened Lists
  import opened Runs

  datatype Row = Row(id: nat, channel: nat, enabled: bool)

  type Table = seq<Row>

  /** The rows a channel can use, in table order. */
  function Usable(table: Table, channel: nat): seq<Row> {
    if table == [] then []
    else
      var last := table[|table| - 1];
      Usable(table[..|table| - 1], channel) + if last.channel == channel && last.enabled then [last] else []
  }

  /** Exactly the enabled rows of the channel are usable. */
  lemma {:induction false} UsableMembers(table: Table, channel: nat)
    ensures forall row :: row in Usable(table, channel) <==> row in table && row.channel == channel && row.enabled
  {
    if table != [] {
      var front, last := table[..|table| - 1], table[|table| - 1];
      UsableMembers(front, channel);
      assert table == front + [last];
    }
  }

  /** They keep their order and their number: what is usable of two parts of a table stands in turn. */
  lemma {:induction false} UsableKeepsOrder(a: Table, b: Table, channel: nat)
    ensures Usable(a + b, channel) == Usable(a, channel) + Usable(b, channel)
  {
    if b == [] {
      assert a + b == a;
    } else {
      UsableKeepsOrder(a, b[..|b| - 1], channel);
      assert (a + b)[..|a + b| - 1] == a + b[..|b| - 1];
    }
  }

  lemma {:induction false} UsableRow(row: Row, channel: nat)
    ensures Usable([row], channel) == if row.channel == channel && row.enabled then [row] else []
  {
    assert [row][..0] == [];
  }

  /** Cached rows. `snapshot` names the table state they were read from; the program does not store it. */
  datatype Entry = Entry(rows: seq<Row>, snapshot: nat)

  /**
   Where a call stands. `mark` counts the increments that were finished when the call read the version,
   and `ok` says whether that read succeeded: on an error the call goes on with version 0.
   */
  datatype Reader =
    | Idle
    | Versioned(channel: nat, version: nat, mark: nat, ok: bool)
    | Missed(channel: nat, version: nat, mark: nat, ok: bool)
    | Loaded(channel: nat, version: nat, mark: nat, ok: bool, entry: Entry)
    | Answered(channel: nat, mark: nat, ok: bool, hit: bool, entry: Entry)

  /** A writer between its commit and its increment holds the number of its commit. */
  datatype Writer = Resting | Committed(commit: nat)

  /**
   `history[i]` is the table after the i-th commit; `bumps` lists the commits in the order they were incremented for.
   */
  datatype State = State(history: seq<Table>, bumps: seq<nat>, cache: map<(nat, nat), Entry>,
                         readers: map<nat, Reader>, writers: map<nat, Writer>)

  datatype Action =
    | Commit(writer: nat, table: Table)
    | Increment(writer: nat)
    | IncrementFails(writer: nat)
    | ReadVersion(reader: nat, channel: nat, ok: bool)
    | ReadCache(reader: nat)
    | ReadTable(reader: nat)
    | Fill(reader: nat, stored: bool)
    | Vanish(channel: nat, version: nat)

  function Initial(table: Table): State {
    State([table], [], map[], map[], map[])
  }

  function ReaderOf(s: State, r: nat): Reader {
    if r in s.readers then s.readers[r] else Idle
  }

  function WriterOf(s: State, w: nat): Writer {
    if w in s.writers then s.writers[w] else Resting
  }

  function Move(s: State, r: nat, reader: Reader): State {
    s.(readers := s.readers[r := reader])
  }

  /** One step of one participant; None when it is not that participant's turn to do this. */
  function Step(s: State, a: Action): Option<State> {
    match a
    case Commit(w, table) =>
      if WriterOf(s, w).Committed? then None
      else Some(s.(history := s.history + [table], writers := s.writers[w := Committed(|s.history|)]))
    case Increment(w) =>
      if WriterOf(s, w).Resting? then None
      else Some(s.(bumps := s.bumps + [WriterOf(s, w).commit], writers := s.writers[w := Resting]))
    case IncrementFails(w) =>
      if WriterOf(s, w).Resting? then None else Some(s.(writers := s.writers[w := Resting]))
    case ReadVersion(r, channel, ok) =>
      if ReaderOf(s, r).Idle? || ReaderOf(s, r).Answered? then
        Some(Move(s, r, Versioned(channel, if ok then |s.bumps| else 0, |s.bumps|, ok)))
      else None
    case ReadCache(r) =>
      (match ReaderOf(s, r)
       case Versioned(channel, version, mark, ok) =>
         Some(Move(s, r,
                   if (channel, version) in s.cache then Answered(channel, mark, ok, true, s.cache[(channel, version)])
                   else Missed(channel, version, mark, ok)))
       case _ => None)
    case ReadTable(r) =>
      (match ReaderOf(s, r)
       case Missed(channel, version, mark, ok) =>
         if s.history == [] then None
         else Some(Move(s, r, Loaded(channel, version, mark, ok,
                                     Entry(Usable(s.history[|s.history| - 1], channel), |s.history| - 1))))
       case _ => None)
    case Fill(r, stored) =>
      (match ReaderOf(s, r)
       case Loaded(channel, version, mark, ok, entry) =>
         var answered := Move(s, r, Answered(channel, mark, ok, false, entry));
         Some(if entry.rows != [] && stored then answered.(cache := answered.cache[(channel, version) := entry])
              else answered)
       case _ => None)
    case Vanish(channel, version) =>
      Some(s.(cache := map k | k in s.cache && k != (channel, version) :: s.cache[k]))
  }

  /**
   Whose turn it is: a writer commits when it is at rest, then increments or fails to; a reader reads the version
   between calls, then the cache, then the table where the cache had nothing, and fills the cache last. Entries
   vanish at any time.
   */
  lemma {:induction false} TurnsIff(s: State, w: nat, r: nat, channel: nat, version: nat, table: Table, ok: bool)
    ensures Step(s, Commit(w, table)).Some? <==> WriterOf(s, w).Resting?
    ensures Step(s, Increment(w)).Some? <==> WriterOf(s, w).Committed?
    ensures Step(s, IncrementFails(w)).Some? <==> WriterOf(s, w).Committed?
    ensures Step(s, ReadVersion(r, channel, ok)).Some? <==> ReaderOf(s, r).Idle? || ReaderOf(s, r).Answered?
    ensures Step(s, ReadCache(r)).Some? <==> ReaderOf(s, r).Versioned?
    ensures s.history != [] ==> (Step(s, ReadTable(r)).Some? <==> ReaderOf(s, r).Missed?)
    ensures Step(s, Fill(r, ok)).Some? <==> ReaderOf(s, r).Loaded?
    ensures Step(s, Vanish(channel, version)).Some?
  {
  }

  /** The cache changes only when rows, at least one, are stored, or when an entry vanishes. */
  lemma {:induction false} CacheChanges(s: State, a: Action, key: (nat, nat))
    requires Step(s, a).Some?
    ensures var t := Step(s, a).value;
            && (key in t.cache && (key !in s.cache || t.cache[key] != s.cache[key]) ==>
                  && a.Fill? && a.stored && ReaderOf(s, a.reader).Loaded?
                  && key == (ReaderOf(s, a.reader).channel, ReaderOf(s, a.reader).version)
                  && t.cache[key] == ReaderOf(s, a.reader).entry && t.cache[key].rows != [])
            && (key in s.cache && key !in t.cache ==> a == Vanish(key.0, key.1))
            && (a.Fill? && a.stored && ReaderOf(s, a.reader).entry.rows != [] ==>
                  (ReaderOf(s, a.reader).channel, ReaderOf(s, a.reader).version) in t.cache)
  {
  }

  // ---------- The invariant ----------

  /** The rows are those of one table state, and that state has every commit behind the first `version` increments. */
  ghost predicate Covers(s: State, entry: Entry, channel: nat, version: nat) {
    && entry.snapshot < |s.history|
    && entry.rows == Usable(s.history[entry.snapshot], channel)
    && forall k :: 0 <= k < version && k < |s.bumps| ==> s.bumps[k] <= entry.snapshot
  }

  ghost predicate ReaderFits(s: State, reader: Reader) {
    match reader
    case Idle => true
    case Versioned(_, version, mark, ok) => version == (if ok then mark else 0) && mark <= |s.bumps|
    case Missed(_, version, mark, ok) => version == (if ok then mark else 0) && mark <= |s.bumps|
    case Loaded(channel, version, mark, ok, entry) =>
      version == (if ok then mark else 0) && mark <= |s.bumps| && Covers(s, entry, channel, mark)
    case Answered(channel, mark, ok, hit, entry) =>
      mark <= |s.bumps| && Covers(s, entry, channel, if ok || !hit then mark else 0)
  }

  ghost predicate Invariant(s: State) {
    && s.history != []
    && (forall k :: 0 <= k < |s.bumps| ==> s.bumps[k] < |s.history|)
    && (forall w :: w in s.writers && s.writers[w].Committed? ==> s.writers[w].commit < |s.history|)
    && (forall key :: key in s.cache ==> key.1 <= |s.bumps| && Covers(s, s.cache[key], key.0, key.1))
    && (forall r :: r in s.readers ==> ReaderFits(s, s.readers[r]))
  }

  /** What held of an entry or a reader still holds when history and increments have only grown. */
  lemma {:induction false} GrowthKeepsCover(s: State, t: State, entry: Entry, channel: nat, version: nat)
    requires s.history <= t.history && s.bumps <= t.bumps && version <= |s.bumps|
    requires Covers(s, entry, channel, version)
    ensures Covers(t, entry, channel, version)
  {
  }

  lemma {:induction false} GrowthKeepsReader(s: State, t: State, reader: Reader)
    requires s.history <= t.history && s.bumps <= t.bumps && ReaderFits(s, reader)
    ensures ReaderFits(t, reader)
  {
    match reader
    case Loaded(channel, version, mark, ok, entry) => GrowthKeepsCover(s, t, entry, channel, mark);
    case Answered(channel, mark, ok, hit, entry) =>
      GrowthKeepsCover(s, t, entry, channel, if ok || !hit then mark else 0);
    case _ =>
  }

  /** Commits and increments keep the invariant. */
  lemma {:induction false} WriterStepKeeps(s: State, a: Action)
    requires Invariant(s) && (a.Commit? || a.Increment? || a.IncrementFails?) && Step(s, a).Some?
    ensures Invariant(Step(s, a).value)
  {
    var t := Step(s, a).value;
    forall key | key in t.cache
      ensures key.1 <= |t.bumps| && Covers(t, t.cache[key], key.0, key.1)
    {
      GrowthKeepsCover(s, t, s.cache[key], key.0, key.1);
    }
    forall r | r in t.readers
      ensures ReaderFits(t, t.readers[r])
    {
      GrowthKeepsReader(s, t, s.readers[r]);
    }
  }

  /** What a reader moves to fits the state. */
  lemma {:induction false} ReaderStepFits(s: State, a: Action)
    requires Invariant(s) && (a.ReadVersion? || a.ReadCache? || a.ReadTable? || a.Fill?) && Step(s, a).Some?
    ensures ReaderFits(s, Step(s, a).value.readers[a.reader])
    ensures forall key :: key in Step(s, a).value.cache ==>
                            key.1 <= |s.bumps| && Covers(s, Step(s, a).value.cache[key], key.0, key.1)
  {
    assert a.reader in s.readers ==> ReaderFits(s, s.readers[a.reader]);
    assert forall k :: 0 <= k < |s.bumps| ==> s.bumps[k] <= |s.history| - 1;
  }

  /** A reader's step changes only that reader and the cache. */
  lemma {:induction false} ReaderStepFrame(s: State, a: Action)
    requires (a.ReadVersion? || a.ReadCache? || a.ReadTable? || a.Fill?) && Step(s, a).Some?
    ensures var t := Step(s, a).value;
            && t.history == s.history && t.bumps == s.bumps && t.writers == s.writers
            && a.reader in t.readers && t.readers == s.readers[a.reader := t.readers[a.reader]]
  {
  }

  /** The invariant speaks of the readers one by one. */
  lemma {:induction false} OneReaderMoves(s: State, t: State, r: nat)
    requires t.history == s.history && t.bumps == s.bumps && r in t.readers
    requires t.readers == s.readers[r := t.readers[r]] && ReaderFits(s, t.readers[r])
    requires forall q :: q in s.readers ==> ReaderFits(s, s.readers[q])
    ensures forall q :: q in t.readers ==> ReaderFits(t, t.readers[q])
  {
    forall q | q in t.readers
      ensures ReaderFits(t, t.readers[q])
    {
      GrowthKeepsReader(s, t, t.readers[q]);
    }
  }

  lemma {:induction false} ReaderStepKeeps(s: State, a: Action)
    requires Invariant(s) && (a.ReadVersion? || a.ReadCache? || a.ReadTable? || a.Fill?) && Step(s, a).Some?
    ensures Invariant(Step(s, a).value)
  {
    ReaderStepFits(s, a);
    ReaderStepFrame(s, a);
    var t := Step(s, a).value;
    OneReaderMoves(s, t, a.reader);
    SameTablesSameCovers(s, t);
  }

  lemma {:induction false} SameTablesSameCovers(s: State, t: State)
    requires t.history == s.history && t.bumps == s.bumps
    requires forall key :: key in t.cache ==> key.1 <= |s.bumps| && Covers(s, t.cache[key], key.0, key.1)
    ensures forall key :: key in t.cache ==> key.1 <= |t.bumps| && Covers(t, t.cache[key], key.0, key.1)
  {
    forall key | key in t.cache
      ensures key.1 <= |t.bumps| && Covers(t, t.cache[key], key.0, key.1)
    {
      GrowthKeepsCover(s, t, t.cache[key], key.0, key.1);
    }
  }

  lemma {:induction false} VanishKeeps(s: State, a: Action)
    requires Invariant(s) && a.Vanish?
    ensures Invariant(Step(s, a).value)
  {
    var t := Step(s, a).value;
    forall key | key in t.cache
      ensures Covers(t, t.cache[key], key.0, key.1)
    {
      GrowthKeepsCover(s, t, s.cache[key], key.0, key.1);
    }
    forall r | r in t.readers
      ensures ReaderFits(t, t.readers[r])
    {
      GrowthKeepsReader(s, t, s.readers[r]);
    }
  }

  /** The invariant holds in every state a run can reach. */
  lemma {:induction false} RunKeepsInvariant(table: Table, actions: seq<Action>)
    requires Run(Step, Initial(table), actions).Some?
    ensures Invariant(Run(Step, Initial(table), actions).value)
  {
    if actions != [] {
      var front, last := actions[..|actions| - 1], actions[|actions| - 1];
      RunKeepsInvariant(table, front);
      var s := Run(Step, Initial(table), front).value;
      if last.Commit? || last.Increment? || last.IncrementFails? {
        WriterStepKeeps(s, last);
      } else if last.Vanish? {
        VanishKeeps(s, last);
      } else {
        ReaderStepKeeps(s, last);
      }
    }
  }

  // ---------- Freshness ----------

  /** The rows are the enabled ones of the channel, in the order of the table. */
  ghost predicate AreUsable(rows: seq<Row>, table: Table, channel: nat) {
    && rows == Usable(table, channel)
    && forall row :: row in rows <==> row in table && row.channel == channel && row.enabled
  }

  /**
   The call answers from one table state that has every write whose increment was finished when it read the version.
   */
  ghost predicate Fresh(s: State, reader: Reader)
    requires reader.Answered?
  {
    && reader.entry.snapshot < |s.history|
    && AreUsable(reader.entry.rows, s.history[reader.entry.snapshot], reader.channel)
    && reader.mark <= |s.bumps|
    && forall k :: 0 <= k < reader.mark ==> s.bumps[k] <= reader.entry.snapshot
  }

  /**
   In every interleaving, with cache entries vanishing at any time and increments failing, a call whose
   version read succeeded, or that did not find its rows in the cache, is fresh.
   */
  lemma {:induction false} AnswersAreFresh(table: Table, actions: seq<Action>, r: nat)
    requires Run(Step, Initial(table), actions).Some? && ReaderOf(Run(Step, Initial(table), actions).value, r).Answered?
    requires var reader := ReaderOf(Run(Step, Initial(table), actions).value, r); reader.ok || !reader.hit
    ensures Fresh(Run(Step, Initial(table), actions).value, ReaderOf(Run(Step, Initial(table), actions).value, r))
  {
    RunKeepsInvariant(table, actions);
    var s := Run(Step, Initial(table), actions).value;
    UsableMembers(s.history[ReaderOf(s, r).entry.snapshot], ReaderOf(s, r).channel);
  }

  /** Fresh or not, every answer holds exactly the enabled rows of the channel in some table state. */
  lemma {:induction false} AnswersAreUsable(table: Table, actions: seq<Action>, r: nat)
    requires Run(Step, Initial(table), actions).Some? && ReaderOf(Run(Step, Initial(table), actions).value, r).Answered?
    ensures var s := Run(Step, Initial(table), actions).value;
            var reader := ReaderOf(s, r);
            && reader.entry.snapshot < |s.history|
            && AreUsable(reader.entry.rows, s.history[reader.entry.snapshot], reader.channel)
  {
    RunKeepsInvariant(table, actions);
    var s := Run(Step, Initial(table), actions).value;
    UsableMembers(s.history[ReaderOf(s, r).entry.snapshot], ReaderOf(s, r).channel);
  }

  /** The run in which the rows of one table are cached at version 0 before the table is replaced. */
  function StaleRun(channel: nat, after: Table): seq<Action> {
    [ReadVersion(0, channel, true), ReadCache(0), ReadTable(0), Fill(0, true),
     Commit(0, after), Increment(0), ReadVersion(1, channel, false), ReadCache(1)]
  }

  /** The state after the first call of StaleRun has filled the cache. */
  function Filled(before: Table, channel: nat): State {
    var entry := Entry(Usable(before, channel), 0);
    State([before], [], map[(channel, 0) := entry], map[0 := Answered(channel, 0, true, false, entry)], map[])
  }

  lemma {:induction false} FirstCallFills(before: Table, channel: nat)
    requires Usable(before, channel) != []
    ensures Run(Step, Initial(before), [ReadVersion(0, channel, true), ReadCache(0), ReadTable(0), Fill(0, true)])
         == Some(Filled(before, channel))
  {
    var entry := Entry(Usable(before, channel), 0);
    var s0 := Initial(before);
    var s1 := s0.(readers := map[0 := Versioned(channel, 0, 0, true)]);
    var s2 := s0.(readers := map[0 := Missed(channel, 0, 0, true)]);
    var s3 := s0.(readers := map[0 := Loaded(channel, 0, 0, true, entry)]);
    assert Step(s0, ReadVersion(0, channel, true)) == Some(s1);
    assert Step(s1, ReadCache(0)) == Some(s2) by { assert s1.readers[0 := s2.readers[0]] == s2.readers; }
    assert Step(s2, ReadTable(0)) == Some(s3) by { assert s2.readers[0 := s3.readers[0]] == s3.readers; }
    assert Step(s3, Fill(0, true)) == Some(Filled(before, channel)) by {
      assert s3.readers[0 := Filled(before, channel).readers[0]] == Filled(before, channel).readers;
    }
    RunFollows(Step, [ReadVersion(0, channel, true), ReadCache(0), ReadTable(0), Fill(0, true)],
               [s0, s1, s2, s3, Filled(before, channel)]);
  }

  /**
   A failed version read that hits the cache is the one way to a stale answer, and it is one: whatever
   the second table is, the call answers with the first one's rows although the increment is finished.
   */
  lemma {:induction false} FailedVersionReadIsStale(before: Table, after: Table, channel: nat)
    requires Usable(before, channel) != []
    ensures Run(Step, Initial(before), StaleRun(channel, after)).Some?
    ensures var s := Run(Step, Initial(before), StaleRun(channel, after)).value;
            && ReaderOf(s, 1).Answered? && !ReaderOf(s, 1).ok && ReaderOf(s, 1).hit
            && ReaderOf(s, 1).entry.rows == Usable(before, channel)
            && !Fresh(s, ReaderOf(s, 1))
  {
    var entry := Entry(Usable(before, channel), 0);
    var s4 := Filled(before, channel);
    var s5 := s4.(history := [before, after], writers := map[0 := Committed(1)]);
    var s6 := s5.(bumps := [1], writers := map[0 := Resting]);
    var s7 := s6.(readers := s6.readers[1 := Versioned(channel, 0, 1, false)]);
    var s8 := s6.(readers := s6.readers[1 := Answered(channel, 1, false, true, entry)]);
    assert Step(s4, Commit(0, after)) == Some(s5) by {
      assert s4.history + [after] == s5.history;
      assert s4.writers[0 := Committed(1)] == s5.writers;
    }
    assert Step(s5, Increment(0)) == Some(s6) by {
      assert s5.bumps + [1] == s6.bumps;
      assert s5.writers[0 := Resting] == s6.writers;
    }
    assert Step(s6, ReadVersion(1, channel, false)) == Some(s7);
    assert Step(s7, ReadCache(1)) == Some(s8) by { assert s7.readers[1 := s8.readers[1]] == s8.readers; }
    var first := [ReadVersion(0, channel, true), ReadCache(0), ReadTable(0), Fill(0, true)];
    var rest := [Commit(0, after), Increment(0), ReadVersion(1, channel, false), ReadCache(1)];
    RunFollows(Step, rest, [s4, s5, s6, s7, s8]);
    FirstCallFills(before, channel);
    RunsJoin(Step, Initial(before), first, rest);
    assert first + rest == StaleRun(channel, after);
    assert s8.bumps[0] == 1;
  }

  // ---------- One caller at a time ----------

  function IdOf(row: Row): nat {
    row.id
  }

  lemma {:induction false} WithoutMembers(rows: seq<Row>, skip: set<nat>)
    ensures forall row :: row in Without(rows, IdOf, skip) <==> row in rows && row.id !in skip
  {
    forall row: Row
      ensures row in Without(rows, IdOf, skip) <==> row in rows && row.id !in skip
    {
      assert Outside(IdOf, skip)(row) <==> IdOf(row) !in skip;
      ThoseMembers(rows, Outside(IdOf, skip), row);
    }
  }

  /** Table, version counter and cache as the calls update them when nothing runs in between. */
  class CredentialStore {
    var table: Table
    var version: nat
    var cache: map<(nat, nat), seq<Row>>

    /**
     What is cached under the current version is in the table, nothing is cached under a later one, and only
     rows of the channel that were enabled are cached at all.
     */
    ghost predicate Coherent()
      reads this
    {
      && (forall key :: key in cache ==> key.1 <= version && (key.1 == version ==> cache[key] == Usable(table, key.0)))
      && forall key, row :: key in cache && row in cache[key] ==> row.channel == key.0 && row.enabled
    }

    constructor (table: Table)
      ensures Coherent() && this.table == table && version == 0 && cache == map[]
    {
      this.table, version, cache := table, 0, map[];
    }

    /** A writer: the commit, and `invalidateCredentialCache` after it. */
    method Save(table: Table)
      requires Coherent()
      modifies this
      ensures Coherent() && this.table == table && version == old(version) + 1 && cache == old(cache)
      ensures forall key :: key in cache ==> key.1 < version
    {
      this.table := table;
      version := version + 1;
    }

    /** The rows of a channel, from the cache or from the table, with the attempt to cache them. */
    method Rows(channel: nat, versionOk: bool, storeOk: bool) returns (rows: seq<Row>)
      requires Coherent()
      modifies this`cache
      ensures Coherent()
      ensures versionOk || (channel, 0) !in old(cache) ==> rows == Usable(table, channel)
      ensures forall row :: row in rows ==> row.channel == channel && row.enabled
      ensures var key := (channel, if versionOk then version else 0);
              cache == if key in old(cache) || rows == [] || !storeOk then old(cache) else old(cache)[key := rows]
    {
      var v := if versionOk then version else 0;
      if (channel, v) in cache {
        return cache[(channel, v)];
      }
      rows := Usable(table, channel);
      UsableMembers(table, channel);
      if |rows| > 0 && storeOk {
        cache := cache[(channel, v) := rows];
      }
    }

    /** `availableCredentials`; the flags say whether the version read and the cache write went through. */
    method AvailableCredentials(channel: nat, excluded: set<nat>, cooling: set<nat>, versionOk: bool, storeOk: bool)
      returns (available: seq<Row>)
      requires Coherent()
      modifies this`cache
      ensures Coherent()
      ensures versionOk || (channel, 0) !in old(cache) ==>
                && available == Without(Usable(table, channel), IdOf, excluded + cooling)
                && forall row :: row in available <==>
                                   row in table && row.channel == channel && row.enabled
                                   && row.id !in excluded && row.id !in cooling
      ensures forall row :: row in available ==>
                              row.channel == channel && row.enabled && row.id !in excluded && row.id !in cooling
      ensures forall key :: key in old(cache) ==> key in cache && cache[key] == old(cache)[key]
    {
      var rows := Rows(channel, versionOk, storeOk);
      ghost var filled := cache;
      available := [];
      for i := 0 to |rows|
        invariant cache == filled
        invariant available == Without(rows[..i], IdOf, excluded + cooling)
      {
        WithoutNext(rows, IdOf, excluded + cooling, i);
        if rows[i].id in excluded {
          continue;
        }
        if rows[i].id in cooling {
          continue;
        }
        available := available + [rows[i]];
      }
      assert rows[..|rows|] == rows;
      WithoutMembers(rows, excluded + cooling);
      UsableMembers(table, channel);
    }
  }
}
