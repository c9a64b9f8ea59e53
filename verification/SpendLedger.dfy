/**
 The spend recorded on API keys. Clients charge keys concurrently: each takes the date, opens a
 transaction, locks the row, reads it, writes it back and commits; any transaction may be rolled back.
 */
module SpendLedger {
  import opened GoStrings
  import opened Runs

  /** The spend columns of a key; no date before the first charge. Amounts are real numbers. */
  datatype Row = Row(spent: real, daily: real, date: Option<nat>)

  datatype Charge = Charge(key: nat, amount: real, date: nat)

  /** What a charge makes of the row that was read: a new date starts the daily amount afresh. */
  function Charged(row: Row, charge: Charge): Row {
    Row(row.spent + charge.amount, charge.amount + if row.date == Some(charge.date) then row.daily else 0.0,
        Some(charge.date))
  }

  /** Where a client stands. `charge.date` was taken before the transaction began. */
  datatype Client =
    | Idle
    | Started(charge: Charge)
    | Locked(charge: Charge)
    | Loaded(charge: Charge, stored: Row)
    | Written(charge: Charge, row: Row)

  datatype Error = NotFound

  /** `rows` is what is committed, `holders` who has each row locked, `committed` the charges in commit order. */
  datatype State = State(rows: map<nat, Row>, holders: map<nat, nat>, clients: map<nat, Client>, committed: seq<Charge>)

  datatype Action =
    | Begin(client: nat, charge: Charge)
    | Lock(client: nat)
    | Read(client: nat)
    | Write(client: nat)
    | Commit(client: nat)
    | Rollback(client: nat)

  function Initial(rows: map<nat, Row>): State {
    State(rows, map[], map[], [])
  }

  function ClientOf(s: State, c: nat): Client {
    if c in s.clients then s.clients[c] else Idle
  }

  function Move(s: State, c: nat, client: Client): State {
    s.(clients := s.clients[c := client])
  }

  function Release(holders: map<nat, nat>, key: nat): map<nat, nat> {
    map k | k in holders && k != key :: holders[k]
  }

  /** One step of one client; None when it is not its turn to do this, or the row is locked. */
  function Step(s: State, a: Action): Option<State> {
    var client := ClientOf(s, a.client);
    match a
    case Begin(c, charge) =>
      if !client.Idle? then None
      else if charge.amount <= 0.0 then Some(s)
      else Some(Move(s, c, Started(charge)))
    case Lock(c) =>
      if !client.Started? || client.charge.key in s.holders then None
      else if client.charge.key !in s.rows then Some(Move(s, c, Idle))
      else Some(Move(s, c, Locked(client.charge)).(holders := s.holders[client.charge.key := c]))
    case Read(c) =>
      if !client.Locked? || client.charge.key !in s.rows then None
      else Some(Move(s, c, Loaded(client.charge, s.rows[client.charge.key])))
    case Write(c) =>
      if !client.Loaded? then None
      else Some(Move(s, c, Written(client.charge, Charged(client.stored, client.charge))))
    case Commit(c) =>
      if !client.Written? then None
      else Some(State(s.rows[client.charge.key := client.row], Release(s.holders, client.charge.key),
                      s.clients[c := Idle], s.committed + [client.charge]))
    case Rollback(c) =>
      if client.Idle? then None
      else if client.Started? then Some(Move(s, c, Idle))
      else Some(Move(s, c, Idle).(holders := Release(s.holders, client.charge.key)))
  }

  // ---------- Serial meaning ----------

  /** The charges to one key, in order. */
  function ForKey(charges: seq<Charge>, key: nat): seq<Charge> {
    if charges == [] then []
    else
      var last := charges[|charges| - 1];
      ForKey(charges[..|charges| - 1], key) + if last.key == key then [last] else []
  }

  /** The row after charges made one after another. */
  function Replay(row: Row, charges: seq<Charge>): Row {
    if charges == [] then row
    else Charged(Replay(row, charges[..|charges| - 1]), charges[|charges| - 1])
  }

  ghost predicate ClientFits(s: State, c: nat, client: Client) {
    match client
    case Idle => true
    case Started(charge) => charge.amount > 0.0
    case _ =>
      && client.charge.amount > 0.0
      && client.charge.key in s.rows && client.charge.key in s.holders && s.holders[client.charge.key] == c
      && (client.Loaded? ==> client.stored == s.rows[client.charge.key])
      && (client.Written? ==> client.row == Charged(s.rows[client.charge.key], client.charge))
  }

  ghost predicate RowFits(rows: map<nat, Row>, s: State, key: nat) {
    && (key in s.rows <==> key in rows)
    && (key in rows ==> s.rows[key] == Replay(rows[key], ForKey(s.committed, key)))
  }

  ghost predicate Invariant(rows: map<nat, Row>, s: State) {
    && (forall key :: RowFits(rows, s, key))
    && (forall c :: c in s.clients ==> ClientFits(s, c, s.clients[c]))
    && (forall i :: 0 <= i < |s.committed| ==> s.committed[i].amount > 0.0)
  }

  /** Only a commit changes the rows; every other step moves one client and at most its own lock. */
  lemma {:induction false} OtherStepKeeps(rows: map<nat, Row>, s: State, a: Action)
    requires Invariant(rows, s) && !a.Commit? && Step(s, a).Some?
    ensures Invariant(rows, Step(s, a).value)
  {
    var t := Step(s, a).value;
    assert a.client in s.clients ==> ClientFits(s, a.client, s.clients[a.client]);
    forall c | c in t.clients
      ensures ClientFits(t, c, t.clients[c])
    {
      if c != a.client {
        assert ClientFits(s, c, s.clients[c]);
      }
    }
    forall key
      ensures RowFits(rows, t, key)
    {
      assert RowFits(rows, s, key);
    }
  }

  lemma {:induction false} ForKeyAppend(charges: seq<Charge>, charge: Charge, key: nat)
    ensures ForKey(charges + [charge], key) == ForKey(charges, key) + if charge.key == key then [charge] else []
  {
    assert (charges + [charge])[..|charges|] == charges;
  }

  lemma {:induction false} ReplayAppend(row: Row, charges: seq<Charge>, charge: Charge)
    ensures Replay(row, charges + [charge]) == Charged(Replay(row, charges), charge)
  {
    assert (charges + [charge])[..|charges|] == charges;
  }

  lemma {:induction false} CommitKeepsRow(rows: map<nat, Row>, s: State, c: nat, key: nat)
    requires Invariant(rows, s) && Step(s, Commit(c)).Some?
    ensures RowFits(rows, Step(s, Commit(c)).value, key)
  {
    var charge := s.clients[c].charge;
    assert ClientFits(s, c, s.clients[c]);
    assert RowFits(rows, s, key);
    ForKeyAppend(s.committed, charge, key);
    if key == charge.key {
      ReplayAppend(rows[key], ForKey(s.committed, key), charge);
    } else {
      assert ForKey(s.committed, key) + [] == ForKey(s.committed, key);
    }
  }

  lemma {:induction false} CommitKeeps(rows: map<nat, Row>, s: State, c: nat)
    requires Invariant(rows, s) && Step(s, Commit(c)).Some?
    ensures Invariant(rows, Step(s, Commit(c)).value)
  {
    var t := Step(s, Commit(c)).value;
    var charge := s.clients[c].charge;
    assert ClientFits(s, c, s.clients[c]);
    forall key
      ensures RowFits(rows, t, key)
    {
      CommitKeepsRow(rows, s, c, key);
    }
    forall d | d in t.clients
      ensures ClientFits(t, d, t.clients[d])
    {
      if d != c {
        assert ClientFits(s, d, s.clients[d]);
      }
    }
  }

  lemma {:induction false} RunKeepsInvariant(rows: map<nat, Row>, actions: seq<Action>)
    requires Run(Step, Initial(rows), actions).Some?
    ensures Invariant(rows, Run(Step, Initial(rows), actions).value)
  {
    if actions != [] {
      var front, last := actions[..|actions| - 1], actions[|actions| - 1];
      RunKeepsInvariant(rows, front);
      var s := Run(Step, Initial(rows), front).value;
      if last.Commit? {
        CommitKeeps(rows, s, last.client);
      } else {
        OtherStepKeeps(rows, s, last);
      }
    }
  }

  // ---------- No lost spend ----------

  function Sum(charges: seq<Charge>): real {
    if charges == [] then 0.0 else Sum(charges[..|charges| - 1]) + charges[|charges| - 1].amount
  }

  lemma {:induction false} ReplayAddsUp(row: Row, charges: seq<Charge>)
    ensures Replay(row, charges).spent == row.spent + Sum(charges)
  {
    if charges != [] {
      ReplayAddsUp(row, charges[..|charges| - 1]);
    }
  }

  /**
   No lost spend: in every interleaving of any number of clients, with rollbacks anywhere, each key's row is
   what the committed charges to it make of it one after another, and its total is their sum.
   */
  lemma {:induction false} NoSpendIsLost(rows: map<nat, Row>, actions: seq<Action>, key: nat)
    requires Run(Step, Initial(rows), actions).Some? && key in rows
    ensures var s := Run(Step, Initial(rows), actions).value;
            && key in s.rows
            && s.rows[key] == Replay(rows[key], ForKey(s.committed, key))
            && s.rows[key].spent == rows[key].spent + Sum(ForKey(s.committed, key))
  {
    RunKeepsInvariant(rows, actions);
    var s := Run(Step, Initial(rows), actions).value;
    assert RowFits(rows, s, key);
    ReplayAddsUp(rows[key], ForKey(s.committed, key));
  }

  // ---------- The daily amount ----------

  /** `dailySpentToday`. */
  function DailySpentToday(row: Row, today: nat): real {
    if row.date != Some(today) then 0.0 else row.daily
  }

  /** `dailyLimitReached`; a key without a limit never reaches it. */
  predicate DailyLimitReached(limit: Option<real>, row: Row, today: nat) {
    limit.Some? && DailySpentToday(row, today) >= limit.value
  }

  /** `dailyRemaining`. */
  function DailyRemaining(limit: real, row: Row, today: nat): real {
    var remaining := limit - DailySpentToday(row, today);
    if remaining < 0.0 then 0.0 else remaining
  }

  /** What was really charged on a day, counting what the row had for that day to begin with. */
  function ChargedOn(row: Row, charges: seq<Charge>, day: nat): real {
    if charges == [] then DailySpentToday(row, day)
    else
      var last := charges[|charges| - 1];
      ChargedOn(row, charges[..|charges| - 1], day) + if last.date == day then last.amount else 0.0
  }

  /** Nothing was charged on the day before a charge dated otherwise. */
  predicate Together(row: Row, charges: seq<Charge>, day: nat) {
    forall i :: 0 <= i < |charges| && charges[i].date != day ==> ChargedOn(row, charges[..i], day) == 0.0
  }

  predicate Positive(row: Row, charges: seq<Charge>) {
    row.daily >= 0.0 && forall i :: 0 <= i < |charges| ==> charges[i].amount > 0.0
  }

  lemma {:induction false} ChargedOnIsPositive(row: Row, charges: seq<Charge>, day: nat)
    requires Positive(row, charges)
    ensures ChargedOn(row, charges, day) >= DailySpentToday(Replay(row, charges), day) >= 0.0
  {
    if charges != [] {
      ChargedOnIsPositive(row, charges[..|charges| - 1], day);
    }
  }

  lemma {:induction false} TogetherLast(row: Row, charges: seq<Charge>, day: nat)
    requires charges != []
    ensures Together(row, charges, day)
       <==> Together(row, charges[..|charges| - 1], day)
            && (charges[|charges| - 1].date != day ==> ChargedOn(row, charges[..|charges| - 1], day) == 0.0)
  {
    var front := charges[..|charges| - 1];
    forall i | 0 <= i < |front|
      ensures front[..i] == charges[..i]
    {
    }
    assert Together(row, charges, day) ==> Together(row, front, day) by {
      if Together(row, charges, day) {
        forall i | 0 <= i < |front| && front[i].date != day
          ensures ChargedOn(row, front[..i], day) == 0.0
        {
          assert charges[i].date != day;
        }
      }
    }
  }

  lemma {:induction false} NothingBeforeTogether(row: Row, charges: seq<Charge>, day: nat)
    requires Positive(row, charges) && ChargedOn(row, charges, day) == 0.0
    ensures Together(row, charges, day)
  {
    if charges != [] {
      ChargedOnIsPositive(row, charges[..|charges| - 1], day);
      NothingBeforeTogether(row, charges[..|charges| - 1], day);
      TogetherLast(row, charges, day);
    }
  }

  /**
   The daily amount is what was charged that day exactly when no charge dated otherwise was committed after
   one dated that day. The date is taken before the lock, so around midnight it can be.
   */
  lemma {:induction false} DailyIsExactIff(row: Row, charges: seq<Charge>, day: nat)
    requires Positive(row, charges)
    ensures DailySpentToday(Replay(row, charges), day) == ChargedOn(row, charges, day) <==> Together(row, charges, day)
  {
    if charges != [] {
      var front, last := charges[..|charges| - 1], charges[|charges| - 1];
      DailyIsExactIff(row, front, day);
      ChargedOnIsPositive(row, front, day);
      TogetherLast(row, charges, day);
      if ChargedOn(row, front, day) == 0.0 {
        NothingBeforeTogether(row, front, day);
      }
    }
  }

  /** Dates that only grow, none after `day`, keep the charges of `day` together. */
  lemma {:induction false} OrderedDatesAreTogether(row: Row, charges: seq<Charge>, day: nat)
    requires forall i, j :: 0 <= i < j < |charges| ==> charges[i].date <= charges[j].date
    requires forall i :: 0 <= i < |charges| ==> charges[i].date <= day
    requires row.date.Some? && charges != [] ==> row.date.value <= charges[0].date
    ensures Together(row, charges, day)
  {
    forall i | 0 <= i < |charges| && charges[i].date != day
      ensures ChargedOn(row, charges[..i], day) == 0.0
    {
      NoneOnDay(row, charges[..i], day);
    }
  }

  lemma {:induction false} NoneOnDay(row: Row, charges: seq<Charge>, day: nat)
    requires row.date != Some(day) && forall i :: 0 <= i < |charges| ==> charges[i].date != day
    ensures ChargedOn(row, charges, day) == 0.0
  {
    if charges != [] {
      NoneOnDay(row, charges[..|charges| - 1], day);
    }
  }

  lemma {:induction false} ForKeyKeeps(charges: seq<Charge>, key: nat)
    requires forall i :: 0 <= i < |charges| ==> charges[i].amount > 0.0
    ensures forall i :: 0 <= i < |ForKey(charges, key)| ==> ForKey(charges, key)[i].amount > 0.0
  {
    if charges != [] {
      ForKeyKeeps(charges[..|charges| - 1], key);
    }
  }

  /**
   The daily limit over whole runs: the test and the remaining amount go by what was really charged on
   the day exactly when the day's charges were committed together; they always agree with each other, and without
   a limit the test is never met.
   */
  lemma {:induction false} DailyLimitCountsCharges(rows: map<nat, Row>, actions: seq<Action>, key: nat, today: nat,
                                                   limit: real)
    requires Run(Step, Initial(rows), actions).Some? && key in rows && rows[key].daily >= 0.0
    ensures var s := Run(Step, Initial(rows), actions).value;
            && key in s.rows
            && var charges := ForKey(s.committed, key);
               && DailySpentToday(s.rows[key], today) <= ChargedOn(rows[key], charges, today)
               && (DailySpentToday(s.rows[key], today) == ChargedOn(rows[key], charges, today)
                   <==> Together(rows[key], charges, today))
               && (DailyLimitReached(Some(limit), s.rows[key], today) <==>
                     DailyRemaining(limit, s.rows[key], today) == 0.0)
               && !DailyLimitReached(None, s.rows[key], today)
               && (Together(rows[key], charges, today) ==>
                     (DailyLimitReached(Some(limit), s.rows[key], today) <==>
                        ChargedOn(rows[key], charges, today) >= limit)
                     && (ChargedOn(rows[key], charges, today) <= limit ==>
                           DailyRemaining(limit, s.rows[key], today) == limit - ChargedOn(rows[key], charges, today)))
  {
    NoSpendIsLost(rows, actions, key);
    RunKeepsInvariant(rows, actions);
    var s := Run(Step, Initial(rows), actions).value;
    var charges := ForKey(s.committed, key);
    ForKeyKeeps(s.committed, key);
    ChargedOnIsPositive(rows[key], charges, today);
    DailyIsExactIff(rows[key], charges, today);
  }

  // ---------- One client at a time ----------

  /** The transaction of a client that has begun. */
  function Transaction(c: nat): seq<Action> {
    [Lock(c), Read(c), Write(c), Commit(c)]
  }

  function AfterTransaction(s: State, c: nat, charge: Charge): State
    requires charge.key in s.rows
  {
    State(s.rows[charge.key := Charged(s.rows[charge.key], charge)], s.holders, s.clients[c := Idle],
          s.committed + [charge])
  }

  lemma {:induction false} TransactionRuns(s: State, c: nat, charge: Charge)
    requires ClientOf(s, c) == Started(charge) && charge.key in s.rows && charge.key !in s.holders
    ensures Run(Step, s, Transaction(c)) == Some(AfterTransaction(s, c, charge))
  {
    var holders := s.holders[charge.key := c];
    var stored := s.rows[charge.key];
    var s1 := Move(s, c, Locked(charge)).(holders := holders);
    var s2 := Move(s, c, Loaded(charge, stored)).(holders := holders);
    var s3 := Move(s, c, Written(charge, Charged(stored, charge))).(holders := holders);
    var s4 := AfterTransaction(s, c, charge);
    assert Step(s1, Read(c)) == Some(s2) by { assert s1.clients[c := s2.clients[c]] == s2.clients; }
    assert Step(s2, Write(c)) == Some(s3) by { assert s2.clients[c := s3.clients[c]] == s3.clients; }
    assert Step(s3, Commit(c)) == Some(s4) by {
      assert s3.clients[c := Idle] == s4.clients;
      assert Release(holders, charge.key) == s.holders;
    }
    RunFollows(Step, Transaction(c), [s, s1, s2, s3, s4]);
  }

  /** Two clients around midnight: the one that began on the old day commits last. */
  function MidnightRun(key: nat, late: real, early: real, day: nat): seq<Action> {
    [Begin(0, Charge(key, late, day)), Begin(1, Charge(key, early, day + 1))] + Transaction(1) + Transaction(0)
  }

  lemma {:induction false} MidnightCommits(key: nat, row: Row, a: Charge, b: Charge)
    requires a.key == key && b.key == key && a.amount > 0.0 && b.amount > 0.0
    ensures var run := Run(Step, Initial(map[key := row]),
                           [Begin(0, a), Begin(1, b)] + Transaction(1) + Transaction(0));
            && run.Some? && key in run.value.rows
            && run.value.rows[key] == Charged(Charged(row, b), a) && run.value.committed == [b, a]
  {
    var s0 := Initial(map[key := row]);
    var s1 := Move(s0, 0, Started(a));
    var s2 := Move(s1, 1, Started(b));
    var s3 := AfterTransaction(s2, 1, b);
    RunFollows(Step, [Begin(0, a), Begin(1, b)], [s0, s1, s2]);
    TransactionRuns(s2, 1, b);
    TransactionRuns(s3, 0, a);
    RunsJoin(Step, s0, [Begin(0, a), Begin(1, b)], Transaction(1));
    RunsJoin(Step, s0, [Begin(0, a), Begin(1, b)] + Transaction(1), Transaction(0));
  }

  lemma {:induction false} ChargesOfTwo(row: Row, key: nat, a: Charge, b: Charge, day: nat)
    requires a.key == key && b.key == key && a.date != day && b.date == day
    ensures ForKey([b, a], key) == [b, a]
    ensures ChargedOn(row, [b, a], day) == DailySpentToday(row, day) + b.amount
  {
    assert [b, a][..1] == [b] && [b][..0] == [];
    assert ForKey([b], key) == [b];
    assert ChargedOn(row, [b], day) == DailySpentToday(row, day) + b.amount;
  }

  /** Such a run hides everything charged on the new day from the limit, whatever the amounts. */
  lemma {:induction false} LateCommitHidesSpend(key: nat, row: Row, late: real, early: real, day: nat)
    requires late > 0.0 && early > 0.0
    ensures var run := Run(Step, Initial(map[key := row]), MidnightRun(key, late, early, day));
            && run.Some? && key in run.value.rows
            && DailySpentToday(run.value.rows[key], day + 1) == 0.0
            && ChargedOn(row, ForKey(run.value.committed, key), day + 1) == DailySpentToday(row, day + 1) + early
  {
    MidnightCommits(key, row, Charge(key, late, day), Charge(key, early, day + 1));
    ChargesOfTwo(row, key, Charge(key, late, day), Charge(key, early, day + 1), day + 1);
  }

  /** `addSpend` when nobody else charges the key meanwhile. */
  class SpendTable {
    var rows: map<nat, Row>

    constructor (rows: map<nat, Row>)
      ensures this.rows == rows
    {
      this.rows := rows;
    }

    method AddSpend(key: nat, amount: real, today: nat) returns (r: Result<(), Error>)
      modifies this
      ensures r == if amount > 0.0 && key !in old(rows) then Err(NotFound) else Ok(())
      ensures rows.Keys == old(rows).Keys && forall k :: k in rows && k != key ==> rows[k] == old(rows)[k]
      ensures amount <= 0.0 ==> rows == old(rows)
      ensures amount > 0.0 && key in rows ==>
                && rows[key].spent == old(rows)[key].spent + amount
                && DailySpentToday(rows[key], today) == DailySpentToday(old(rows)[key], today) + amount
                && (forall day :: day != today ==> DailySpentToday(rows[key], day) == 0.0)
                && rows[key] == Charged(old(rows)[key], Charge(key, amount, today))
    {
      if amount <= 0.0 {
        return Ok(());
      }
      if key !in rows {
        return Err(NotFound);
      }
      var stored := rows[key];
      var dailySpent := amount;
      if stored.date == Some(today) {
        dailySpent := dailySpent + stored.daily;
      }
      rows := rows[key := Row(stored.spent + amount, dailySpent, Some(today))];
      return Ok(());
    }
  }
}
