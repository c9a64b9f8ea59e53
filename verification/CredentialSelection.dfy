/**
 Choosing one upstream credential: a weighted draw over the usable ones, and a memory that keeps a
 conversation on the credential it started with.
 */
module CredentialSelection {
  import opened GoStrings
  import opened Lists

  datatype Credential = Credential(id: nat, cipher: string)

  /** Health of one credential for one model. */
  datatype Health = Health(score: int, cooling: bool)

  const MAX_SCORE := 100

  /** The zero row, which stands for "nothing selected". */
  const NOTHING := Credential(0, "")

  // ---------- The weighted draw ----------

  /** A missing score counts as full, and no score counts as less than one. */
  function Weight(c: Credential, health: map<nat, Health>): (w: nat)
    ensures w >= 1
  {
    var w := if c.id in health then health[c.id].score else MAX_SCORE;
    if w < 1 then 1 else w
  }

  function Weights(rows: seq<Credential>, health: map<nat, Health>): (ws: seq<nat>)
    ensures |ws| == |rows|
    ensures forall i :: 0 <= i < |rows| ==> ws[i] == Weight(rows[i], health)
  {
    seq(|rows|, i requires 0 <= i < |rows| => Weight(rows[i], health))
  }

  function Total(ws: seq<nat>): nat {
    if ws == [] then 0 else Total(ws[..|ws| - 1]) + ws[|ws| - 1]
  }

  lemma {:induction false} TotalUpTo(ws: seq<nat>, i: nat)
    requires i < |ws|
    ensures Total(ws[..i + 1]) == Total(ws[..i]) + ws[i]
  {
    assert ws[..i + 1][..i] == ws[..i];
  }

  lemma {:induction false} TotalIsMonotone(ws: seq<nat>, i: nat, j: nat)
    requires i <= j <= |ws|
    ensures Total(ws[..i]) <= Total(ws[..j])
  {
    if i < j {
      TotalIsMonotone(ws, i, j - 1);
      TotalUpTo(ws, j - 1);
    }
  }

  /** The draw `r` belongs to index `i`: it lies in the i-th of the adjoining intervals of lengths ws[0], ws[1], ... */
  predicate Owns(ws: seq<nat>, i: nat, r: nat)
    requires i < |ws|
  {
    Total(ws[..i]) <= r < Total(ws[..i + 1])
  }

  /** The index that the loop of `weightedSelect` stops at; the last one when it runs out. */
  function Picked(ws: seq<nat>, r: nat): (i: nat)
    requires ws != []
    ensures i < |ws|
  {
    if |ws| > 1 && r < Total(ws[..|ws| - 1]) then Picked(ws[..|ws| - 1], r) else |ws| - 1
  }

  lemma {:induction false} PickedOwns(ws: seq<nat>, r: nat)
    requires ws != [] && r < Total(ws)
    ensures Owns(ws, Picked(ws, r), r)
  {
    var front := ws[..|ws| - 1];
    if |ws| > 1 && r < Total(front) {
      PickedOwns(front, r);
      var i := Picked(front, r);
      assert front[..i] == ws[..i] && front[..i + 1] == ws[..i + 1];
    } else {
      assert ws[..|ws|] == ws;
    }
  }

  lemma {:induction false} OneOwner(ws: seq<nat>, i: nat, j: nat, r: nat)
    requires i < |ws| && j < |ws| && Owns(ws, i, r) && Owns(ws, j, r)
    ensures i == j
  {
    if i < j {
      TotalIsMonotone(ws, i + 1, j);
    } else if j < i {
      TotalIsMonotone(ws, j + 1, i);
    }
  }

  /** Draws past the total, which `mathrand.IntN` cannot return, would fall through to the last credential. */
  lemma {:induction false} PickedPastTheTotal(ws: seq<nat>, r: nat)
    requires ws != [] && r >= Total(ws)
    ensures Picked(ws, r) == |ws| - 1
  {
  }

  function Draws(ws: seq<nat>, i: nat): set<nat>
    requires i < |ws|
  {
    set r: nat | r < Total(ws) && Picked(ws, r) == i
  }

  predicate InRange(lo: nat, r: nat, hi: nat) {
    lo <= r < hi
  }

  lemma {:induction false} RangeSize(lo: nat, hi: nat)
    requires lo <= hi
    ensures |set r: nat | r < hi && InRange(lo, r, hi)| == hi - lo
  {
    var all := set r: nat | r < hi && InRange(lo, r, hi);
    if lo < hi {
      var h: nat := hi - 1;
      RangeSize(lo, h);
      var fewer := set r: nat | r < h && InRange(lo, r, h);
      assert all == fewer + {h} by {
        forall r: nat
          ensures r in all <==> r in fewer + {h}
        {
          assert InRange(lo, r, hi) <==> InRange(lo, r, h) || r == h;
        }
      }
    } else {
      assert all == {};
    }
  }

  /**
   Exact weights: over all draws below the total, credential i is picked for exactly as many as its score, at
   least for one, and for 100 without a score; the draws it is picked for are its own interval, and every draw
   is picked by somebody.
   */
  lemma {:induction false} DrawsAreWeights(rows: seq<Credential>, health: map<nat, Health>, i: nat)
    requires i < |rows|
    ensures var ws := Weights(rows, health);
            && |Draws(ws, i)| == ws[i]
               == (if rows[i].id !in health then 100
                   else if health[rows[i].id].score >= 1 then health[rows[i].id].score else 1)
            && (forall r: nat :: r in Draws(ws, i) <==> Owns(ws, i, r))
            && (forall r: nat :: r in Draws(ws, Picked(ws, r)) <==> r < Total(ws))
  {
    var ws := Weights(rows, health);
    forall r: nat
      ensures r in Draws(ws, i) <==> Owns(ws, i, r)
    {
      if r < Total(ws) {
        PickedOwns(ws, r);
        if Owns(ws, i, r) {
          OneOwner(ws, i, Picked(ws, r), r);
        }
      } else {
        TotalIsMonotone(ws, i + 1, |ws|);
        assert ws[..|ws|] == ws;
      }
    }
    TotalUpTo(ws, i);
    var lo, hi := Total(ws[..i]), Total(ws[..i + 1]);
    RangeSize(lo, hi);
    var interval := set r: nat | r < hi && InRange(lo, r, hi);
    forall r: nat
      ensures r in Draws(ws, i) <==> r in interval
    {
      assert Owns(ws, i, r) <==> InRange(lo, r, hi);
    }
    assert Draws(ws, i) == interval;
  }

  /** The credential `weightedSelect` returns for a draw. */
  function Drawn(rows: seq<Credential>, health: map<nat, Health>, draw: nat): (c: Credential)
    requires rows != []
    ensures c in rows
  {
    rows[Picked(Weights(rows, health), draw)]
  }

  lemma {:induction false} PickedStopsHere(ws: seq<nat>, r: nat, i: nat)
    requires i < |ws| && Total(ws[..i]) <= r
    requires r < Total(ws[..i + 1])
    ensures Picked(ws, r) == i
  {
    TotalIsMonotone(ws, i + 1, |ws|);
    assert ws[..|ws|] == ws;
    PickedOwns(ws, r);
    OneOwner(ws, i, Picked(ws, r), r);
  }

  /** `draw` is what `mathrand.IntN(total)` returned. */
  method WeightedSelect(available: seq<Credential>, health: map<nat, Health>, draw: nat) returns (c: Credential)
    requires available != []
    ensures c == Drawn(available, health, draw)
  {
    if |available| == 1 {
      return available[0];
    }
    var weights := new nat[|available|];
    var total := 0;
    for i := 0 to |available|
      invariant weights[..i] == Weights(available, health)[..i]
      invariant total == Total(weights[..i]) >= i
    {
      var w := if available[i].id in health then health[available[i].id].score else MAX_SCORE;
      if w < 1 {
        w := 1;
      }
      weights[i] := w;
      total := total + w;
      assert weights[..i + 1] == weights[..i] + [w];
      assert Weights(available, health)[..i + 1] == Weights(available, health)[..i] + [w];
    }
    ghost var ws := Weights(available, health);
    assert weights[..] == ws;
    // Every weight is at least one, so the branch for an empty total is dead.
    assert total > 0;
    var r: int := draw;
    for i := 0 to |available|
      invariant r == draw - Total(ws[..i]) >= 0
      invariant weights[..] == ws
    {
      TotalUpTo(ws, i);
      assert weights[i] == ws[i];
      r := r - weights[i];
      if r < 0 {
        PickedStopsHere(ws, draw, i);
        return available[i];
      }
    }
    assert ws[..|ws|] == ws;
    PickedPastTheTotal(ws, draw);
    c := available[|available| - 1];
  }

  // ---------- Choosing for a conversation ----------

  function IdOf(c: Credential): nat {
    c.id
  }

  predicate HasId(rows: seq<Credential>, id: nat) {
    exists c :: c in rows && c.id == id
  }

  lemma {:induction false} WithoutKeeps(rows: seq<Credential>, skip: set<nat>, c: Credential)
    ensures c in Without(rows, IdOf, skip) <==> c in rows && c.id !in skip
  {
    assert Outside(IdOf, skip)(c) <==> IdOf(c) !in skip;
    ThoseMembers(rows, Outside(IdOf, skip), c);
  }

  lemma {:induction false} WithoutKeepsId(rows: seq<Credential>, skip: set<nat>, id: nat)
    ensures HasId(Without(rows, IdOf, skip), id) <==> HasId(rows, id) && id !in skip
  {
    if HasId(Without(rows, IdOf, skip), id) {
      var c :| c in Without(rows, IdOf, skip) && c.id == id;
      WithoutKeeps(rows, skip, c);
    }
    if HasId(rows, id) && id !in skip {
      var c :| c in rows && c.id == id;
      WithoutKeeps(rows, skip, c);
    }
  }

  function FirstWithId(rows: seq<Credential>, id: nat): (c: Credential)
    ensures HasId(rows, id) ==> c in rows && c.id == id
  {
    if rows == [] then NOTHING else if rows[0].id == id then rows[0] else FirstWithId(rows[1..], id)
  }

  lemma {:induction false} FirstWithIdAt(rows: seq<Credential>, id: nat, i: nat)
    requires i < |rows| && rows[i].id == id
    requires forall k :: 0 <= k < i ==> rows[k].id != id
    ensures HasId(rows, id) && FirstWithId(rows, id) == rows[i]
  {
    if i > 0 {
      FirstWithIdAt(rows[1..], id, i - 1);
    }
    assert rows[i] in rows;
  }

  /** A choice, and whether it should be remembered. */
  datatype Choice = Choice(selected: Credential, persist: bool)

  /**
   What `selectConversationCredential` is for: stay on the remembered credential when it may be used,
   otherwise draw one, and remember the draw unless the old one was only excluded.
   */
  function Chosen(available: seq<Credential>, affinity: nat, excluded: set<nat>, health: map<nat, Health>,
                  draw: nat): Choice {
    var usable := Without(available, IdOf, excluded);
    if usable == [] then Choice(NOTHING, false)
    else if affinity > 0 && HasId(usable, affinity) then Choice(FirstWithId(usable, affinity), false)
    else Choice(Drawn(usable, health, draw), !(affinity > 0 && HasId(available, affinity)))
  }

  method SelectConversationCredential(available: seq<Credential>, affinity: nat, excluded: set<nat>,
                                      health: map<nat, Health>, draw: nat)
    returns (selected: Credential, persist: bool)
    ensures Choice(selected, persist) == Chosen(available, affinity, excluded, health, draw)
  {
    var usable: seq<Credential> := [];
    for i := 0 to |available|
      invariant usable == Without(available[..i], IdOf, excluded)
    {
      WithoutNext(available, IdOf, excluded, i);
      if available[i].id !in excluded {
        usable := usable + [available[i]];
      }
    }
    assert available[..|available|] == available;
    if usable == [] {
      return NOTHING, false;
    }
    WithoutKeepsId(available, excluded, affinity);
    if affinity > 0 {
      for i := 0 to |available|
        invariant forall j :: 0 <= j < i ==> available[j].id != affinity
      {
        if available[i].id == affinity {
          assert available[i] in available;
          for j := 0 to |usable|
            invariant forall k :: 0 <= k < j ==> usable[k].id != affinity
          {
            if usable[j].id == affinity {
              FirstWithIdAt(usable, affinity, j);
              return usable[j], false;
            }
          }
          selected := WeightedSelect(usable, health, draw);
          return selected, false;
        }
      }
      selected := WeightedSelect(usable, health, draw);
      return selected, true;
    }
    selected := WeightedSelect(usable, health, draw);
    persist := true;
  }

  // ---------- The memory ----------

  /** One conversation on one channel and model. */
  datatype Key = Key(conversation: string, channel: nat, model: nat)

  /** A remembered credential id and the second at which Redis drops it. */
  datatype Memo = Memo(id: nat, deadline: int)

  const AFFINITY_SECONDS := 24 * 3600

  /**
   One call. `rows` is the channel's pool without channel-level cooldowns, None when it could not be read;
   the last three fields say whether the Redis read, renewal and write went through.
   */
  datatype Request = Request(now: int, conversation: string, channel: nat, model: nat,
                             rows: Option<seq<Credential>>, health: map<nat, Health>, excluded: set<nat>, draw: nat,
                             readOk: bool, renewOk: bool, writeOk: bool)

  function KeyOf(q: Request): Key {
    Key(Trim(q.conversation), q.channel, q.model)
  }

  /** Calls share a memory exactly when conversation, space around it aside, channel and model agree. */
  lemma {:induction false} SharesMemoryIff(a: Request, b: Request)
    ensures KeyOf(a) == KeyOf(b)
       <==> Trim(a.conversation) == Trim(b.conversation) && a.channel == b.channel && a.model == b.model
    ensures KeyOf(a).conversation == Trim(a.conversation)
    ensures KeyOf(a.(conversation := " " + a.conversation + " ")) == KeyOf(a) || !Trimmed(a.conversation)
  {
    if Trimmed(a.conversation) {
      TrimPadded(a.conversation);
    }
  }

  function Cooling(health: map<nat, Health>): set<nat> {
    set id | id in health && health[id].cooling
  }

  /** The credentials the request may find available. */
  function Pool(q: Request): seq<Credential> {
    if q.rows.None? then [] else Without(q.rows.value, IdOf, Cooling(q.health))
  }

  /** The id remembered at `now`, 0 when there is none. */
  function Remembered(entries: map<Key, Memo>, key: Key, now: int): nat {
    if key in entries && now < entries[key].deadline then entries[key].id else 0
  }

  class ConversationMemory {
    var entries: map<Key, Memo>

    constructor ()
      ensures entries == map[]
    {
      entries := map[];
    }

    /** `selectCredentialForConversation`: None sends the caller back to the binding of the API key. */
    method Select(q: Request) returns (answer: Option<Credential>)
      modifies this
      ensures Turn(old(entries), q, entries, answer)
    {
      var key := KeyOf(q);
      if key.conversation == "" || q.rows.None? {
        return None;
      }
      var available: seq<Credential> := [];
      for i := 0 to |q.rows.value|
        invariant available == Without(q.rows.value[..i], IdOf, Cooling(q.health))
        invariant entries == old(entries)
      {
        var row := q.rows.value[i];
        WithoutNext(q.rows.value, IdOf, Cooling(q.health), i);
        if !(row.id in q.health && q.health[row.id].cooling) {
          available := available + [row];
        }
      }
      assert q.rows.value[..|q.rows.value|] == q.rows.value;
      if available == [] {
        return None;
      }
      var affinity := Read(q, key);
      var selected, persist := SelectConversationCredential(available, affinity, q.excluded, q.health, q.draw);
      if selected.id == 0 {
        return None;
      }
      if persist && selected.id != affinity {
        Write(q, key, selected.id);
      }
      return Some(selected);
    }

    /** `readCredentialAffinity`: a hit is renewed, a failure reads as no memory. */
    method Read(q: Request, key: Key) returns (id: nat)
      modifies this
      ensures id == if q.readOk then Remembered(old(entries), key, q.now) else 0
      ensures entries
           == if id > 0 && q.renewOk then old(entries)[key := Memo(id, q.now + AFFINITY_SECONDS)] else old(entries)
    {
      if !q.readOk {
        return 0;
      }
      id := Remembered(entries, key, q.now);
      if id == 0 {
        return 0;
      }
      if q.renewOk {
        entries := entries[key := entries[key].(deadline := q.now + AFFINITY_SECONDS)];
      }
    }

    method Write(q: Request, key: Key, id: nat)
      modifies this
      ensures entries == if q.writeOk then old(entries)[key := Memo(id, q.now + AFFINITY_SECONDS)] else old(entries)
    {
      if q.writeOk {
        entries := entries[key := Memo(id, q.now + AFFINITY_SECONDS)];
      }
    }
  }

  /** What the call may do to the memory and answer, given what it read. */
  predicate Turn(before: map<Key, Memo>, q: Request, after: map<Key, Memo>, answer: Option<Credential>) {
    var key := KeyOf(q);
    if key.conversation == "" || Pool(q) == [] then after == before && answer == None
    else
      var affinity := if q.readOk then Remembered(before, key, q.now) else 0;
      var renewed :=
        if affinity > 0 && q.renewOk then before[key := Memo(affinity, q.now + AFFINITY_SECONDS)] else before;
      var choice := Chosen(Pool(q), affinity, q.excluded, q.health, q.draw);
      && answer == (if choice.selected.id == 0 then None else Some(choice.selected))
      && after == if choice.selected.id != 0 && choice.persist && choice.selected.id != affinity && q.writeOk
                  then renewed[key := Memo(choice.selected.id, q.now + AFFINITY_SECONDS)] else renewed
  }

  // ---------- What the memory does over time ----------

  function Usable(q: Request): seq<Credential> {
    Without(Pool(q), IdOf, q.excluded)
  }

  /** Usable are exactly the rows that were read, do not cool down for the model and are not excluded. */
  lemma {:induction false} UsableIff(q: Request, c: Credential)
    ensures c in Pool(q) <==> q.rows.Some? && c in q.rows.value && !(c.id in q.health && q.health[c.id].cooling)
    ensures c in Usable(q) <==> c in Pool(q) && c.id !in q.excluded
  {
    if q.rows.Some? {
      WithoutKeeps(q.rows.value, Cooling(q.health), c);
    }
    WithoutKeeps(Pool(q), q.excluded, c);
  }

  /** A memory is found up to its deadline, and not from then on. */
  lemma {:induction false} MemoryExpires(entries: map<Key, Memo>, key: Key, id: nat, deadline: int, now: int)
    ensures Remembered(entries[key := Memo(id, deadline)], key, now) == if now < deadline then id else 0
    ensures key !in entries ==> Remembered(entries, key, now) == 0
  {
  }

  /** The call replaces the remembered id of its conversation. */
  predicate Replaces(before: map<Key, Memo>, q: Request) {
    var held := Remembered(before, KeyOf(q), q.now);
    && KeyOf(q).conversation != "" && Usable(q) != [] && q.writeOk
    && !(q.readOk && held > 0 && HasId(Pool(q), held))
    && var drawn := Drawn(Usable(q), q.health, q.draw).id; drawn != 0 && drawn != held
  }

  lemma {:induction false} UsableIsInPool(q: Request)
    ensures Usable(q) != [] ==> Pool(q) != []
  {
  }

  /**
   One call changes what is remembered exactly when it replaces it, then to the drawn credential, and
   never touches another conversation, channel or model. In particular an id that was read and is in the
   pool stays, excluded by this request or not.
   */
  lemma {:induction false} MemoryAfterTurn(before: map<Key, Memo>, q: Request, after: map<Key, Memo>,
                                           answer: Option<Credential>, key: Key)
    requires Turn(before, q, after, answer)
    ensures Remembered(after, key, q.now)
         == if key == KeyOf(q) && Replaces(before, q) then Drawn(Usable(q), q.health, q.draw).id
            else Remembered(before, key, q.now)
    ensures key != KeyOf(q) ==> (key in after <==> key in before) && (key in before ==> after[key] == before[key])
  {
    UsableIsInPool(q);
    var held := Remembered(before, KeyOf(q), q.now);
    var affinity := if q.readOk then held else 0;
    WithoutKeepsId(Pool(q), q.excluded, affinity);
  }

  /** Whatever a call writes to the memory is kept for a day, and only the memory of its own conversation is written. */
  lemma {:induction false} RemembersADay(before: map<Key, Memo>, q: Request, after: map<Key, Memo>,
                                         answer: Option<Credential>, key: Key)
    requires Turn(before, q, after, answer) && key in after && (key !in before || after[key] != before[key])
    ensures key == KeyOf(q) && key.conversation != "" && after[key].deadline == q.now + 86_400
    ensures answer.Some? ==> after[key].id in {answer.value.id, Remembered(before, key, q.now)}
  {
    MemoryAfterTurn(before, q, after, answer, key);
  }

  /**
   A remembered credential that is still in the pool is forgotten exactly when the read of the memory
   failed, the write went through, and the fresh draw came out differently.
   */
  lemma {:induction false} AvailableCredentialForgottenIff(before: map<Key, Memo>, q: Request, after: map<Key, Memo>,
                                                           answer: Option<Credential>)
    requires Turn(before, q, after, answer) && KeyOf(q).conversation != ""
    requires Remembered(before, KeyOf(q), q.now) > 0 && HasId(Pool(q), Remembered(before, KeyOf(q), q.now))
    ensures Remembered(after, KeyOf(q), q.now) != Remembered(before, KeyOf(q), q.now)
       <==> !q.readOk && q.writeOk && Usable(q) != []
            && Drawn(Usable(q), q.health, q.draw).id !in {0, Remembered(before, KeyOf(q), q.now)}
  {
    MemoryAfterTurn(before, q, after, answer, KeyOf(q));
  }

  /** Whatever is answered is in the channel's pool, not cooling for this model and not excluded. */
  lemma {:induction false} AnswerMayBeUsed(before: map<Key, Memo>, q: Request, after: map<Key, Memo>,
                                           answer: Option<Credential>)
    requires Turn(before, q, after, answer)
    ensures answer.Some? ==>
              && q.rows.Some? && answer.value in q.rows.value && answer.value.id !in q.excluded
              && (answer.value.id in q.health ==> !q.health[answer.value.id].cooling)
  {
    if answer.Some? {
      assert answer.value in Usable(q);
      WithoutKeeps(Pool(q), q.excluded, answer.value);
      WithoutKeeps(q.rows.value, Cooling(q.health), answer.value);
    }
  }

  lemma {:induction false} UsableRowsArePositive(q: Request, c: Credential)
    requires q.rows.Some? && (forall row :: row in q.rows.value ==> row.id > 0) && c in Usable(q)
    ensures c.id > 0
  {
    WithoutKeeps(Pool(q), q.excluded, c);
    WithoutKeeps(q.rows.value, Cooling(q.health), c);
  }

  /**
   With the positive ids the table hands out, a call with a conversation answers exactly when some credential is
   usable.
   */
  lemma {:induction false} AnswersIff(before: map<Key, Memo>, q: Request, after: map<Key, Memo>,
                                      answer: Option<Credential>)
    requires Turn(before, q, after, answer)
    requires q.rows.Some? ==> forall row :: row in q.rows.value ==> row.id > 0
    ensures answer.Some? <==> KeyOf(q).conversation != "" && Usable(q) != []
  {
    UsableIsInPool(q);
    if KeyOf(q).conversation != "" && Usable(q) != [] {
      UsableRowsArePositive(q, Drawn(Usable(q), q.health, q.draw));
    }
  }

  /** A remembered id that was read is answered exactly when it is in the pool and not excluded. */
  lemma {:induction false} RememberedIsAnsweredIff(before: map<Key, Memo>, q: Request, after: map<Key, Memo>,
                                                   answer: Option<Credential>)
    requires Turn(before, q, after, answer) && KeyOf(q).conversation != "" && q.readOk
    requires Remembered(before, KeyOf(q), q.now) > 0
    ensures answer.Some? && answer.value.id == Remembered(before, KeyOf(q), q.now)
       <==> HasId(Pool(q), Remembered(before, KeyOf(q), q.now)) && Remembered(before, KeyOf(q), q.now) !in q.excluded
  {
    var held := Remembered(before, KeyOf(q), q.now);
    WithoutKeepsId(Pool(q), q.excluded, held);
    if answer.Some? {
      assert answer.value in Usable(q);
    }
  }

  /** A run of calls: the memory before each of them and after the last, and their answers. */
  ghost predicate IsRun(states: seq<map<Key, Memo>>, calls: seq<Request>, answers: seq<Option<Credential>>) {
    && |states| == |calls| + 1 && |answers| == |calls|
    && forall i :: 0 <= i < |calls| ==> Turn(states[i], calls[i], states[i + 1], answers[i])
  }

  /** The deadline of a conversation's memory after calls that all find it. */
  function Deadline(calls: seq<Request>, key: Key, start: int): int {
    if calls == [] then start
    else
      var last := calls[|calls| - 1];
      if KeyOf(last) == key && Pool(last) != [] && last.renewOk then last.now + AFFINITY_SECONDS
      else Deadline(calls[..|calls| - 1], key, start)
  }

  /** Every call of the conversation that looks at the memory finds it alive and finds the credential in the pool. */
  ghost predicate Undisturbed(calls: seq<Request>, key: Key, id: nat, start: int) {
    forall i :: 0 <= i < |calls| && KeyOf(calls[i]) == key && Pool(calls[i]) != [] ==>
      calls[i].readOk && calls[i].now < Deadline(calls[..i], key, start) && HasId(Pool(calls[i]), id)
  }

  lemma {:induction false} UndisturbedTurn(before: map<Key, Memo>, q: Request, after: map<Key, Memo>,
                                           answer: Option<Credential>, key: Key, id: nat, deadline: int)
    requires Turn(before, q, after, answer) && key.conversation != "" && id > 0
    requires key in before && before[key] == Memo(id, deadline)
    requires KeyOf(q) == key && Pool(q) != [] ==> q.readOk && q.now < deadline && HasId(Pool(q), id)
    ensures key in after
    ensures after[key]
         == Memo(id, if KeyOf(q) == key && Pool(q) != [] && q.renewOk then q.now + AFFINITY_SECONDS else deadline)
  {
    if KeyOf(q) == key && Pool(q) != [] {
      WithoutKeepsId(Pool(q), q.excluded, id);
    } else if KeyOf(q) != key {
      MemoryAfterTurn(before, q, after, answer, key);
    }
  }

  lemma {:induction false} MemoryLasts(states: seq<map<Key, Memo>>, calls: seq<Request>,
                                       answers: seq<Option<Credential>>, key: Key, id: nat, start: int, n: nat)
    requires IsRun(states, calls, answers) && key.conversation != "" && id > 0 && n <= |calls|
    requires key in states[0] && states[0][key] == Memo(id, start)
    requires Undisturbed(calls, key, id, start)
    ensures key in states[n] && states[n][key] == Memo(id, Deadline(calls[..n], key, start))
  {
    if n > 0 {
      MemoryLasts(states, calls, answers, key, id, start, n - 1);
      assert calls[..n][..n - 1] == calls[..n - 1];
      var i := n - 1;
      assert Turn(states[i], calls[i], states[i + 1], answers[i]);
      UndisturbedTurn(states[i], calls[i], states[i + 1], answers[i], key, id, Deadline(calls[..i], key, start));
    }
  }

  /**
   Stickiness over whole runs: while the memory is read in time and its credential stays in the pool,
   every call of the conversation that does not exclude it is answered with it, whatever other
   conversations do and however many calls in between had to exclude it.
   */
  lemma {:induction false} ConversationSticks(states: seq<map<Key, Memo>>, calls: seq<Request>,
                                              answers: seq<Option<Credential>>, key: Key, id: nat, start: int, n: nat)
    requires IsRun(states, calls, answers) && key.conversation != "" && id > 0 && n < |calls|
    requires key in states[0] && states[0][key] == Memo(id, start)
    requires Undisturbed(calls, key, id, start)
    requires KeyOf(calls[n]) == key && Pool(calls[n]) != []
    ensures answers[n].Some? && answers[n].value.id == id <==> id !in calls[n].excluded
    ensures Remembered(states[n + 1], key, calls[n].now) == id
  {
    MemoryLasts(states, calls, answers, key, id, start, n);
    assert Turn(states[n], calls[n], states[n + 1], answers[n]);
    RememberedIsAnsweredIff(states[n], calls[n], states[n + 1], answers[n]);
    MemoryAfterTurn(states[n], calls[n], states[n + 1], answers[n], key);
  }
}
