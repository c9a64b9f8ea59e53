/**
 Which model selections are saved exactly whatever order the database scans the rows in: the condition on the
 stored rows and the request alone.
 */
module SelectionOrder {
  import opened GoStrings
  import opened Lists
  import opened ModelSelection

  /** The stored rows with a pair; nothing keeps a pair from being stored twice. */
  function Copies(rows: map<nat, Model>, pair: Pair): set<nat> {
    set id | id in rows && PairOf(rows[id]) == pair
  }

  /** How many mappings name this upstream with a pair that is not stored. */
  function Newcomers(rows: map<nat, Model>, pairs: seq<Pair>, upstream: string): nat {
    if pairs == [] then 0
    else
      var last := pairs[|pairs| - 1];
      Newcomers(rows, pairs[..|pairs| - 1], upstream)
      + if last.upstream == upstream && Copies(rows, last) == {} then 1 else 0
  }

  /** Every stored mapping has more copies than newcomers of its upstream before it. */
  ghost predicate Roomy(rows: map<nat, Model>, pairs: seq<Pair>) {
    forall j: nat :: j < |pairs| && Copies(rows, pairs[j]) != {} ==>
                       Newcomers(rows, pairs[..j], pairs[j].upstream) < |Copies(rows, pairs[j])|
  }

  lemma {:induction false} NewcomersGrow(rows: map<nat, Model>, pairs: seq<Pair>, upstream: string, i: nat, j: nat)
    requires i <= j <= |pairs|
    ensures Newcomers(rows, pairs[..i], upstream) <= Newcomers(rows, pairs[..j], upstream)
  {
    if i < j {
      NewcomersGrow(rows, pairs, upstream, i, j - 1);
      assert pairs[..j][..j - 1] == pairs[..j - 1];
    }
  }

  lemma {:induction false} NewcomersNext(rows: map<nat, Model>, pairs: seq<Pair>, upstream: string, i: nat)
    requires i < |pairs|
    ensures Newcomers(rows, pairs[..i + 1], upstream)
         == Newcomers(rows, pairs[..i], upstream)
            + if pairs[i].upstream == upstream && Copies(rows, pairs[i]) == {} then 1 else 0
  {
    assert pairs[..i + 1][..i] == pairs[..i];
  }

  lemma {:induction false} NoLastWith(scan: seq<nat>, rows: map<nat, Model>, pair: Pair)
    requires Listed(scan, rows)
    ensures LastWith(scan, rows, pair).None? <==> forall i :: 0 <= i < |scan| ==> PairOf(rows[scan[i]]) != pair
  {
    if scan != [] {
      NoLastWith(scan[..|scan| - 1], rows, pair);
    }
  }

  lemma {:induction false} StoredIff(scan: seq<nat>, rows: map<nat, Model>, pair: Pair)
    requires IsScan(scan, rows)
    ensures LastWith(scan, rows, pair).Some? <==> Copies(rows, pair) != {}
  {
    NoLastWith(scan, rows, pair);
    if id :| id in Copies(rows, pair) {
      var i :| 0 <= i < |scan| && scan[i] == id;
    }
    if LastWith(scan, rows, pair).Some? {
      assert LastWith(scan, rows, pair).value in Copies(rows, pair);
    }
  }

  // ---------- Room enough prevents thefts ----------

  lemma {:induction false} OneMoreTaken(used: set<nat>, id: nat, copies: set<nat>)
    ensures |(used + {id}) * copies| <= |used * copies| + if id in copies then 1 else 0
  {
    if id in copies {
      assert (used + {id}) * copies == used * copies + {id};
    } else {
      assert (used + {id}) * copies == used * copies;
    }
  }

  /** A mapping that is given a copy of another pair is new to the upstream. */
  lemma {:induction false} TakerIsNewcomer(scan: seq<nat>, rows: map<nat, Model>, used: set<nat>, taker: Pair,
                                           pair: Pair)
    requires IsScan(scan, rows) && taker != pair
    requires Given(scan, rows, used, taker).Some? && Given(scan, rows, used, taker).value in Copies(rows, pair)
    ensures taker.upstream == pair.upstream && Copies(rows, taker) == {}
  {
    StoredIff(scan, rows, taker);
  }

  /** Mappings other than the pair's own take no more of its copies than there are newcomers. */
  lemma {:induction false} TakenCopies(scan: seq<nat>, rows: map<nat, Model>, pairs: seq<Pair>, pair: Pair)
    requires IsScan(scan, rows) && pair !in pairs
    ensures |Used(scan, rows, pairs) * Copies(rows, pair)| <= Newcomers(rows, pairs, pair.upstream)
  {
    if pairs != [] {
      var front, last := pairs[..|pairs| - 1], pairs[|pairs| - 1];
      TakenCopies(scan, rows, front, pair);
      assert last in pairs;
      var row := Given(scan, rows, Used(scan, rows, front), last);
      if row.Some? {
        OneMoreTaken(Used(scan, rows, front), row.value, Copies(rows, pair));
        if row.value in Copies(rows, pair) {
          TakerIsNewcomer(scan, rows, Used(scan, rows, front), last, pair);
        }
      }
    }
  }

  lemma {:induction false} AllUsed(scan: seq<nat>, rows: map<nat, Model>, upstream: string, used: set<nat>, x: nat)
    requires Listed(scan, rows) && FirstUnused(scan, rows, upstream, used) == None
    requires x in scan && x in rows && rows[x].upstream == upstream
    ensures x in used
  {
    if x in scan[..|scan| - 1] {
      AllUsed(scan[..|scan| - 1], rows, upstream, used, x);
    }
  }

  /** When the first unused row is the last one with a pair, the other rows with that pair are used. */
  lemma {:induction false} OthersAreUsed(scan: seq<nat>, rows: map<nat, Model>, pair: Pair, used: set<nat>, r: nat,
                                         x: nat)
    requires Listed(scan, rows) && NoRepeats(scan)
    requires FirstUnused(scan, rows, pair.upstream, used) == Some(r) && LastWith(scan, rows, pair) == Some(r)
    requires x in scan && x in rows && PairOf(rows[x]) == pair && x != r
    ensures x in used
  {
    var front, last := scan[..|scan| - 1], scan[|scan| - 1];
    assert scan == front + [last];
    LastIsNew(scan);
    if PairOf(rows[last]) == pair {
      AllUsed(front, rows, pair.upstream, used, x);
    } else {
      OthersAreUsed(front, rows, pair, used, r, x);
    }
  }

  lemma {:induction false} TheftNeedsNewcomers(scan: seq<nat>, rows: map<nat, Model>, pairs: seq<Pair>, i: nat, j: nat)
    requires IsScan(scan, rows) && NoRepeats(pairs) && Steals(scan, rows, pairs, i, j)
    ensures Copies(rows, pairs[j]) != {}
    ensures Newcomers(rows, pairs[..j], pairs[j].upstream) >= |Copies(rows, pairs[j])|
  {
    var pair := pairs[j];
    var used, copies := Used(scan, rows, pairs[..i]), Copies(rows, pair);
    var r := LastWith(scan, rows, pair).value;
    StoredIff(scan, rows, pair);
    StoredIff(scan, rows, pairs[i]);
    forall x | x in copies && x != r
      ensures x in used
    {
      OthersAreUsed(scan, rows, pair, used, r, x);
    }
    assert r !in used && r in copies;
    assert used * copies == copies - {r};
    TakenCopies(scan, rows, pairs[..i], pair);
    NewcomersNext(rows, pairs, pair.upstream, i);
    NewcomersGrow(rows, pairs, pair.upstream, i + 1, j);
  }

  lemma {:induction false} RoomyHasNoTheft(scan: seq<nat>, rows: map<nat, Model>, pairs: seq<Pair>)
    requires IsScan(scan, rows) && NoRepeats(pairs) && Roomy(rows, pairs)
    ensures NoTheft(scan, rows, pairs)
  {
    forall i: nat, j: nat | i < j < |pairs|
      ensures !Steals(scan, rows, pairs, i, j)
    {
      if Steals(scan, rows, pairs, i, j) {
        TheftNeedsNewcomers(scan, rows, pairs, i, j);
      }
    }
  }

  // ---------- A scan that finds the copies first ----------

  lemma {:induction false} FirstUnusedAppends(a: seq<nat>, b: seq<nat>, rows: map<nat, Model>, upstream: string,
                                              used: set<nat>)
    requires Listed(a, rows) && Listed(b, rows)
    ensures Listed(a + b, rows)
    ensures FirstUnused(a + b, rows, upstream, used)
         == if FirstUnused(a, rows, upstream, used).Some? then FirstUnused(a, rows, upstream, used)
            else FirstUnused(b, rows, upstream, used)
  {
    if b == [] {
      assert a + b == a;
    } else {
      assert (a + b)[..|a + b| - 1] == a + b[..|b| - 1];
      FirstUnusedAppends(a, b[..|b| - 1], rows, upstream, used);
    }
  }

  lemma {:induction false} LastWithAppends(a: seq<nat>, b: seq<nat>, rows: map<nat, Model>, pair: Pair)
    requires Listed(a, rows) && Listed(b, rows)
    ensures Listed(a + b, rows)
    ensures LastWith(a + b, rows, pair)
         == if LastWith(b, rows, pair).Some? then LastWith(b, rows, pair) else LastWith(a, rows, pair)
  {
    if b == [] {
      assert a + b == a;
    } else {
      assert (a + b)[..|a + b| - 1] == a + b[..|b| - 1];
      LastWithAppends(a, b[..|b| - 1], rows, pair);
    }
  }

  lemma {:induction false} NoneUnused(ids: seq<nat>, rows: map<nat, Model>, upstream: string, used: set<nat>)
    requires Listed(ids, rows) && forall i :: 0 <= i < |ids| ==> ids[i] in used
    ensures FirstUnused(ids, rows, upstream, used) == None
  {
    if ids != [] {
      NoneUnused(ids[..|ids| - 1], rows, upstream, used);
    }
  }

  /** Of copies of which the first k are used, the next one is found. */
  lemma {:induction false} NextCopy(copies: seq<nat>, rest: seq<nat>, rows: map<nat, Model>, upstream: string,
                                    used: set<nat>, k: nat)
    requires Listed(copies, rows) && Listed(rest, rows) && k < |copies|
    requires forall i :: 0 <= i < |copies| ==> rows[copies[i]].upstream == upstream && (copies[i] in used <==> i < k)
    ensures Listed(copies + rest, rows) && FirstUnused(copies + rest, rows, upstream, used) == Some(copies[k])
  {
    NoneUnused(copies[..k], rows, upstream, used);
    assert copies[..k + 1][..k] == copies[..k];
    assert FirstUnused(copies[..k + 1], rows, upstream, used) == Some(copies[k]);
    FirstUnusedAppends(copies[..k + 1], copies[k + 1..], rows, upstream, used);
    assert copies[..k + 1] + copies[k + 1..] == copies;
    FirstUnusedAppends(copies, rest, rows, upstream, used);
  }

  /** The scan has all copies of a pair, and only these, in front. */
  ghost predicate CopiesFirst(copies: seq<nat>, rest: seq<nat>, rows: map<nat, Model>, pair: Pair) {
    && IsScan(copies + rest, rows)
    && (forall i :: 0 <= i < |copies| ==> copies[i] in rows && PairOf(rows[copies[i]]) == pair)
    && (forall i :: 0 <= i < |rest| ==> rest[i] in rows && PairOf(rows[rest[i]]) != pair)
  }

  function HasPair(rows: map<nat, Model>, pair: Pair): nat -> bool {
    id => id in rows && PairOf(rows[id]) == pair
  }

  lemma {:induction false} CopiesInFront(scan: seq<nat>, rows: map<nat, Model>, pair: Pair)
    returns (copies: seq<nat>, rest: seq<nat>)
    requires IsScan(scan, rows)
    ensures CopiesFirst(copies, rest, rows, pair) && |copies| == |Copies(rows, pair)|
  {
    var f := HasPair(rows, pair);
    copies, rest := Those(scan, f), Those(scan, Not(f));
    assert Rearranged(scan, f) == copies + rest;
    RearrangedIsDistinct(scan, f);
    forall id
      ensures id in copies + rest <==> id in scan
    {
      RearrangedMembers(scan, f, id);
    }
    forall i | 0 <= i < |copies|
      ensures copies[i] in rows && PairOf(rows[copies[i]]) == pair
    {
      ThoseMembers(scan, f, copies[i]);
    }
    forall i | 0 <= i < |rest|
      ensures rest[i] in rows && PairOf(rows[rest[i]]) != pair
    {
      ThoseMembers(scan, Not(f), rest[i]);
    }
    ThoseDistinct(scan, f);
    SizeOfDistinct(copies);
    forall id
      ensures id in Elements(copies) <==> id in Copies(rows, pair)
    {
      ThoseMembers(scan, f, id);
    }
    assert Elements(copies) == Copies(rows, pair);
  }

  lemma {:induction false} LastCopy(copies: seq<nat>, rest: seq<nat>, rows: map<nat, Model>, pair: Pair)
    requires CopiesFirst(copies, rest, rows, pair) && copies != []
    ensures LastWith(copies + rest, rows, pair) == Some(copies[|copies| - 1])
  {
    NoLastWith(rest, rows, pair);
    LastWithAppends(copies, rest, rows, pair);
  }

  /** Newcomers take the copies one after another. */
  lemma {:induction false} NewcomersTakeCopies(copies: seq<nat>, rest: seq<nat>, rows: map<nat, Model>,
                                               pairs: seq<Pair>, pair: Pair, i: nat)
    requires CopiesFirst(copies, rest, rows, pair) && pair !in pairs && i < |copies|
    ensures copies[i] in Used(copies + rest, rows, pairs) <==> i < Newcomers(rows, pairs, pair.upstream)
    decreases |pairs|, 0
  {
    if pairs != [] {
      var front, last := pairs[..|pairs| - 1], pairs[|pairs| - 1];
      assert last in pairs && last != pair;
      NewcomerStep(copies, rest, rows, front, last, pair);
      NewcomersTakeCopies(copies, rest, rows, front, pair, i);
      DistinctCopies(copies, rest, rows, pair);
    }
  }

  lemma {:induction false} DistinctCopies(copies: seq<nat>, rest: seq<nat>, rows: map<nat, Model>, pair: Pair)
    requires CopiesFirst(copies, rest, rows, pair)
    ensures NoRepeats(copies)
  {
    forall i, j | 0 <= i < j < |copies|
      ensures copies[i] != copies[j]
    {
      assert (copies + rest)[i] != (copies + rest)[j];
    }
  }

  /**
   A further mapping is given the next copy if it is a newcomer of the upstream and one is left, and no copy
   otherwise.
   */
  lemma {:induction false} NewcomerStep(copies: seq<nat>, rest: seq<nat>, rows: map<nat, Model>, front: seq<Pair>,
                                        last: Pair, pair: Pair)
    requires CopiesFirst(copies, rest, rows, pair) && pair !in front && last != pair
    ensures var k := Newcomers(rows, front, pair.upstream);
            var row := Given(copies + rest, rows, Used(copies + rest, rows, front), last);
            if last.upstream == pair.upstream && Copies(rows, last) == {} && k < |copies| then row == Some(copies[k])
            else row.Some? ==> row.value !in copies
    decreases |front|, 1
  {
    var scan, k := copies + rest, Newcomers(rows, front, pair.upstream);
    var used := Used(scan, rows, front);
    StoredIff(scan, rows, last);
    forall i | 0 <= i < |copies|
      ensures copies[i] in used <==> i < k
    {
      NewcomersTakeCopies(copies, rest, rows, front, pair, i);
    }
    assert Listed(copies, rows) && Listed(rest, rows);
    if last.upstream == pair.upstream && Copies(rows, last) == {} && k < |copies| {
      NextCopy(copies, rest, rows, pair.upstream, used, k);
    }
  }

  lemma {:induction false} NthNewcomer(rows: map<nat, Model>, pairs: seq<Pair>, upstream: string, j: nat, c: nat)
    returns (n: nat)
    requires j <= |pairs| && 0 < c <= Newcomers(rows, pairs[..j], upstream)
    ensures n < j && Newcomers(rows, pairs[..n], upstream) == c - 1
    ensures pairs[n].upstream == upstream && Copies(rows, pairs[n]) == {}
  {
    n := j - 1;
    NewcomersNext(rows, pairs, upstream, n);
    if Newcomers(rows, pairs[..n], upstream) >= c {
      n := NthNewcomer(rows, pairs, upstream, n, c);
    }
  }

  lemma {:induction false} NewcomersSteal(scan: seq<nat>, rows: map<nat, Model>, pairs: seq<Pair>, j: nat)
    returns (order: seq<nat>, n: nat)
    requires IsScan(scan, rows) && NoRepeats(pairs) && j < |pairs| && Copies(rows, pairs[j]) != {}
    requires Newcomers(rows, pairs[..j], pairs[j].upstream) >= |Copies(rows, pairs[j])|
    ensures IsScan(order, rows) && Steals(order, rows, pairs, n, j)
  {
    var pair := pairs[j];
    var copies, rest := CopiesInFront(scan, rows, pair);
    order := copies + rest;
    n := NthNewcomer(rows, pairs, pair.upstream, j, |copies|);
    assert pair !in pairs[..n];
    NewcomerStep(copies, rest, rows, pairs[..n], pairs[n], pair);
    LastCopy(copies, rest, rows, pair);
    StoredIff(order, rows, pairs[n]);
  }

  // ---------- The condition ----------

  /**
   A selection is exact whatever order the rows are scanned in if and only if every mapping that is already stored
   has more copies than mappings new to its upstream come before it in the request.
   */
  lemma {:induction false} ExactInEveryScanIff(scan: seq<nat>, start: Db, pairs: seq<Pair>, windows: map<Pair, string>)
    requires IsScan(scan, start.rows) && Fresh(start) && NoRepeats(pairs)
    ensures (forall order :: IsScan(order, start.rows) ==>
                               EnabledPairs(Selected(order, start, pairs, windows).rows) == set pair | pair in pairs)
       <==> Roomy(start.rows, pairs)
  {
    if Roomy(start.rows, pairs) {
      forall order | IsScan(order, start.rows)
        ensures EnabledPairs(Selected(order, start, pairs, windows).rows) == set pair | pair in pairs
      {
        RoomyHasNoTheft(order, start.rows, pairs);
        SelectionIsExactIff(order, start, pairs, windows);
      }
    } else {
      var j: nat :| j < |pairs| && Copies(start.rows, pairs[j]) != {}
                    && Newcomers(start.rows, pairs[..j], pairs[j].upstream) >= |Copies(start.rows, pairs[j])|;
      var order, n := NewcomersSteal(scan, start.rows, pairs, j);
      SelectionIsExactIff(order, start, pairs, windows);
    }
  }

  /** No pair is stored twice. */
  ghost predicate StoredOnce(rows: map<nat, Model>) {
    forall x, y :: x in rows && y in rows && PairOf(rows[x]) == PairOf(rows[y]) ==> x == y
  }

  /** Per upstream, the stored mappings come first. */
  ghost predicate StoredFirst(rows: map<nat, Model>, pairs: seq<Pair>) {
    forall i: nat, j: nat :: i < j < |pairs| && pairs[i].upstream == pairs[j].upstream ==>
                               Copies(rows, pairs[j]) != {} ==> Copies(rows, pairs[i]) != {}
  }

  lemma {:induction false} OneCopy(rows: map<nat, Model>, pair: Pair)
    requires StoredOnce(rows) && Copies(rows, pair) != {}
    ensures |Copies(rows, pair)| == 1
  {
    var x :| x in Copies(rows, pair);
    assert Copies(rows, pair) == {x};
  }

  lemma {:induction false} NoNewcomers(rows: map<nat, Model>, pairs: seq<Pair>, upstream: string)
    ensures Newcomers(rows, pairs, upstream) == 0
       <==> forall i :: 0 <= i < |pairs| && pairs[i].upstream == upstream ==> Copies(rows, pairs[i]) != {}
  {
    if pairs != [] {
      NoNewcomers(rows, pairs[..|pairs| - 1], upstream);
    }
  }

  /** When no pair is stored twice, that is: per upstream, the mappings already stored come first in the request. */
  lemma {:induction false} RoomyIffStoredFirst(rows: map<nat, Model>, pairs: seq<Pair>)
    requires StoredOnce(rows)
    ensures Roomy(rows, pairs) <==> StoredFirst(rows, pairs)
  {
    forall j: nat | j < |pairs| && Copies(rows, pairs[j]) != {}
      ensures Newcomers(rows, pairs[..j], pairs[j].upstream) < |Copies(rows, pairs[j])|
         <==> forall i: nat :: i < j && pairs[i].upstream == pairs[j].upstream ==> Copies(rows, pairs[i]) != {}
    {
      OneCopy(rows, pairs[j]);
      NoNewcomers(rows, pairs[..j], pairs[j].upstream);
    }
  }
}
