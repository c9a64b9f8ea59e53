/**
 Saving the models selected for a channel: existing rows are reused, renamed, enabled or disabled, and
 missing ones inserted, so that the enabled rows become the requested (upstream, public) pairs.
 */
module ModelSelection {
  import opened GoStrings
  import opened Lists

  datatype Pair = Pair(upstream: string, public: string)

  datatype Model = Model(upstream: string, public: string, enabled: int, closed: string)

  function PairOf(m: Model): Pair {
    Pair(m.upstream, m.public)
  }

  /** The table and the id its next insert gets. */
  datatype Db = Db(rows: map<nat, Model>, next: nat)

  // ---------- Which row a mapping gets ----------

  predicate Listed(scan: seq<nat>, rows: map<nat, Model>) {
    forall i :: 0 <= i < |scan| ==> scan[i] in rows
  }

  /** The last scanned row with exactly this pair: what `existingByKey` holds. */
  function LastWith(scan: seq<nat>, rows: map<nat, Model>, pair: Pair): (r: Option<nat>)
    requires Listed(scan, rows)
    ensures r.Some? ==> r.value in scan && r.value in rows && PairOf(rows[r.value]) == pair
  {
    if scan == [] then None
    else if PairOf(rows[scan[|scan| - 1]]) == pair then Some(scan[|scan| - 1])
    else LastWith(scan[..|scan| - 1], rows, pair)
  }

  /** The first scanned row of this upstream that no earlier mapping got. */
  function FirstUnused(scan: seq<nat>, rows: map<nat, Model>, upstream: string, used: set<nat>): (r: Option<nat>)
    requires Listed(scan, rows)
    ensures r.Some? ==> r.value in scan && r.value in rows && rows[r.value].upstream == upstream && r.value !in used
  {
    if scan == [] then None
    else
      var front, last := scan[..|scan| - 1], scan[|scan| - 1];
      var earlier := FirstUnused(front, rows, upstream, used);
      if earlier.Some? then earlier
      else if rows[last].upstream == upstream && last !in used then Some(last)
      else None
  }

  function Given(scan: seq<nat>, rows: map<nat, Model>, used: set<nat>, pair: Pair): (r: Option<nat>)
    requires Listed(scan, rows)
    ensures r.Some? ==> r.value in rows && rows[r.value].upstream == pair.upstream
  {
    var exact := LastWith(scan, rows, pair);
    if exact.Some? then exact else FirstUnused(scan, rows, pair.upstream, used)
  }

  /** The rows given to a list of mappings. */
  function Used(scan: seq<nat>, rows: map<nat, Model>, pairs: seq<Pair>): set<nat>
    requires Listed(scan, rows)
  {
    if pairs == [] then {}
    else
      var used := Used(scan, rows, pairs[..|pairs| - 1]);
      var row := Given(scan, rows, used, pairs[|pairs| - 1]);
      if row.Some? then used + {row.value} else used
  }

  /** The row given to the i-th mapping; None when it is inserted. */
  function GivenTo(scan: seq<nat>, rows: map<nat, Model>, pairs: seq<Pair>, i: nat): (r: Option<nat>)
    requires Listed(scan, rows) && i < |pairs|
    ensures r.Some? ==> r.value in rows && rows[r.value].upstream == pairs[i].upstream
  {
    Given(scan, rows, Used(scan, rows, pairs[..i]), pairs[i])
  }

  function Inserts(scan: seq<nat>, rows: map<nat, Model>, pairs: seq<Pair>): nat
    requires Listed(scan, rows)
  {
    if pairs == [] then 0
    else
      var n := |pairs| - 1;
      Inserts(scan, rows, pairs[..n]) + if GivenTo(scan, rows, pairs, n).Some? then 0 else 1
  }

  /** The id of the row the i-th mapping ends up on. */
  function Slot(scan: seq<nat>, db: Db, pairs: seq<Pair>, i: nat): nat
    requires Listed(scan, db.rows) && i < |pairs|
  {
    match GivenTo(scan, db.rows, pairs, i)
    case Some(id) => id
    case None => db.next + Inserts(scan, db.rows, pairs[..i])
  }

  // ---------- The table afterwards ----------

  /** The work of one mapping. Whether a row needs an update is judged by the row as it was scanned. */
  function Placed(scan: seq<nat>, start: map<nat, Model>, used: set<nat>, pair: Pair, windows: map<Pair, string>,
                  db: Db): (r: Db)
    requires Listed(scan, start) && start.Keys <= db.rows.Keys
    ensures start.Keys <= r.rows.Keys
  {
    match Given(scan, start, used, pair)
    case None =>
      Db(db.rows[db.next := Model(pair.upstream, pair.public, 1, if pair in windows then windows[pair] else "")],
         db.next + 1)
    case Some(id) =>
      var model := start[id];
      var retimed := pair in windows && model.closed != windows[pair];
      if model.enabled != 1 || model.public != pair.public || retimed then
        var row := db.rows[id];
        db.(rows := db.rows[id := Model(row.upstream, pair.public, 1, if retimed then windows[pair] else row.closed)])
      else db
  }

  function PlacedAll(scan: seq<nat>, start: Db, pairs: seq<Pair>, windows: map<Pair, string>): (r: Db)
    requires Listed(scan, start.rows)
    ensures start.rows.Keys <= r.rows.Keys
  {
    if pairs == [] then start
    else
      var front := pairs[..|pairs| - 1];
      Placed(scan, start.rows, Used(scan, start.rows, front), pairs[|pairs| - 1], windows,
             PlacedAll(scan, start, front, windows))
  }

  function Disabled(scan: seq<nat>, start: map<nat, Model>, used: set<nat>, rows: map<nat, Model>): (r: map<nat, Model>)
    requires Listed(scan, start) && start.Keys <= rows.Keys
    ensures r.Keys == rows.Keys
  {
    if scan == [] then rows
    else
      var last := scan[|scan| - 1];
      var before := Disabled(scan[..|scan| - 1], start, used, rows);
      if last in used || start[last].enabled == 0 then before
      else before[last := before[last].(enabled := 0)]
  }

  function Selected(scan: seq<nat>, start: Db, pairs: seq<Pair>, windows: map<Pair, string>): Db
    requires Listed(scan, start.rows)
  {
    var placed := PlacedAll(scan, start, pairs, windows);
    placed.(rows := Disabled(scan, start.rows, Used(scan, start.rows, pairs), placed.rows))
  }

  /** A scan returns every row of the channel once, in an order of the database's choosing. */
  ghost predicate IsScan(scan: seq<nat>, rows: map<nat, Model>) {
    && (forall id :: id in scan <==> id in rows)
    && NoRepeats(scan)
  }

  class ChannelModels {
    var rows: map<nat, Model>
    var next: nat

    ghost predicate Valid()
      reads this
    {
      forall id :: id in rows ==> id < next
    }

    constructor ()
      ensures Valid() && rows == map[]
    {
      rows := map[];
      next := 1;
    }

    /** The transaction of `SelectModels`. */
    method SelectModels(scan: seq<nat>, pairs: seq<Pair>, windows: map<Pair, string>)
      requires Valid() && IsScan(scan, rows)
      modifies this
      ensures Listed(scan, old(rows))
      ensures Db(rows, next) == Selected(scan, Db(old(rows), old(next)), pairs, windows)
    {
      var existing := rows;
      var byKey, byUpstream := IndexRows(scan, existing);
      var used := PlaceEach(scan, existing, byKey, byUpstream, pairs, windows);
      Disable(scan, existing, used);
    }

    /** The loop over the mappings. */
    method PlaceEach(scan: seq<nat>, existing: map<nat, Model>, byKey: map<Pair, nat>,
                     byUpstream: map<string, seq<nat>>, pairs: seq<Pair>,
                     windows: map<Pair, string>) returns (used: set<nat>)
      requires Listed(scan, existing) && rows == existing
      requires Indexed(scan, existing, byKey, byUpstream)
      modifies this
      ensures Db(rows, next) == PlacedAll(scan, Db(existing, old(next)), pairs, windows)
      ensures used == Used(scan, existing, pairs)
    {
      ghost var start := Db(existing, next);
      used := {};
      for i := 0 to |pairs|
        invariant used == Used(scan, existing, pairs[..i])
        invariant Db(rows, next) == PlacedAll(scan, start, pairs[..i], windows)
      {
        assert pairs[..i + 1][..i] == pairs[..i];
        used := Place(scan, existing, byKey, byUpstream, used, pairs[i], windows);
      }
      assert pairs[..|pairs|] == pairs;
    }

    /** The loop that disables what was not selected. */
    method Disable(scan: seq<nat>, existing: map<nat, Model>, used: set<nat>)
      requires Listed(scan, existing) && existing.Keys <= rows.Keys
      modifies this
      ensures rows == Disabled(scan, existing, used, old(rows)) && next == old(next)
    {
      for i := 0 to |scan|
        invariant rows == Disabled(scan[..i], existing, used, old(rows))
        invariant next == old(next)
      {
        assert scan[..i + 1][..i] == scan[..i];
        var id := scan[i];
        if id !in used && existing[id].enabled != 0 {
          rows := rows[id := rows[id].(enabled := 0)];
        }
      }
      assert scan[..|scan|] == scan;
    }

    /** One turn of the loop over the mappings. */
    method Place(scan: seq<nat>, existing: map<nat, Model>, byKey: map<Pair, nat>, byUpstream: map<string, seq<nat>>,
                 used: set<nat>, pair: Pair, windows: map<Pair, string>) returns (used': set<nat>)
      requires Listed(scan, existing) && existing.Keys <= rows.Keys
      requires Indexed(scan, existing, byKey, byUpstream)
      modifies this
      ensures Db(rows, next) == Placed(scan, existing, used, pair, windows, Db(old(rows), old(next)))
      ensures var row := Given(scan, existing, used, pair); used' == if row.Some? then used + {row.value} else used
    {
      var row := Found(byKey, pair);
      if row.None? {
        var candidates := Bucket(byUpstream, pair.upstream);
        FirstOfBucket(scan, existing, pair.upstream, used);
        for i := 0 to |candidates|
          invariant row == None
          invariant FirstOf(candidates[..i], used) == None
          invariant rows == old(rows) && next == old(next)
        {
          assert candidates[..i + 1][..i] == candidates[..i];
          if candidates[i] !in used {
            row := Some(candidates[i]);
            FirstOfPrefix(candidates, used, i + 1);
            break;
          }
        }
        assert candidates[..|candidates|] == candidates;
      }
      assert row == Given(scan, existing, used, pair);
      if row.None? {
        rows := rows[next := Model(pair.upstream, pair.public, 1, if pair in windows then windows[pair] else "")];
        next := next + 1;
        return used;
      }
      var id := row.value;
      used' := used + {id};
      var closed := rows[id].closed;
      var needsUpdate := existing[id].enabled != 1 || existing[id].public != pair.public;
      if pair in windows && existing[id].closed != windows[pair] {
        closed := windows[pair];
        needsUpdate := true;
      }
      if needsUpdate {
        rows := rows[id := Model(rows[id].upstream, pair.public, 1, closed)];
      }
    }
  }

  /** What the two maps of `SelectModels` hold after the scan. */
  ghost predicate Indexed(scan: seq<nat>, rows: map<nat, Model>, byKey: map<Pair, nat>,
                          byUpstream: map<string, seq<nat>>)
    requires Listed(scan, rows)
  {
    && (forall pair :: Found(byKey, pair) == LastWith(scan, rows, pair))
    && (forall upstream :: Bucket(byUpstream, upstream) == OfUpstream(scan, rows, upstream))
  }

  method IndexRows(scan: seq<nat>, rows: map<nat, Model>)
    returns (byKey: map<Pair, nat>, byUpstream: map<string, seq<nat>>)
    requires Listed(scan, rows)
    ensures Indexed(scan, rows, byKey, byUpstream)
  {
    byKey, byUpstream := map[], map[];
    for i := 0 to |scan|
      invariant Indexed(scan[..i], rows, byKey, byUpstream)
    {
      IndexedNext(scan, rows, byKey, byUpstream, i);
      var id := scan[i];
      var model := rows[id];
      byKey := byKey[PairOf(model) := id];
      byUpstream := byUpstream[model.upstream := Bucket(byUpstream, model.upstream) + [id]];
    }
    assert scan[..|scan|] == scan;
  }

  lemma {:induction false} IndexedNext(scan: seq<nat>, rows: map<nat, Model>, byKey: map<Pair, nat>,
                                       byUpstream: map<string, seq<nat>>, i: nat)
    requires Listed(scan, rows) && i < |scan| && Indexed(scan[..i], rows, byKey, byUpstream)
    ensures var model := rows[scan[i]];
            Indexed(scan[..i + 1], rows, byKey[PairOf(model) := scan[i]],
                    byUpstream[model.upstream := Bucket(byUpstream, model.upstream) + [scan[i]]])
  {
    var id := scan[i];
    var model := rows[id];
    var byKey' := byKey[PairOf(model) := id];
    var byUpstream' := byUpstream[model.upstream := Bucket(byUpstream, model.upstream) + [id]];
    assert scan[..i + 1][..i] == scan[..i];
    forall pair
      ensures Found(byKey', pair) == LastWith(scan[..i + 1], rows, pair)
    {
      assert Found(byKey, pair) == LastWith(scan[..i], rows, pair);
    }
    forall upstream
      ensures Bucket(byUpstream', upstream) == OfUpstream(scan[..i + 1], rows, upstream)
    {
      assert Bucket(byUpstream, upstream) == OfUpstream(scan[..i], rows, upstream);
    }
  }

  function Found(byKey: map<Pair, nat>, pair: Pair): Option<nat> {
    if pair in byKey then Some(byKey[pair]) else None
  }

  function Bucket(byUpstream: map<string, seq<nat>>, upstream: string): seq<nat> {
    if upstream in byUpstream then byUpstream[upstream] else []
  }

  function OfUpstream(scan: seq<nat>, rows: map<nat, Model>, upstream: string): seq<nat>
    requires Listed(scan, rows)
  {
    if scan == [] then []
    else
      var last := scan[|scan| - 1];
      OfUpstream(scan[..|scan| - 1], rows, upstream) + if rows[last].upstream == upstream then [last] else []
  }

  function FirstOf(ids: seq<nat>, used: set<nat>): Option<nat> {
    if ids == [] then None
    else
      var earlier := FirstOf(ids[..|ids| - 1], used);
      if earlier.Some? then earlier else if ids[|ids| - 1] !in used then Some(ids[|ids| - 1]) else None
  }

  lemma {:induction false} FirstOfPrefix(ids: seq<nat>, used: set<nat>, n: nat)
    requires n <= |ids| && FirstOf(ids[..n], used).Some?
    ensures FirstOf(ids, used) == FirstOf(ids[..n], used)
    decreases |ids| - n
  {
    if n < |ids| {
      assert ids[..n + 1][..n] == ids[..n];
      FirstOfPrefix(ids, used, n + 1);
    } else {
      assert ids[..n] == ids;
    }
  }

  lemma {:induction false} FirstOfBucket(scan: seq<nat>, rows: map<nat, Model>, upstream: string, used: set<nat>)
    requires Listed(scan, rows)
    ensures FirstOf(OfUpstream(scan, rows, upstream), used) == FirstUnused(scan, rows, upstream, used)
  {
    if scan != [] {
      var front, last := scan[..|scan| - 1], scan[|scan| - 1];
      FirstOfBucket(front, rows, upstream, used);
      var ids := OfUpstream(front, rows, upstream);
      assert (ids + [last])[..|ids|] == ids;
      assert ids + [] == ids;
    }
  }

  // ---------- Who gets which row ----------

  lemma {:induction false} PrefixGiven(scan: seq<nat>, rows: map<nat, Model>, pairs: seq<Pair>, n: nat, i: nat)
    requires Listed(scan, rows) && i < n <= |pairs|
    ensures GivenTo(scan, rows, pairs[..n], i) == GivenTo(scan, rows, pairs, i)
  {
    assert pairs[..n][..i] == pairs[..i];
  }

  lemma {:induction false} PrefixSlot(scan: seq<nat>, db: Db, pairs: seq<Pair>, n: nat, i: nat)
    requires Listed(scan, db.rows) && i < n <= |pairs|
    ensures Slot(scan, db, pairs[..n], i) == Slot(scan, db, pairs, i)
  {
    PrefixGiven(scan, db.rows, pairs, n, i);
    assert pairs[..n][..i] == pairs[..i];
  }

  lemma {:induction false} GivenIsUsed(scan: seq<nat>, rows: map<nat, Model>, pairs: seq<Pair>, i: nat)
    requires Listed(scan, rows) && i < |pairs|
    ensures GivenTo(scan, rows, pairs, i).Some? ==> GivenTo(scan, rows, pairs, i).value in Used(scan, rows, pairs)
  {
    if i < |pairs| - 1 {
      GivenIsUsed(scan, rows, pairs[..|pairs| - 1], i);
      PrefixGiven(scan, rows, pairs, |pairs| - 1, i);
    }
  }

  lemma {:induction false} UsedIsExisting(scan: seq<nat>, rows: map<nat, Model>, pairs: seq<Pair>, id: nat)
    requires Listed(scan, rows) && id in Used(scan, rows, pairs)
    ensures id in rows
  {
    var front := pairs[..|pairs| - 1];
    if id in Used(scan, rows, front) {
      UsedIsExisting(scan, rows, front, id);
    }
  }

  lemma {:induction false} InsertsGrow(scan: seq<nat>, rows: map<nat, Model>, pairs: seq<Pair>, i: nat, j: nat)
    requires Listed(scan, rows) && i <= j <= |pairs|
    ensures Inserts(scan, rows, pairs[..i]) <= Inserts(scan, rows, pairs[..j])
    ensures i < j && GivenTo(scan, rows, pairs, i).None? ==>
              Inserts(scan, rows, pairs[..i]) < Inserts(scan, rows, pairs[..j])
  {
    if i < j {
      InsertsGrow(scan, rows, pairs, i, j - 1);
      assert pairs[..j][..j - 1] == pairs[..j - 1];
      PrefixGiven(scan, rows, pairs, j, j - 1);
    }
  }

  predicate Fresh(db: Db) {
    forall id :: id in db.rows ==> id < db.next
  }

  /** The i-th mapping, which has no row of its own, is handed the very row of the later j-th. */
  predicate Steals(scan: seq<nat>, rows: map<nat, Model>, pairs: seq<Pair>, i: nat, j: nat)
    requires Listed(scan, rows)
  {
    && i < j < |pairs|
    && LastWith(scan, rows, pairs[i]).None?
    && LastWith(scan, rows, pairs[j]).Some?
    && GivenTo(scan, rows, pairs, i) == LastWith(scan, rows, pairs[j])
  }

  ghost predicate NoTheft(scan: seq<nat>, rows: map<nat, Model>, pairs: seq<Pair>)
    requires Listed(scan, rows)
  {
    forall i: nat, j: nat :: i < j < |pairs| ==> !Steals(scan, rows, pairs, i, j)
  }

  ghost predicate Apart(scan: seq<nat>, db: Db, pairs: seq<Pair>)
    requires Listed(scan, db.rows)
  {
    forall i: nat, j: nat :: i < j < |pairs| ==> Slot(scan, db, pairs, i) != Slot(scan, db, pairs, j)
  }

  lemma {:induction false} SlotsDiffer(scan: seq<nat>, db: Db, pairs: seq<Pair>, i: nat, j: nat)
    requires Listed(scan, db.rows) && Apart(scan, db, pairs) && i < j < |pairs|
    ensures Slot(scan, db, pairs, i) != Slot(scan, db, pairs, j)
  {
  }

  /** Two mappings share a row exactly when the first steals it from the second. */
  lemma {:induction false} SharedIffStolen(scan: seq<nat>, db: Db, pairs: seq<Pair>, i: nat, j: nat)
    requires Listed(scan, db.rows) && Fresh(db) && i < j < |pairs| && pairs[i] != pairs[j]
    ensures Slot(scan, db, pairs, i) == Slot(scan, db, pairs, j) <==> Steals(scan, db.rows, pairs, i, j)
  {
    GivenIsUsed(scan, db.rows, pairs[..j], i);
    PrefixGiven(scan, db.rows, pairs, j, i);
    InsertsGrow(scan, db.rows, pairs, i, j);
  }

  lemma {:induction false} ApartIffNoTheft(scan: seq<nat>, db: Db, pairs: seq<Pair>)
    requires Listed(scan, db.rows) && Fresh(db) && NoRepeats(pairs)
    ensures Apart(scan, db, pairs) <==> NoTheft(scan, db.rows, pairs)
  {
    forall i: nat, j: nat | i < j < |pairs|
      ensures Slot(scan, db, pairs, i) != Slot(scan, db, pairs, j) <==> !Steals(scan, db.rows, pairs, i, j)
    {
      SharedIffStolen(scan, db, pairs, i, j);
    }
  }

  /** Enough for a caller: per upstream, the mappings that are stored exactly come first. */
  lemma {:induction false} ExactFirstIsEnough(scan: seq<nat>, rows: map<nat, Model>, pairs: seq<Pair>)
    requires Listed(scan, rows)
    requires forall i, j :: 0 <= i < j < |pairs| && pairs[i].upstream == pairs[j].upstream ==>
                              LastWith(scan, rows, pairs[j]).Some? ==> LastWith(scan, rows, pairs[i]).Some?
    ensures NoTheft(scan, rows, pairs)
  {
    forall i: nat, j: nat | i < j < |pairs|
      ensures !Steals(scan, rows, pairs, i, j)
    {
      var row := GivenTo(scan, rows, pairs, i);
      assert row.Some? ==> rows[row.value].upstream == pairs[i].upstream;
    }
  }

  // ---------- The rows after the loop over the mappings ----------

  lemma {:induction false} NextAfter(scan: seq<nat>, start: Db, pairs: seq<Pair>, windows: map<Pair, string>)
    requires Listed(scan, start.rows)
    ensures PlacedAll(scan, start, pairs, windows).next == start.next + Inserts(scan, start.rows, pairs)
  {
    if pairs != [] {
      NextAfter(scan, start, pairs[..|pairs| - 1], windows);
    }
  }

  /** The row carries the pair of a mapping whose slot it is. */
  ghost predicate Owned(scan: seq<nat>, start: Db, pairs: seq<Pair>, id: nat, row: Model)
    requires Listed(scan, start.rows)
  {
    exists k: nat :: k < |pairs| && Slot(scan, start, pairs, k) == id && PairOf(row) == pairs[k]
  }

  lemma {:induction false} OwnedLater(scan: seq<nat>, start: Db, pairs: seq<Pair>, id: nat, row: Model)
    requires Listed(scan, start.rows) && pairs != [] && Owned(scan, start, pairs[..|pairs| - 1], id, row)
    ensures Owned(scan, start, pairs, id, row)
  {
    var n := |pairs| - 1;
    var k: nat :| k < n && Slot(scan, start, pairs[..n], k) == id && PairOf(row) == pairs[..n][k];
    PrefixSlot(scan, start, pairs, n, k);
    assert Slot(scan, start, pairs, k) == id && PairOf(row) == pairs[k];
  }

  ghost predicate Accounted(scan: seq<nat>, start: Db, pairs: seq<Pair>, id: nat, row: Model)
    requires Listed(scan, start.rows)
  {
    || (id in start.rows && id !in Used(scan, start.rows, pairs) && row == start.rows[id])
    || (row.enabled == 1 && Owned(scan, start, pairs, id, row))
  }

  lemma {:induction false} UpstreamKept(scan: seq<nat>, start: Db, pairs: seq<Pair>, windows: map<Pair, string>,
                                        id: nat)
    requires Listed(scan, start.rows) && Fresh(start) && id in start.rows
    ensures PlacedAll(scan, start, pairs, windows).rows[id].upstream == start.rows[id].upstream
  {
    if pairs != [] {
      UpstreamKept(scan, start, pairs[..|pairs| - 1], windows, id);
      NextAfter(scan, start, pairs[..|pairs| - 1], windows);
    }
  }

  /** What the last mapping does to its slot: leave the row or give it its pair; no other row changes. */
  lemma {:induction false} LastPlacement(scan: seq<nat>, start: Db, pairs: seq<Pair>, windows: map<Pair, string>,
                                         id: nat)
    requires Listed(scan, start.rows) && Fresh(start) && pairs != []
    requires id in PlacedAll(scan, start, pairs, windows).rows
    ensures var front, n := pairs[..|pairs| - 1], |pairs| - 1;
            var before := PlacedAll(scan, start, front, windows).rows;
            var row := PlacedAll(scan, start, pairs, windows).rows[id];
            || (Slot(scan, start, pairs, n) == id && row.enabled == 1 && PairOf(row) == pairs[n])
            || (Slot(scan, start, pairs, n) == id && id in before && row == before[id]
                && id in start.rows && start.rows[id].enabled == 1 && PairOf(start.rows[id]) == pairs[n])
            || (Slot(scan, start, pairs, n) != id && id in before && row == before[id])
  {
    var front := pairs[..|pairs| - 1];
    NextAfter(scan, start, front, windows);
    assert Given(scan, start.rows, Used(scan, start.rows, front), pairs[|pairs| - 1])
        == GivenTo(scan, start.rows, pairs, |pairs| - 1);
    if id in start.rows {
      UpstreamKept(scan, start, front, windows, id);
    }
  }

  lemma {:induction false} UsedByLast(scan: seq<nat>, start: Db, pairs: seq<Pair>, id: nat)
    requires Listed(scan, start.rows) && Fresh(start) && pairs != [] && id in start.rows
    ensures id in Used(scan, start.rows, pairs)
       <==> id in Used(scan, start.rows, pairs[..|pairs| - 1]) || Slot(scan, start, pairs, |pairs| - 1) == id
  {
  }

  lemma {:induction false} RowsAreAccounted(scan: seq<nat>, start: Db, pairs: seq<Pair>, windows: map<Pair, string>,
                                            id: nat)
    requires Listed(scan, start.rows) && Fresh(start) && id in PlacedAll(scan, start, pairs, windows).rows
    ensures Accounted(scan, start, pairs, id, PlacedAll(scan, start, pairs, windows).rows[id])
  {
    if pairs != [] {
      var n := |pairs| - 1;
      var front := pairs[..n];
      var before := PlacedAll(scan, start, front, windows).rows;
      var row := PlacedAll(scan, start, pairs, windows).rows[id];
      LastPlacement(scan, start, pairs, windows, id);
      if Slot(scan, start, pairs, n) == id && PairOf(row) == pairs[n] && row.enabled == 1 {
        assert Owned(scan, start, pairs, id, row);
      } else {
        RowsAreAccounted(scan, start, front, windows, id);
        if id in start.rows && id !in Used(scan, start.rows, front) && row == start.rows[id] {
          UsedByLast(scan, start, pairs, id);
        } else {
          OwnedLater(scan, start, pairs, id, row);
        }
      }
    }
  }

  // ---------- The rows after the whole selection ----------

  /** The row a mapping asks for. */
  function Wanted(scan: seq<nat>, start: Db, pairs: seq<Pair>, windows: map<Pair, string>, i: nat): Model
    requires Listed(scan, start.rows) && i < |pairs|
  {
    var given := GivenTo(scan, start.rows, pairs, i);
    Model(pairs[i].upstream, pairs[i].public, 1,
          if pairs[i] in windows then windows[pairs[i]] else if given.Some? then start.rows[given.value].closed else "")
  }

  lemma {:induction false} UntouchedRow(scan: seq<nat>, start: Db, pairs: seq<Pair>, windows: map<Pair, string>,
                                        id: nat)
    requires Listed(scan, start.rows) && Fresh(start) && id in start.rows && id !in Used(scan, start.rows, pairs)
    ensures PlacedAll(scan, start, pairs, windows).rows[id] == start.rows[id]
  {
    if pairs != [] {
      UntouchedRow(scan, start, pairs[..|pairs| - 1], windows, id);
      NextAfter(scan, start, pairs[..|pairs| - 1], windows);
    }
  }

  lemma {:induction false} UsedBy(scan: seq<nat>, start: Db, pairs: seq<Pair>, id: nat) returns (i: nat)
    requires Listed(scan, start.rows) && id in Used(scan, start.rows, pairs)
    ensures i < |pairs| && Slot(scan, start, pairs, i) == id
  {
    var n := |pairs| - 1;
    if id in Used(scan, start.rows, pairs[..n]) {
      i := UsedBy(scan, start, pairs[..n], id);
      PrefixSlot(scan, start, pairs, n, i);
    } else {
      i := n;
    }
  }

  lemma {:induction false} PlacedLast(scan: seq<nat>, start: Db, pairs: seq<Pair>, windows: map<Pair, string>)
    requires Listed(scan, start.rows) && Fresh(start) && pairs != [] && Apart(scan, start, pairs)
    ensures var id, rows := Slot(scan, start, pairs, |pairs| - 1), PlacedAll(scan, start, pairs, windows).rows;
            id in rows && rows[id] == Wanted(scan, start, pairs, windows, |pairs| - 1)
  {
    var n := |pairs| - 1;
    var front := pairs[..n];
    NextAfter(scan, start, front, windows);
    var given := Given(scan, start.rows, Used(scan, start.rows, front), pairs[n]);
    assert given == GivenTo(scan, start.rows, pairs, n);
    if given.Some? {
      if given.value in Used(scan, start.rows, front) {
        var i := UsedBy(scan, start, front, given.value);
        PrefixSlot(scan, start, pairs, n, i);
        SlotsDiffer(scan, start, pairs, i, n);
      } else {
        UntouchedRow(scan, start, front, windows, given.value);
      }
    }
  }

  lemma {:induction false} PlacedRow(scan: seq<nat>, start: Db, pairs: seq<Pair>, windows: map<Pair, string>, i: nat)
    requires Listed(scan, start.rows) && Fresh(start) && i < |pairs| && Apart(scan, start, pairs)
    ensures var id, rows := Slot(scan, start, pairs, i), PlacedAll(scan, start, pairs, windows).rows;
            id in rows && rows[id] == Wanted(scan, start, pairs, windows, i)
  {
    var n := |pairs| - 1;
    if i == n {
      PlacedLast(scan, start, pairs, windows);
    } else {
      forall j: nat, k: nat | j < k < n
        ensures Slot(scan, start, pairs[..n], j) != Slot(scan, start, pairs[..n], k)
      {
        PrefixSlot(scan, start, pairs, n, j);
        PrefixSlot(scan, start, pairs, n, k);
      }
      PlacedRow(scan, start, pairs[..n], windows, i);
      PrefixSlot(scan, start, pairs, n, i);
      PrefixGiven(scan, start.rows, pairs, n, i);
      assert Slot(scan, start, pairs, i) != Slot(scan, start, pairs, n);
      NextAfter(scan, start, pairs[..n], windows);
      StaysPlaced(scan, start, pairs, windows, Slot(scan, start, pairs, i));
    }
  }

  lemma {:induction false} StaysPlaced(scan: seq<nat>, start: Db, pairs: seq<Pair>, windows: map<Pair, string>, id: nat)
    requires Listed(scan, start.rows) && Fresh(start) && pairs != [] && Slot(scan, start, pairs, |pairs| - 1) != id
    requires id in PlacedAll(scan, start, pairs[..|pairs| - 1], windows).rows
    ensures var rows := PlacedAll(scan, start, pairs, windows).rows;
            id in rows && rows[id] == PlacedAll(scan, start, pairs[..|pairs| - 1], windows).rows[id]
  {
    NextAfter(scan, start, pairs[..|pairs| - 1], windows);
    assert Given(scan, start.rows, Used(scan, start.rows, pairs[..|pairs| - 1]), pairs[|pairs| - 1])
        == GivenTo(scan, start.rows, pairs, |pairs| - 1);
  }

  lemma {:induction false} DisabledRow(scan: seq<nat>, start: map<nat, Model>, used: set<nat>, rows: map<nat, Model>,
                                       id: nat)
    requires Listed(scan, start) && start.Keys <= rows.Keys && id in rows
    ensures Disabled(scan, start, used, rows)[id]
         == if id in scan && id !in used && start[id].enabled != 0 then rows[id].(enabled := 0) else rows[id]
  {
    if scan != [] {
      var n := |scan| - 1;
      DisabledRow(scan[..n], start, used, rows, id);
      assert scan == scan[..n] + [scan[n]];
    }
  }

  /** The pairs the channel serves. */
  function EnabledPairs(rows: map<nat, Model>): set<Pair> {
    set id | id in rows && rows[id].enabled != 0 :: PairOf(rows[id])
  }

  lemma {:induction false} EnabledIsOwned(scan: seq<nat>, start: Db, pairs: seq<Pair>, windows: map<Pair, string>,
                                          id: nat)
    requires IsScan(scan, start.rows) && Fresh(start)
    requires var rows := Selected(scan, start, pairs, windows).rows; id in rows && rows[id].enabled != 0
    ensures Owned(scan, start, pairs, id, Selected(scan, start, pairs, windows).rows[id])
  {
    var placed := PlacedAll(scan, start, pairs, windows).rows;
    RowsAreAccounted(scan, start, pairs, windows, id);
    DisabledRow(scan, start.rows, Used(scan, start.rows, pairs), placed, id);
  }

  /**
   Without a theft every mapping has a row of its own, with its pair, enabled, and with the submitted
   closing times or else the ones the row had.
   */
  lemma {:induction false} MappingGetsItsRow(scan: seq<nat>, start: Db, pairs: seq<Pair>, windows: map<Pair, string>,
                                             i: nat)
    requires IsScan(scan, start.rows) && Fresh(start) && NoRepeats(pairs) && NoTheft(scan, start.rows, pairs)
    requires i < |pairs|
    ensures var id, rows := Slot(scan, start, pairs, i), Selected(scan, start, pairs, windows).rows;
            id in rows && rows[id] == Wanted(scan, start, pairs, windows, i)
    ensures forall j: nat :: j < |pairs| && j != i ==> Slot(scan, start, pairs, j) != Slot(scan, start, pairs, i)
  {
    ApartIffNoTheft(scan, start, pairs);
    PlacedRow(scan, start, pairs, windows, i);
    var id := Slot(scan, start, pairs, i);
    GivenIsUsed(scan, start.rows, pairs, i);
    DisabledRow(scan, start.rows, Used(scan, start.rows, pairs), PlacedAll(scan, start, pairs, windows).rows, id);
    forall j: nat | j < |pairs| && j != i
      ensures Slot(scan, start, pairs, j) != Slot(scan, start, pairs, i)
    {
      if j < i {
        assert Slot(scan, start, pairs, j) != Slot(scan, start, pairs, i);
      } else {
        assert Slot(scan, start, pairs, i) != Slot(scan, start, pairs, j);
      }
    }
  }

  /** No existing row is removed or moves to another upstream, and one that no mapping got is only disabled. */
  lemma {:induction false} ExistingRowStays(scan: seq<nat>, start: Db, pairs: seq<Pair>, windows: map<Pair, string>,
                                            id: nat)
    requires IsScan(scan, start.rows) && Fresh(start) && id in start.rows
    ensures var rows := Selected(scan, start, pairs, windows).rows;
            && id in rows && rows[id].upstream == start.rows[id].upstream
            && (id !in Used(scan, start.rows, pairs) ==> rows[id] == start.rows[id].(enabled := 0))
  {
    UpstreamKept(scan, start, pairs, windows, id);
    DisabledRow(scan, start.rows, Used(scan, start.rows, pairs), PlacedAll(scan, start, pairs, windows).rows, id);
    if id !in Used(scan, start.rows, pairs) {
      UntouchedRow(scan, start, pairs, windows, id);
    }
  }

  lemma {:induction false} DistinctAt(pairs: seq<Pair>, k: nat, i: nat)
    requires NoRepeats(pairs) && k < |pairs| && i < |pairs| && pairs[k] == pairs[i]
    ensures k == i
  {
  }

  /** A requested pair that is served at all is served by its own slot. */
  lemma {:induction false} ServedBySlot(scan: seq<nat>, start: Db, pairs: seq<Pair>, windows: map<Pair, string>, i: nat)
    requires IsScan(scan, start.rows) && Fresh(start) && NoRepeats(pairs) && i < |pairs|
    requires pairs[i] in EnabledPairs(Selected(scan, start, pairs, windows).rows)
    ensures var id, rows := Slot(scan, start, pairs, i), Selected(scan, start, pairs, windows).rows;
            id in rows && PairOf(rows[id]) == pairs[i]
  {
    var rows := Selected(scan, start, pairs, windows).rows;
    var id :| id in rows && rows[id].enabled != 0 && PairOf(rows[id]) == pairs[i];
    EnabledIsOwned(scan, start, pairs, windows, id);
    var k: nat :| k < |pairs| && Slot(scan, start, pairs, k) == id && PairOf(rows[id]) == pairs[k];
    DistinctAt(pairs, k, i);
  }

  /**
   The selection is exact, the enabled pairs being the requested ones, exactly when no mapping without a
   row of its own is handed the row of a mapping that comes later in the request.
   */
  lemma {:induction false} SelectionIsExactIff(scan: seq<nat>, start: Db, pairs: seq<Pair>, windows: map<Pair, string>)
    requires IsScan(scan, start.rows) && Fresh(start) && NoRepeats(pairs)
    ensures EnabledPairs(Selected(scan, start, pairs, windows).rows) == (set pair | pair in pairs)
       <==> NoTheft(scan, start.rows, pairs)
  {
    var rows := Selected(scan, start, pairs, windows).rows;
    var served := EnabledPairs(rows);
    if NoTheft(scan, start.rows, pairs) {
      forall pair | pair in served
        ensures pair in pairs
      {
        var id :| id in rows && rows[id].enabled != 0 && PairOf(rows[id]) == pair;
        EnabledIsOwned(scan, start, pairs, windows, id);
      }
      forall pair | pair in pairs
        ensures pair in served
      {
        var i: nat :| i < |pairs| && pairs[i] == pair;
        MappingGetsItsRow(scan, start, pairs, windows, i);
      }
    } else {
      var i: nat, j: nat :| i < j < |pairs| && Steals(scan, start.rows, pairs, i, j);
      SharedIffStolen(scan, start, pairs, i, j);
      if served == set pair | pair in pairs {
        assert pairs[i] in pairs && pairs[j] in pairs;
        ServedBySlot(scan, start, pairs, windows, i);
        ServedBySlot(scan, start, pairs, windows, j);
        assert false;
      }
    }
  }

  /** One stored name `b`, and a request that puts a new name `a` of the same upstream before it: a pair is lost. */
  lemma {:induction false} UnorderedRequestLosesPair(upstream: string, a: string, b: string, windows: map<Pair, string>)
    requires a != b
    ensures var start := Db(map[1 := Model(upstream, b, 1, "")], 2);
            var pairs := [Pair(upstream, a), Pair(upstream, b)];
            && IsScan([1], start.rows) && Fresh(start) && NoRepeats(pairs)
            && EnabledPairs(Selected([1], start, pairs, windows).rows) != set pair | pair in pairs
  {
    var start := Db(map[1 := Model(upstream, b, 1, "")], 2);
    var pairs := [Pair(upstream, a), Pair(upstream, b)];
    assert LastWith([1], start.rows, pairs[0]) == None;
    assert LastWith([1], start.rows, pairs[1]) == Some(1);
    assert GivenTo([1], start.rows, pairs, 0) == Some(1);
    assert Steals([1], start.rows, pairs, 0, 1);
    SelectionIsExactIff([1], start, pairs, windows);
  }
}
