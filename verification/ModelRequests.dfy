/** Reading a model selection request: one upstream name may carry several public names in one text. */
module ModelRequests {
  import opened GoStrings
  import opened Lists
  import opened ModelSelection

  /** One submitted row: an upstream name and the text with its public names. */
  datatype Item = Item(upstream: string, public: string)

  datatype Error = TooMany | UpstreamTooLong(name: string) | PublicTooLong(name: string) | Duplicate(pair: Pair)

  const MAX_MODELS := 2000
  const MAX_BYTES := 191

  /** `len` of a Go string counts bytes of its UTF-8 form. */
  function Bytes(s: string): nat {
    if s == "" then 0
    else
      var c := s[|s| - 1] as int;
      Bytes(s[..|s| - 1]) + if c < 0x80 then 1 else if c < 0x800 then 2 else if c < 0x10000 then 3 else 4
  }

  /** The bytes of two texts add up, and a character has as many as its code point needs. */
  lemma {:induction false} BytesAdd(a: string, b: string)
    ensures Bytes(a + b) == Bytes(a) + Bytes(b)
  {
    if b == "" {
      assert a + b == a;
    } else {
      BytesAdd(a, b[..|b| - 1]);
      assert (a + b)[..|a + b| - 1] == a + b[..|b| - 1];
    }
  }

  lemma {:induction false} BytesOf(c: char)
    ensures 1 <= Bytes([c]) <= 4
    ensures Bytes([c]) == 1 <==> c <= '\U{7F}'
    ensures Bytes([c]) <= 2 <==> c <= '\U{7FF}'
    ensures Bytes([c]) <= 3 <==> c <= '\U{FFFF}'
  {
    assert [c][..0] == "";
  }

  /** A half-width or full-width comma. */
  predicate IsComma(c: char) {
    c == ',' || c == '\U{FF0C}'
  }

  /**
   The text cut at its commas. Empty pieces, which `strings.FieldsFunc` leaves out, are dropped with the blank ones.
   */
  function Pieces(s: string): (pieces: seq<string>)
    ensures pieces != []
  {
    PiecesAt(s, IsComma)
  }

  /** The trimmed pieces, without blanks and repetitions, in order of first appearance. */
  function Names(pieces: seq<string>): seq<string> {
    if pieces == [] then []
    else
      var names, name := Names(pieces[..|pieces| - 1]), Trim(pieces[|pieces| - 1]);
      if name == "" || name in names then names else names + [name]
  }

  method SplitPublicModelNames(value: string) returns (result: seq<string>)
    ensures result == Names(Pieces(value))
  {
    var parts := Pieces(value);
    var seen: set<string> := {};
    result := [];
    for i := 0 to |parts|
      invariant result == Names(parts[..i])
      invariant forall name :: name in seen <==> name in result
    {
      assert parts[..i + 1][..i] == parts[..i];
      var name := Trim(parts[i]);
      if name != "" && name !in seen {
        seen := seen + {name};
        result := result + [name];
      }
    }
    assert parts[..|parts|] == parts;
  }

  /** The public names in effect: those of the text, or the upstream name itself. */
  function Resolved(upstream: string, public: string): (names: seq<string>)
    ensures names != []
  {
    var names := Names(Pieces(public));
    if names == [] then [upstream] else names
  }

  method ResolvePublicModelNames(upstream: string, public: string) returns (names: seq<string>)
    ensures names == Resolved(upstream, public)
  {
    names := SplitPublicModelNames(public);
    if names == [] {
      names := [upstream];
    }
  }

  /** The names of a text are its distinct non-blank pieces, and no name holds a comma. */
  lemma {:induction false} NamesAreThePieces(pieces: seq<string>, name: string)
    ensures NoRepeats(Names(pieces))
    ensures name in Names(pieces) <==> name != "" && exists i :: 0 <= i < |pieces| && Trim(pieces[i]) == name
  {
    if pieces != [] {
      var front, last := pieces[..|pieces| - 1], pieces[|pieces| - 1];
      NamesAreThePieces(front, name);
      if name in Names(pieces) && name != Trim(last) {
        var i :| 0 <= i < |front| && Trim(front[i]) == name;
        assert Trim(pieces[i]) == name;
      }
      if i :| name != "" && 0 <= i < |pieces| && Trim(pieces[i]) == name && i < |front| {
        assert Trim(front[i]) == name;
      }
    }
  }

  /** A text of several names is never stored as one name. */
  lemma {:induction false} NamesHoldNoComma(value: string, name: string, c: char)
    requires name in Names(Pieces(value)) && c in name
    ensures !IsComma(c)
  {
    NamesAreThePieces(Pieces(value), name);
    var i :| 0 <= i < |Pieces(value)| && Trim(Pieces(value)[i]) == name;
    TrimTakesChars(Pieces(value)[i], c);
    PiecesHoldNoSeparator(value, IsComma, Pieces(value)[i], c);
  }

  lemma {:induction false} CommaIff(c: char)
    ensures IsComma(c) <==> c as int in {0x2C, 0xFF0C}
  {
  }

  // ---------- The request as pairs ----------

  function PairsOf(upstream: string, names: seq<string>): (pairs: seq<Pair>)
    ensures |pairs| == |names|
    ensures forall i :: 0 <= i < |names| ==> pairs[i] == Pair(upstream, names[i])
  {
    seq(|names|, i requires 0 <= i < |names| => Pair(upstream, names[i]))
  }

  /** The pairs of an item; without an upstream name it has none. */
  function PairsFor(item: Item): seq<Pair> {
    var upstream := Trim(item.upstream);
    if upstream == "" then [] else PairsOf(upstream, Resolved(upstream, item.public))
  }

  /** Every item's pairs, one item after another. */
  function Expanded(items: seq<Item>): seq<Pair> {
    Flat(items, PairsFor)
  }

  /** Some piece of the text is not blank. */
  predicate NamesAny(public: string) {
    exists i :: 0 <= i < |Pieces(public)| && Trim(Pieces(public)[i]) != ""
  }

  /** The item asks for the pair: by a piece of its text, or by the upstream name alone when the text has none. */
  predicate AsksFor(item: Item, pair: Pair) {
    && pair.upstream != "" && pair.upstream == Trim(item.upstream)
    && if NamesAny(item.public) then
         pair.public != ""
         && exists i :: 0 <= i < |Pieces(item.public)| && Trim(Pieces(item.public)[i]) == pair.public
       else
         pair.public == pair.upstream
  }

  /** The pairs are exactly those that some item asks for. */
  lemma {:induction false} PairsAskedFor(items: seq<Item>, pair: Pair)
    ensures pair in Expanded(items) <==> exists item :: item in items && AsksFor(item, pair)
  {
    FlatMembers(items, PairsFor, pair);
    forall item: Item
      ensures pair in PairsFor(item) <==> AsksFor(item, pair)
    {
      AskedByItem(item, pair);
    }
  }

  lemma {:induction false} AskedByItem(item: Item, pair: Pair)
    ensures pair in PairsFor(item) <==> AsksFor(item, pair)
  {
    var upstream, names := Trim(item.upstream), Names(Pieces(item.public));
    NamesAreThePieces(Pieces(item.public), pair.public);
    if names != [] {
      assert names[0] in names;
      NamesAreThePieces(Pieces(item.public), names[0]);
    }
    if i :| 0 <= i < |Pieces(item.public)| && Trim(Pieces(item.public)[i]) != "" {
      NamesAreThePieces(Pieces(item.public), Trim(Pieces(item.public)[i]));
    }
    PairsOfMembers(upstream, Resolved(upstream, item.public), pair);
  }

  lemma {:induction false} PairsOfMembers(upstream: string, names: seq<string>, pair: Pair)
    ensures pair in PairsOf(upstream, names) <==> pair.upstream == upstream && pair.public in names
  {
    if pair.upstream == upstream && pair.public in names {
      var i :| 0 <= i < |names| && names[i] == pair.public;
      assert PairsOf(upstream, names)[i] == pair;
    }
  }

  predicate Short(pair: Pair) {
    Bytes(pair.upstream) <= MAX_BYTES && Bytes(pair.public) <= MAX_BYTES
  }

  /** The pairs can be saved as they are. */
  ghost predicate Acceptable(pairs: seq<Pair>) {
    && |pairs| <= MAX_MODELS && NoRepeats(pairs)
    && forall i :: 0 <= i < |pairs| ==> Short(pairs[i])
  }

  /** That is: at most 2000 of them, all different, with names of at most 191 bytes. */
  lemma {:induction false} AcceptableIff(pairs: seq<Pair>)
    ensures Acceptable(pairs)
       <==> && |pairs| <= 2000
            && (forall i, j :: 0 <= i < j < |pairs| ==> pairs[i] != pairs[j])
            && forall pair :: pair in pairs ==> Bytes(pair.upstream) <= 191 && Bytes(pair.public) <= 191
  {
    forall pair | pair in pairs
      ensures Short(pair) <==> Bytes(pair.upstream) <= 191 && Bytes(pair.public) <= 191
    {
    }
    assert forall i :: 0 <= i < |pairs| ==> pairs[i] in pairs;
  }

  /** The error names something that is wrong with the pairs. */
  ghost predicate Blames(error: Error, pairs: seq<Pair>) {
    match error
    case TooMany => |pairs| > MAX_MODELS
    case UpstreamTooLong(name) => Bytes(name) > MAX_BYTES && exists i :: 0 <= i < |pairs| && pairs[i].upstream == name
    case PublicTooLong(name) => Bytes(name) > MAX_BYTES && exists i :: 0 <= i < |pairs| && pairs[i].public == name
    case Duplicate(pair) => exists i, j :: 0 <= i < j < |pairs| && pairs[i] == pair == pairs[j]
  }

  /** In words: more than 2000 pairs, a name of more than 191 bytes that occurs among them, or a pair that repeats. */
  lemma {:induction false} BlamesIff(pairs: seq<Pair>, name: string, pair: Pair)
    ensures Blames(TooMany, pairs) <==> |pairs| > 2000
    ensures Blames(UpstreamTooLong(name), pairs) <==> Bytes(name) > 191 && exists x :: x in pairs && x.upstream == name
    ensures Blames(PublicTooLong(name), pairs) <==> Bytes(name) > 191 && exists x :: x in pairs && x.public == name
    ensures Blames(Duplicate(pair), pairs)
       <==> exists i :: 0 <= i < |pairs| && pairs[i] == pair && pair in pairs[i + 1..]
  {
    assert forall i :: 0 <= i < |pairs| ==> pairs[i] in pairs;
    if i :| 0 <= i < |pairs| && pairs[i] == pair && pair in pairs[i + 1..] {
      var k :| 0 <= k < |pairs| - i - 1 && pairs[i + 1..][k] == pair;
      assert pairs[i] == pair == pairs[i + 1 + k];
    }
    if i, j :| 0 <= i < j < |pairs| && pairs[i] == pair == pairs[j] {
      assert pairs[i + 1..][j - i - 1] == pair;
    }
  }

  lemma {:induction false} BlamesLater(error: Error, front: seq<Pair>, pairs: seq<Pair>)
    requires front <= pairs && Blames(error, front)
    ensures Blames(error, pairs)
  {
    match error
    case TooMany =>
    case UpstreamTooLong(name) =>
      var i :| 0 <= i < |front| && front[i].upstream == name;
      assert pairs[i].upstream == name;
    case PublicTooLong(name) =>
      var i :| 0 <= i < |front| && front[i].public == name;
      assert pairs[i].public == name;
    case Duplicate(pair) =>
      var i, j :| 0 <= i < j < |front| && front[i] == pair == front[j];
      assert pairs[i] == pair == pairs[j];
  }

  lemma {:induction false} AcceptablePrefix(front: seq<Pair>, pairs: seq<Pair>)
    requires front <= pairs && Acceptable(pairs)
    ensures Acceptable(front)
  {
    forall i, j | 0 <= i < j < |front|
      ensures front[i] != front[j]
    {
      assert pairs[i] != pairs[j];
    }
    forall i | 0 <= i < |front|
      ensures Short(front[i])
    {
      assert Short(pairs[i]);
    }
  }

  lemma {:induction false} ExpandedPrefix(items: seq<Item>, i: nat)
    requires i <= |items|
    ensures Expanded(items[..i]) <= Expanded(items)
  {
    if i < |items| {
      ExpandedPrefix(items[..|items| - 1], i);
      assert items[..|items| - 1][..i] == items[..i];
    } else {
      assert items[..i] == items;
    }
  }

  /**
   A request is refused exactly when it has too many items or its pairs cannot be saved; otherwise the
   result is all its pairs. In particular what is returned never names a pair twice.
   */
  method NormalizeModelMappings(items: seq<Item>) returns (r: Result<seq<Pair>, Error>)
    ensures r.Ok? <==> |items| <= MAX_MODELS && Acceptable(Expanded(items))
    ensures r.Ok? ==> r.value == Expanded(items)
    ensures r.Err? ==> Blames(r.error, Expanded(items)) || (r.error.TooMany? && |items| > MAX_MODELS)
  {
    if |items| > MAX_MODELS {
      return Err(TooMany);
    }
    var seen: set<Pair> := {};
    var result: seq<Pair> := [];
    for i := 0 to |items|
      invariant result == Expanded(items[..i]) && Acceptable(result)
      invariant forall pair :: pair in seen <==> pair in result
    {
      assert items[..i + 1][..i] == items[..i];
      ExpandedPrefix(items, i + 1);
      var upstream := Trim(items[i].upstream);
      if upstream != "" {
        var error: Option<Error>;
        ghost var before := result;
        result, seen, error := AddPairs(result, seen, upstream, items[i].public);
        assert Expanded(items[..i + 1]) == before + PairsOf(upstream, Resolved(upstream, items[i].public));
        if error.Some? {
          if Acceptable(Expanded(items)) {
            AcceptablePrefix(Expanded(items[..i + 1]), Expanded(items));
          }
          BlamesLater(error.value, Expanded(items[..i + 1]), Expanded(items));
          return Err(error.value);
        }
      }
    }
    assert items[..|items|] == items;
    return Ok(result);
  }

  lemma {:induction false} AcceptableStep(all: seq<Pair>, k: nat)
    requires k < |all| && Acceptable(all[..k])
    ensures Acceptable(all[..k + 1]) <==> all[k] !in all[..k] && Short(all[k]) && k < MAX_MODELS
    ensures Acceptable(all) ==> Acceptable(all[..k + 1])
  {
    var next := all[..k + 1];
    if Acceptable(next) {
      assert Short(next[k]);
      forall i | 0 <= i < k
        ensures all[i] != all[k]
      {
        assert next[i] != next[k];
      }
    }
    if Acceptable(all) {
      AcceptablePrefix(next, all);
    }
  }

  /** The pairs of one item. */
  method AddPairs(before: seq<Pair>, seen: set<Pair>, upstream: string, public: string)
    returns (result: seq<Pair>, seen': set<Pair>, error: Option<Error>)
    requires Acceptable(before) && forall pair :: pair in seen <==> pair in before
    ensures var all := before + PairsOf(upstream, Resolved(upstream, public));
            && (error.None? <==> Acceptable(all))
            && (error.Some? ==> Blames(error.value, all))
            && (error.None? ==> result == all && forall pair :: pair in seen' <==> pair in result)
  {
    var names := ResolvePublicModelNames(upstream, public);
    ghost var all := before + PairsOf(upstream, names);
    if Bytes(upstream) > MAX_BYTES {
      assert !Short(all[|before|]);
      return before, seen, Some(UpstreamTooLong(upstream));
    }
    assert all[..|before|] == before;
    result, seen', error := AddNames(all, before, seen, upstream, names);
  }

  method AddNames(ghost all: seq<Pair>, before: seq<Pair>, seen: set<Pair>, upstream: string, names: seq<string>)
    returns (result: seq<Pair>, seen': set<Pair>, error: Option<Error>)
    requires Acceptable(before) && Bytes(upstream) <= MAX_BYTES && forall pair :: pair in seen <==> pair in before
    requires |all| == |before| + |names| && all[..|before|] == before
    requires forall i :: 0 <= i < |names| ==> all[|before| + i] == Pair(upstream, names[i])
    ensures error.None? <==> Acceptable(all)
    ensures error.Some? ==> Blames(error.value, all)
    ensures error.None? ==> result == all && forall pair :: pair in seen' <==> pair in result
  {
    result, seen', error := before, seen, None;
    for i := 0 to |names|
      invariant result == all[..|before| + i] && Acceptable(result)
      invariant forall pair :: pair in seen' <==> pair in result
    {
      var pair := Pair(upstream, names[i]);
      ghost var k := |before| + i;
      assert all[k] == pair && all[..k + 1] == result + [pair];
      AcceptableStep(all, k);
      if Bytes(names[i]) > MAX_BYTES {
        error := Some(PublicTooLong(names[i]));
        return;
      }
      if pair in seen' {
        error := Some(Duplicate(pair));
        return;
      }
      seen' := seen' + {pair};
      result := result + [pair];
      if |result| > MAX_MODELS {
        error := Some(TooMany);
        return;
      }
    }
    assert all[..|all|] == all;
  }
}
