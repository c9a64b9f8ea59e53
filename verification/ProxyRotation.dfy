/**
 A channel's proxies: the stored list of addresses, the proxy a credential starts with, and the rotation
 to the next one when a proxy fails.
 */
module ProxyRotation {
  import opened GoStrings
  import opened Lists

  // ---------- The stored list ----------

  predicate IsBreak(c: char) {
    c == '\n'
  }

  /** `strings.Split(s, "\n")`. */
  function Pieces(s: string): (pieces: seq<string>)
    ensures pieces != []
  {
    PiecesAt(s, IsBreak)
  }

  /** The trimmed pieces that are not blank, in order. */
  function Addresses(pieces: seq<string>): seq<string> {
    if pieces == [] then []
    else
      var line := Trim(pieces[|pieces| - 1]);
      Addresses(pieces[..|pieces| - 1]) + if line == "" then [] else [line]
  }

  method SplitProxyLines(plain: string) returns (lines: seq<string>)
    ensures lines == Addresses(Pieces(plain))
  {
    lines := [];
    var pieces := Pieces(plain);
    for i := 0 to |pieces|
      invariant lines == Addresses(pieces[..i])
    {
      assert pieces[..i + 1][..i] == pieces[..i];
      var line := Trim(pieces[i]);
      if line != "" {
        lines := lines + [line];
      }
    }
    assert pieces[..|pieces|] == pieces;
  }

  /** `strings.Join(lines, "\n")`, which is what is stored. */
  function Joined(lines: seq<string>): string {
    if lines == [] then ""
    else if |lines| == 1 then lines[0]
    else Joined(lines[..|lines| - 1]) + "\n" + lines[|lines| - 1]
  }

  /** An address as the list keeps it. */
  predicate IsAddress(line: string) {
    Trimmed(line) && '\n' !in line
  }

  lemma {:induction false} PiecesAppend(s: string, line: string)
    requires '\n' !in line
    ensures Pieces(s + "\n" + line) == Pieces(s) + [line]
  {
    if line == "" {
      assert (s + "\n" + line)[..|s|] == s;
    } else {
      var front := line[..|line| - 1];
      PiecesAppend(s, front);
      assert (s + "\n" + line)[..|s| + 1 + |front|] == s + "\n" + front;
      assert front + [line[|line| - 1]] == line;
      assert (Pieces(s) + [front])[..|Pieces(s)|] == Pieces(s);
    }
  }

  lemma {:induction false} PiecesOfOne(line: string)
    requires '\n' !in line
    ensures Pieces(line) == [line]
  {
    if line != "" {
      PiecesOfOne(line[..|line| - 1]);
      assert line[..|line| - 1] + [line[|line| - 1]] == line;
    }
  }

  lemma {:induction false} PiecesOfJoined(lines: seq<string>)
    requires lines != [] && forall line :: line in lines ==> IsAddress(line)
    ensures Pieces(Joined(lines)) == lines
  {
    var n := |lines| - 1;
    assert lines[n] in lines;
    if n == 0 {
      PiecesOfOne(lines[0]);
    } else {
      PiecesOfJoined(lines[..n]);
      PiecesAppend(Joined(lines[..n]), lines[n]);
      assert lines[..n] + [lines[n]] == lines;
    }
  }

  lemma {:induction false} AddressesAreAddresses(pieces: seq<string>, line: string)
    requires forall piece :: piece in pieces ==> '\n' !in piece
    requires line in Addresses(pieces)
    ensures IsAddress(line)
  {
    var n := |pieces| - 1;
    assert pieces[n] in pieces;
    if line in Addresses(pieces[..n]) {
      AddressesAreAddresses(pieces[..n], line);
    } else {
      if '\n' in line {
        TrimTakesChars(pieces[n], '\n');
      }
    }
  }

  lemma {:induction false} AddressesStay(lines: seq<string>)
    requires forall i :: 0 <= i < |lines| ==> IsAddress(lines[i])
    ensures Addresses(lines) == lines
  {
    if lines != [] {
      var front, last := lines[..|lines| - 1], lines[|lines| - 1];
      AddressesStay(front);
      assert Trim(last) == last != "";
      assert front + [last] == lines;
    }
  }

  /** Storing and reading back: the list read from what was stored for a text is the list of that text. */
  lemma {:induction false} StoredListIsRead(plain: string)
    ensures Addresses(Pieces(Joined(Addresses(Pieces(plain))))) == Addresses(Pieces(plain))
  {
    var lines := Addresses(Pieces(plain));
    forall piece | piece in Pieces(plain)
      ensures '\n' !in piece
    {
      if '\n' in piece {
        PiecesHoldNoSeparator(plain, IsBreak, piece, '\n');
      }
    }
    forall line | line in lines
      ensures IsAddress(line)
    {
      AddressesAreAddresses(Pieces(plain), line);
    }
    if lines == [] {
      assert Pieces("") == [""];
    } else {
      PiecesOfJoined(lines);
      AddressesStay(lines);
    }
  }

  // ---------- Where a credential starts ----------

  /** The proxy of the credential with this 1-based ordinal; -1 without proxies, the first without a credential. */
  function ProxyIndexOf(ordinal: nat, count: int): (i: int)
    ensures if count <= 0 then i == -1 else 0 <= i < count
    ensures count > 0 && ordinal <= 1 ==> i == 0
  {
    if count <= 0 then -1 else if ordinal == 0 then 0 else (ordinal - 1) % count
  }

  /** How many of the first `credentials` credentials start with proxy `i`. */
  function Load(credentials: nat, count: nat, i: nat): nat
    requires i < count
  {
    if credentials == 0 then 0
    else Load(credentials - 1, count, i) + if ProxyIndexOf(credentials, count) == i then 1 else 0
  }

  lemma {:induction false} DivideStep(k: nat, count: nat)
    requires count > 0
    ensures if k % count + 1 == count then (k + 1) / count == k / count + 1 && (k + 1) % count == 0
            else (k + 1) / count == k / count && (k + 1) % count == k % count + 1
  {
    var q, r := k / count, k % count;
    assert k == q * count + r;
    MultiplesAreApart(q, count);
    if r + 1 == count {
      assert k + 1 == (q + 1) * count;
      QuotientIs(k + 1, count, q + 1, 0);
    } else {
      QuotientIs(k + 1, count, q, r + 1);
    }
  }

  lemma {:induction false} MultiplesAreApart(d: int, count: nat)
    requires count > 0
    ensures d >= 1 ==> d * count >= count
    ensures d <= -1 ==> d * count + count <= 0
  {
  }

  lemma {:induction false} QuotientIs(k: nat, count: nat, q: nat, r: nat)
    requires r < count && k == q * count + r
    ensures k / count == q && k % count == r
  {
    var d := k / count - q;
    assert d * count == r - k % count by {
      assert k == (k / count) * count + k % count;
      assert (k / count) * count - q * count == d * count;
    }
    MultiplesAreApart(d, count);
  }

  /** Each credential starts one proxy after the one before it, and the first proxy follows the last. */
  lemma {:induction false} NextCredentialNextProxy(ordinal: nat, count: nat)
    requires ordinal > 0 && count > 0
    ensures ProxyIndexOf(1, count) == 0
    ensures ProxyIndexOf(ordinal + 1, count)
         == if ProxyIndexOf(ordinal, count) + 1 == count then 0 else ProxyIndexOf(ordinal, count) + 1
  {
    DivideStep(ordinal - 1, count);
    QuotientIs(0, count, 0, 0);
  }

  lemma {:induction false} LoadOfNone(count: nat, i: nat)
    requires i < count
    ensures Load(0, count, i) == 0 / count + if i < 0 % count then 1 else 0
  {
    QuotientIs(0, count, 0, 0);
  }

  lemma {:induction false} LoadOfOneMore(k: nat, count: nat, i: nat)
    requires k > 0 && i < count && Load(k - 1, count, i) == (k - 1) / count + if i < (k - 1) % count then 1 else 0
    ensures Load(k, count, i) == k / count + if i < k % count then 1 else 0
  {
    DivideStep(k - 1, count);
    assert ProxyIndexOf(k, count) == (k - 1) % count;
  }

  /**
   The pairing is even: with the first k credentials, every proxy has k / count of them, and the first k % count one
   more.
   */
  lemma {:induction false} LoadIsEven(k: nat, count: nat, i: nat)
    requires i < count
    ensures Load(k, count, i) == k / count + if i < k % count then 1 else 0
  {
    if k == 0 {
      LoadOfNone(count, i);
    } else {
      LoadIsEven(k - 1, count, i);
      LoadOfOneMore(k, count, i);
    }
  }

  // ---------- Rotation ----------

  class CredentialProxies {
    const urls: seq<string>
    var current: nat
    var tried: nat

    ghost predicate Valid()
      reads this
    {
      if urls == [] then current == 0 else current < |urls|
    }

    constructor (urls: seq<string>, ordinal: nat)
      ensures Valid() && this.urls == urls && tried == 0
      ensures current == if urls == [] then 0 else ProxyIndexOf(ordinal, |urls|)
    {
      this.urls := urls;
      tried := 0;
      current := if urls == [] then 0 else ProxyIndexOf(ordinal, |urls|);
    }

    function Total(): nat {
      |urls|
    }

    /** The address to use; empty for a direct connection. */
    function Current(): string
      reads this
      requires Valid()
    {
      if Total() == 0 then "" else urls[current]
    }

    method Advance() returns (more: bool)
      requires Valid()
      modifies this
      ensures Valid()
      ensures tried == if urls == [] then old(tried) else old(tried) + 1
      ensures more <==> urls != [] && tried < |urls|
      ensures current == if more then (old(current) + 1) % |urls| else old(current)
    {
      if Total() == 0 {
        return false;
      }
      tried := tried + 1;
      if tried >= |urls| {
        return false;
      }
      current := (current + 1) % |urls|;
      return true;
    }
  }

  /** What the transport returned: a status when there is a response, and whether there was an error. */
  datatype Reply = Reply(status: Option<int>, failed: bool)

  /** One round: whether the client could be built, whether the body could be reset, and the reply. */
  datatype Round = Round(client: bool, reset: bool, reply: Reply)

  datatype Outcome = ClientError | ResetError | Answered(reply: Reply)

  const PROXY_AUTH_REQUIRED := 407

  /** The round blames the proxy: a transport error, or the proxy's own refusal. */
  predicate BlamesProxy(round: Round) {
    round.client && round.reset && (round.reply.failed || round.reply.status == Some(PROXY_AUTH_REQUIRED))
  }

  function OutcomeOf(round: Round): Outcome {
    if !round.client then ClientError else if !round.reset then ResetError else Answered(round.reply)
  }

  function Max(a: int, b: int): int {
    if a >= b then a else b
  }

  /** The k-th position of a rotation that starts at `base`. */
  function Position(base: nat, count: nat, k: nat): (i: nat)
    ensures count > 0 ==> i < count
  {
    if count == 0 then base else (base + k) % count
  }

  /**
   The rounds a call with `count` proxies makes when it starts at `base` with `tried` failures behind it:
   one at every next position while the proxy is to blame, and at most one per untried proxy.
   */
  predicate Rotates(base: nat, count: nat, tried: nat, rounds: nat -> Round, visited: seq<nat>, outcome: Outcome) {
    && 1 <= |visited| <= Max(1, count - tried)
    && (forall k :: 0 <= k < |visited| ==> visited[k] == Position(base, count, k))
    && (forall k: nat :: k < |visited| - 1 ==> BlamesProxy(rounds(k)))
    && (BlamesProxy(rounds(|visited| - 1)) ==> |visited| == Max(1, count - tried))
    && outcome == OutcomeOf(rounds(|visited| - 1))
  }

  /** `visited` lists the position in use in each round; the program does not keep it. */
  method DoViaProxies(proxies: CredentialProxies, rounds: nat -> Round) returns (outcome: Outcome, visited: seq<nat>)
    requires proxies.Valid()
    modifies proxies
    ensures proxies.Valid()
    ensures Rotates(old(proxies.current), |proxies.urls|, old(proxies.tried), rounds, visited, outcome)
    ensures proxies.current == visited[|visited| - 1]
    ensures proxies.tried - old(proxies.tried)
         == if proxies.urls == [] then 0 else |visited| - if BlamesProxy(rounds(|visited| - 1)) then 0 else 1
  {
    visited := [];
    var round := rounds(0);
    ghost var base, n, t := proxies.current, |proxies.urls|, proxies.tried;
    while true
      invariant proxies.Valid()
      invariant proxies.current == Position(base, n, |visited|)
      invariant round == rounds(|visited|)
      invariant forall k :: 0 <= k < |visited| ==> visited[k] == Position(base, n, k) && BlamesProxy(rounds(k))
      invariant proxies.tried == t + |visited|
      invariant visited != [] ==> proxies.tried < n
      decreases n - proxies.tried
    {
      visited := visited + [proxies.current];
      if !round.client {
        return ClientError, visited;
      }
      if !round.reset {
        return ResetError, visited;
      }
      var reply := round.reply;
      if !reply.failed && reply.status == Some(PROXY_AUTH_REQUIRED) {
        var more := proxies.Advance();
        if more {
          NextPosition(base, n, |visited| - 1);
          round := rounds(|visited|);
          continue;
        }
        return Answered(reply), visited;
      }
      if reply.failed {
        var more := proxies.Advance();
        if more {
          NextPosition(base, n, |visited| - 1);
          round := rounds(|visited|);
          continue;
        }
      }
      return Answered(reply), visited;
    }
  }

  lemma {:induction false} NextPosition(base: nat, n: nat, k: nat)
    requires n > 0
    ensures (Position(base, n, k) + 1) % n == Position(base, n, k + 1)
  {
    DivideStep(base + k, n);
    if Position(base, n, k) + 1 < n {
      QuotientIs(Position(base, n, k) + 1, n, 0, Position(base, n, k) + 1);
    }
  }

  /** Fewer than `count` steps apart, two positions differ. */
  lemma {:induction false} PositionsDiffer(base: nat, count: nat, i: nat, j: nat)
    requires i < j < i + count
    ensures Position(base, count, i) != Position(base, count, j)
  {
    var a, b := base + i, base + j;
    var d := b / count - a / count;
    assert d * count == (b - b % count) - (a - a % count) by {
      assert a == (a / count) * count + a % count;
      assert b == (b / count) * count + b % count;
    }
    MultiplesAreApart(d, count);
  }

  /** No proxy is used twice in one call, whatever the plan went through before. */
  lemma {:induction false} NoProxyTwice(base: nat, count: nat, tried: nat, rounds: nat -> Round, visited: seq<nat>,
                                        outcome: Outcome, i: nat, j: nat)
    requires Rotates(base, count, tried, rounds, visited, outcome) && i < j < |visited|
    ensures visited[i] != visited[j]
  {
    PositionsDiffer(base, count, i, j);
  }

  lemma {:induction false} StopsBy(base: nat, count: nat, tried: nat, rounds: nat -> Round, visited: seq<nat>,
                                   outcome: Outcome, m: nat)
    requires Rotates(base, count, tried, rounds, visited, outcome)
    requires m >= 1 && (BlamesProxy(rounds(m - 1)) ==> m == Max(1, count - tried))
    ensures |visited| <= m
  {
  }

  /** The rounds made and the outcome are determined by the plan and the replies. */
  lemma {:induction false} RotationIsDetermined(base: nat, count: nat, tried: nat, rounds: nat -> Round,
                                                visited: seq<nat>, outcome: Outcome, visited': seq<nat>,
                                                outcome': Outcome)
    requires Rotates(base, count, tried, rounds, visited, outcome)
    requires Rotates(base, count, tried, rounds, visited', outcome')
    ensures visited == visited' && outcome == outcome'
  {
    StopsBy(base, count, tried, rounds, visited, outcome, |visited'|);
    StopsBy(base, count, tried, rounds, visited', outcome', |visited|);
  }

  /**
   Which round is the last: all before it ended in a transport error or in the proxy's status 407, and it did
   not, or no proxy was left. What the last round came to is the outcome.
   */
  lemma {:induction false} LastRound(base: nat, count: nat, tried: nat, rounds: nat -> Round, visited: seq<nat>,
                                     outcome: Outcome)
    requires Rotates(base, count, tried, rounds, visited, outcome)
    ensures visited != [] && (|visited| == 1 || |visited| <= count - tried)
    ensures forall k: nat :: k < |visited| - 1 ==>
              rounds(k).client && rounds(k).reset && (rounds(k).reply.failed || rounds(k).reply.status == Some(407))
    ensures var last := rounds(|visited| - 1);
            && (|visited| < count - tried ==>
                  !last.client || !last.reset || (!last.reply.failed && last.reply.status != Some(407)))
            && (outcome == ClientError <==> !last.client)
            && (outcome == ResetError <==> last.client && !last.reset)
            && (outcome.Answered? ==> outcome.reply == last.reply)
  {
    assert forall k: nat :: k < |visited| - 1 ==> BlamesProxy(rounds(k));
  }

  function Numbers(n: nat): (all: set<nat>)
    ensures |all| == n
    ensures forall x: nat :: x in all <==> x < n
  {
    if n == 0 then {} else Numbers(n - 1) + {n - 1}
  }

  lemma {:induction false} Subsets(a: set<nat>, b: set<nat>)
    requires a <= b && |a| == |b|
    ensures a == b
  {
    assert |b - a| == |b| - |a|;
    assert b == a + (b - a);
  }

  lemma {:induction false} AllVisited(visited: seq<nat>, count: nat)
    requires |visited| == count
    requires NoRepeats(visited)
    requires forall i :: 0 <= i < |visited| ==> visited[i] < count
    ensures forall proxy: nat :: proxy < count ==> proxy in visited
  {
    SizeOfDistinct(visited);
    assert Elements(visited) <= Numbers(count);
    Subsets(Elements(visited), Numbers(count));
  }

  lemma {:induction false} GivesUpAtTheEnd(base: nat, count: nat, rounds: nat -> Round, visited: seq<nat>,
                                           outcome: Outcome)
    requires count > 0 && Rotates(base, count, 0, rounds, visited, outcome)
    requires BlamesProxy(rounds(|visited| - 1))
    ensures |visited| == count
  {
  }

  lemma {:induction false} BlamedUpTo(base: nat, count: nat, rounds: nat -> Round, visited: seq<nat>, outcome: Outcome,
                                      k: nat)
    requires Rotates(base, count, 0, rounds, visited, outcome)
    requires BlamesProxy(rounds(|visited| - 1)) && k < |visited|
    ensures BlamesProxy(rounds(k))
  {
  }

  lemma {:induction false} VisitedAreDistinct(base: nat, count: nat, tried: nat, rounds: nat -> Round,
                                              visited: seq<nat>, outcome: Outcome)
    requires count > 0 && Rotates(base, count, tried, rounds, visited, outcome)
    ensures NoRepeats(visited)
    ensures forall i :: 0 <= i < |visited| ==> visited[i] < count
  {
    forall i, j | 0 <= i < j < |visited|
      ensures visited[i] != visited[j]
    {
      NoProxyTwice(base, count, tried, rounds, visited, outcome, i, j);
    }
  }

  /** A fresh plan gives up on the proxies only after every one of them was tried and blamed. */
  lemma {:induction false} FreshPlanTriesAll(base: nat, count: nat, rounds: nat -> Round, visited: seq<nat>,
                                             outcome: Outcome, proxy: nat, k: nat)
    requires count > 0 && Rotates(base, count, 0, rounds, visited, outcome)
    requires BlamesProxy(rounds(|visited| - 1))
    ensures |visited| == count
    ensures proxy < count ==> proxy in visited
    ensures k < count ==> BlamesProxy(rounds(k))
  {
    GivesUpAtTheEnd(base, count, rounds, visited, outcome);
    VisitedAreDistinct(base, count, 0, rounds, visited, outcome);
    AllVisited(visited, count);
    if k < count {
      BlamedUpTo(base, count, rounds, visited, outcome, k);
    }
  }
}
