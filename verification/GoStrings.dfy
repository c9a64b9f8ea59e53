/** The parts of Go's `strings` package that the modelled scanners rely on. */
module GoStrings {

  datatype Option<+T> = None | Some(value: T)

  datatype Result<+T, +E> = Ok(value: T) | Err(error: E)

  /** The characters `unicode.IsSpace` accepts. */
  predicate IsSpace(c: char) {
    || '\t' <= c <= '\r' || c == ' ' || c == '\U{85}' || c == '\U{A0}' || c == '\U{1680}'
    || '\U{2000}' <= c <= '\U{200A}' || c == '\U{2028}' || c == '\U{2029}'
    || c == '\U{202F}' || c == '\U{205F}' || c == '\U{3000}'
  }

  function TrimLeft(s: string): (r: string)
    ensures |r| <= |s|
    ensures r == "" || !IsSpace(r[0])
  {
    if s != "" && IsSpace(s[0]) then TrimLeft(s[1..]) else s
  }

  function TrimRight(s: string): (r: string)
    ensures r <= s
    ensures r == "" || !IsSpace(r[|r| - 1])
  {
    if s != "" && IsSpace(s[|s| - 1]) then TrimRight(s[..|s| - 1]) else s
  }

  /** A non-empty text without space at either end. */
  predicate Trimmed(s: string) {
    s != "" && !IsSpace(s[0]) && !IsSpace(s[|s| - 1])
  }

  /** `strings.TrimSpace`. */
  function Trim(s: string): (r: string)
    ensures |r| <= |s|
    ensures r == "" || Trimmed(r)
    ensures s == "" || Trimmed(s) ==> r == s
  {
    TrimRight(TrimLeft(s))
  }

  /** White space by code point. */
  lemma {:induction false} SpaceIff(c: char)
    ensures IsSpace(c)
       <==> var n := c as int;
            n in {9, 10, 11, 12, 13, 32, 0x85, 0xA0, 0x1680, 0x2028, 0x2029, 0x202F, 0x205F, 0x3000}
            || 0x2000 <= n <= 0x200A
  {
  }

  lemma {:induction false} TrimLeftIsTail(s: string) returns (i: nat)
    ensures i <= |s| && TrimLeft(s) == s[i..] && forall k :: 0 <= k < i ==> IsSpace(s[k])
  {
    i := 0;
    if s != "" && IsSpace(s[0]) {
      var k := TrimLeftIsTail(s[1..]);
      i := k + 1;
      forall j | 0 <= j < i
        ensures IsSpace(s[j])
      {
        assert j > 0 ==> s[j] == s[1..][j - 1];
      }
    }
  }

  lemma {:induction false} TrimRightIsFront(s: string) returns (i: nat)
    ensures i <= |s| && TrimRight(s) == s[..i] && forall k :: i <= k < |s| ==> IsSpace(s[k])
  {
    i := |s|;
    if s != "" && IsSpace(s[|s| - 1]) {
      i := TrimRightIsFront(s[..|s| - 1]);
      forall j | i <= j < |s|
        ensures IsSpace(s[j])
      {
        assert j < |s| - 1 ==> s[j] == s[..|s| - 1][j];
      }
    }
  }

  /** Trimming takes white space off both ends and nothing else. */
  lemma {:induction false} TrimTakesSpace(s: string) returns (i: nat, j: nat)
    ensures i <= j <= |s| && Trim(s) == s[i..j]
    ensures forall k :: 0 <= k < |s| && !(i <= k < j) ==> IsSpace(s[k])
    ensures i < j ==> !IsSpace(s[i]) && !IsSpace(s[j - 1])
  {
    i := TrimLeftIsTail(s);
    var rest := TrimLeft(s);
    var n := TrimRightIsFront(rest);
    j := i + n;
    forall k | 0 <= k < |s| && !(i <= k < j)
      ensures IsSpace(s[k])
    {
      assert k >= j ==> s[k] == rest[k - i];
    }
  }

  /** One space of padding on either side disappears. */
  lemma {:induction false} TrimPadded(s: string)
    requires Trimmed(s)
    ensures Trim(s + " ") == s && Trim(" " + s) == s && Trim(" " + s + " ") == s
  {
    assert (s + " ")[..|s|] == s;
    assert TrimLeft(s + " ") == s + " ";
    assert TrimRight(s + " ") == TrimRight(s);
    assert (" " + s)[1..] == s;
    assert (" " + s + " ")[1..] == s + " ";
    assert TrimLeft(" " + s) == TrimLeft(s);
    assert TrimLeft(" " + s + " ") == TrimLeft(s + " ");
  }

  /** True when `pattern` occurs in `s` at position `i`. */
  predicate OccursAt(s: string, pattern: string, i: int) {
    0 <= i && i + |pattern| <= |s| && s[i..i + |pattern|] == pattern
  }

  function IndexFrom(s: string, pattern: string, i: nat): (r: Option<nat>)
    requires i <= |s|
    ensures r.Some? ==> r.value <= |s|
    decreases |s| - i
  {
    if OccursAt(s, pattern, i) then Some(i)
    else if i == |s| then None
    else IndexFrom(s, pattern, i + 1)
  }

  /** `strings.Index`: the first occurrence. */
  function Index(s: string, pattern: string): (r: Option<nat>)
    ensures r.Some? ==> r.value <= |s|
  {
    IndexFrom(s, pattern, 0)
  }

  predicate Contains(s: string, pattern: string) {
    Index(s, pattern).Some?
  }

  lemma {:induction false} IndexFromIsFirst(s: string, pattern: string, i: nat)
    requires i <= |s|
    ensures var r := IndexFrom(s, pattern, i);
            && (r.Some? ==> i <= r.value && OccursAt(s, pattern, r.value))
            && (forall j :: i <= j && OccursAt(s, pattern, j) ==> r.Some? && r.value <= j)
    decreases |s| - i
  {
    if !OccursAt(s, pattern, i) && i < |s| {
      IndexFromIsFirst(s, pattern, i + 1);
    }
  }

  /** The index is an occurrence, and there is none before it. */
  lemma {:induction false} IndexIsFirst(s: string, pattern: string)
    ensures Index(s, pattern).Some? ==> OccursAt(s, pattern, Index(s, pattern).value)
    ensures forall j :: OccursAt(s, pattern, j) ==> Contains(s, pattern) && Index(s, pattern).value <= j
  {
    IndexFromIsFirst(s, pattern, 0);
  }

  /** `strings.LastIndex` for a single character. */
  function LastIndexOf(s: string, c: char): (r: Option<nat>)
    ensures r.Some? ==> r.value < |s|
  {
    if s == "" then None
    else if s[|s| - 1] == c then Some(|s| - 1)
    else LastIndexOf(s[..|s| - 1], c)
  }

  lemma {:induction false} LastIndexIsLast(s: string, c: char)
    ensures var r := LastIndexOf(s, c);
            if r.Some? then s[r.value] == c && c !in s[r.value + 1..] else c !in s
  {
    if s != "" && s[|s| - 1] != c {
      var front := s[..|s| - 1];
      LastIndexIsLast(front, c);
      assert s == front + [s[|s| - 1]];
      var r := LastIndexOf(s, c);
      assert r.Some? ==> s[r.value + 1..] == front[r.value + 1..] + [s[|s| - 1]];
    }
  }

  /** Lower-casing of the 26 ASCII letters; every other character stays. */
  function LowerChar(c: char): (r: char)
    ensures LowerCaseChar(r)
  {
    if 'A' <= c <= 'Z' then (c as int + 32) as char else c
  }

  predicate LowerCaseChar(c: char) {
    !('A' <= c <= 'Z')
  }

  const UPPER := "ABCDEFGHIJKLMNOPQRSTUVWXYZ"
  const LOWER := "abcdefghijklmnopqrstuvwxyz"

  lemma {:induction false} LetterIs(k: nat)
    requires k < 26
    ensures UPPER[k] == 'A' + k as char && LOWER[k] == 'a' + k as char
  {
  }

  /** Each capital letter becomes its small one, and every other character stays. */
  lemma {:induction false} LowersLetters(c: char)
    ensures var k := c as int - 'A' as int;
            if 0 <= k < 26 then c == UPPER[k] && LowerChar(c) == LOWER[k] else LowerChar(c) == c
  {
    if 'A' <= c <= 'Z' {
      LetterIs(c as int - 'A' as int);
    }
  }

  function ToLower(s: string): (r: string)
    ensures |r| == |s|
    ensures forall i :: 0 <= i < |s| ==> r[i] == LowerChar(s[i])
  {
    seq(|s|, i requires 0 <= i < |s| => LowerChar(s[i]))
  }

  /** The text cut at every separator, empty pieces included: `strings.Split` at one character. */
  function PiecesAt(s: string, separates: char -> bool): (pieces: seq<string>)
    ensures pieces != []
  {
    if s == "" then [""]
    else
      var front, c := PiecesAt(s[..|s| - 1], separates), s[|s| - 1];
      if separates(c) then front + [""] else front[..|front| - 1] + [front[|front| - 1] + [c]]
  }

  lemma {:induction false} PiecesHoldNoSeparator(s: string, separates: char -> bool, piece: string, c: char)
    requires piece in PiecesAt(s, separates) && c in piece
    ensures !separates(c)
  {
    if s != "" {
      var front, d := PiecesAt(s[..|s| - 1], separates), s[|s| - 1];
      var last := front[|front| - 1];
      assert last in front;
      if !separates(d) && piece == last + [d] {
        if c != d {
          PiecesHoldNoSeparator(s[..|s| - 1], separates, last, c);
        }
      } else if piece != "" {
        assert piece in front;
        PiecesHoldNoSeparator(s[..|s| - 1], separates, piece, c);
      }
    }
  }

  /** Trimming adds no characters. */
  lemma {:induction false} TrimTakesChars(s: string, c: char)
    requires c in Trim(s)
    ensures c in s
  {
    TrimLeftTakesChars(s, c);
    assert TrimRight(TrimLeft(s)) <= TrimLeft(s);
  }

  lemma {:induction false} TrimLeftTakesChars(s: string, c: char)
    requires c in TrimLeft(s)
    ensures c in s
  {
    if s != "" && IsSpace(s[0]) {
      TrimLeftTakesChars(s[1..], c);
    }
  }
}
