/**
 The character-level scanners that take a billing expression apart: the top-level
 ternary split and the removal of wrapping parentheses.
 */
module TernaryText {
  import opened GoStrings

  // ---------- Top-level search ----------

  /** Where the scanner stands: outside strings, inside one, or behind a backslash in one. */
  datatype Mode = Outside | InString | Escaped

  /** What one character does to the scanner. */
  function Advance(c: char, depth: int, mode: Mode): (int, Mode) {
    match mode
    case Escaped => (depth, InString)
    case InString => (depth, if c == '\\' then Escaped else if c == '"' then Outside else InString)
    case Outside =>
      if c == '"' then (depth, InString)
      else if c == '(' then (depth + 1, Outside)
      else if c == ')' then (depth - 1, Outside)
      else (depth, Outside)
  }

  function Shift(r: Option<nat>, n: nat): Option<nat> {
    match r case None => None case Some(k) => Some(k + n)
  }

  /** First position of `mark` outside strings and outside parentheses. */
  function FindTop(s: string, mark: char, depth: int, mode: Mode): (r: Option<nat>)
    ensures r.Some? ==> r.value < |s| && s[r.value] == mark
  {
    if s == "" then None
    else if s[0] == mark && depth == 0 && mode.Outside? then Some(0)
    else
      var (d, m) := Advance(s[0], depth, mode);
      Shift(FindTop(s[1..], mark, d, m), 1)
  }

  datatype Pieces = Pieces(condition: string, whenTrue: string, whenFalse: string)

  /** The first top-level `?` and the first top-level `:` behind it. */
  function Marks(s: string): (r: Option<(nat, nat)>)
    ensures r.Some? ==> r.value.0 < r.value.1 < |s|
  {
    match FindTop(s, '?', 0, Outside)
    case None => None
    case Some(q) =>
      match FindTop(s[q + 1..], ':', 0, Outside)
      case None => None
      case Some(c) => Some((q, q + 1 + c))
  }

  function Cut(s: string, question: nat, colon: nat): (p: Pieces)
    requires question < colon < |s|
    ensures |p.condition| < |s| && |p.whenTrue| < |s| && |p.whenFalse| < |s|
  {
    Pieces(Trim(s[..question]), Trim(s[question + 1..colon]), Trim(s[colon + 1..]))
  }

  /** The three parts of a ternary. */
  function Split(s: string): (r: Option<Pieces>)
    ensures r.Some? ==> |r.value.condition| < |s| && |r.value.whenTrue| < |s| && |r.value.whenFalse| < |s|
  {
    match Marks(s)
    case None => None
    case Some((q, c)) => Some(Cut(s, q, c))
  }

  /** The search resumed at position `i`, its answer counted from the start of `s`. */
  function FindFrom(s: string, i: nat, mark: char, depth: int, mode: Mode): Option<nat> {
    if i > |s| then None else Shift(FindTop(s[i..], mark, depth, mode), i)
  }

  lemma {:induction false} FindFromStep(s: string, i: nat, mark: char, depth: int, mode: Mode)
    requires i < |s| && !(s[i] == mark && depth == 0 && mode.Outside?)
    ensures var (d, m) := Advance(s[i], depth, mode);
            FindFrom(s, i, mark, depth, mode) == FindFrom(s, i + 1, mark, d, m)
  {
    assert s[i..][1..] == s[i + 1..];
  }

  /** The marks as the pass still has to find them from position `i` on. */
  function MarksFrom(s: string, i: nat, question: int, depth: int, mode: Mode): Option<(int, nat)> {
    if question < 0 then
      match FindFrom(s, i, '?', depth, mode)
      case None => None
      case Some(q) => (match FindFrom(s, q + 1, ':', 0, Outside) case None => None case Some(c) => Some((q, c)))
    else
      match FindFrom(s, i, ':', depth, mode)
      case None => None
      case Some(c) => Some((question, c))
  }

  function Wanted(question: int): char {
    if question < 0 then '?' else ':'
  }

  /** A character that is not the wanted mark moves the pass on. */
  lemma {:induction false} MarksStep(s: string, i: nat, question: int, depth: int, mode: Mode)
    requires i < |s| && !(s[i] == Wanted(question) && depth == 0 && mode.Outside?)
    ensures var (d, m) := Advance(s[i], depth, mode);
            MarksFrom(s, i, question, depth, mode) == MarksFrom(s, i + 1, question, d, m)
  {
    FindFromStep(s, i, Wanted(question), depth, mode);
  }

  /** A backslash inside a string takes the next character with it. */
  lemma {:induction false} MarksSkip(s: string, i: nat, question: int, depth: int)
    requires i < |s| && s[i] == '\\'
    ensures MarksFrom(s, i, question, depth, InString) == MarksFrom(s, i + 2, question, depth, InString)
  {
    MarksStep(s, i, question, depth, InString);
    if i + 1 < |s| {
      MarksStep(s, i + 1, question, depth, Escaped);
    }
  }

  /** The wanted mark at the top level. */
  lemma {:induction false} MarkReached(s: string, i: nat, question: int)
    requires i < |s| && s[i] == Wanted(question)
    ensures question < 0 ==> MarksFrom(s, i, question, 0, Outside) == MarksFrom(s, i + 1, i, 0, Outside)
    ensures question >= 0 ==> MarksFrom(s, i, question, 0, Outside) == Some((question, i))
  {
    assert s[i..][0] == s[i];
  }

  lemma {:induction false} MarksAtStart(s: string)
    ensures MarksFrom(s, 0, -1, 0, Outside) == Marks(s)
  {
    assert s[0..] == s;
  }

  lemma {:induction false} MarksAtEnd(s: string, i: nat, question: int, depth: int, mode: Mode)
    requires i >= |s|
    ensures MarksFrom(s, i, question, depth, mode) == None
  {
    assert s[|s|..] == "";
  }

  /** Cutting at the marks is the split. */
  lemma {:induction false} SplitAtMarks(s: string, question: nat, colon: nat, pieces: Pieces)
    requires Marks(s) == Some((question, colon)) && Cut(s, question, colon) == pieces
    ensures Split(s) == Some(pieces)
  {
  }

  lemma {:induction false} NoSplitWithoutMarks(s: string)
    requires Marks(s) == None
    ensures Split(s) == None
  {
  }

  /** The source's single pass over the characters. */
  method SplitBillingTernary(s: string) returns (r: Option<Pieces>)
    ensures r == Split(s)
  {
    var depth, question, inString := 0, -1, false;
    var i := 0;
    MarksAtStart(s);
    while i < |s|
      invariant -1 <= question < i
      invariant MarksFrom(s, i, question, depth, if inString then InString else Outside) == Marks(s)
    {
      var c := s[i];
      if inString {
        if c == '\\' {
          MarksSkip(s, i, question, depth);
          i := i + 2;
          continue;
        }
        MarksStep(s, i, question, depth, InString);
        if c == '"' {
          inString := false;
        }
      } else if c == '?' && depth == 0 && question < 0 {
        MarkReached(s, i, question);
        question := i;
      } else if c == ':' && depth == 0 && question >= 0 {
        MarkReached(s, i, question);
        r := Some(Cut(s, question, i));
        SplitAtMarks(s, question, i, r.value);
        return;
      } else {
        MarksStep(s, i, question, depth, Outside);
        if c == '"' {
          inString := true;
        } else if c == '(' {
          depth := depth + 1;
        } else if c == ')' {
          depth := depth - 1;
        }
      }
      i := i + 1;
    }
    MarksAtEnd(s, i, question, depth, if inString then InString else Outside);
    NoSplitWithoutMarks(s);
    r := None;
  }

  // ---------- Outer parentheses ----------

  /** The source's raw parenthesis count: it looks inside strings too, and fails when the count returns to 0 early. */
  function Wraps(s: string, depth: int): bool {
    if s == "" then depth == 0
    else if s[0] == '(' then Wraps(s[1..], depth + 1)
    else if s[0] == ')' then
      if depth - 1 == 0 && |s| > 1 then false else Wraps(s[1..], depth - 1)
    else Wraps(s[1..], depth)
  }

  method OuterParensWrap(s: string) returns (r: bool)
    ensures r == Wraps(s, 0)
  {
    var depth := 0;
    for i := 0 to |s|
      invariant Wraps(s, 0) == Wraps(s[i..], depth)
    {
      assert s[i..][1..] == s[i + 1..];
      match s[i] {
        case '(' => depth := depth + 1;
        case ')' =>
          depth := depth - 1;
          if depth == 0 && i != |s| - 1 {
            return false;
          }
        case _ =>
      }
    }
    assert s[|s|..] == "";
    r := depth == 0;
  }

  predicate Wrapped(s: string) {
    |s| >= 2 && s[0] == '(' && s[|s| - 1] == ')' && Wraps(s, 0)
  }

  function Unwrap(s: string): (r: string)
    ensures |r| <= |s|
    decreases |s|
  {
    if Wrapped(s) then Unwrap(Trim(s[1..|s| - 1])) else s
  }

  method UnwrapBillingParens(expression: string) returns (r: string)
    ensures r == Unwrap(expression)
  {
    r := expression;
    while |r| >= 2 && r[0] == '(' && r[|r| - 1] == ')'
      invariant Unwrap(r) == Unwrap(expression)
      decreases |r|
    {
      var wrap := OuterParensWrap(r);
      if !wrap {
        break;
      }
      r := Trim(r[1..|r| - 1]);
    }
  }

  // ---------- Texts the scanners pass over ----------

  /** Scanner state behind `s`, when the scanner never stops at `mark`. */
  function Pass(s: string, mark: char, depth: int, mode: Mode): Option<(int, Mode)> {
    if s == "" then Some((depth, mode))
    else if s[0] == mark && depth == 0 && mode.Outside? then None
    else
      var (d, m) := Advance(s[0], depth, mode);
      Pass(s[1..], mark, d, m)
  }

  /** Parentheses outside strings close in order and the last string is closed. */
  predicate Balanced(s: string, depth: nat, mode: Mode) {
    if s == "" then depth == 0 && mode.Outside?
    else
      var (d, m) := Advance(s[0], depth, mode);
      d >= 0 && Balanced(s[1..], d, m)
  }

  /** Parentheses close in order when those inside strings count as well. */
  predicate RawBalanced(s: string, depth: nat) {
    if s == "" then depth == 0
    else if s[0] == '(' then RawBalanced(s[1..], depth + 1)
    else if s[0] == ')' then depth > 0 && RawBalanced(s[1..], depth - 1)
    else RawBalanced(s[1..], depth)
  }

  /** A text the split passes over without stopping. */
  predicate Silent(s: string) {
    && Pass(s, '?', 0, Outside) == Some((0, Outside))
    && Pass(s, ':', 0, Outside) == Some((0, Outside))
  }

  /** What every part of an expression has in common. */
  predicate Solid(s: string) {
    Trimmed(s) && Balanced(s, 0, Outside) && RawBalanced(s, 0)
  }

  /** A condition or leaf text: no top-level mark and not itself wrapped. */
  predicate Plain(s: string) {
    Solid(s) && Silent(s) && !Wrapped(s)
  }

  lemma {:induction false} FindTopSkips(a: string, b: string, mark: char, depth: int, mode: Mode)
    requires Pass(a, mark, depth, mode).Some?
    ensures var (d, m) := Pass(a, mark, depth, mode).value;
            FindTop(a + b, mark, depth, mode) == Shift(FindTop(b, mark, d, m), |a|)
  {
    if a == "" {
      assert a + b == b;
    } else {
      var (d, m) := Advance(a[0], depth, mode);
      assert (a + b)[1..] == a[1..] + b;
      FindTopSkips(a[1..], b, mark, d, m);
    }
  }

  /** What the search finds in a text it also finds when more text follows. */
  lemma {:induction false} FindTopPrefix(a: string, b: string, mark: char, depth: int, mode: Mode)
    requires FindTop(a, mark, depth, mode).Some?
    ensures FindTop(a + b, mark, depth, mode) == FindTop(a, mark, depth, mode)
  {
    assert (a + b)[0] == a[0];
    if !(a[0] == mark && depth == 0 && mode.Outside?) {
      var (d, m) := Advance(a[0], depth, mode);
      assert (a + b)[1..] == a[1..] + b;
      FindTopPrefix(a[1..], b, mark, d, m);
    }
  }

  lemma {:induction false} PassAppends(a: string, b: string, mark: char, depth: int, mode: Mode)
    requires Pass(a, mark, depth, mode).Some?
    ensures var (d, m) := Pass(a, mark, depth, mode).value;
            Pass(a + b, mark, depth, mode) == Pass(b, mark, d, m)
  {
    if a == "" {
      assert a + b == b;
    } else {
      var (d, m) := Advance(a[0], depth, mode);
      assert (a + b)[1..] == a[1..] + b;
      PassAppends(a[1..], b, mark, d, m);
    }
  }

  /** Behind an opening parenthesis, a balanced text can hide any marks. */
  lemma {:induction false} BalancedPasses(s: string, mark: char, base: int, depth: nat, mode: Mode)
    requires Balanced(s, depth, mode) && base >= 1
    ensures Pass(s, mark, base + depth, mode) == Some((base, Outside))
  {
    if s != "" {
      var (d, m) := Advance(s[0], depth, mode);
      BalancedPasses(s[1..], mark, base, d, m);
    }
  }

  lemma {:induction false} BalancedAppends(a: string, b: string, depth: nat, mode: Mode)
    requires Balanced(a, depth, mode) && Balanced(b, 0, Outside)
    ensures Balanced(a + b, depth, mode)
  {
    if a == "" {
      assert a + b == b;
    } else {
      var (d, m) := Advance(a[0], depth, mode);
      assert (a + b)[1..] == a[1..] + b;
      BalancedAppends(a[1..], b, d, m);
    }
  }

  /** A closing parenthesis behind a balanced text ends one more level. */
  lemma {:induction false} BalancedCloses(s: string, depth: nat, mode: Mode)
    requires Balanced(s, depth, mode)
    ensures Balanced(s + ")", depth + 1, mode)
  {
    if s == "" {
      assert s + ")" == ")" && ")"[1..] == "";
    } else {
      var (d, m) := Advance(s[0], depth, mode);
      assert (s + ")")[1..] == s[1..] + ")";
      BalancedCloses(s[1..], d, m);
    }
  }

  lemma {:induction false} RawBalancedAppends(a: string, b: string, depth: nat)
    requires RawBalanced(a, depth) && RawBalanced(b, 0)
    ensures RawBalanced(a + b, depth)
  {
    if a == "" {
      assert a + b == b;
    } else {
      assert (a + b)[1..] == a[1..] + b;
      RawBalancedAppends(a[1..], b, if a[0] == '(' then depth + 1 else if a[0] == ')' then depth - 1 else depth);
    }
  }

  /** The wrap test on "(" + s + ")" answers exactly whether `s` is balanced when strings are ignored. */
  lemma {:induction false} WrapsIffRawBalanced(s: string, depth: nat)
    ensures Wraps(s + ")", depth + 1) <==> RawBalanced(s, depth)
  {
    if s == "" {
      assert (s + ")")[1..] == "";
    } else {
      assert (s + ")")[1..] == s[1..] + ")";
      if s[0] == '(' {
        WrapsIffRawBalanced(s[1..], depth + 1);
      } else if s[0] == ')' {
        if depth > 0 {
          WrapsIffRawBalanced(s[1..], depth - 1);
        }
      } else {
        WrapsIffRawBalanced(s[1..], depth);
      }
    }
  }

  lemma {:induction false} RawBalancedCloses(s: string, depth: nat)
    requires RawBalanced(s, depth)
    ensures RawBalanced(s + ")", depth + 1)
  {
    if s == "" {
      assert (s + ")")[1..] == "";
    } else {
      assert (s + ")")[1..] == s[1..] + ")";
      RawBalancedCloses(s[1..], if s[0] == '(' then depth + 1 else if s[0] == ')' then depth - 1 else depth);
    }
  }

  /** A text whose first parenthesis closes before its end is not wrapped. */
  lemma {:induction false} EarlyCloseIsNoWrap(a: string, rest: string, depth: nat)
    requires RawBalanced(a, depth) && rest != ""
    requires depth > 0 || (a != "" && a[0] == '(')
    ensures !Wraps(a + rest, depth)
  {
    assert (a + rest)[0] == a[0];
    assert (a + rest)[1..] == a[1..] + rest;
    if a[0] == '(' {
      EarlyCloseIsNoWrap(a[1..], rest, depth + 1);
    } else if a[0] == ')' {
      if depth > 1 {
        EarlyCloseIsNoWrap(a[1..], rest, depth - 1);
      }
    } else {
      EarlyCloseIsNoWrap(a[1..], rest, depth);
    }
  }

  /**
   Wrapping is undone exactly when the parentheses of the text are balanced with those
   inside string literals counted in.
   */
  lemma {:induction false} UnwrapUndoesWrapIff(s: string)
    requires Trimmed(s)
    ensures Unwrap("(" + s + ")") == Unwrap(s) <==> RawBalanced(s, 0)
  {
    var w := "(" + s + ")";
    assert w[1..] == s + ")";
    assert w[1..|w| - 1] == s;
    WrapsIffRawBalanced(s, 0);
    if !RawBalanced(s, 0) {
      assert Unwrap(w) == w;
    }
  }

  // ---------- Expression trees and their spelling ----------

  /** A billing expression as text: leaves, conditions, and how many parentheses go around each branch. */
  datatype Spelling =
    | Leaf(text: string)
    | Ternary(condition: string, trueParens: nat, whenTrue: Spelling, falseParens: nat, whenFalse: Spelling)

  function Parenthesised(s: string, layers: nat): string {
    if layers == 0 then s else "(" + Parenthesised(s, layers - 1) + ")"
  }

  function Branch(e: Spelling, layers: nat): string
    decreases e, 1
  {
    Parenthesised(Print(e), layers)
  }

  function Print(e: Spelling): string
    decreases e, 0
  {
    match e
    case Leaf(text) => text
    case Ternary(condition, t, whenTrue, f, whenFalse) =>
      Join(condition, '?', Join(Branch(whenTrue, t), ':', Branch(whenFalse, f)))
  }

  function Join(a: string, mark: char, b: string): string {
    a + [' ', mark, ' '] + b
  }

  /** Every condition and leaf is a plain text. */
  predicate Readable(e: Spelling) {
    match e
    case Leaf(text) => Plain(text)
    case Ternary(condition, t, whenTrue, f, whenFalse) =>
      Plain(condition) && Readable(whenTrue) && Readable(whenFalse)
  }

  /** Every ternary in a true branch stands in parentheses. */
  predicate Guarded(e: Spelling) {
    match e
    case Leaf(_) => true
    case Ternary(_, t, whenTrue, _, whenFalse) =>
      (whenTrue.Leaf? || t > 0) && Guarded(whenTrue) && Guarded(whenFalse)
  }

  lemma {:induction false} ParenthesisedIsSolid(s: string, layers: nat)
    requires Solid(s)
    ensures Solid(Parenthesised(s, layers))
  {
    if layers > 0 {
      var inner := Parenthesised(s, layers - 1);
      ParenthesisedIsSolid(s, layers - 1);
      BalancedCloses(inner, 0, Outside);
      RawBalancedCloses(inner, 0);
      assert ("(" + inner + ")")[1..] == inner + ")";
    }
  }

  lemma {:induction false} JoinIsSolid(a: string, mark: char, b: string)
    requires Solid(a) && Solid(b) && (mark == '?' || mark == ':')
    ensures Solid(Join(a, mark, b))
  {
    var infix := [' ', mark, ' '];
    assert infix[1..] == [mark, ' '] && [mark, ' '][1..] == " " && " "[1..] == "";
    assert Balanced("", 0, Outside) && Balanced(" ", 0, Outside) && Balanced([mark, ' '], 0, Outside);
    assert RawBalanced("", 0) && RawBalanced(" ", 0) && RawBalanced([mark, ' '], 0);
    BalancedAppends(a, infix, 0, Outside);
    BalancedAppends(a + infix, b, 0, Outside);
    RawBalancedAppends(a, infix, 0);
    RawBalancedAppends(a + infix, b, 0);
  }

  lemma {:induction false} PrintIsSolid(e: Spelling)
    requires Readable(e)
    ensures Solid(Print(e))
  {
    if e.Ternary? {
      var t, f := Branch(e.whenTrue, e.trueParens), Branch(e.whenFalse, e.falseParens);
      PrintIsSolid(e.whenTrue);
      PrintIsSolid(e.whenFalse);
      ParenthesisedIsSolid(Print(e.whenTrue), e.trueParens);
      ParenthesisedIsSolid(Print(e.whenFalse), e.falseParens);
      JoinIsSolid(t, ':', f);
      JoinIsSolid(e.condition, '?', Join(t, ':', f));
    }
  }

  /** No printed tree is taken for a wrapped one. */
  lemma {:induction false} PrintIsNotWrapped(e: Spelling)
    requires Readable(e)
    ensures !Wrapped(Print(e)) && Unwrap(Print(e)) == Print(e)
  {
    if e.Ternary? && e.condition[0] == '(' {
      var rest := [' ', '?', ' '] + Join(Branch(e.whenTrue, e.trueParens), ':', Branch(e.whenFalse, e.falseParens));
      assert Print(e) == e.condition + rest;
      EarlyCloseIsNoWrap(e.condition, rest, 0);
    }
  }

  lemma {:induction false} BranchIsSolid(e: Spelling, layers: nat)
    requires Readable(e)
    ensures Solid(Branch(e, layers))
    ensures Trim(Branch(e, layers)) == Branch(e, layers)
  {
    PrintIsSolid(e);
    ParenthesisedIsSolid(Print(e), layers);
  }

  lemma {:induction false} OneMoreComesOff(s: string, layers: nat)
    requires Solid(s) && layers > 0
    ensures Unwrap(Parenthesised(s, layers)) == Unwrap(Parenthesised(s, layers - 1))
  {
    ParenthesisedIsSolid(s, layers - 1);
    WrapIsUndone(Parenthesised(s, layers - 1));
  }

  /** What one more pair of parentheses does not change, no number of them does. */
  lemma {:induction false} LayersChangeNothing(f: string -> string, s: string, layers: nat)
    requires forall k: nat :: k < layers ==> f(Parenthesised(s, k + 1)) == f(Parenthesised(s, k))
    ensures f(Parenthesised(s, layers)) == f(s)
  {
    if layers > 0 {
      LayersChangeNothing(f, s, layers - 1);
      assert f(Parenthesised(s, layers - 1 + 1)) == f(Parenthesised(s, layers - 1));
    }
  }

  lemma {:induction false} ParenthesesComeOff(s: string, layers: nat)
    requires Solid(s)
    ensures Unwrap(Parenthesised(s, layers)) == Unwrap(s)
  {
    forall k: nat | k < layers
      ensures Unwrap(Parenthesised(s, k + 1)) == Unwrap(Parenthesised(s, k))
    {
      OneMoreComesOff(s, k + 1);
    }
    LayersChangeNothing(Unwrap, s, layers);
  }

  /** Any number of parentheses around a printed tree comes off again, and no more. */
  lemma {:induction false} UnwrapRecovers(e: Spelling, layers: nat)
    requires Readable(e)
    ensures Unwrap(Branch(e, layers)) == Print(e)
  {
    PrintIsSolid(e);
    PrintIsNotWrapped(e);
    ParenthesesComeOff(Print(e), layers);
  }

  lemma {:induction false} WrapIsUndone(s: string)
    requires Solid(s)
    ensures Unwrap("(" + s + ")") == Unwrap(s)
  {
    UnwrapUndoesWrapIff(s);
  }

  /** A branch hides its marks when it is parenthesised or a leaf. */
  lemma {:induction false} BranchIsSilent(e: Spelling, layers: nat)
    requires Readable(e) && (e.Leaf? || layers > 0)
    ensures Silent(Branch(e, layers))
  {
    if layers > 0 {
      var inner := Branch(e, layers - 1);
      PrintIsSolid(e);
      ParenthesisedIsSolid(Print(e), layers - 1);
      ParenthesesSilence(inner, '?');
      ParenthesesSilence(inner, ':');
    }
  }

  lemma {:induction false} ParenthesesSilence(s: string, mark: char)
    requires Balanced(s, 0, Outside) && (mark == '?' || mark == ':')
    ensures Pass("(" + s + ")", mark, 0, Outside) == Some((0, Outside))
  {
    assert ("(" + s + ")")[1..] == s + ")";
    BalancedPasses(s, mark, 1, 0, Outside);
    PassAppends(s, ")", mark, 1, Outside);
    assert ")"[1..] == "";
  }

  /** A mark is found right behind a text that hides its own. */
  lemma {:induction false} MarkFound(a: string, mark: char, b: string)
    requires Pass(a, mark, 0, Outside) == Some((0, Outside)) && (mark == '?' || mark == ':')
    ensures FindTop(Join(a, mark, b), mark, 0, Outside) == Some(|a| + 1)
  {
    var rest := [' ', mark, ' '] + b;
    assert Join(a, mark, b) == a + rest;
    FindTopSkips(a, rest, mark, 0, Outside);
    assert rest[1..][0] == mark;
    assert FindTop(rest[1..], mark, 0, Outside) == Some(0);
  }

  /** The text behind the question mark starts with a space, which the search passes over. */
  lemma {:induction false} SpaceFirst(s: string, mark: char)
    requires mark != ' '
    ensures FindTop(" " + s, mark, 0, Outside) == Shift(FindTop(s, mark, 0, Outside), 1)
  {
    assert (" " + s)[1..] == s;
  }

  /** The marks of a text with a space and some body behind its question mark. */
  lemma {:induction false} MarksBehind(s: string, q: nat, body: string)
    requires FindTop(s, '?', 0, Outside) == Some(q) && s[q + 1..] == " " + body
    requires FindTop(body, ':', 0, Outside).Some?
    ensures Marks(s) == Some((q, q + 2 + FindTop(body, ':', 0, Outside).value))
  {
    SpaceFirst(body, ':');
    MarksAre(s, q, " " + body, FindTop(body, ':', 0, Outside).value + 1);
  }

  lemma {:induction false} MarksAre(s: string, q: nat, rest: string, c: nat)
    requires FindTop(s, '?', 0, Outside) == Some(q) && s[q + 1..] == rest && FindTop(rest, ':', 0, Outside) == Some(c)
    ensures Marks(s) == Some((q, q + 1 + c))
  {
  }

  lemma {:induction false} BehindMark(a: string, mark: char, b: string)
    ensures |Join(a, mark, b)| == |a| + 3 + |b| && Join(a, mark, b)[|a| + 2..] == " " + b
  {
  }

  /** A search for the colon passes over a question mark. */
  lemma {:induction false} QuestionFirst(s: string)
    ensures FindTop("?" + s, ':', 0, Outside) == Shift(FindTop(s, ':', 0, Outside), 1)
  {
    assert ("?" + s)[1..] == s;
  }

  /** Where the colon of a joined text is found depends on the part behind the question mark only. */
  lemma {:induction false} QuestionMarked(condition: string, body: string)
    requires Silent(condition) && FindTop(body, ':', 0, Outside).Some?
    ensures Marks(Join(condition, '?', body))
            == Some((|condition| + 1, |condition| + 3 + FindTop(body, ':', 0, Outside).value))
  {
    MarkFound(condition, '?', body);
    BehindMark(condition, '?', body);
    MarksBehind(Join(condition, '?', body), |condition| + 1, body);
  }

  /** Cutting a joined text at its own marks gives back its three parts. */
  lemma {:induction false} JoinCuts(condition: string, t: string, f: string)
    requires Trimmed(condition) && Trimmed(t) && Trimmed(f)
    ensures Cut(Join(condition, '?', Join(t, ':', f)), |condition| + 1, |condition| + |t| + 4)
         == Pieces(condition, t, f)
  {
    var s := Join(condition, '?', Join(t, ':', f));
    assert s[..|condition| + 1] == condition + " ";
    assert s[|condition| + 2..|condition| + |t| + 4] == " " + t + " ";
    assert s[|condition| + |t| + 5..] == " " + f;
    TrimPadded(condition);
    TrimPadded(t);
    TrimPadded(f);
  }

  lemma {:induction false} JoinMarks(condition: string, t: string, f: string)
    requires Silent(condition) && Silent(t)
    ensures Marks(Join(condition, '?', Join(t, ':', f))) == Some((|condition| + 1, |condition| + |t| + 4))
  {
    MarkFound(t, ':', f);
    QuestionMarked(condition, Join(t, ':', f));
  }

  lemma {:induction false} JoinSplits(condition: string, t: string, f: string)
    requires Silent(condition) && Silent(t) && Trimmed(condition) && Trimmed(t) && Trimmed(f)
    ensures Split(Join(condition, '?', Join(t, ':', f))) == Some(Pieces(condition, t, f))
  {
    var s := Join(condition, '?', Join(t, ':', f));
    JoinMarks(condition, t, f);
    JoinCuts(condition, t, f);
    SplitAtMarks(s, |condition| + 1, |condition| + |t| + 4, Pieces(condition, t, f));
  }

  /** Splitting a printed ternary gives back its condition and both branches as printed. */
  lemma {:induction false} SplitRecovers(e: Spelling)
    requires Readable(e) && e.Ternary? && (e.whenTrue.Leaf? || e.trueParens > 0)
    ensures Split(Print(e))
         == Some(Pieces(e.condition, Branch(e.whenTrue, e.trueParens), Branch(e.whenFalse, e.falseParens)))
  {
    BranchIsSilent(e.whenTrue, e.trueParens);
    BranchIsSolid(e.whenTrue, e.trueParens);
    BranchIsSolid(e.whenFalse, e.falseParens);
    JoinSplits(e.condition, Branch(e.whenTrue, e.trueParens), Branch(e.whenFalse, e.falseParens));
  }

  /** A leaf is not taken for a ternary. */
  lemma {:induction false} LeafDoesNotSplit(e: Spelling)
    requires Readable(e) && e.Leaf?
    ensures Split(Print(e)) == None
  {
    FindTopSkips(e.text, "", '?', 0, Outside);
    assert e.text + "" == e.text;
  }

  /** A printed ternary shows a colon at the top level. */
  lemma {:induction false} TernaryShowsColon(e: Spelling)
    requires Readable(e) && e.Ternary?
    ensures FindTop(Print(e), ':', 0, Outside).Some?
  {
    var t, f := Branch(e.whenTrue, e.trueParens), Branch(e.whenFalse, e.falseParens);
    var body := Join(t, ':', f);
    if e.whenTrue.Leaf? || e.trueParens > 0 {
      BranchIsSilent(e.whenTrue, e.trueParens);
      MarkFound(t, ':', f);
    } else {
      TernaryShowsColon(e.whenTrue);
      ColonInside(t, f);
    }
    ColonBehindQuestion(e.condition, body);
  }

  lemma {:induction false} ColonInside(t: string, f: string)
    requires FindTop(t, ':', 0, Outside).Some?
    ensures FindTop(Join(t, ':', f), ':', 0, Outside) == FindTop(t, ':', 0, Outside)
  {
    FindTopPrefix(t, [' ', ':', ' '] + f, ':', 0, Outside);
    assert Join(t, ':', f) == t + ([' ', ':', ' '] + f);
  }

  lemma {:induction false} ColonBehindQuestion(condition: string, body: string)
    requires Silent(condition) && FindTop(body, ':', 0, Outside).Some?
    ensures FindTop(Join(condition, '?', body), ':', 0, Outside).Some?
  {
    var rest := [' ', '?', ' '] + body;
    assert Join(condition, '?', body) == condition + rest;
    FindTopSkips(condition, rest, ':', 0, Outside);
    assert rest == " " + ("?" + (" " + body));
    SpaceFirst("?" + (" " + body), ':');
    QuestionFirst(" " + body);
    SpaceFirst(body, ':');
  }

  /** A piece that starts with a space is trimmed to less than is cut out. */
  lemma {:induction false} SpaceIsTrimmed(s: string, question: nat, colon: nat)
    requires Marks(s) == Some((question, colon)) && question + 1 < colon && s[question + 1] == ' '
    ensures Split(s).Some? && |Split(s).value.whenTrue| < colon - question - 1
  {
    var piece := s[question + 1..colon];
    assert piece[0] == ' ';
    assert |Trim(piece)| < |piece|;
  }

  /** What is cut out in front of a colon of the body is no longer than the body up to there. */
  lemma {:induction false} ColonCutsShort(condition: string, body: string, c: nat)
    requires Silent(condition) && FindTop(body, ':', 0, Outside) == Some(c)
    ensures Split(Join(condition, '?', body)).Some? && |Split(Join(condition, '?', body)).value.whenTrue| <= c
  {
    QuestionMarked(condition, body);
    BehindMark(condition, '?', body);
    var s := Join(condition, '?', body);
    assert s[|condition| + 2] == s[|condition| + 2..][0];
    SpaceIsTrimmed(s, |condition| + 1, |condition| + 3 + c);
  }

  /** With a colon inside the true branch, the piece cut out for it is shorter than the branch. */
  lemma {:induction false} ColonInsideCutsShort(condition: string, t: string, f: string)
    requires Silent(condition) && FindTop(t, ':', 0, Outside).Some?
    ensures Split(Join(condition, '?', Join(t, ':', f))).Some?
    ensures |Split(Join(condition, '?', Join(t, ':', f))).value.whenTrue| < |t|
  {
    ColonInside(t, f);
    ColonCutsShort(condition, Join(t, ':', f), FindTop(t, ':', 0, Outside).value);
  }

  /**
   A printed ternary splits into the pieces it was printed from exactly when its true branch is
   a leaf or stands in parentheses.
   */
  lemma {:induction false} SplitRecoversIff(e: Spelling)
    requires Readable(e) && e.Ternary?
    ensures (Split(Print(e))
             == Some(Pieces(e.condition, Branch(e.whenTrue, e.trueParens), Branch(e.whenFalse, e.falseParens))))
       <==> (e.whenTrue.Leaf? || e.trueParens > 0)
  {
    if e.whenTrue.Leaf? || e.trueParens > 0 {
      SplitRecovers(e);
    } else {
      TernaryShowsColon(e.whenTrue);
      ColonInsideCutsShort(e.condition, Branch(e.whenTrue, 0), Branch(e.whenFalse, e.falseParens));
    }
  }
}
