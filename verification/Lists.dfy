/** Lists without repetition, their elements, and the parts of a list with a property. */
module Lists {

  ghost predicate NoRepeats<T(!new)>(items: seq<T>) {
    forall i, j :: 0 <= i < j < |items| ==> items[i] != items[j]
  }

  ghost function Elements<T(!new)>(items: seq<T>): (all: set<T>)
    ensures forall x :: x in all <==> x in items
  {
    set x | x in items
  }

  lemma {:induction false} SizeOfDistinct<T(!new)>(items: seq<T>)
    requires NoRepeats(items)
    ensures |Elements(items)| == |items|
  {
    if items == [] {
      assert Elements(items) == {};
    } else {
      var front, last := items[..|items| - 1], items[|items| - 1];
      SizeOfDistinct(front);
      LastIsNew(items);
      assert Elements(items) == Elements(front) + {last} by {
        assert items == front + [last];
      }
    }
  }

  lemma {:induction false} LastIsNew<T(!new)>(items: seq<T>)
    requires items != [] && NoRepeats(items)
    ensures items[|items| - 1] !in items[..|items| - 1]
  {
  }

  /** The items with a property, in order. */
  function Those<T>(items: seq<T>, f: T -> bool): seq<T> {
    if items == [] then []
    else
      var last := items[|items| - 1];
      Those(items[..|items| - 1], f) + if f(last) then [last] else []
  }

  lemma {:induction false} ThoseMembers<T>(items: seq<T>, f: T -> bool, x: T)
    ensures x in Those(items, f) <==> x in items && f(x)
  {
    if items != [] {
      ThoseMembers(items[..|items| - 1], f, x);
      assert items == items[..|items| - 1] + [items[|items| - 1]];
    }
  }

  lemma {:induction false} ThoseDistinct<T(!new)>(items: seq<T>, f: T -> bool)
    requires NoRepeats(items)
    ensures NoRepeats(Those(items, f))
  {
    if items != [] {
      var front, last := items[..|items| - 1], items[|items| - 1];
      ThoseDistinct(front, f);
      ThoseMembers(front, f, last);
      LastIsNew(items);
      assert forall i :: 0 <= i < |Those(front, f)| ==> Those(front, f)[i] in Those(front, f);
    }
  }

  function Not<T>(f: T -> bool): T -> bool {
    x => !f(x)
  }

  /** The items with a property first, then the others. */
  function Rearranged<T>(items: seq<T>, f: T -> bool): seq<T> {
    Those(items, f) + Those(items, Not(f))
  }

  lemma {:induction false} RearrangedIsDistinct<T(!new)>(items: seq<T>, f: T -> bool)
    requires NoRepeats(items)
    ensures NoRepeats(Rearranged(items, f))
  {
    var a, b := Those(items, f), Those(items, Not(f));
    ThoseDistinct(items, f);
    ThoseDistinct(items, Not(f));
    forall i, j | 0 <= i < j < |a + b|
      ensures (a + b)[i] != (a + b)[j]
    {
      if i < |a| && j >= |a| {
        assert a[i] in a && b[j - |a|] in b;
        ThoseMembers(items, f, a[i]);
        ThoseMembers(items, Not(f), b[j - |a|]);
      }
    }
  }

  lemma {:induction false} RearrangedMembers<T>(items: seq<T>, f: T -> bool, x: T)
    ensures x in Rearranged(items, f) <==> x in items
  {
    ThoseMembers(items, f, x);
    ThoseMembers(items, Not(f), x);
  }

  function Outside<T>(idOf: T -> nat, skip: set<nat>): T -> bool {
    x => idOf(x) !in skip
  }

  /** The items whose id is not in `skip`, in order. */
  function Without<T>(items: seq<T>, idOf: T -> nat, skip: set<nat>): seq<T> {
    Those(items, Outside(idOf, skip))
  }

  lemma {:induction false} WithoutNext<T>(items: seq<T>, idOf: T -> nat, skip: set<nat>, i: nat)
    requires i < |items|
    ensures Without(items[..i + 1], idOf, skip)
         == Without(items[..i], idOf, skip) + if idOf(items[i]) in skip then [] else [items[i]]
  {
    assert items[..i + 1][..i] == items[..i];
    assert Outside(idOf, skip)(items[i]) <==> idOf(items[i]) !in skip;
  }

  /** What every item is mapped to, one list after another. */
  function Flat<T, U>(items: seq<T>, f: T -> seq<U>): seq<U> {
    if items == [] then [] else Flat(items[..|items| - 1], f) + f(items[|items| - 1])
  }

  lemma {:induction false} FlatMembers<T(!new), U>(items: seq<T>, f: T -> seq<U>, x: U)
    ensures x in Flat(items, f) <==> exists item :: item in items && x in f(item)
  {
    if items != [] {
      var front, last := items[..|items| - 1], items[|items| - 1];
      FlatMembers(front, f, x);
      assert items == front + [last];
    }
  }
}
