/** A circular list in an array (circ_list.h): items are pushed in front, and the oldest falls off a full list. */
module CircList {

  /** modulo_add, for a step of at most `mod` either way. */
  function ModuloAdd(x: int, y: int, mod: int): int {
    var sum := x + y;
    if sum >= mod then sum - mod else if sum < 0 then sum + mod else sum
  }

  /** The items, the latest first. */
  function Unrolled(a: seq<int>, head: nat, size: nat): (s: seq<int>)
    requires head < |a| && size <= |a|
    ensures |s| == size && forall i :: 0 <= i < size ==> s[i] == a[ModuloAdd(head, i, |a|)]
  {
    seq(size, i requires 0 <= i < size => a[ModuloAdd(head, i, |a|)])
  }

  /** An item in front of the others, as far as there is room. */
  function Pushed(s: seq<int>, x: int, cap: nat): (r: seq<int>) {
    if |s| < cap then [x] + s else if cap == 0 then [] else [x] + s[..cap - 1]
  }

  class List {
    const list: array<int>
    var head: nat
    var size: nat

    predicate Valid()
      reads this
    {
      head < list.Length && size <= list.Length
    }

    ghost function Items(): (s: seq<int>)
      reads this, list
      requires Valid()
      ensures |s| == size
    {
      Unrolled(list[..], head, size)
    }

    /** CIRC_LIST_ALLOC. */
    constructor (cap: nat)
      requires cap > 0
      ensures Valid() && Items() == [] && list.Length == cap && fresh(list)
    {
      list, head, size := new int[cap](_ => 0), 0, 0;
    }

    /** CIRC_LIST_PUSH. */
    method Push(x: int)
      requires Valid()
      modifies this, list
      ensures Valid() && Items() == Pushed(old(Items()), x, list.Length)
    {
      ghost var before, was := list[..], Items();
      ghost var oldHead := head;
      head := ModuloAdd(head, -1, list.Length);
      list[head] := x;
      size := if size + 1 < list.Length then size + 1 else list.Length;
      PushedUnrolled(before, oldHead, |was|, list[..], head, size, x);
    }

    /** CIRC_LIST_ITEM, whose index_verify is the precondition. */
    method Item(i: nat) returns (x: int)
      requires Valid() && i < size
      ensures x == Items()[i]
    {
      x := list[ModuloAdd(head, i, list.Length)];
    }

    /** Assignment to CIRC_LIST_ITEM. */
    method Put(i: nat, x: int)
      requires Valid() && i < size
      modifies list
      ensures Valid() && Items() == old(Items())[i := x]
    {
      list[ModuloAdd(head, i, list.Length)] := x;
    }

    /** CIRC_LIST_RESET. */
    method Reset()
      requires Valid()
      modifies this
      ensures Valid() && Items() == []
    {
      head, size := 0, 0;
    }
  }

  lemma PushedUnrolled(a: seq<int>, head: nat, size: nat, a': seq<int>, head': nat, size': nat, x: int)
    requires head < |a| && size <= |a| && head' == ModuloAdd(head, -1, |a|) && a' == a[head' := x]
    requires size' == if size + 1 < |a| then size + 1 else |a|
    ensures Unrolled(a', head', size') == Pushed(Unrolled(a, head, size), x, |a|)
  {
    var s, t := Unrolled(a', head', size'), Pushed(Unrolled(a, head, size), x, |a|);
    forall i | 0 <= i < size' ensures s[i] == t[i] {
      if i > 0 { assert ModuloAdd(head', i, |a|) == ModuloAdd(head, i - 1, |a|); }
    }
  }
}
