/** The intrusive circular doubly linked list of the HAL. */
module LinkedList {

  /** A list entry embedded in an item; a new entry points to itself. */
  class Node<T> {
    var next: Node<T>
    var previous: Node<T>
    var item: T

    constructor (x: T)
      ensures Detached() && item == x
    {
      next, previous := this, this;
      item := x;
    }

    predicate Detached()
      reads this
    {
      next == this && previous == this
    }
  }

  /** The entries in the opposite order. */
  function Reversed<T>(s: seq<T>): (r: seq<T>)
    ensures |r| == |s|
    ensures forall i :: 0 <= i < |s| ==> r[i] == s[|s| - 1 - i]
  {
    if s == [] then [] else [s[|s| - 1]] + Reversed(s[..|s| - 1])
  }

  /** The sequence without its element at `k`. */
  function Without<T>(s: seq<T>, k: nat): (r: seq<T>)
    requires k < |s|
    ensures |r| == |s| - 1
    ensures forall i :: 0 <= i < k ==> r[i] == s[i]
    ensures forall i :: k <= i < |r| ==> r[i] == s[i + 1]
  {
    s[..k] + s[k + 1..]
  }

  /** A list: its head element and, as a ghost, the whole circle from the head on. */
  class List<T> {
    const head: Node<T>
    ghost var circle: seq<Node<T>>
    /** Every entry ever inserted, and the head. */
    ghost var repr: set<Node<T>>

    ghost predicate Valid()
      reads this, repr
    {
      && (forall x :: x in circle ==> x in repr)
      && circle != [] && circle[0] == head
      && (forall i, j :: 0 <= i < j < |circle| ==> circle[i] != circle[j])
      && (forall i {:trigger circle[i].next} :: 0 <= i < |circle| - 1 ==> circle[i].next == circle[i + 1])
      && (forall i {:trigger circle[i].previous} :: 0 < i < |circle| ==> circle[i].previous == circle[i - 1])
      && circle[|circle| - 1].next == head
      && head.previous == circle[|circle| - 1]
    }

    /** The registered entries, first one first. */
    ghost function Entries(): seq<Node<T>>
      requires circle != []
      reads this
    {
      circle[1..]
    }

    constructor (x: T)
      ensures Valid() && fresh(repr) && Entries() == []
    {
      head := new Node(x);
      new;
      circle, repr := [head], {head};
    }

    /** Add an entry at the front. */
    method Insert(entry: Node<T>)
      requires Valid() && entry !in circle
      modifies this`circle, this`repr, repr, entry
      ensures Valid() && repr == old(repr) + {entry} && Entries() == [entry] + old(Entries())
      ensures forall x :: x in circle ==> x.item == old(x.item)
    {
      entry.previous := head;
      entry.next := head.next;
      head.next.previous := entry;
      head.next := entry;
      circle, repr := [head, entry] + circle[1..], repr + {entry};
    }

    /** Remove an entry; one that points to itself is already out, and removing it
        again changes nothing.  `k` is the position it had, or 0. */
    method Remove(entry: Node<T>) returns (ghost k: nat)
      requires Valid() && entry != head
      requires entry in circle || entry.Detached()
      modifies this`circle, repr, entry
      ensures Valid() && entry.Detached() && entry !in circle
      ensures entry !in old(circle) ==> circle == old(circle) && forall x :: x in circle ==> unchanged(x)
      ensures entry in old(circle) ==>
                0 < k < old(|circle|) && old(circle)[k] == entry && circle == Without(old(circle), k)
      ensures forall x :: x in old(circle) ==> x.item == old(x.item)
      ensures entry.item == old(entry.item)
    {
      k := Position(entry);
      Unlink(entry, k);
    }

    /** The position of an entry in the circle, or 0. */
    ghost function Position(entry: Node<T>): (k: nat)
      requires Valid() && entry != head
      reads this, repr
      ensures if entry in circle then 0 < k < |circle| && circle[k] == entry else k == 0
    {
      if entry in circle then
        var k :| 0 <= k < |circle| && circle[k] == entry; k
      else 0
    }

    method Unlink(entry: Node<T>, ghost k: nat)
      requires Valid() && entry != head
      requires if k == 0 then entry !in circle && entry.Detached() else k < |circle| && circle[k] == entry
      modifies this`circle, repr, entry
      ensures Valid() && entry.Detached()
      ensures circle == if k == 0 then old(circle) else Without(old(circle), k)
      ensures k == 0 ==> forall x :: x in circle ==> unchanged(x)
      ensures forall x :: x in old(circle) + [entry] ==> x.item == old(x.item)
    {
      ghost var was := circle;
      entry.next.previous := entry.previous;
      entry.previous.next := entry.next;
      entry.previous := entry;
      entry.next := entry;
      circle := if k == 0 then was else Without(was, k);
    }

    /** Walk the next pointers from the head until they come back to it. */
    method WalkForward() returns (s: seq<Node<T>>)
      requires Valid()
      ensures s == Entries()
    {
      s := [];
      var x := head.next;
      while x != head
        invariant |s| < |circle| && s == circle[1..|s| + 1]
        invariant x == if |s| + 1 < |circle| then circle[|s| + 1] else head
        decreases |circle| - |s|
      {
        s := s + [x];
        x := x.next;
      }
    }

    /** Walk the previous pointers from the head: the same entries backwards. */
    method WalkBackward() returns (s: seq<Node<T>>)
      requires Valid()
      ensures s == Reversed(Entries())
    {
      s := [];
      var x := head.previous;
      while x != head
        invariant |s| < |circle|
        invariant forall i :: 0 <= i < |s| ==> s[i] == circle[|circle| - 1 - i]
        invariant x == circle[|circle| - 1 - |s|]
        decreases |circle| - |s|
      {
        s := s + [x];
        x := x.previous;
      }
    }
  }
}
