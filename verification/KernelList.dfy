/** The circular intrusive lists of list.h: each element has links to the next and the previous one, and the head has
    the first element and their number. */
module KernelList {
  import opened Common

  class Node<T> {
    var elem: T          // the structure that holds the links
    var next: Node?<T>
    var prev: Node?<T>

    /** LIST_INIT_ENTRY. */
    constructor (e: T)
      ensures elem == e && next == null && prev == null
    {
      elem, next, prev := e, null, null;
    }
  }

  lemma WithDistinct<T>(s: seq<T>, i: nat, x: T)
    requires NoDup(s) && i <= |s| && x !in s
    ensures NoDup(With(s, i, x))
  {
  }

  lemma WithoutDistinct<T>(s: seq<T>, i: nat)
    requires NoDup(s) && i < |s|
    ensures NoDup(Without(s, i))
  {
  }

  lemma OnlyAt<T>(s: seq<T>, i: nat)
    requires NoDup(s) && i < |s|
    ensures forall k :: 0 <= k < |s| && k != i ==> s[k] != s[i]
  {
  }

  lemma TurnedDistinct<T>(s: seq<T>, x: T)
    ensures NoDup([x]) && (NoDup(s + [x]) ==> NoDup([x] + s))
  {
    forall i, j | NoDup(s + [x]) && 0 <= i < j < |s| + 1 ensures ([x] + s)[i] != ([x] + s)[j] {
      assert (s + [x])[j - 1] != (s + [x])[if i == 0 then |s| else i - 1];
    }
  }

  /** s with x put in at index i. */
  ghost function With<T>(s: seq<T>, i: nat, x: T): (r: seq<T>)
    requires i <= |s|
    ensures |r| == |s| + 1 && r == s[..i] + [x] + s[i..]
    ensures forall k :: 0 <= k < |r| ==> r[k] == if k < i then s[k] else if k == i then x else s[k - 1]
  {
    s[..i] + [x] + s[i..]
  }

  /** s without the element at index i. */
  ghost function Without<T>(s: seq<T>, i: nat): (r: seq<T>)
    requires i < |s|
    ensures |r| == |s| - 1 && r == s[..i] + s[i + 1..]
    ensures forall k :: 0 <= k < |r| ==> r[k] == if k < i then s[k] else s[k + 1]
  {
    s[..i] + s[i + 1..]
  }

  /** Neighbours on a ring of n. */
  ghost function Succ(n: nat, i: nat): nat {
    if i + 1 == n then 0 else i + 1
  }

  ghost function Pred(n: nat, i: nat): nat {
    if i == 0 && n > 0 then n - 1 else if i == 0 then 0 else i - 1
  }

  /** The neighbours on the ring with x behind index i. */
  lemma RingWith<T>(s: seq<T>, i: nat, x: T, k: nat)
    requires i < |s| && k <= |s|
    ensures
      var r := With(s, i + 1, x);
      && r[Succ(|r|, k)] == (if k == i then x else s[Succ(|s|, if k <= i then k else if k == i + 1 then i else k - 1)])
      && r[Pred(|r|, k)] ==
         (if k == i + 1 then s[i] else if k == Succ(|r|, i + 1) then x else s[Pred(|s|, if k <= i then k else k - 1)])
  {
  }

  class List<T> {
    var first: Node?<T>
    var count: nat
    ghost var nodes: seq<Node<T>>

    /** The links run around the ring in both directions. */
    ghost predicate Valid()
      reads this, nodes`next, nodes`prev
    {
      && count == |nodes|
      && first == (if nodes == [] then null else nodes[0])
      && NoDup(nodes)
      && (forall i {:trigger Linked(i)} :: 0 <= i < |nodes| ==> Linked(i))
    }

    /** Node i is linked with its neighbours. */
    ghost predicate Linked(i: nat)
      reads this, nodes`next, nodes`prev
      requires i < |nodes|
    {
      nodes[i].next == nodes[After(i)] && nodes[i].prev == nodes[Before(i)]
    }

    ghost function After(i: nat): (j: nat)
      reads `nodes
      requires i < |nodes|
      ensures j < |nodes|
    {
      Succ(|nodes|, i)
    }

    ghost function Before(i: nat): (j: nat)
      reads `nodes
      requires i < |nodes|
      ensures j < |nodes|
    {
      Pred(|nodes|, i)
    }

    /** What the list holds, in order. */
    ghost function Elements(): seq<T>
      reads this, nodes
    {
      seq(|nodes|, i requires 0 <= i < |nodes| reads this, nodes => nodes[i].elem)
    }

    /** Going on from a node and coming back leads to it. */
    lemma RingInverse(i: nat)
      requires Valid() && i < |nodes|
      ensures nodes[i].next == nodes[After(i)] && nodes[i].prev == nodes[Before(i)]
      ensures nodes[i].next != null && nodes[i].next.prev == nodes[i]
      ensures nodes[i].prev != null && nodes[i].prev.next == nodes[i]
    {
      assert Linked(i) && Linked(After(i)) && Linked(Before(i));
      assert Before(After(i)) == i && After(Before(i)) == i;
    }

    /** LIST_INIT. */
    constructor ()
      ensures Valid() && nodes == []
    {
      first, count, nodes := null, 0, [];
    }

    /** LIST_EMPTY. */
    predicate Empty()
      reads this
    {
      first == null
    }

    /** LIST_LAST. */
    method Last() returns (r: Node?<T>)
      requires Valid()
      ensures r == if nodes == [] then null else nodes[|nodes| - 1]
    {
      assert nodes != [] ==> Linked(0);
      r := if first == null then null else first.prev;
    }

    /** LIST_NEXT: null behind the last element. */
    method Next(elm: Node<T>, ghost i: nat) returns (r: Node?<T>)
      requires Valid() && i < |nodes| && elm == nodes[i]
      ensures r == if i + 1 < |nodes| then nodes[i + 1] else null
    {
      assert Linked(i);
      r := if elm.next == first then null else elm.next;
    }

    /** LIST_PREV: null before the first element. */
    method Prev(elm: Node<T>, ghost i: nat) returns (r: Node?<T>)
      requires Valid() && i < |nodes| && elm == nodes[i]
      ensures r == if i > 0 then nodes[i - 1] else null
    {
      assert Linked(i);
      var last := Last();
      r := if elm.prev == last then null else elm.prev;
    }

    lemma LinkedWith(was: seq<Node<T>>, i: nat, elm: Node<T>)
      requires i < |was| && nodes == With(was, i + 1, elm)
      requires forall k :: 0 <= k < |was| ==> was[k].next == if k == i then elm else was[Succ(|was|, k)]
      requires forall k :: 0 <= k < |was| ==> was[k].prev == if k == Succ(|was|, i) then elm else was[Pred(|was|, k)]
      requires elm.next == was[Succ(|was|, i)] && elm.prev == was[i]
      ensures forall k {:trigger Linked(k)} :: 0 <= k < |nodes| ==> Linked(k)
    {
      forall k | 0 <= k < |nodes| ensures Linked(k) {
        RingWith(was, i, elm, k);
        assert nodes[k] == if k <= i then was[k] else if k == i + 1 then elm else was[k - 1];
      }
    }

    lemma LinkedWithout(was: seq<Node<T>>, i: nat)
      requires i < |was| && nodes == Without(was, i)
      requires forall k :: 0 <= k < |was| && k != i ==>
        was[k].next == was[Succ(|was|, if k == Pred(|was|, i) then i else k)]
      requires forall k :: 0 <= k < |was| && k != i ==>
        was[k].prev == was[Pred(|was|, if k == Succ(|was|, i) then i else k)]
      ensures forall k {:trigger Linked(k)} :: 0 <= k < |nodes| ==> Linked(k)
    {
      forall k | 0 <= k < |nodes| ensures Linked(k) {
        var j := if k < i then k else k + 1;
        assert nodes[k] == was[j] && j != i;
        assert nodes[Succ(|nodes|, k)] == was[Succ(|was|, if j == Pred(|was|, i) then i else j)];
        assert nodes[Pred(|nodes|, k)] == was[Pred(|was|, if j == Succ(|was|, i) then i else j)];
      }
    }

    /** The ring after x was put in behind node i. */
    twostate lemma LinkedIn(i: nat, new x: Node<T>)
      requires old(Valid()) && i < old(|nodes|) && nodes == With(old(nodes), i + 1, x)
      requires x.next == old(nodes[After(i)]) && x.prev == old(nodes[i])
      requires forall n :: n in old(nodes) ==>
        && n.next == (if n == old(nodes[i]) then x else old(n.next))
        && n.prev == (if n == old(nodes[After(i)]) then x else old(n.prev))
      ensures forall k {:trigger Linked(k)} :: 0 <= k < |nodes| ==> Linked(k)
    {
      hide NoDup;
      var was := old(nodes);
      OnlyAt(was, i);
      OnlyAt(was, Succ(|was|, i));
      forall k | 0 <= k < |was|
        ensures was[k].next == if k == i then x else was[Succ(|was|, k)]
        ensures was[k].prev == if k == Succ(|was|, i) then x else was[Pred(|was|, k)]
      {
        assert old(Linked(k));
      }
      LinkedWith(was, i, x);
    }

    /** The ring after node i was taken out. */
    twostate lemma LinkedRest(i: nat)
      requires old(Valid()) && i < old(|nodes|) && nodes == Without(old(nodes), i)
      requires forall n :: n in old(nodes) && n != old(nodes[i]) ==>
        && n.next == (if n == old(nodes[Before(i)]) then old(nodes[i].next) else old(n.next))
        && n.prev == (if n == old(nodes[After(i)]) then old(nodes[i].prev) else old(n.prev))
      ensures forall k {:trigger Linked(k)} :: 0 <= k < |nodes| ==> Linked(k)
    {
      hide NoDup;
      var was := old(nodes);
      OnlyAt(was, i);
      OnlyAt(was, Succ(|was|, i));
      OnlyAt(was, Pred(|was|, i));
      assert old(Linked(i));
      forall k | 0 <= k < |was| && k != i
        ensures was[k].next == was[Succ(|was|, if k == Pred(|was|, i) then i else k)]
        ensures was[k].prev == was[Pred(|was|, if k == Succ(|was|, i) then i else k)]
      {
        assert old(Linked(k));
      }
      LinkedWithout(was, i);
    }

    /** LIST_INSERT_AFTER. */
    method InsertAfter(listelm: Node<T>, elm: Node<T>, ghost i: nat)
      requires Valid() && i < |nodes| && listelm == nodes[i] && elm !in nodes
      modifies this, nodes, elm
      ensures Valid() && nodes == old(nodes[..i + 1]) + [elm] + old(nodes[i + 1..])
      ensures forall n :: n in nodes ==> n.elem == old(n.elem)
    {
      hide NoDup;
      ghost var was := nodes;
      RingInverse(i);
      WithDistinct(nodes, i + 1, elm);
      elm.next := listelm.next;
      listelm.next := elm;
      elm.prev := listelm;
      elm.next.prev := elm;
      nodes := With(was, i + 1, elm);
      count := count + 1;
      LinkedIn(i, elm);
    }

    /** LIST_INSERT_BEFORE. Before the first element is behind the last one, and the first stays the first. */
    method InsertBefore(listelm: Node<T>, elm: Node<T>, ghost i: nat)
      requires Valid() && i < |nodes| && listelm == nodes[i] && elm !in nodes
      modifies this, nodes, elm
      ensures Valid() && nodes == if i == 0 then old(nodes) + [elm] else old(nodes[..i]) + [elm] + old(nodes[i..])
      ensures forall n :: n in nodes ==> n.elem == old(n.elem)
    {
      assert Linked(i);
      InsertAfter(listelm.prev, elm, Before(i));
      if i == 0 {
        assert old(nodes[..|nodes|]) + [elm] + old(nodes[|nodes|..]) == old(nodes) + [elm];
      }
    }

    /** LIST_INSERT_TAIL. */
    method InsertTail(elm: Node<T>)
      requires Valid() && elm !in nodes
      modifies this, nodes, elm
      ensures Valid() && nodes == old(nodes) + [elm]
      ensures forall n :: n in nodes ==> n.elem == old(n.elem)
    {
      if Empty() {
        InsertHead(elm);
      } else {
        InsertBefore(first, elm, 0);
      }
    }

    /** LIST_INSERT_HEAD. */
    method InsertHead(elm: Node<T>)
      requires Valid() && elm !in nodes
      modifies this, nodes, elm
      ensures Valid() && nodes == [elm] + old(nodes)
      ensures forall n :: n in nodes ==> n.elem == old(n.elem)
    {
      hide NoDup;
      TurnedDistinct(nodes, elm);
      if Empty() {
        first := elm;
        elm.prev := elm;
        elm.next := elm;
        count := count + 1;
        nodes := [elm];
      } else {
        ghost var was := nodes;
        InsertBefore(first, elm, 0);
        label Turned:
        first := elm;
        nodes := [elm] + was;
        forall k | 0 <= k < |nodes| ensures Linked(k) {
          assert old@Turned(Linked(if k == 0 then |was| else k - 1));
        }
      }
    }

    /** LIST_REMOVE. */
    method Remove(elm: Node<T>, ghost i: nat)
      requires Valid() && i < |nodes| && elm == nodes[i]
      modifies this, nodes
      ensures Valid() && nodes == old(nodes[..i]) + old(nodes[i + 1..])
      ensures forall n :: n in old(nodes) ==> n.elem == old(n.elem)
    {
      hide NoDup;
      ghost var was := nodes;
      RingInverse(i);
      OnlyAt(nodes, i);
      WithoutDistinct(nodes, i);
      if elm == first {
        first := Next(elm, i);
      }
      elm.prev.next := elm.next;
      elm.next.prev := elm.prev;
      count := count - 1;
      nodes := Without(was, i);
      LinkedRest(i);
    }

    /** LIST_REMOVE_HEAD. */
    method RemoveHead() returns (elm: Node?<T>)
      requires Valid()
      modifies this, nodes
      ensures Valid()
      ensures old(nodes) == [] ==> elm == null && nodes == []
      ensures old(nodes) != [] ==> elm == old(nodes[0]) && nodes == old(nodes[1..])
      ensures forall n :: n in old(nodes) ==> n.elem == old(n.elem)
    {
      elm := first;
      if elm != null {
        Remove(elm, 0);
      }
    }

    /** LIST_REMOVE_TAIL. */
    method RemoveTail() returns (elm: Node?<T>)
      requires Valid()
      modifies this, nodes
      ensures Valid()
      ensures old(nodes) == [] ==> elm == null && nodes == []
      ensures old(nodes) != [] ==> elm == old(nodes[|nodes| - 1]) && nodes == old(nodes[..|nodes| - 1])
      ensures forall n :: n in old(nodes) ==> n.elem == old(n.elem)
    {
      elm := null;
      if !Empty() {
        elm := Last();
        Remove(elm, |nodes| - 1);
      }
    }

    /** LIST_FOREACH visits each element once, in order. */
    method ForEach() returns (visited: seq<Node<T>>)
      requires Valid()
      ensures visited == nodes
    {
      visited := [];
      var elm := first;
      while elm != null
        invariant |visited| <= |nodes| && visited == nodes[..|visited|]
        invariant elm == if |visited| < |nodes| then nodes[|visited|] else null
        decreases |nodes| - |visited|
      {
        ghost var i := |visited|;
        visited := visited + [elm];
        elm := Next(elm, i);
      }
    }
  }
}
