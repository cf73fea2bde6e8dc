/**
 * The LinkedList<T> of GenericLinkedList.h: a singly linked list of nodes
 * reached from `head`, with push (prepend), erase (unlink the first node that
 * holds a value), operator= and the copy constructor (which copy by pushing,
 * and so reverse the order), and forward iterators.
 *
 * The ghost field `nodes` lists the nodes from the head, `Contents` their
 * data, and `Repr` the set of nodes the list owns.
 */
module GenericList {

  /** s back to front. */
  function Reverse<T>(s: seq<T>): seq<T>
    decreases |s|
  {
    if s == [] then [] else [s[|s| - 1]] + Reverse(s[..|s| - 1])
  }

  /** Reverse puts element k of s at place |s| - 1 - k. */
  lemma {:induction false} ReverseAt<T>(s: seq<T>, k: nat)
    requires k < |s|
    ensures |Reverse(s)| == |s| && Reverse(s)[|s| - 1 - k] == s[k]
    decreases |s|
  {
    var n := |s| - 1;
    if k < n {
      ReverseAt(s[..n], k);
    } else {
      ReverseLength(s[..n]);
    }
  }

  lemma {:induction false} ReverseLength<T>(s: seq<T>)
    ensures |Reverse(s)| == |s|
    decreases |s|
  {
    if s != [] {
      ReverseLength(s[..|s| - 1]);
    }
  }

  /** Copying twice (operator= of a copy) gives the original order back. */
  lemma ReverseReverse<T>(s: seq<T>)
    ensures Reverse(Reverse(s)) == s
  {
    ReverseLength(s);
    ReverseLength(Reverse(s));
    forall k | 0 <= k < |s|
      ensures Reverse(Reverse(s))[k] == s[k]
    {
      ReverseAt(s, k);
      ReverseAt(Reverse(s), |s| - 1 - k);
    }
  }

  /** s without its first occurrence of x, when there is one. */
  function RemoveFirst<T(==)>(s: seq<T>, x: T): seq<T>
    decreases |s|
  {
    if s == [] then []
    else if s[0] == x then s[1..]
    else [s[0]] + RemoveFirst(s[1..], x)
  }

  /** When the first x is at k, RemoveFirst cuts out exactly position k. */
  lemma {:induction false} RemoveFirstAt<T>(s: seq<T>, x: T, k: nat)
    requires k < |s| && s[k] == x
    requires forall p | 0 <= p < k :: s[p] != x
    ensures RemoveFirst(s, x) == s[..k] + s[k + 1..]
    decreases k
  {
    if k > 0 {
      RemoveFirstAt(s[1..], x, k - 1);
      assert s[..k] == [s[0]] + s[1..][..k - 1];
      assert s[k + 1..] == s[1..][k..];
    }
  }

  /** Without an x, RemoveFirst changes nothing. */
  lemma {:induction false} RemoveFirstAbsent<T>(s: seq<T>, x: T)
    requires forall p | 0 <= p < |s| :: s[p] != x
    ensures RemoveFirst(s, x) == s
    decreases |s|
  {
    if s != [] {
      RemoveFirstAbsent(s[1..], x);
      assert s == [s[0]] + s[1..];
    }
  }

  /** RemoveFirst takes away exactly one x when there is one, and nothing else. */
  lemma {:induction false} RemoveFirstMultiset<T>(s: seq<T>, x: T)
    ensures multiset(RemoveFirst(s, x)) == if x in s then multiset(s) - multiset{x} else multiset(s)
    decreases |s|
  {
    if s != [] {
      assert s == [s[0]] + s[1..];
      RemoveFirstMultiset(s[1..], x);
    }
  }

  class Node<T> {
    var data: T
    var next: Node?<T>

    constructor (data: T, next: Node?<T>)
      ensures this.data == data && this.next == next
    {
      this.data := data;
      this.next := next;
    }
  }

  class LinkedList<T(==)> {
    var head: Node?<T>
    ghost var nodes: seq<Node<T>>
    ghost var Contents: seq<T>
    ghost var Repr: set<Node<T>>

    /**
     * head starts the chain nodes[0] -> nodes[1] -> ... -> null, the nodes
     * are distinct and all in Repr, and they hold Contents in order.
     */
    ghost predicate Valid()
      reads this, Repr
    {
      && |nodes| == |Contents|
      && (forall i | 0 <= i < |nodes| :: nodes[i] in Repr)
      && head == (if nodes == [] then null else nodes[0])
      && (forall i | 0 <= i < |nodes| :: nodes[i].data == Contents[i])
      && (forall i | 0 <= i < |nodes| - 1 :: nodes[i].next == nodes[i + 1])
      && (nodes != [] ==> nodes[|nodes| - 1].next == null)
      && (forall i, j | 0 <= i < j < |nodes| :: nodes[i] != nodes[j])
    }

    /** The default constructor: the empty list. */
    constructor ()
      ensures Valid() && Contents == [] && Repr == {}
    {
      head := null;
      nodes := [];
      Contents := [];
      Repr := {};
    }

    /** The copy constructor: operator= applied to a fresh, empty list. */
    constructor Copy(other: LinkedList<T>)
      requires other.Valid()
      ensures Valid() && fresh(Repr)
      ensures Contents == Reverse(other.Contents)
      ensures other.Valid() && other.Contents == old(other.Contents)
    {
      head := null;
      nodes := [];
      Contents := [];
      Repr := {};
      new;
      Assign(other);
    }

    /** push: a new node holding x becomes the head; the rest is unchanged. */
    method Push(x: T)
      requires Valid()
      modifies this
      ensures Valid() && Contents == [x] + old(Contents)
      ensures old(Repr) <= Repr && fresh(Repr - old(Repr))
    {
      var n := new Node(x, head);
      head := n;
      nodes := [n] + nodes;
      Contents := [x] + Contents;
      Repr := Repr + {n};
    }

    /**
     * erase: when the head holds x, the head is unlinked; otherwise the first
     * node holding x is unlinked from its predecessor, and with no such node
     * nothing changes. The list must not be empty: the head is read first.
     */
    method Erase(x: T)
      requires Valid() && Contents != []
      modifies this, Repr
      ensures Valid() && Contents == RemoveFirst(old(Contents), x)
      ensures Repr <= old(Repr)
    {
      var cur := head;
      if cur.data == x {
        ghost var ns := nodes;
        assert cur == ns[0] && cur.next == if |ns| > 1 then ns[1] else null;
        head := cur.next;
        nodes := ns[1..];
        Contents := Contents[1..];
        Repr := Repr - {cur};
        forall i | 0 <= i < |nodes|
          ensures nodes[i].next == if i + 1 < |nodes| then nodes[i + 1] else null
        {
          assert nodes[i] == ns[i + 1];
          assert ns[i + 1].next == if i + 2 < |ns| then ns[i + 2] else null;
        }
        return;
      }
      var last: Node?<T> := null;
      ghost var k := 0;
      while cur != null
        invariant Valid() && nodes == old(nodes) && Contents == old(Contents) && Repr == old(Repr)
        invariant 0 <= k <= |nodes|
        invariant cur == if k < |nodes| then nodes[k] else null
        invariant last == if k == 0 then null else nodes[k - 1]
        invariant forall p | 0 <= p < k :: Contents[p] != x
        decreases |nodes| - k
      {
        if cur.data == x && last != null {
          Unlink(last, cur, k);
          RemoveFirstAt(old(Contents), x, k);
          return;
        }
        last := cur;
        cur := cur.next;
        k := k + 1;
      }
      RemoveFirstAbsent(Contents, x);
    }

    /** `last->next_ = cur->next_`: node k leaves the chain, the others keep their order. */
    method Unlink(last: Node<T>, cur: Node<T>, ghost k: nat)
      requires Valid() && 0 < k < |nodes| && last == nodes[k - 1] && cur == nodes[k]
      modifies this, last
      ensures Valid()
      ensures nodes == old(nodes[..k] + nodes[k + 1..])
      ensures Contents == old(Contents[..k] + Contents[k + 1..])
      ensures Repr == old(Repr) - {old(nodes[k])}
    {
      ghost var ns, cs := nodes, Contents;
      assert cur.next == if k + 1 < |ns| then ns[k + 1] else null;
      last.next := cur.next;
      nodes := ns[..k] + ns[k + 1..];
      Contents := cs[..k] + cs[k + 1..];
      Repr := Repr - {cur};
      forall i | 0 <= i < |nodes|
        ensures nodes[i] == ns[if i < k then i else i + 1]
        ensures nodes[i] in Repr
        ensures nodes[i].data == Contents[i]
        ensures nodes[i].next == if i + 1 < |nodes| then nodes[i + 1] else null
      {
        assert ns[if i < k then i else i + 1] != cur;
        if i < k - 1 {
          assert nodes[i] != last;
          assert old(ns[i].next) == ns[i + 1];
        } else if i >= k {
          assert ns[i + 1] != last;
          assert old(ns[i + 1].next) == if i + 2 < |ns| then ns[i + 2] else null;
        }
      }
      forall i, j | 0 <= i < j < |nodes|
        ensures nodes[i] != nodes[j]
      {
        assert nodes[i] == ns[if i < k then i else i + 1] && nodes[j] == ns[if j < k then j else j + 1];
      }
    }

    /**
     * operator=: assigning a list to itself changes nothing; otherwise the
     * old nodes are dropped and rhs's elements are pushed from its head on,
     * which leaves them in reverse order. rhs is unchanged.
     */
    method Assign(rhs: LinkedList<T>)
      requires Valid() && rhs.Valid()
      modifies this
      ensures Valid() && rhs.Valid() && rhs.Contents == old(rhs.Contents)
      ensures Contents == if rhs == this then old(Contents) else Reverse(old(rhs.Contents))
      ensures rhs != this ==> fresh(Repr)
    {
      if rhs == this {
        return;
      }
      head := null;
      nodes := [];
      Contents := [];
      Repr := {};
      PushAll(rhs);
    }

    /** The loop of operator=: rhs's elements pushed from its head on, onto an empty list. */
    method PushAll(rhs: LinkedList<T>)
      requires Valid() && rhs.Valid() && rhs != this && Contents == [] && Repr == {}
      modifies this
      ensures Valid() && fresh(Repr) && Contents == Reverse(rhs.Contents)
    {
      ghost var rn, rc := rhs.nodes, rhs.Contents;
      var cur := rhs.head;
      ghost var k := 0;
      assert rc[..0] == [];
      while cur != null
        invariant Valid() && fresh(Repr)
        invariant 0 <= k <= |rn|
        invariant cur == if k < |rn| then rn[k] else null
        invariant Contents == Reverse(rc[..k])
        decreases |rn| - k
      {
        assert cur.data == rc[k];
        assert cur.next == if k + 1 < |rn| then rn[k + 1] else null;
        Push(cur.data);
        assert rc[..k + 1][..k] == rc[..k];
        cur := cur.next;
        k := k + 1;
      }
      assert rc[..k] == rc;
    }

    /** begin(): an iterator at the head. */
    method Begin() returns (it: Iterator<T>)
      requires Valid()
      ensures fresh(it) && it.list == this && it.Valid() && it.pos == 0
    {
      it := new Iterator(this, head, 0);
    }

    /** end(): the iterator holding null. */
    method End() returns (it: Iterator<T>)
      requires Valid()
      ensures fresh(it) && it.list == this && it.Valid() && it.pos == |Contents|
    {
      it := new Iterator(this, null, |nodes|);
    }
  }

  /**
   * Iterator and ConstIterator (the two differ only in what operator* hands
   * out): a node reference, here with its ghost place pos in the list.
   */
  class Iterator<T(==)> {
    ghost const list: LinkedList<T>
    var node: Node?<T>
    ghost var pos: nat

    ghost predicate Valid()
      reads this, list, list.Repr
    {
      list.Valid() && pos <= |list.nodes| && node == if pos < |list.nodes| then list.nodes[pos] else null
    }

    constructor (list: LinkedList<T>, node: Node?<T>, ghost pos: nat)
      requires list.Valid() && pos <= |list.nodes|
      requires node == if pos < |list.nodes| then list.nodes[pos] else null
      ensures this.list == list && this.pos == pos && Valid()
    {
      this.list := list;
      this.node := node;
      this.pos := pos;
    }

    /** operator++: node_ = node_->next_; not defined at the end. */
    method Next()
      requires Valid() && pos < |list.Contents|
      modifies this
      ensures Valid() && pos == old(pos) + 1
    {
      assert node.next == if pos + 1 < |list.nodes| then list.nodes[pos + 1] else null;
      node := node.next;
      pos := pos + 1;
    }

    /** operator*: the element at the iterator's place. */
    function Get(): (x: T)
      reads this, list, list.Repr
      requires Valid() && pos < |list.Contents|
      ensures x == list.Contents[pos]
    {
      node.data
    }

    /** operator==: the same node, that is, the same place in the same list. */
    function Equals(other: Iterator<T>): (r: bool)
      reads this, list, list.Repr, other
      requires Valid() && other.Valid() && other.list == list
      ensures r <==> pos == other.pos
    {
      node == other.node
    }
  }

  /** The range-for loop over a list: its elements from the head on. */
  method Elements<T(==)>(l: LinkedList<T>) returns (s: seq<T>)
    requires l.Valid()
    ensures s == l.Contents
  {
    var it := l.Begin();
    var end := l.End();
    s := [];
    while !it.Equals(end)
      invariant it.Valid() && end.Valid() && it.list == l && end.list == l
      invariant end.pos == |l.Contents| && it.pos <= |l.Contents|
      invariant s == l.Contents[..it.pos]
      decreases |l.Contents| - it.pos
    {
      assert l.Contents[..it.pos + 1] == s + [it.Get()];
      s := s + [it.Get()];
      it.Next();
    }
    assert l.Contents[..it.pos] == l.Contents;
  }

  /** Erasing 9, 5 and 0, in that order, from 9 8 ... 0. */
  lemma ScenarioErasures()
    ensures RemoveFirst([9, 8, 7, 6, 5, 4, 3, 2, 1, 0], 9) == [8, 7, 6, 5, 4, 3, 2, 1, 0]
    ensures RemoveFirst([8, 7, 6, 5, 4, 3, 2, 1, 0], 5) == [8, 7, 6, 4, 3, 2, 1, 0]
    ensures RemoveFirst([8, 7, 6, 4, 3, 2, 1, 0], 0) == [8, 7, 6, 4, 3, 2, 1]
  {
    EraseMiddleScenario();
    EraseLastScenario();
  }

  /** 5 sits in the middle of 8 7 6 5 4 3 2 1 0, at place 3. */
  lemma EraseMiddleScenario()
    ensures RemoveFirst([8, 7, 6, 5, 4, 3, 2, 1, 0], 5) == [8, 7, 6, 4, 3, 2, 1, 0]
  {
    var s: seq<int> := [8, 7, 6, 5, 4, 3, 2, 1, 0];
    RemoveFirstAt(s, 5, 3);
    assert s[..3] + s[4..] == [8, 7, 6, 4, 3, 2, 1, 0];
  }

  /** 0 is the last of 8 7 6 4 3 2 1 0, at place 7. */
  lemma EraseLastScenario()
    ensures RemoveFirst([8, 7, 6, 4, 3, 2, 1, 0], 0) == [8, 7, 6, 4, 3, 2, 1]
  {
    var t: seq<int> := [8, 7, 6, 4, 3, 2, 1, 0];
    assert forall p | 0 <= p < 7 :: t[p] != 0;
    RemoveFirstAt(t, 0, 7);
    assert t[..7] + t[8..] == [8, 7, 6, 4, 3, 2, 1];
  }

  /** The copies of 8 7 6 4 3 2 1 and of 5 8 7 6 4 3 2 1. */
  lemma ScenarioReversals()
    ensures Reverse([8, 7, 6, 4, 3, 2, 1]) == [1, 2, 3, 4, 6, 7, 8]
    ensures Reverse([5, 8, 7, 6, 4, 3, 2, 1]) == [1, 2, 3, 4, 6, 7, 8, 5]
  {
    var s: seq<int> := [8, 7, 6, 4, 3, 2, 1];
    ReverseLength(s);
    forall k | 0 <= k < 7
      ensures Reverse(s)[k] == [1, 2, 3, 4, 6, 7, 8][k]
    {
      ReverseAt(s, 6 - k);
    }
    var t: seq<int> := [5, 8, 7, 6, 4, 3, 2, 1];
    ReverseLength(t);
    forall k | 0 <= k < 8
      ensures Reverse(t)[k] == [1, 2, 3, 4, 6, 7, 8, 5][k]
    {
      ReverseAt(t, 7 - k);
    }
  }

  /**
   * The first calls of mainGenericLinkedList.cpp: pushing 0..9 gives
   * 9 8 ... 0 (the loop of push), and erasing 9 (the head), 5 (a middle
   * node) and 0 (the last node) leaves 8 7 6 4 3 2 1.
   */
  method PushThenErase() returns (list: LinkedList<int>)
    ensures fresh(list) && fresh(list.Repr) && list.Valid()
    ensures list.Contents == [8, 7, 6, 4, 3, 2, 1]
  {
    list := new LinkedList<int>();
    var i := 0;
    while i < 10
      invariant 0 <= i <= 10 && list.Valid() && fresh(list) && fresh(list.Repr)
      invariant list.Contents == seq(i, p requires 0 <= p < i => i - 1 - p)
    {
      list.Push(i);
      i := i + 1;
    }
    assert list.Contents == [9, 8, 7, 6, 5, 4, 3, 2, 1, 0];
    ScenarioErasures();
    list.Erase(9);
    list.Erase(5);
    list.Erase(0);
  }

  /**
   * The rest of mainGenericLinkedList.cpp: the list reads 8 7 6 4 3 2 1;
   * the copy constructor gives 1 2 3 4 6 7 8; after pushing 5 onto the
   * first list, assigning it to the copy gives 1 2 3 4 6 7 8 5.
   */
  method ListScenario() returns (l: seq<int>, copied: seq<int>, reassigned: seq<int>)
    ensures l == [8, 7, 6, 4, 3, 2, 1]
    ensures copied == [1, 2, 3, 4, 6, 7, 8]
    ensures reassigned == [1, 2, 3, 4, 6, 7, 8, 5]
  {
    var list := PushThenErase();
    ScenarioReversals();
    l := Elements(list);
    var copy := new LinkedList.Copy(list);
    copied := Elements(copy);
    reassigned := PushThenAssign(list, copy);
  }

  /** `list.push(5); copy = list;`, then the elements of copy. */
  method PushThenAssign(list: LinkedList<int>, copy: LinkedList<int>) returns (reassigned: seq<int>)
    requires list.Valid() && copy.Valid() && list != copy
    requires list.Contents == [8, 7, 6, 4, 3, 2, 1]
    modifies list, copy
    ensures reassigned == [1, 2, 3, 4, 6, 7, 8, 5]
  {
    ScenarioReversals();
    list.Push(5);
    assert list.Contents == [5, 8, 7, 6, 4, 3, 2, 1];
    assert copy.Valid();
    copy.Assign(list);
    reassigned := Elements(copy);
  }
}
