/** Intrusive circular doubly linked lists: the operations on their links, against sequences.
    A circle is the sequence of its nodes from the head on; lists share no node. */
module IntrusiveList {
  import TransmitControl

  /** An element of a driver's descriptor ring: its links and its descriptor. The head of a list
      is a node whose descriptor is not used. */
  class Node {
    var next: Node?
    var prev: Node?
    const id: nat
    var enabled: bool
    var buffer: seq<nat>
    var control: TransmitControl.Control

    constructor (id: nat)
      ensures this.id == id && buffer == []
    {
      this.id := id;
      buffer := [];
    }
  }

  /** All nodes differ. */
  predicate Distinct(r: seq<Node>) {
    forall i, j :: 0 <= i < j < |r| ==> r[i] != r[j]
  }

  predicate Linked(a: Node, b: Node)
    reads a`next, b`prev
  {
    a.next == b && b.prev == a
  }

  /** The nodes of r, in order, are linked in a circle; the first is the head of the list. */
  predicate Circle(r: seq<Node>)
    reads r`next, r`prev
  {
    && r != [] && Distinct(r)
    && (forall i :: 0 <= i < |r| - 1 ==> Linked(r[i], r[i + 1]))
    && Linked(r[|r| - 1], r[0])
  }

  /** INIT_LIST_HEAD. */
  method InitHead(head: Node)
    modifies head`next, head`prev
    ensures Circle([head])
  {
    head.next := head;
    head.prev := head;
  }

  /** __list_add: between prev and next, which are neighbours number i and i + 1 of a circle. */
  method InsertBetween(node: Node, prev: Node, next: Node, ghost r: seq<Node>, ghost i: nat)
    requires Circle(r) && i < |r| && node !in r
    requires prev == r[i] && next == r[if i + 1 < |r| then i + 1 else 0]
    modifies node`next, node`prev, prev`next, next`prev
    ensures Circle(r[..i + 1] + [node] + r[i + 1..])
  {
    next.prev := node;
    node.next := next;
    node.prev := prev;
    prev.next := node;
    ghost var r' := r[..i + 1] + [node] + r[i + 1..];
    assert Linked(prev, node) && Linked(node, next);
    forall k | 0 <= k < |r'| - 1 ensures Linked(r'[k], r'[k + 1]) {
      if k < i {
        assert Linked(r[k], r[k + 1]);
      } else if k > i + 1 {
        assert Linked(r[k - 1], r[k]);
      }
    }
  }

  /** list_add_tail. */
  method AddTail(node: Node, head: Node, ghost r: seq<Node>)
    requires Circle(r) && head == r[0] && node !in r
    modifies node`next, node`prev, r`next, r`prev
    ensures Circle(r + [node])
  {
    InsertBetween(node, head.prev, head, r, |r| - 1);
    assert r[..|r| - 1 + 1] + [node] + r[|r| - 1 + 1..] == r + [node];
  }

  function Without<T>(r: seq<T>, k: nat): seq<T>
    requires k < |r|
  {
    r[..k] + r[k + 1..]
  }

  /** __list_del: prev and next are the neighbours of node number k, which is not the head. */
  method Unlink(prev: Node, next: Node, ghost r: seq<Node>, ghost k: nat)
    requires Circle(r) && 1 <= k < |r| && prev == r[k - 1] && next == r[if k + 1 < |r| then k + 1 else 0]
    modifies next`prev, prev`next
    ensures Circle(Without(r, k))
  {
    next.prev := prev;
    prev.next := next;
    ghost var r' := Without(r, k);
    forall i | 0 <= i < |r'| - 1 ensures Linked(r'[i], r'[i + 1]) {
      if i < k - 1 {
        assert Linked(r[i], r[i + 1]);
      } else if i >= k {
        assert Linked(r[i + 1], r[i + 2]);
      }
    }
  }

  /** The neighbours of node number k. */
  lemma Neighbours(r: seq<Node>, k: nat)
    requires Circle(r) && k < |r|
    ensures Distinct(r) && r[k].prev == r[if k == 0 then |r| - 1 else k - 1]
    ensures r[k].next == r[if k + 1 < |r| then k + 1 else 0]
  {
    if k > 0 {
      assert Linked(r[k - 1], r[k]);
    }
    NextOf(r, k);
  }

  lemma NextOf(r: seq<Node>, k: nat)
    requires Circle(r) && k < |r|
    ensures r[k].next == r[if k + 1 < |r| then k + 1 else 0]
  {
    if k + 1 < |r| {
      assert Linked(r[k], r[k + 1]);
    }
  }

  /** Taking a node out leaves the others. */
  lemma WithoutIs(r: seq<Node>, k: nat)
    requires Distinct(r) && k < |r|
    ensures r[k] !in Without(r, k) && Distinct(Without(r, k))
    ensures forall m :: m in r <==> m == r[k] || m in Without(r, k)
  {
    forall m | m in r && m != r[k] ensures m in Without(r, k) {
      var i :| 0 <= i < |r| && r[i] == m;
      assert Without(r, k)[if i < k then i else i - 1] == m;
    }
  }

  twostate lemma CircleKept(r: seq<Node>)
    requires old(Circle(r)) && forall m <- r :: m.next == old(m.next) && m.prev == old(m.prev)
    ensures Circle(r)
  {
    forall i | 0 <= i < |r| - 1 ensures Linked(r[i], r[i + 1]) {
      assert old(Linked(r[i], r[i + 1]));
    }
  }

  /** list_move_tail: to the end of another list or of its own. */
  method MoveTail(node: Node, head: Node, ghost from: seq<Node>, ghost k: nat, ghost to: seq<Node>)
    requires Circle(from) && 1 <= k < |from| && node == from[k]
    requires Circle(to) && head == to[0] && (to == from || forall m :: m in from ==> m !in to)
    modifies from`next, from`prev, to`next, to`prev
    ensures if to == from then Circle(Without(from, k) + [node]) else Circle(Without(from, k)) && Circle(to + [node])
  {
    hide Circle, Distinct;
    Neighbours(from, k);
    WithoutIs(from, k);
    assert from[k] in from && node.prev in from && node.next in from;
    Unlink(node.prev, node.next, from, k);
    ghost var rest := Without(from, k);
    ghost var target := if to == from then rest else to;
    assert Circle(target) && node !in target;
    assert to != from ==> forall m :: m in rest ==> m != node && m !in to;
    label linked:
    AddTail(node, head, target);
    if to != from {
      CircleKept@linked(rest);
    }
  }

  /** list_replace: node takes the place of old, number k of its circle, which may be alone there. */
  method Replace(old_: Node, node: Node, ghost r: seq<Node>, ghost k: nat)
    requires Circle(r) && k < |r| && old_ == r[k] && node !in r
    modifies node`next, node`prev, r`next, r`prev
    ensures Circle(r[k := node])
  {
    Neighbours(r, k);
    node.next := old_.next;
    node.next.prev := node;
    node.prev := old_.prev;
    node.prev.next := node;
    ghost var r' := r[k := node];
    forall i | 0 <= i < |r'| - 1 ensures Linked(r'[i], r'[i + 1]) {
      assert old(Linked(r[i], r[i + 1]));
    }
  }

  /** list_del. */
  method Delete(node: Node, ghost r: seq<Node>, ghost k: nat)
    requires Circle(r) && 1 <= k < |r| && node == r[k]
    modifies r`next, r`prev
    ensures Circle(Without(r, k)) && node.next == null && node.prev == null
  {
    Neighbours(r, k);
    Unlink(node.prev, node.next, r, k);
    node.next := null;
    node.prev := null;
  }

  /** The list entry number j is taken out of, and the list in which it replaces entry number i. */
  ghost function Replaced(r1: seq<Node>, i: nat, r2: seq<Node>, j: nat): seq<Node>
    requires i < |r1| && j < |r2| && (r1 == r2 ==> i != j)
  {
    if r1 != r2 then r1[i := r2[j]] else Without(r1, j)[(if j < i then i - 1 else i) := r1[j]]
  }

  predicate Entries(r1: seq<Node>, i: nat, r2: seq<Node>, j: nat)
    reads r1`next, r1`prev, r2`next, r2`prev
  {
    && Circle(r1) && 1 <= i < |r1| && Circle(r2) && 1 <= j < |r2|
    && if r1 == r2 then i != j else forall m :: m in r1 ==> m !in r2
  }

  /** The first two steps of list_swap: entry2 leaves its place for that of entry1. */
  method TakeOver(entry1: Node, entry2: Node, ghost r1: seq<Node>, ghost i: nat, ghost r2: seq<Node>, ghost j: nat)
    requires Entries(r1, i, r2, j) && entry1 == r1[i] && entry2 == r2[j]
    modifies r1`next, r1`prev, r2`next, r2`prev
    ensures Circle(Replaced(r1, i, r2, j)) && (r1 != r2 ==> Circle(Without(r2, j)))
  {
    hide Circle, Distinct, Replaced, Without;
    ghost var target := if r1 == r2 then Without(r2, j) else r1;
    ghost var at := if r1 == r2 && j < i then i - 1 else i;
    TargetIs(r1, i, r2, j, target, at);
    assert entry2 in r2;
    DeleteBeside(entry2, r2, j, r1);
    label deleted:
    Replace(entry1, entry2, target, at);
    if r1 != r2 {
      CircleKept@deleted(Without(r2, j));
    }
  }

  lemma WithoutIsPart(r: seq<Node>, k: nat)
    requires k < |r|
    ensures |Without(r, k)| == |r| - 1 && forall m :: m in Without(r, k) ==> m in r
  {
  }

  lemma TargetIs(r1: seq<Node>, i: nat, r2: seq<Node>, j: nat, target: seq<Node>, at: nat)
    requires Entries(r1, i, r2, j) && at == (if r1 == r2 && j < i then i - 1 else i)
    requires target == if r1 == r2 then Without(r2, j) else r1
    ensures at < |target| && Replaced(r1, i, r2, j) == target[at := r2[j]] && target[at] == r1[i] && r2[j] !in target
    ensures forall k :: 0 <= k < |target| ==> target[k] in r1
    ensures r1 != r2 ==> forall m <- Without(r2, j) :: m !in target && m != r2[j]
  {
    hide Distinct, Without, Replaced;
    WithoutIsPart(r2, j);
    if r1 == r2 {
      SwappedIs(r1, i, j);
    } else {
      KeptApart(r1, i, r2, j);
    }
  }

  method DeleteBeside(node: Node, ghost r: seq<Node>, ghost k: nat, ghost other: seq<Node>)
    requires Circle(r) && 1 <= k < |r| && node == r[k] && Circle(other)
    requires other != r ==> forall m :: m in other ==> m !in r
    modifies r`next, r`prev
    ensures Circle(Without(r, k)) && (other != r ==> Circle(other))
  {
    hide Circle, Distinct;
    label start:
    Delete(node, r, k);
    if other != r {
      CircleKept@start(other);
    }
  }

  /** list_swap: two entries, of one list or of two, change places, neighbours or not. */
  method Swap(entry1: Node, entry2: Node, ghost r1: seq<Node>, ghost i: nat, ghost r2: seq<Node>, ghost j: nat)
    requires Entries(r1, i, r2, j) && entry1 == r1[i] && entry2 == r2[j]
    modifies r1`next, r1`prev, r2`next, r2`prev
    ensures if r1 == r2 then Circle(r1[i := entry2][j := entry1])
            else Circle(r1[i := entry2]) && Circle(r2[j := entry1])
  {
    hide Circle, Distinct, Replaced, Without;
    ghost var circle := if r1 == r2 then Replaced(r1, i, r2, j) else Without(r2, j);
    PlaceIs(r1, i, r2, j, circle);
    assert r1[i] in r1;
    var pos := entry2.prev;
    TakeOver(entry1, entry2, r1, i, r2, j);
    if pos == entry1 {
      pos := entry2;
    }
    NextOf(circle, j - 1);
    label replaced:
    InsertBetween(entry1, pos, pos.next, circle, j - 1);
    if r1 != r2 {
      CircleKept@replaced(Replaced(r1, i, r2, j));
    }
  }

  /** The place an entry is put back to. */
  lemma PlaceIs(r1: seq<Node>, i: nat, r2: seq<Node>, j: nat, circle: seq<Node>)
    requires Entries(r1, i, r2, j)
    requires circle == if r1 == r2 then Replaced(r1, i, r2, j) else Without(r2, j)
    ensures r2[j].prev == r2[j - 1] && j - 1 < |circle| && r1[i] !in circle
    ensures circle[j - 1] == if r2[j - 1] == r1[i] then r2[j] else r2[j - 1]
    ensures circle[..j] + [r1[i]] + circle[j..] == if r1 == r2 then r1[i := r2[j]][j := r1[i]] else r2[j := r1[i]]
    ensures forall k :: 0 <= k < |circle| ==> circle[k] in r2
    ensures r1 != r2 ==> Replaced(r1, i, r2, j) == r1[i := r2[j]]
    ensures r1 != r2 ==> forall m <- Replaced(r1, i, r2, j) :: m !in circle && m != r1[i]
  {
    hide Distinct, Replaced;
    Neighbours(r2, j);
    if r1 == r2 {
      SwappedIs(r1, i, j);
    } else {
      KeptApart(r1, i, r2, j);
    }
  }

  /** The nodes of two lists after an entry of each was taken. */
  lemma KeptApart(r1: seq<Node>, i: nat, r2: seq<Node>, j: nat)
    requires r1 != r2 && Distinct(r1) && Distinct(r2) && 1 <= i < |r1| && 1 <= j < |r2|
    requires forall m :: m in r1 ==> m !in r2
    ensures var rest, replaced := Without(r2, j), Replaced(r1, i, r2, j);
            && replaced == r1[i := r2[j]]
            && (forall m :: m in rest ==> m !in replaced && m != r1[i] && m != r2[j] && m !in r1 && m in r2)
            && (forall m :: m in replaced ==> m in r1 || m == r2[j])
            && r2[j] !in r1 && r1[i] !in replaced && r1[i] !in rest
            && rest[j - 1] == r2[j - 1] && r2[j - 1] != r1[i]
            && rest[..j] + [r1[i]] + rest[j..] == r2[j := r1[i]]
  {
    WithoutIs(r2, j);
    assert r2[j] in r2 && r2[j - 1] in r2 && r1[i] in r1;
  }

  /** The order after the steps of a swap within a list. */
  lemma SwappedIs(r: seq<Node>, i: nat, j: nat)
    requires Distinct(r) && 1 <= i < |r| && 1 <= j < |r| && i != j
    ensures var without, replaced := Without(r, j), Replaced(r, i, r, j);
            var at := if j < i then i - 1 else i;
            && replaced == without[at := r[j]] && without[at] == r[i] && r[j] !in without
            && (r[j - 1] == r[i] <==> i == j - 1)
            && replaced[j - 1] == (if i == j - 1 then r[j] else r[j - 1])
            && r[i] !in replaced
            && replaced[..j] + [r[i]] + replaced[j..] == r[i := r[j]][j := r[i]]
            && forall m :: m in replaced ==> m in r
  {
    SwappedOrder(r, i, j);
    SwappedNodes(r, i, j);
  }

  lemma SwappedOrder(r: seq<Node>, i: nat, j: nat)
    requires 1 <= i < |r| && 1 <= j < |r| && i != j
    ensures var without, replaced := Without(r, j), Replaced(r, i, r, j);
            && without[if j < i then i - 1 else i] == r[i]
            && replaced[j - 1] == (if i == j - 1 then r[j] else r[j - 1])
            && replaced[..j] + [r[i]] + replaced[j..] == r[i := r[j]][j := r[i]]
  {
  }

  lemma SwappedNodes(r: seq<Node>, i: nat, j: nat)
    requires Distinct(r) && 1 <= i < |r| && 1 <= j < |r| && i != j
    ensures r[j] !in Without(r, j) && r[i] !in Replaced(r, i, r, j) && (r[j - 1] == r[i] <==> i == j - 1)
    ensures forall m :: m in Replaced(r, i, r, j) ==> m in r
  {
  }
}
