/**
 * The queue of strings: a circular doubly-linked list threaded through a
 * sentinel node. A handle to the queue owns the sentinel; every other node
 * of the ring is an element carrying its own string.
 *
 * The operations are written as the C functions they model, taking the
 * handle as their first argument; a `Queue?` handle stands for a pointer
 * that the C function checks for NULL.
 */
module LinkedQueue {
  import opened CStrings

  /**
   * One link of the ring. An element node owns its `value`; the sentinel's
   * `value` is never read. A freshly allocated node has no links yet.
   */
  class Node {
    const value: CString
    var next: Node?
    var prev: Node?

    constructor (v: CString)
      ensures value == v && next == null && prev == null
    {
      value := v;
      next, prev := null, null;
    }
  }

  /** The values carried by a sequence of element nodes, in order. */
  function Values(ns: seq<Node>): (r: seq<CString>)
    ensures |r| == |ns|
  {
    if ns == [] then [] else [ns[0].value] + Values(ns[1..])
  }

  /** Reading the values of two runs of nodes one after the other reads the values of their concatenation. */
  lemma {:induction false} ValuesAppend(a: seq<Node>, b: seq<Node>)
    ensures Values(a + b) == Values(a) + Values(b)
    decreases |a|
  {
    if a == [] {
      assert a + b == b;
    } else {
      ValuesAppend(a[1..], b);
      assert (a + b)[1..] == a[1..] + b;
    }
  }

  /** The values of a non-empty run are those of all but its last node, then the last node's. */
  lemma {:induction false} ValuesLast(ns: seq<Node>)
    requires ns != []
    ensures Values(ns) == Values(ns[..|ns| - 1]) + [ns[|ns| - 1].value]
  {
    var last := |ns| - 1;
    assert ns == ns[..last] + [ns[last]];
    ValuesAppend(ns[..last], [ns[last]]);
  }

  /** Dropping node `k` from a run drops exactly value `k` from its values. */
  lemma {:induction false} ValuesRemoveAt(ns: seq<Node>, k: int)
    requires 0 <= k < |ns|
    ensures Values(ns)[k] == ns[k].value
    ensures Values(ns[..k] + ns[k + 1..]) == Values(ns)[..k] + Values(ns)[k + 1..]
  {
    var front, back := ns[..k], ns[k + 1..];
    var vf, vb := Values(front), Values(back);
    assert ns == front + ([ns[k]] + back);
    assert ([ns[k]] + back)[1..] == back;
    ValuesAppend(front, [ns[k]] + back);
    ValuesAppend(front, back);
    assert Values(ns) == vf + ([ns[k].value] + vb);
    assert Values(ns)[..k] == vf;
    assert Values(ns)[k + 1..] == vb;
  }

  /** The ring neighbour after element `i` of `ns`: the next element, or the sentinel after the last. */
  function After(ns: seq<Node>, sentinel: Node, i: int): Node
    requires 0 <= i < |ns|
  {
    if i + 1 < |ns| then ns[i + 1] else sentinel
  }

  /** The ring neighbour before element `i` of `ns`: the previous element, or the sentinel before the first. */
  function Before(ns: seq<Node>, sentinel: Node, i: int): Node
    requires 0 <= i < |ns|
  {
    if i == 0 then sentinel else ns[i - 1]
  }

  /**
   * A queue context: the sentinel `head` (the context's `chain`), the
   * context's cached size and identifier, and, as its abstraction, the
   * element nodes in ring order from `head.next` round to `head.prev`.
   * `Repr` is the set of objects the queue owns.
   */
  class Queue {
    const head: Node
    const size: int
    const id: int
    ghost var nodes: seq<Node>
    ghost var Repr: set<object>

    /**
     * The ring is well formed: the queue owns its sentinel and its elements
     * (and nothing but nodes besides itself), the sentinel is not an element,
     * and the `next`/`prev` links walk exactly the ring
     * head, nodes[0], ..., nodes[|nodes| - 1], head in both directions.
     */
    ghost predicate Valid()
      reads this, Repr
    {
      && this in Repr
      && head in Repr
      && (forall o: object :: o in Repr ==> o == this || o is Node)
      && (forall i :: 0 <= i < |nodes| ==> nodes[i] in Repr)
      && head !in nodes
      && head.next == (if nodes == [] then head else nodes[0])
      && head.prev == (if nodes == [] then head else nodes[|nodes| - 1])
      && (forall i {:trigger nodes[i].next} :: 0 <= i < |nodes| ==> nodes[i].next == After(nodes, head, i))
      && (forall i {:trigger nodes[i].prev} :: 0 <= i < |nodes| ==> nodes[i].prev == Before(nodes, head, i))
    }

    /** The strings in the queue, from head to tail. */
    ghost function Contents(): seq<CString>
      reads this
    {
      Values(nodes)
    }

    /** The whole ring, sentinel first. */
    ghost function Ring(): seq<Node>
      reads this
    {
      [head] + nodes
    }

    /** An empty queue: the sentinel linked to itself in both directions. */
    constructor ()
      ensures Valid() && fresh(Repr) && Repr == {this, head}
      ensures nodes == [] && head.next == head && head.prev == head
      ensures size == 0 && id == 0
    {
      head := new Node([]);
      size, id := 0, 0;
      nodes := [];
      new;
      head.prev := head;
      head.next := head;
      Repr := {this, head};
    }

    /**
     * Circularity: every node of the ring is the `prev` of its `next` and
     * the `next` of its `prev`.
     */
    lemma Circular()
      requires Valid()
      ensures forall n :: n in Ring() ==>
                n.next != null && n.prev != null && n.next.prev == n && n.prev.next == n
    {
    }

    /** The sentinel links to itself in either direction exactly when the queue is empty. */
    lemma EmptyIffSelfLoop()
      requires Valid()
      ensures head.next == head <==> nodes == []
      ensures head.prev == head <==> nodes == []
    {
    }

    /**
     * The links alone make the ring simple: element `k` occurs nowhere else
     * in the ring, so no node is owned twice.
     */
    lemma {:induction false} Unique(k: int)
      requires Valid() && 0 <= k < |nodes|
      ensures forall i :: 0 <= i < |nodes| && i != k ==> nodes[i] != nodes[k]
      decreases k
    {
      if k > 0 {
        Unique(k - 1);
      }
      forall i | 0 <= i < |nodes| && i != k
        ensures nodes[i] != nodes[k]
      {
        assert nodes[i].prev == Before(nodes, head, i);
        assert nodes[k].prev == Before(nodes, head, k);
        if i == 0 {
          assert nodes[k - 1] in nodes;
        } else if k == 0 {
          assert nodes[i - 1] in nodes;
        }
      }
    }
  }

  /**
   * q_new: a fresh, empty queue, or NULL when the context cannot be
   * allocated (`allocOk` false).
   */
  method New(allocOk: bool) returns (q: Queue?)
    ensures (q != null) == allocOk
    ensures q != null ==> q.Valid() && fresh(q.Repr) && q.Repr == {q, q.head} && q.Contents() == []
    ensures q != null ==> q.head.next == q.head && q.head.prev == q.head
    ensures q != null ==> q.size == 0 && q.id == 0
  {
    if !allocOk {
      return null;
    }
    q := new Queue();
  }

  /**
   * q_free: walks the ring from `head.next` back to the sentinel, releasing
   * each element as it passes it, then the context itself. `released` lists
   * the elements in the order they are released: every element exactly once,
   * head to tail. A NULL handle releases nothing.
   */
  method Free(q: Queue?) returns (released: seq<Node>)
    requires q != null ==> q.Valid()
    ensures q == null ==> released == []
    ensures q != null ==> released == q.nodes
  {
    released := [];
    if q == null {
      return;
    }
    var cur := q.head.next;
    while cur != q.head
      invariant |released| <= |q.nodes| && released == q.nodes[..|released|]
      invariant cur == if |released| < |q.nodes| then q.nodes[|released|] else q.head
      decreases |q.nodes| - |released|
    {
      var temp := cur;
      cur := cur.next;
      released := released + [temp];
    }
  }

  /**
   * q_insert_head: a new element holding `s` becomes the first of the ring.
   * When the element cannot be allocated (`allocOk` false) the result is
   * false and nothing changes.
   */
  method InsertHead(q: Queue, s: CString, allocOk: bool) returns (ok: bool)
    requires q.Valid()
    modifies q.Repr
    ensures q.Valid() && fresh(q.Repr - old(q.Repr))
    ensures ok == allocOk
    ensures ok ==> |q.nodes| == |old(q.nodes)| + 1 && fresh(q.nodes[0]) && q.nodes[1..] == old(q.nodes)
    ensures ok ==> q.Repr == old(q.Repr) + {q.nodes[0]}
    ensures ok ==> q.Contents() == [s] + old(q.Contents())
    ensures !ok ==> q.nodes == old(q.nodes) && q.Repr == old(q.Repr)
  {
    if !allocOk {
      return false;
    }
    ghost var ns := q.nodes;
    q.EmptyIffSelfLoop();
    if ns != [] {
      q.Unique(0);
    }
    var item := new Node(s);
    if q.head.next == q.head {
      q.head.next := item;
      q.head.prev := item;
      item.next := q.head;
      item.prev := q.head;
    } else {
      var first := q.head.next;
      q.head.next := item;
      first.prev := item;
      item.next := first;
      item.prev := q.head;
    }
    q.nodes := [item] + ns;
    q.Repr := q.Repr + {item};
    forall i {:trigger q.nodes[i].next} {:trigger q.nodes[i].prev} | 1 <= i < |q.nodes|
      ensures q.nodes[i].next == After(q.nodes, q.head, i)
      ensures q.nodes[i].prev == Before(q.nodes, q.head, i)
    {
      var n := ns[i - 1];
      assert q.nodes[i] == n && n != item && n != q.head;
      assert n.next == old(n.next) == After(ns, q.head, i - 1);
      if i > 1 {
        assert n.prev == old(n.prev) == Before(ns, q.head, i - 1);
      }
    }
    assert q.nodes[1..] == ns;
    return true;
  }

  /**
   * q_insert_tail: a new element holding `s` becomes the last of the ring.
   * When the element cannot be allocated (`allocOk` false) the result is
   * false and nothing changes.
   */
  method InsertTail(q: Queue, s: CString, allocOk: bool) returns (ok: bool)
    requires q.Valid()
    modifies q.Repr
    ensures q.Valid() && fresh(q.Repr - old(q.Repr))
    ensures ok == allocOk
    ensures ok ==> |q.nodes| == |old(q.nodes)| + 1 && fresh(q.nodes[|old(q.nodes)|])
    ensures ok ==> q.nodes[..|old(q.nodes)|] == old(q.nodes)
    ensures ok ==> q.Repr == old(q.Repr) + {q.nodes[|old(q.nodes)|]}
    ensures ok ==> q.Contents() == old(q.Contents()) + [s]
    ensures !ok ==> q.nodes == old(q.nodes) && q.Repr == old(q.Repr)
  {
    if !allocOk {
      return false;
    }
    ghost var ns := q.nodes;
    ghost var last := |ns|;
    q.EmptyIffSelfLoop();
    var item := new Node(s);
    ValuesAppend(ns, [item]);
    if q.head.prev == q.head {
      q.head.next := item;
      q.head.prev := item;
      item.next := q.head;
      item.prev := q.head;
    } else {
      var tail := q.head.prev;
      q.head.prev := item;
      tail.next := item;
      item.next := q.head;
      item.prev := tail;
    }
    q.nodes := ns + [item];
    q.Repr := q.Repr + {item};
    forall i {:trigger q.nodes[i].next} {:trigger q.nodes[i].prev} | 0 <= i < last
      ensures q.nodes[i].next == After(q.nodes, q.head, i)
      ensures q.nodes[i].prev == Before(q.nodes, q.head, i)
    {
      var n := ns[i];
      assert q.nodes[i] == n && n != item && n != q.head;
      assert n.prev == old(n.prev) == Before(ns, q.head, i);
      if i < last - 1 {
        assert n.next == old(n.next) == After(ns, q.head, i);
      }
    }
    assert q.nodes[..last] == ns;
    return true;
  }

  /**
   * The optional copy of a removed value: `strncpy(sp, value, bufsize - 1)`
   * followed by a NUL at `sp[bufsize - 1]`; the rest of the array is left alone.
   */
  method CopyOut(sp: array<char>, value: CString, bufsize: nat)
    requires 1 <= bufsize <= sp.Length
    modifies sp
    ensures sp[..bufsize] == StrNCpy(value, bufsize - 1) + ['\0']
    ensures CStr(sp[..bufsize]) == if |value| < bufsize then value else value[..bufsize - 1]
    ensures sp[bufsize..] == old(sp[bufsize..])
  {
    var copied := StrNCpy(value, bufsize - 1);
    forall i | 0 <= i < bufsize - 1 {
      sp[i] := copied[i];
    }
    sp[bufsize - 1] := '\0';
    assert sp[..bufsize] == copied + ['\0'];
    TruncatedCopy(value, bufsize);
  }

  /**
   * q_remove_head: unlinks the first element and hands it to the caller; the
   * rest of the ring closes up behind it, back to the self-looped sentinel
   * when it was the only one. With a buffer `sp`, the removed value is also
   * copied into it, truncated to `bufsize - 1` characters and terminated.
   * A NULL handle gives NULL and touches nothing.
   */
  method RemoveHead(q: Queue?, sp: array?<char>, bufsize: nat) returns (e: Node?)
    requires q != null ==> q.Valid() && q.nodes != []
    requires q != null && sp != null ==> 1 <= bufsize <= sp.Length
    modifies if q == null then {} else q.Repr, sp
    ensures q == null ==> e == null
    ensures q == null && sp != null ==> sp[..] == old(sp[..])
    ensures q != null ==> q.Valid() && q.Repr == old(q.Repr) - {e}
    ensures q != null ==> e == old(q.nodes[0]) && e !in q.Repr && q.nodes == old(q.nodes[1..])
    ensures q != null ==> old(q.Contents()) == [e.value] + q.Contents()
    ensures q != null && sp != null ==>
              sp[..bufsize] == StrNCpy(e.value, bufsize - 1) + ['\0'] && sp[bufsize..] == old(sp[bufsize..])
    ensures q != null && sp != null ==>
              CStr(sp[..bufsize]) == if |e.value| < bufsize then e.value else e.value[..bufsize - 1]
  {
    if q == null {
      return null;
    }
    ghost var ns := q.nodes;
    q.Unique(0);
    if |ns| > 1 {
      q.Unique(1);
    }
    var remove := q.head.next;
    e := remove;
    assert e.next == After(ns, q.head, 0);

    q.head.next := q.head.next.next;
    if q.head.next == q.head {
      q.head.prev := q.head;
    } else {
      q.head.next.prev := q.head;
    }
    q.nodes := ns[1..];
    q.Repr := q.Repr - {e};
    forall i {:trigger q.nodes[i].next} {:trigger q.nodes[i].prev} | 0 <= i < |q.nodes|
      ensures q.nodes[i].next == After(q.nodes, q.head, i)
      ensures q.nodes[i].prev == Before(q.nodes, q.head, i)
    {
      var n := ns[i + 1];
      assert q.nodes[i] == n && n != e && n != q.head;
      assert n.next == old(n.next) == After(ns, q.head, i + 1);
      if i > 0 {
        assert n.prev == old(n.prev) == Before(ns, q.head, i + 1);
      }
    }

    if sp != null {
      CopyOut(sp, e.value, bufsize);
    }
  }

  /**
   * q_remove_tail: unlinks the last element and hands it to the caller; the
   * mirror image of RemoveHead, with the same optional bounded copy.
   */
  method RemoveTail(q: Queue?, sp: array?<char>, bufsize: nat) returns (e: Node?)
    requires q != null ==> q.Valid() && q.nodes != []
    requires q != null && sp != null ==> 1 <= bufsize <= sp.Length
    modifies if q == null then {} else q.Repr, sp
    ensures q == null ==> e == null
    ensures q == null && sp != null ==> sp[..] == old(sp[..])
    ensures q != null ==> q.Valid() && q.Repr == old(q.Repr) - {e}
    ensures q != null ==>
              e == old(q.nodes[|q.nodes| - 1]) && e !in q.Repr && q.nodes == old(q.nodes[..|q.nodes| - 1])
    ensures q != null ==> old(q.Contents()) == q.Contents() + [e.value]
    ensures q != null && sp != null ==>
              sp[..bufsize] == StrNCpy(e.value, bufsize - 1) + ['\0'] && sp[bufsize..] == old(sp[bufsize..])
    ensures q != null && sp != null ==>
              CStr(sp[..bufsize]) == if |e.value| < bufsize then e.value else e.value[..bufsize - 1]
  {
    if q == null {
      return null;
    }
    ghost var ns := q.nodes;
    ghost var last := |ns| - 1;
    q.Unique(last);
    if last > 0 {
      q.Unique(last - 1);
    }
    var remove := q.head.prev;
    e := remove;
    assert e.prev == Before(ns, q.head, last);
    ValuesLast(ns);

    q.head.prev := q.head.prev.prev;
    if q.head.prev == q.head {
      q.head.next := q.head;
    } else {
      q.head.prev.next := q.head;
    }
    q.nodes := ns[..last];
    q.Repr := q.Repr - {e};
    forall i {:trigger q.nodes[i].next} {:trigger q.nodes[i].prev} | 0 <= i < last
      ensures q.nodes[i].next == After(q.nodes, q.head, i)
      ensures q.nodes[i].prev == Before(q.nodes, q.head, i)
    {
      var n := ns[i];
      assert q.nodes[i] == n && n != e && n != q.head;
      assert n.prev == old(n.prev) == Before(ns, q.head, i);
      if i < last - 1 {
        assert n.next == old(n.next) == After(ns, q.head, i);
      }
    }

    if sp != null {
      CopyOut(sp, e.value, bufsize);
    }
  }

  /**
   * q_size: counts the elements by walking `next` links from the sentinel
   * until it comes back round; 0 for a NULL handle or an empty ring.
   */
  method Size(q: Queue?) returns (count: int)
    requires q != null ==> q.Valid()
    ensures q == null ==> count == 0
    ensures q != null ==> count == |q.nodes| == |q.Contents()|
  {
    if q == null || q.head.next == q.head {
      return 0;
    }
    count := 0;
    var temp := q.head.next;
    while temp != q.head
      invariant 0 <= count <= |q.nodes|
      invariant temp == if count < |q.nodes| then q.nodes[count] else q.head
      decreases |q.nodes| - count
    {
      count := count + 1;
      temp := temp.next;
    }
  }

  /**
   * q_delete_mid: removes the element at 0-based index n / 2 of an n-element
   * queue and reports whether there was one. One element goes by RemoveHead,
   * two by RemoveTail; from three on, a cursor walks n / 2 links from the
   * sentinel and the element after it is unlinked.
   */
  method DeleteMid(q: Queue?) returns (ok: bool)
    requires q != null ==> q.Valid()
    modifies if q == null then {} else q.Repr
    ensures q == null ==> !ok
    ensures q != null ==> q.Valid() && ok == (old(|q.nodes|) > 0)
    ensures q != null && ok ==> q.Repr == old(q.Repr) - {old(q.nodes[|q.nodes| / 2])}
    ensures q != null && !ok ==> q.Repr == old(q.Repr)
    ensures q != null && ok ==>
              var mid := old(|q.nodes|) / 2;
              q.nodes == old(q.nodes[..mid] + q.nodes[mid + 1..]) &&
              q.Contents() == old(q.Contents()[..mid] + q.Contents()[mid + 1..])
    ensures q != null && !ok ==> q.nodes == old(q.nodes)
  {
    var count := Size(q);
    if count == 0 {
      return false;
    } else if count == 1 {
      var removed := RemoveHead(q, null, 0);
    } else if count == 2 {
      var removed := RemoveTail(q, null, 0);
    } else {
      ghost var ns := q.nodes;
      ghost var mid := count / 2;
      ghost var walked := 0;
      var temp := q.head;
      count := count / 2 + 1;
      while count != 1
        invariant walked + count == mid + 1 && 1 <= count
        invariant temp == if walked == 0 then q.head else ns[walked - 1]
        decreases count
      {
        temp := temp.next;
        count := count - 1;
        walked := walked + 1;
      }
      UnlinkAfter(q, temp, mid);
    }
    return true;
  }

  /**
   * The unlinking step of q_delete_mid for three or more elements: with
   * `temp` the node before element `mid`, that element is cut out of the ring
   * and released.
   */
  method UnlinkAfter(q: Queue, temp: Node, ghost mid: int)
    requires q.Valid() && 0 < mid < |q.nodes| - 1 && temp == q.nodes[mid - 1]
    modifies q.Repr
    ensures q.Valid() && q.Repr == old(q.Repr) - {old(q.nodes[mid])}
    ensures q.nodes == old(q.nodes[..mid] + q.nodes[mid + 1..])
    ensures q.Contents() == old(q.Contents()[..mid] + q.Contents()[mid + 1..])
  {
    ghost var ns := q.nodes;
    ghost var victim := ns[mid];
    ghost var after := ns[mid + 1];
    q.Unique(mid - 1);
    q.Unique(mid);
    q.Unique(mid + 1);
    assert temp.next == After(ns, q.head, mid - 1) == victim;
    assert victim.next == After(ns, q.head, mid) == after;

    temp.next.next.prev := temp;
    temp.next := temp.next.next;

    q.nodes := ns[..mid] + ns[mid + 1..];
    q.Repr := q.Repr - {victim};
    forall i {:trigger q.nodes[i].next} {:trigger q.nodes[i].prev} | 0 <= i < |q.nodes|
      ensures q.nodes[i].next == After(q.nodes, q.head, i)
      ensures q.nodes[i].prev == Before(q.nodes, q.head, i)
    {
      var j := if i < mid then i else i + 1;
      var n := ns[j];
      assert q.nodes[i] == n && n != q.head;
      if j != mid - 1 {
        assert n.next == old(n.next) == After(ns, q.head, j);
      }
      if j != mid + 1 {
        assert n.prev == old(n.prev) == Before(ns, q.head, j);
      }
    }
    ValuesRemoveAt(ns, mid);
  }
}
