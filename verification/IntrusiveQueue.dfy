/**
 * The circular doubly linked queue the pool and the loops are built on
 * (thirdparty/libuv-1.30.1/src/queue.h): each macro is an operation on the sequence of elements.
 */
module IntrusiveQueue {
  import opened Sequences

  class Link {
    var next: Link?
    var prev: Link?
  }

  /** The head is number 0, the elements follow, and after the last one comes the head again. */
  ghost function Elem(h: Link, s: seq<Link>, i: nat): Link
    requires i <= |s| + 1
  {
    if i == 0 || i == |s| + 1 then h else s[i - 1]
  }

  ghost predicate LinkedAt(h: Link, s: seq<Link>, i: nat)
    requires i <= |s|
    reads h, s
  {
    Elem(h, s, i).next == Elem(h, s, i + 1) && Elem(h, s, i + 1).prev == Elem(h, s, i)
  }

  /** `h` heads a queue of exactly the elements `s`, in this order. */
  ghost predicate IsQueue(h: Link, s: seq<Link>)
    reads h, s
  {
    h !in s && Distinct(s) && forall i :: 0 <= i <= |s| ==> LinkedAt(h, s, i)
  }

  ghost function Nodes(s: seq<Link>): set<Link> { set x | x in s }

  method Init(q: Link)
    modifies q
    ensures IsQueue(q, [])
  {
    q.next := q;
    q.prev := q;
  }

  method IsEmpty(h: Link, ghost s: seq<Link>) returns (r: bool)
    requires IsQueue(h, s)
    ensures r <==> s == []
  {
    assert LinkedAt(h, s, 0);
    r := h == h.next;
  }

  method Head(h: Link, ghost s: seq<Link>) returns (r: Link)
    requires IsQueue(h, s) && s != []
    ensures r == s[0]
  {
    assert LinkedAt(h, s, 0);
    r := h.next;
  }

  method InsertTail(h: Link, q: Link, ghost s: seq<Link>)
    requires IsQueue(h, s) && q != h && q !in s
    modifies h, q, Nodes(s)
    ensures IsQueue(h, s + [q])
  {
    ghost var s' := s + [q];
    assert LinkedAt(h, s, |s|);
    q.next := h;
    q.prev := h.prev;
    q.prev.next := q;
    h.prev := q;
    forall i | 0 <= i <= |s'| ensures LinkedAt(h, s', i) {
      if i < |s| { assert old(LinkedAt(h, s, i)); }
    }
  }

  method InsertHead(h: Link, q: Link, ghost s: seq<Link>)
    requires IsQueue(h, s) && q != h && q !in s
    modifies h, q, Nodes(s)
    ensures IsQueue(h, [q] + s)
  {
    ghost var s' := [q] + s;
    assert LinkedAt(h, s, 0);
    q.next := h.next;
    q.prev := h;
    q.next.prev := q;
    h.next := q;
    forall i | 0 <= i <= |s'| ensures LinkedAt(h, s', i) {
      if i > 1 { assert old(LinkedAt(h, s, i - 1)); }
    }
  }

  /** Takes an element out; the queue closes the gap and the element's own links stay as they are. */
  method Remove(q: Link, ghost h: Link, ghost s: seq<Link>, ghost k: nat)
    requires IsQueue(h, s) && k < |s| && s[k] == q
    modifies h, Nodes(s)
    ensures IsQueue(h, s[..k] + s[k + 1..])
    ensures q.next == old(q.next) && q.prev == old(q.prev)
  {
    ghost var s' := s[..k] + s[k + 1..];
    assert LinkedAt(h, s, k) && LinkedAt(h, s, k + 1);
    q.prev.next := q.next;
    q.next.prev := q.prev;
    forall i | 0 <= i <= |s'| ensures LinkedAt(h, s', i) {
      if i != k { assert old(LinkedAt(h, s, if i < k then i else i + 1)); }
    }
  }

  /** Everything from `q` on moves to the queue headed by `n`. */
  method Split(h: Link, q: Link, n: Link, ghost s: seq<Link>, ghost k: nat)
    requires IsQueue(h, s) && k < |s| && s[k] == q && n != h && n !in s
    modifies h, n, Nodes(s)
    ensures IsQueue(h, s[..k]) && IsQueue(n, s[k..])
  {
    ghost var front, back := s[..k], s[k..];
    assert LinkedAt(h, s, k) && LinkedAt(h, s, |s|);
    n.prev := h.prev;
    n.prev.next := n;
    n.next := q;
    h.prev := q.prev;
    h.prev.next := h;
    q.prev := n;
    forall i | 0 <= i <= |front| ensures LinkedAt(h, front, i) {
      if i < k { assert old(LinkedAt(h, s, i)); }
    }
    forall i | 0 <= i <= |back| ensures LinkedAt(n, back, i) {
      if 0 < i < |back| { assert old(LinkedAt(h, s, k + i)); }
    }
  }

  /** All elements of `h` move to `n`: how the event loop takes over what is done. */
  method Move(h: Link, n: Link, ghost s: seq<Link>)
    requires IsQueue(h, s) && n != h && n !in s
    modifies h, n, Nodes(s)
    ensures IsQueue(h, []) && IsQueue(n, s)
  {
    var empty := IsEmpty(h, s);
    if empty {
      Init(n);
    } else {
      var q := Head(h, s);
      Split(h, q, n, s, 0);
      assert s[..0] == [] && s[0..] == s;
    }
  }

  /** An element of a queue is never linked to itself, so `QUEUE_EMPTY` on an element tells that it is in no queue. */
  lemma ElementsAreLinked(h: Link, s: seq<Link>, k: nat)
    requires IsQueue(h, s) && k < |s|
    ensures s[k].next != s[k]
  {
    assert LinkedAt(h, s, k + 1);
  }
}
