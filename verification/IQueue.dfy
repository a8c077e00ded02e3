/** The intrusive circular doubly linked lists of `src/third/ikcp.h`, and the four lists a
    control block threads its segments through. */
module IQueue {
  import S = Sender

  /** `IKCPSEG`: the links, and the segment they are embedded in. */
  class Node {
    var next: Node?
    var prev: Node?
    var seg: S.Segment

    constructor (seg: S.Segment)
      ensures next == null && prev == null && this.seg == seg
    {
      next, prev, this.seg := null, null, seg;
    }
  }

  function After(i: nat, n: nat): (r: nat)
    requires i < n
    ensures r < n
  {
    if i + 1 == n then 0 else i + 1
  }

  function Before(i: nat, n: nat): (r: nat)
    requires i < n
    ensures r < n
  {
    if i == 0 then n - 1 else i - 1
  }

  ghost predicate Distinct(all: seq<Node>) {
    forall i, j :: 0 <= i < j < |all| ==> all[i] != all[j]
  }

  /** A list head followed by its entries: `next` and `prev` go round the ring, each the
      inverse of the other. */
  ghost predicate Ring(all: seq<Node>)
    reads all`next, all`prev
  {
    && |all| > 0 && Distinct(all)
    && (forall i {:trigger all[i].next} :: 0 <= i < |all| ==> all[i].next == all[After(i, |all|)])
    && (forall i {:trigger all[i].prev} :: 0 <= i < |all| ==> all[i].prev == all[Before(i, |all|)])
  }

  /** A head without entries. */
  ghost predicate Alone(head: Node)
    reads head`next, head`prev
  {
    head.next == head && head.prev == head
  }

  lemma AloneIsRing(head: Node)
    requires Alone(head)
    ensures Ring([head])
  {
  }

  /** `IQUEUE_INIT`. */
  method Init(head: Node)
    modifies head`next, head`prev
    ensures Alone(head)
  {
    head.next, head.prev := head, head;
  }

  function Inserted(all: seq<Node>, k: nat, node: Node): seq<Node>
    requires k < |all|
  {
    all[..k + 1] + [node] + all[k + 1..]
  }

  /** `IQUEUE_ADD`: puts `node` right after `at`, any member of the ring. */
  method Add(node: Node, at: Node, ghost all: seq<Node>, ghost k: nat)
    requires Ring(all) && k < |all| && all[k] == at && node !in all
    modifies node`next, node`prev, all`next, all`prev
    ensures Ring(Inserted(all, k, node))
  {
    node.prev, node.next := at, at.next;
    at.next.prev := node;
    at.next := node;
    InsertedRing(all, k, node);
  }

  /** The links that `IQUEUE_ADD` leaves make a ring. */
  lemma InsertedRing(all: seq<Node>, k: nat, node: Node)
    requires k < |all| && Distinct(all) && node !in all
    requires node.next == all[After(k, |all|)] && node.prev == all[k]
    requires forall i {:trigger all[i].next} :: 0 <= i < |all| ==>
               all[i].next == if i == k then node else all[After(i, |all|)]
    requires forall i {:trigger all[i].prev} :: 0 <= i < |all| ==>
               all[i].prev == if i == After(k, |all|) then node else all[Before(i, |all|)]
    ensures Ring(Inserted(all, k, node))
  {
    InsertedNext(all, k, node);
    InsertedPrev(all, k, node);
    InsertedAt(all, k, node);
    hide Inserted, Distinct;
  }

  /** The forward links after `IQUEUE_ADD`. */
  lemma InsertedNext(all: seq<Node>, k: nat, node: Node)
    requires k < |all| && Distinct(all) && node !in all
    requires node.next == all[After(k, |all|)]
    requires forall i {:trigger all[i].next} :: 0 <= i < |all| ==>
               all[i].next == if i == k then node else all[After(i, |all|)]
    ensures forall i {:trigger Inserted(all, k, node)[i].next} :: 0 <= i <= |all| ==>
              Inserted(all, k, node)[i].next == Inserted(all, k, node)[After(i, |all| + 1)]
  {
    InsertedAt(all, k, node);
    hide Inserted, Distinct;
    var b := Inserted(all, k, node);
    forall i | 0 <= i <= |all| ensures b[i].next == b[After(i, |all| + 1)] {
      if i <= k { assert b[i] == all[i]; } else if i > k + 1 { assert b[i] == all[i - 1]; }
    }
  }

  /** The backward links after `IQUEUE_ADD`. */
  lemma InsertedPrev(all: seq<Node>, k: nat, node: Node)
    requires k < |all| && Distinct(all) && node !in all
    requires node.prev == all[k]
    requires forall i {:trigger all[i].prev} :: 0 <= i < |all| ==>
               all[i].prev == if i == After(k, |all|) then node else all[Before(i, |all|)]
    ensures forall i {:trigger Inserted(all, k, node)[i].prev} :: 0 <= i <= |all| ==>
              Inserted(all, k, node)[i].prev == Inserted(all, k, node)[Before(i, |all| + 1)]
  {
    InsertedAt(all, k, node);
    hide Inserted, Distinct;
    var b := Inserted(all, k, node);
    forall i | 0 <= i <= |all| ensures b[i].prev == b[Before(i, |all| + 1)] {
      if i <= k { assert b[i] == all[i]; } else if i > k + 1 { assert b[i] == all[i - 1]; }
    }
  }

  lemma InsertedAt(all: seq<Node>, k: nat, node: Node)
    requires k < |all| && Distinct(all) && node !in all
    ensures |Inserted(all, k, node)| == |all| + 1 && Distinct(Inserted(all, k, node))
    ensures forall i :: 0 <= i <= |all| ==>
              Inserted(all, k, node)[i] == if i <= k then all[i] else if i == k + 1 then node else all[i - 1]
  {
  }

  lemma InsertedSame(all: seq<Node>, k: nat, node: Node)
    requires k < |all|
    ensures forall x :: x in Inserted(all, k, node) ==> x == node || x in all
    ensures forall x :: x in all ==> x in Inserted(all, k, node)
    ensures node in Inserted(all, k, node) && Inserted(all, k, node)[0] == all[0]
  {
    assert all == all[..k + 1] + all[k + 1..];
  }

  /** `IQUEUE_ADD_TAIL`. */
  method AddTail(node: Node, head: Node, ghost all: seq<Node>)
    requires Ring(all) && all[0] == head && node !in all
    modifies node`next, node`prev, all`next, all`prev
    ensures Ring(all + [node])
  {
    node.prev, node.next := head.prev, head;
    head.prev.next := node;
    head.prev := node;
  }

  function Removed(all: seq<Node>, k: nat): seq<Node>
    requires k < |all|
  {
    all[..k] + all[k + 1..]
  }

  /** `IQUEUE_DEL` of an entry. */
  method Del(entry: Node, ghost all: seq<Node>, ghost k: nat)
    requires Ring(all) && 0 < k < |all| && all[k] == entry
    modifies all`next, all`prev
    ensures Ring(Removed(all, k)) && entry.next == null && entry.prev == null
  {
    entry.next.prev := entry.prev;
    entry.prev.next := entry.next;
    entry.next, entry.prev := null, null;
    RemovedRing(all, k);
  }

  /** The links that `IQUEUE_DEL` leaves make a ring. */
  lemma RemovedRing(all: seq<Node>, k: nat)
    requires 0 < k < |all| && Distinct(all)
    requires forall i {:trigger all[i].next} :: 0 <= i < |all| && i != k ==>
               all[i].next == if i == k - 1 then all[After(k, |all|)] else all[After(i, |all|)]
    requires forall i {:trigger all[i].prev} :: 0 <= i < |all| && i != k ==>
               all[i].prev == if i == After(k, |all|) then all[k - 1] else all[Before(i, |all|)]
    ensures Ring(Removed(all, k))
  {
    RemovedNext(all, k);
    RemovedPrev(all, k);
    RemovedAt(all, k);
    hide Removed, Distinct;
  }

  /** The forward links after `IQUEUE_DEL`. */
  lemma RemovedNext(all: seq<Node>, k: nat)
    requires 0 < k < |all| && Distinct(all)
    requires forall i {:trigger all[i].next} :: 0 <= i < |all| && i != k ==>
               all[i].next == if i == k - 1 then all[After(k, |all|)] else all[After(i, |all|)]
    ensures forall i {:trigger Removed(all, k)[i].next} :: 0 <= i < |all| - 1 ==>
              Removed(all, k)[i].next == Removed(all, k)[After(i, |all| - 1)]
  {
    RemovedAt(all, k);
    hide Removed, Distinct;
    var b := Removed(all, k);
    forall i | 0 <= i < |all| - 1 ensures b[i].next == b[After(i, |all| - 1)] {
      var j := if i < k then i else i + 1;
      var h := After(i, |all| - 1);
      assert b[i] == all[j] && b[h] == all[if h < k then h else h + 1];
      assert all[j].next == all[if j == k - 1 then After(k, |all|) else After(j, |all|)];
    }
  }

  /** The backward links after `IQUEUE_DEL`. */
  lemma RemovedPrev(all: seq<Node>, k: nat)
    requires 0 < k < |all| && Distinct(all)
    requires forall i {:trigger all[i].prev} :: 0 <= i < |all| && i != k ==>
               all[i].prev == if i == After(k, |all|) then all[k - 1] else all[Before(i, |all|)]
    ensures forall i {:trigger Removed(all, k)[i].prev} :: 0 <= i < |all| - 1 ==>
              Removed(all, k)[i].prev == Removed(all, k)[Before(i, |all| - 1)]
  {
    RemovedAt(all, k);
    hide Removed, Distinct;
    var b := Removed(all, k);
    forall i | 0 <= i < |all| - 1 ensures b[i].prev == b[Before(i, |all| - 1)] {
      var j := if i < k then i else i + 1;
      var h := Before(i, |all| - 1);
      assert b[i] == all[j] && b[h] == all[if h < k then h else h + 1];
      assert all[j].prev == all[if j == After(k, |all|) then k - 1 else Before(j, |all|)];
    }
  }

  lemma RemovedAt(all: seq<Node>, k: nat)
    requires 0 < k < |all| && Distinct(all)
    ensures |Removed(all, k)| == |all| - 1 && Distinct(Removed(all, k))
    ensures forall i :: 0 <= i < |all| - 1 ==> Removed(all, k)[i] == if i < k then all[i] else all[i + 1]
    ensures all[k] !in Removed(all, k)
  {
  }

  lemma RemovedSame(all: seq<Node>, k: nat)
    requires 0 < k < |all| && Distinct(all)
    ensures forall x :: x in Removed(all, k) <==> x in all && x != all[k]
    ensures |Removed(all, k)| > 0 && Removed(all, k)[0] == all[0]
  {
    RemovedAt(all, k);
    assert all == all[..k] + [all[k]] + all[k + 1..];
  }

  // ---------------------------------------------------------------- the four queues

  datatype Which = SndQueue | RcvQueue | SndBuf | RcvBuf

  /** The three other lists. */
  function Others(w: Which): (r: seq<Which>)
    ensures |r| == 3 && r[0] != w && r[1] != w && r[2] != w
  {
    match w
    case SndQueue => [RcvQueue, SndBuf, RcvBuf]
    case RcvQueue => [SndQueue, SndBuf, RcvBuf]
    case SndBuf => [SndQueue, RcvQueue, RcvBuf]
    case RcvBuf => [SndQueue, RcvQueue, SndBuf]
  }

  /** One value for each of the four lists. */
  datatype Four<T> = Four(sndQueue: T, rcvQueue: T, sndBuf: T, rcvBuf: T)

  function At<T>(f: Four<T>, w: Which): T {
    match w
    case SndQueue => f.sndQueue
    case RcvQueue => f.rcvQueue
    case SndBuf => f.sndBuf
    case RcvBuf => f.rcvBuf
  }

  function With<T>(f: Four<T>, w: Which, t: T): (g: Four<T>)
    ensures At(g, w) == t && forall v: Which :: v != w ==> At(g, v) == At(f, v)
  {
    match w
    case SndQueue => f.(sndQueue := t)
    case RcvQueue => f.(rcvQueue := t)
    case SndBuf => f.(sndBuf := t)
    case RcvBuf => f.(rcvBuf := t)
  }

  /** List `w` starts at its head and holds exactly the nodes that are said to be in it. */
  ghost predicate Holds(head: Node, all: seq<Node>, owner: map<Node, Which>, w: Which) {
    && |all| > 0 && all[0] == head
    && (forall x :: x in all ==> x in owner && owner[x] == w)
    && (forall x :: x in owner && owner[x] == w ==> x in all)
  }

  lemma HoldsMore(head: Node, all: seq<Node>, more: seq<Node>, owner: map<Node, Which>, w: Which, node: Node)
    requires Holds(head, all, owner, w) && |more| > 0 && more[0] == all[0]
    requires forall x :: x in more <==> x in all || x == node
    ensures Holds(head, more, owner[node := w], w)
  {
  }

  lemma HoldsLess(head: Node, all: seq<Node>, less: seq<Node>, owner: map<Node, Which>, w: Which, node: Node)
    requires Holds(head, all, owner, w) && |less| > 0 && less[0] == all[0]
    requires forall x :: x in less <==> x in all && x != node
    ensures Holds(head, less, owner - {node}, w)
  {
  }

  /** A node that comes to `w` or leaves it is not in `v`. */
  lemma HoldsStill(head: Node, all: seq<Node>, owner: map<Node, Which>, v: Which, node: Node, w: Which)
    requires Holds(head, all, owner, v) && v != w && (node in owner ==> owner[node] == w)
    ensures Holds(head, all, owner[node := w], v) && Holds(head, all, owner - {node}, v)
  {
  }

  /** Three rings that a change of the ring `all` by `node` does not touch. */
  ghost predicate Clear(r: seq<Node>, all: seq<Node>, node: Node) {
    forall x :: x in r ==> x !in all && x != node
  }

  method AddTailBeside(node: Node, head: Node, ghost all: seq<Node>, ghost r0: seq<Node>, ghost r1: seq<Node>,
                       ghost r2: seq<Node>)
    requires Ring(all) && all[0] == head && node !in all
    requires Ring(r0) && Ring(r1) && Ring(r2) && Clear(r0, all, node) && Clear(r1, all, node) && Clear(r2, all, node)
    modifies node`next, node`prev, all`next, all`prev
    ensures Ring(all + [node]) && Ring(r0) && Ring(r1) && Ring(r2)
  {
    AddTail(node, head, all);
    assert forall x: Node :: x in r0 || x in r1 || x in r2 ==> x.next == old(x.next) && x.prev == old(x.prev);
  }

  method AddBeside(node: Node, at: Node, ghost all: seq<Node>, ghost k: nat, ghost r0: seq<Node>,
                   ghost r1: seq<Node>, ghost r2: seq<Node>)
    requires Ring(all) && k < |all| && all[k] == at && node !in all
    requires Ring(r0) && Ring(r1) && Ring(r2) && Clear(r0, all, node) && Clear(r1, all, node) && Clear(r2, all, node)
    modifies node`next, node`prev, all`next, all`prev
    ensures Ring(Inserted(all, k, node)) && Ring(r0) && Ring(r1) && Ring(r2)
  {
    hide Inserted;
    Add(node, at, all, k);
    assert forall x: Node :: x in r0 || x in r1 || x in r2 ==> x.next == old(x.next) && x.prev == old(x.prev);
  }

  method DelBeside(entry: Node, ghost all: seq<Node>, ghost k: nat, ghost r0: seq<Node>, ghost r1: seq<Node>,
                   ghost r2: seq<Node>)
    requires Ring(all) && 0 < k < |all| && all[k] == entry
    requires Ring(r0) && Ring(r1) && Ring(r2) && Clear(r0, all, entry) && Clear(r1, all, entry) && Clear(r2, all, entry)
    modifies all`next, all`prev
    ensures Ring(Removed(all, k)) && Ring(r0) && Ring(r1) && Ring(r2)
    ensures entry.next == null && entry.prev == null
  {
    hide Removed;
    Del(entry, all, k);
    assert forall x: Node :: x in r0 || x in r1 || x in r2 ==> x.next == old(x.next) && x.prev == old(x.prev);
  }
}
