/** The four lists of a control block as rings of nodes, and what `ikcp_send`, `ikcp_input`,
    `ikcp_recv` and `ikcp_flush` do to them: each loop follows and changes the links, and is
    proved to do to the segments in the lists what the functions on sequences do. */
module SegmentQueues {
  import opened Word32
  import opened Wire
  import opened IQueue
  import E = Endpoint
  import L = Loops
  import R = Receiver
  import S = Sender

  /** The entries of a ring, without its head, carry these segments. */
  ghost predicate Carries(all: seq<Node>, segs: seq<S.Segment>)
    reads all`seg
  {
    |all| == |segs| + 1 && forall i :: 0 <= i < |segs| ==> all[i + 1].seg == segs[i]
  }

  lemma CarriesMore(all: seq<Node>, segs: seq<S.Segment>, node: Node)
    requires Carries(all, segs)
    ensures Carries(all + [node], segs + [node.seg])
  {
  }

  lemma CarriesInserted(all: seq<Node>, segs: seq<S.Segment>, k: nat, node: Node)
    requires Carries(all, segs) && k < |all|
    ensures Carries(Inserted(all, k, node), segs[..k] + [node.seg] + segs[k..])
  {
  }

  lemma CarriesRemoved(all: seq<Node>, segs: seq<S.Segment>, k: nat)
    requires Carries(all, segs) && 0 < k < |all|
    ensures Carries(Removed(all, k), segs[..k - 1] + segs[k..])
  {
  }

  lemma WithoutFirst<X>(s: seq<X>)
    requires s != []
    ensures s[..0] + s[1..] == s[1..]
  {
  }

  /** The segments of `snd_queue` have only a fragment number and data. */
  function Chunks(segs: seq<S.Segment>): (r: seq<S.Chunk>)
    ensures |r| == |segs| && forall i :: 0 <= i < |segs| ==> r[i] == S.Chunk(segs[i].p.frg, segs[i].p.data)
  {
    seq(|segs|, i requires 0 <= i < |segs| => S.Chunk(segs[i].p.frg, segs[i].p.data))
  }

  /** The segments of `rcv_buf` and `rcv_queue` are the packets they came in. */
  function Packets(segs: seq<S.Segment>): (r: seq<Packet>)
    ensures |r| == |segs| && forall i :: 0 <= i < |segs| ==> r[i] == segs[i].p
  {
    seq(|segs|, i requires 0 <= i < |segs| => segs[i].p)
  }

  lemma PacketsInserted(segs: seq<S.Segment>, k: nat, seg: S.Segment)
    requires k <= |segs|
    ensures Packets(segs[..k] + [seg] + segs[k..]) == Packets(segs)[..k] + [seg.p] + Packets(segs)[k..]
  {
  }

  lemma MergeNone()
    ensures R.MergeData([]) == [] && R.MergeCount([]) == 0
  {
  }

  /** One turn of the loop of `ikcp_parse_una`. */
  lemma DropStep(buf: seq<S.Segment>, una: int)
    requires buf != []
    ensures S.DropBelow(Mod32, buf, una) ==
              if TimeDiff(una, buf[0].p.sn) > 0 then S.DropBelow(Mod32, buf[1..], una) else buf
  {
  }

  lemma DropNone(una: int)
    ensures S.DropBelow(Mod32, [], una) == []
  {
  }

  /** One turn of the drain loop. */
  lemma DrainStep(buf: seq<S.Segment>, queue: seq<S.Segment>, nxt: int, wnd: int)
    requires buf != []
    ensures var r := R.Receiver(Packets(buf), Packets(queue), nxt, []);
            R.Drain(Mod32, r, wnd) ==
              if buf[0].p.sn == nxt && |queue| < wnd then
                R.Drain(Mod32, R.Receiver(Packets(buf[1..]), Packets(queue + [buf[0]]), W(nxt + 1), []), wnd)
              else r
  {
    assert Packets(buf)[1..] == Packets(buf[1..]);
    assert Packets(queue) + [Packets(buf)[0]] == Packets(queue + [buf[0]]);
  }

  lemma DrainNone(queue: seq<S.Segment>, nxt: int, wnd: int)
    ensures var r := R.Receiver(Packets([]), Packets(queue), nxt, []); R.Drain(Mod32, r, wnd) == r
  {
    assert Packets([]) == [];
  }

  /** A new segment of `snd_queue`; what `ikcp_flush` fills in later is of no account. */
  function Unfilled(frg: int, data: Bytes): S.Segment {
    S.Segment(Packet(0, 0, frg, 0, 0, 0, 0, data), 0, 0, 0, 0)
  }

  lemma OneChunkMore(segs: seq<S.Segment>, seg: S.Segment)
    ensures Chunks(segs + [seg]) == Chunks(segs) + [S.Chunk(seg.p.frg, seg.p.data)]
  {
  }

  /** The last element deleted after a new one came behind it. */
  lemma Replaced<X>(s: seq<X>, x: X)
    requires s != []
    ensures var n := |s|; (s + [x])[..n - 1] + (s + [x])[n..] == s[..n - 1] + [x]
  {
  }

  lemma LastChunk(segs: seq<S.Segment>, seg: S.Segment)
    requires segs != []
    ensures Chunks(segs[..|segs| - 1] + [seg]) == Chunks(segs)[..|segs| - 1] + [S.Chunk(seg.p.frg, seg.p.data)]
  {
  }

  lemma LastSet<X>(s: seq<X>, x: X, y: X)
    ensures (s + [x])[|s + [x]| - 1 := y] == s + [y]
  {
  }

  /** One turn of the admission loop. */
  lemma AdmitStep(queue: seq<S.Segment>, buf: seq<S.Segment>, una: int, nxt: int, window: int, t: Packet, now: int,
                  rto: int)
    ensures var s := S.Sender(Chunks(queue), buf, una, nxt);
            E.Admit(Mod32, s, window, t, now, rto) ==
              if TimeDiff(nxt, W(una + window)) < 0 && queue != [] then
                var seg := E.NewSegment(t, S.Chunk(queue[0].p.frg, queue[0].p.data), nxt, now, rto);
                E.Admit(Mod32, S.Sender(Chunks(queue[1..]), buf + [seg], una, W(nxt + 1)), window, t, now, rto)
              else s
  {
    if queue != [] { assert Chunks(queue)[1..] == Chunks(queue[1..]); }
  }

  /** Four list heads, each of an empty list. */
  ghost predicate Heads(h: Four<Node>)
    reads h.sndQueue, h.rcvQueue, h.sndBuf, h.rcvBuf
  {
    && h.sndQueue != h.rcvQueue && h.sndQueue != h.sndBuf && h.sndQueue != h.rcvBuf
    && h.rcvQueue != h.sndBuf && h.rcvQueue != h.rcvBuf && h.sndBuf != h.rcvBuf
    && Alone(h.sndQueue) && Alone(h.rcvQueue) && Alone(h.sndBuf) && Alone(h.rcvBuf)
  }

  method NewHead() returns (head: Node)
    ensures fresh(head) && Alone(head)
  {
    head := new Node(Unfilled(0, []));
    Init(head);
  }

  /** `ikcp_create` initializes the four list heads inside the block. */
  method NewHeads() returns (h: Four<Node>)
    ensures Heads(h) && fresh(h.sndQueue) && fresh(h.rcvQueue) && fresh(h.sndBuf) && fresh(h.rcvBuf)
  {
    var a := NewHead();
    var b := NewHead();
    var c := NewHead();
    var d := NewHead();
    h := Four(a, b, c, d);
  }

  class Queues {
    const heads: Four<Node>
    /** Each list: its head, then its entries. */
    ghost var rings: Four<seq<Node>>
    /** The list each node is in. */
    ghost var owner: map<Node, Which>
    /** The segments in each list. */
    ghost var items: Four<seq<S.Segment>>
    var nsndQue: int
    var nrcvQue: int
    var nsndBuf: int
    var nrcvBuf: int

    /** Ring `w` starts at its head and holds exactly the nodes it owns. */
    ghost predicate Owns(w: Which)
      reads `rings, `owner
    {
      Holds(At(heads, w), At(rings, w), owner, w)
    }

    ghost predicate Good(w: Which)
      reads `rings, `owner, owner.Keys`next, owner.Keys`prev
    {
      Owns(w) && Ring(At(rings, w))
    }

    /** Each list is a ring of its own: no segment is in two lists, or twice in one. */
    ghost predicate Linked()
      reads `rings, `owner, owner.Keys`next, owner.Keys`prev
    {
      forall w: Which :: Good(w)
    }

    ghost predicate Carried()
      reads `rings, `owner, `items, owner.Keys`seg
    {
      forall w: Which :: Owns(w) && Carries(At(rings, w), At(items, w))
    }

    ghost predicate Valid()
      reads `rings, `owner, `items, owner.Keys`next, owner.Keys`prev, owner.Keys`seg
    {
      Linked() && Carried()
    }

    ghost predicate Counted()
      reads `items, `nsndQue, `nrcvQue, `nsndBuf, `nrcvBuf
    {
      && nsndQue == |items.sndQueue| && nrcvQue == |items.rcvQueue|
      && nsndBuf == |items.sndBuf| && nrcvBuf == |items.rcvBuf|
    }

    lemma Each(v: Which)
      requires Linked()
      ensures Owns(v) && Ring(At(rings, v))
    {
      assert Good(v);
    }

    /** What a change of list `w` by `node` leaves alone. */
    lemma Apart(w: Which, v: Which, node: Node)
      requires Linked() && v != w && (node in owner ==> owner[node] == w)
      ensures Ring(At(rings, v))
      ensures Clear(At(rings, v), At(rings, w), node)
      ensures Holds(At(heads, v), At(rings, v), owner[node := w], v)
      ensures Holds(At(heads, v), At(rings, v), owner - {node}, v)
    {
      Each(v);
      Each(w);
      HoldsStill(At(heads, v), At(rings, v), owner, v, node, w);
    }

    lemma AllGood(w: Which)
      requires Good(w) && Good(Others(w)[0]) && Good(Others(w)[1]) && Good(Others(w)[2])
      ensures Linked() && forall v: Which :: Owns(v)
    {
      forall v: Which ensures Good(v) {
        assert v == w || v == Others(w)[0] || v == Others(w)[1] || v == Others(w)[2];
      }
    }

    /** The lists of a new block. */
    constructor (h: Four<Node>)
      requires Heads(h)
      ensures Valid() && Counted() && items == Four([], [], [], []) && heads == h
      ensures owner.Keys == {h.sndQueue, h.rcvQueue, h.sndBuf, h.rcvBuf}
    {
      heads := h;
      rings := Four([h.sndQueue], [h.rcvQueue], [h.sndBuf], [h.rcvBuf]);
      items := Four([], [], [], []);
      owner := map[h.sndQueue := SndQueue, h.rcvQueue := RcvQueue, h.sndBuf := SndBuf, h.rcvBuf := RcvBuf];
      nsndQue, nrcvQue, nsndBuf, nrcvBuf := 0, 0, 0, 0;
      new;
      hide Ring, Owns;
      forall w: Which ensures Owns(w) && Good(w) && Carries(At(rings, w), At(items, w)) {
        StartOwns(w);
        AloneIsRing(At(heads, w));
      }
    }

    lemma StartOwns(w: Which)
      requires rings == Four([heads.sndQueue], [heads.rcvQueue], [heads.sndBuf], [heads.rcvBuf])
      requires Heads(heads)
      requires owner == map[heads.sndQueue := SndQueue, heads.rcvQueue := RcvQueue, heads.sndBuf := SndBuf,
                            heads.rcvBuf := RcvBuf]
      ensures Owns(w) && At(rings, w) == [At(heads, w)] && Alone(At(heads, w))
    {
    }

    // ---------------------------------------------------------------- links

    /** List `w` is about to become `now` by the coming or going of `node`, and each node then
        has its owner in `owned`; the other lists have nothing to do with it. */
    ghost predicate Ready(w: Which, node: Node, now: seq<Node>, owned: map<Node, Which>)
      reads `rings
    {
      && Holds(At(heads, w), now, owned, w)
      && (forall v: Which :: v != w ==>
            Clear(At(rings, v), At(rings, w), node) && Holds(At(heads, v), At(rings, v), owned, v))
    }

    lemma CanLink(w: Which, node: Node, now: seq<Node>)
      requires Linked() && node !in owner
      requires |now| > 0 && now[0] == At(heads, w) && forall x :: x in now <==> x in At(rings, w) || x == node
      ensures Ready(w, node, now, owner[node := w]) && node !in At(rings, w)
      ensures (forall v: Which :: Ring(At(rings, v))) && |At(rings, w)| > 0 && At(rings, w)[0] == At(heads, w)
    {
      forall v: Which ensures Ring(At(rings, v)) { Each(v); }
      Each(w);
      HoldsMore(At(heads, w), At(rings, w), now, owner, w, node);
      forall v: Which | v != w
        ensures Clear(At(rings, v), At(rings, w), node)
        ensures Holds(At(heads, v), At(rings, v), owner[node := w], v)
      {
        Apart(w, v, node);
      }
    }

    lemma CanUnlink(w: Which, k: nat)
      requires Linked() && 0 < k < |At(rings, w)|
      ensures var entry := At(rings, w)[k]; Ready(w, entry, Removed(At(rings, w), k), owner - {entry})
      ensures (forall v: Which :: Ring(At(rings, v))) && |At(rings, w)| > 0 && At(rings, w)[0] == At(heads, w)
    {
      var entry := At(rings, w)[k];
      forall v: Which ensures Ring(At(rings, v)) { Each(v); }
      Each(w);
      RemovedSame(At(rings, w), k);
      HoldsLess(At(heads, w), At(rings, w), Removed(At(rings, w), k), owner, w, entry);
      forall v: Which | v != w
        ensures Clear(At(rings, v), At(rings, w), entry)
        ensures Holds(At(heads, v), At(rings, v), owner - {entry}, v)
      {
        Apart(w, v, entry);
      }
    }

    lemma HeadIn(w: Which)
      requires Linked()
      ensures |At(rings, w)| > 0 && At(rings, w)[0] == At(heads, w)
    {
      Each(w);
    }

    /** A node that is in no list comes to the end of one. */
    method LinkTail(w: Which, node: Node)
      requires Linked() && node !in owner
      modifies `rings, `owner, node`next, node`prev, At(rings, w)`next, At(rings, w)`prev
      ensures Linked() && rings == With(old(rings), w, old(At(rings, w)) + [node])
      ensures owner == old(owner)[node := w] && forall v: Which :: Owns(v)
    {
      hide Ring, Holds, Clear, At, With, Good, Owns;
      ghost var all, o := At(rings, w), Others(w);
      Each(w);
      HeadIn(w);
      CanLink(w, node, all + [node]);
      AddTailBeside(node, At(heads, w), all, At(rings, o[0]), At(rings, o[1]), At(rings, o[2]));
      rings := With(rings, w, all + [node]);
      owner := owner[node := w];
      AllGood(w);
    }

    /** A node that is in no list comes after the `k`-th member of a ring. */
    method LinkAfter(w: Which, at: Node, node: Node, ghost k: nat)
      requires Linked() && node !in owner && k < |At(rings, w)| && At(rings, w)[k] == at
      modifies `rings, `owner, node`next, node`prev, At(rings, w)`next, At(rings, w)`prev
      ensures Linked() && rings == With(old(rings), w, Inserted(old(At(rings, w)), k, node))
      ensures owner == old(owner)[node := w] && forall v: Which :: Owns(v)
    {
      hide Ring, Holds, Clear, Inserted, At, With, Good, Owns;
      ghost var all, o := At(rings, w), Others(w);
      Each(w);
      HeadIn(w);
      InsertedSame(all, k, node);
      CanLink(w, node, Inserted(all, k, node));
      AddBeside(node, at, all, k, At(rings, o[0]), At(rings, o[1]), At(rings, o[2]));
      rings := With(rings, w, Inserted(all, k, node));
      owner := owner[node := w];
      AllGood(w);
    }

    /** A node leaves its list, and is then in none. */
    method Unlink(w: Which, entry: Node, ghost k: nat)
      requires Linked() && 0 < k < |At(rings, w)| && At(rings, w)[k] == entry
      modifies `rings, `owner, At(rings, w)`next, At(rings, w)`prev
      ensures Linked() && rings == With(old(rings), w, Removed(old(At(rings, w)), k))
      ensures owner == old(owner) - {entry} && forall v: Which :: Owns(v)
    {
      hide Ring, Holds, Clear, Removed, At, With, Good, Owns;
      ghost var all, o := At(rings, w), Others(w);
      CanUnlink(w, k);
      DelBeside(entry, all, k, At(rings, o[0]), At(rings, o[1]), At(rings, o[2]));
      rings := With(rings, w, Removed(all, k));
      owner := owner - {entry};
      AllGood(w);
    }

    // ---------------------------------------------------------------- links and segments

    lemma Has(w: Which)
      requires Valid()
      ensures Owns(w) && Ring(At(rings, w)) && Carries(At(rings, w), At(items, w))
    {
      Each(w);
    }

    /** A walk of list `w` has come to `p`: entry `k`, counted from 1, or the head before the
        first and after the last. */
    ghost predicate Cursor(w: Which, p: Node, k: nat)
      reads `rings, `owner, `items, p`seg
      ensures Cursor(w, p, k) ==> k <= |At(items, w)| + 1 && (p == At(heads, w) <==> k == 0 || k == |At(items, w)| + 1)
      ensures Cursor(w, p, k) ==> p in owner && (0 < k <= |At(items, w)| ==> p.seg == At(items, w)[k - 1])
    {
      && |At(rings, w)| == |At(items, w)| + 1 && k <= |At(items, w)| + 1
      && p == At(rings, w)[if k <= |At(items, w)| then k else 0]
      && (p == At(heads, w) <==> k == 0 || k == |At(items, w)| + 1)
      && (0 < k <= |At(items, w)| ==> p.seg == At(items, w)[k - 1])
      && p in owner
    }

    lemma CursorAt(w: Which, p: Node, k: nat)
      requires Valid() && |At(rings, w)| == |At(items, w)| + 1 && k <= |At(items, w)| + 1
      requires p == At(rings, w)[if k <= |At(items, w)| then k else 0]
      ensures Cursor(w, p, k)
    {
      Has(w);
      assert 0 < k <= |At(items, w)| ==> At(rings, w)[(k - 1) + 1].seg == At(items, w)[k - 1];
    }

    lemma CursorIs(w: Which, p: Node, k: nat)
      requires Cursor(w, p, k) && k <= |At(items, w)|
      ensures k < |At(rings, w)| && At(rings, w)[k] == p
    {
    }

    lemma AtHead(w: Which)
      requires Valid()
      ensures Cursor(w, At(heads, w), 0) && Cursor(w, At(heads, w), |At(items, w)| + 1)
    {
      Has(w);
    }

    lemma SuccessorIs(w: Which, next: Node, k: nat)
      requires Valid() && Cursor(w, next, k + 1) && 0 < k <= |At(items, w)|
      ensures k < |At(rings, w)| && next == Removed(At(rings, w), k)[if k <= |At(items, w)| - 1 then k else 0]
      ensures |Removed(At(rings, w), k)| == |At(items, w)|
    {
      Has(w);
    }

    /** `p->next`. */
    method Forward(w: Which, p: Node, ghost k: nat) returns (q: Node)
      requires Valid() && Cursor(w, p, k) && k <= |At(items, w)|
      ensures Cursor(w, q, k + 1)
    {
      Has(w);
      q := p.next;
      CursorAt(w, q, k + 1);
    }

    /** `p->prev`. */
    method Backward(w: Which, p: Node, ghost k: nat) returns (q: Node)
      requires Valid() && Cursor(w, p, k) && k > 0
      ensures Cursor(w, q, k - 1)
    {
      Has(w);
      q := p.prev;
      CursorAt(w, q, k - 1);
    }

    /** What a change of list `w` starts from. */
    lemma Facts(w: Which)
      requires Valid()
      ensures Linked() && Carries(At(rings, w), At(items, w))
      ensures Carries(At(rings, Others(w)[0]), At(items, Others(w)[0]))
      ensures Carries(At(rings, Others(w)[1]), At(items, Others(w)[1]))
      ensures Carries(At(rings, Others(w)[2]), At(items, Others(w)[2]))
      ensures forall x :: x in At(rings, w) ==> x in owner
      ensures |At(rings, w)| == |At(items, w)| + 1
    {
      Has(w);
      Has(Others(w)[0]);
      Has(Others(w)[1]);
      Has(Others(w)[2]);
    }

    /** And what it ends with. */
    lemma ValidAgain(w: Which)
      requires Linked() && (forall v: Which :: Owns(v)) && Carries(At(rings, w), At(items, w))
      requires Carries(At(rings, Others(w)[0]), At(items, Others(w)[0]))
      requires Carries(At(rings, Others(w)[1]), At(items, Others(w)[1]))
      requires Carries(At(rings, Others(w)[2]), At(items, Others(w)[2]))
      ensures Valid()
    {
      forall v: Which ensures Carries(At(rings, v), At(items, v)) {
        assert v == w || v == Others(w)[0] || v == Others(w)[1] || v == Others(w)[2];
      }
    }

    /** `iqueue_add_tail` of a node that carries its segment. */
    method Append(w: Which, node: Node)
      requires Valid() && node !in owner
      modifies `rings, `owner, `items, node`next, node`prev, owner.Keys`next, owner.Keys`prev
      ensures Valid() && rings == With(old(rings), w, old(At(rings, w)) + [node])
      ensures items == With(old(items), w, old(At(items, w)) + [node.seg])
      ensures owner == old(owner)[node := w] && Cursor(w, node, |At(items, w)|)
    {
      AddLast(w, node);
      Has(w);
      CursorAt(w, node, |At(items, w)|);
    }

    method AddLast(w: Which, node: Node)
      requires Valid() && node !in owner
      modifies `rings, `owner, `items, node`next, node`prev, owner.Keys`next, owner.Keys`prev
      ensures Valid() && rings == With(old(rings), w, old(At(rings, w)) + [node])
      ensures items == With(old(items), w, old(At(items, w)) + [node.seg])
      ensures owner == old(owner)[node := w]
    {
      hide Valid, Cursor, Owns, Good, Linked, Carried, Ring, Holds, With;
      Facts(w);
      CarriesMore(At(rings, w), At(items, w), node);
      ghost var now := With(items, w, At(items, w) + [node.seg]);
      LinkTail(w, node);
      items := now;
      ValidAgain(w);
    }

    /** `iqueue_add` of a node that carries its segment. */
    method InsertAfter(w: Which, at: Node, node: Node, ghost k: nat)
      requires Valid() && node !in owner && Cursor(w, at, k) && k <= |At(items, w)|
      modifies `rings, `owner, `items, node`next, node`prev, owner.Keys`next, owner.Keys`prev
      ensures Valid() && items == With(old(items), w, old(At(items, w))[..k] + [node.seg] + old(At(items, w))[k..])
      ensures owner == old(owner)[node := w]
    {
      hide Valid, Cursor, Carries, Owns, Good, Linked, Carried, Ring, Holds, Inserted, With;
      Facts(w);
      CursorIs(w, at, k);
      CarriesInserted(At(rings, w), At(items, w), k, node);
      ghost var ring := Inserted(At(rings, w), k, node);
      assert forall x :: x in ring ==> x == node || x in owner by { InsertedSame(At(rings, w), k, node); }
      ghost var segs := At(items, w)[..k] + [node.seg] + At(items, w)[k..];
      ghost var now := With(items, w, segs);
      LinkAfter(w, at, node, k);
      items := now;
      assert forall x :: x in ring ==> x.seg == old(x.seg);
      assert Carries(ring, segs);
      ValidAgain(w);
    }

    /** `iqueue_del` of entry `k`, of which `next` is the successor. */
    method Delete(w: Which, entry: Node, ghost next: Node, ghost k: nat)
      requires Valid() && Cursor(w, entry, k) && Cursor(w, next, k + 1) && 0 < k <= |At(items, w)|
      modifies `rings, `owner, `items, owner.Keys`next, owner.Keys`prev
      ensures Valid() && items == With(old(items), w, old(At(items, w))[..k - 1] + old(At(items, w))[k..])
      ensures owner == old(owner) - {entry} && Cursor(w, next, k)
    {
      ghost var all := At(rings, w);
      SuccessorIs(w, next, k);
      Drop(w, entry, k);
      CursorAt(w, next, k);
    }

    method Drop(w: Which, entry: Node, ghost k: nat)
      requires Valid() && Cursor(w, entry, k) && 0 < k <= |At(items, w)|
      modifies `rings, `owner, `items, owner.Keys`next, owner.Keys`prev
      ensures Valid() && items == With(old(items), w, old(At(items, w))[..k - 1] + old(At(items, w))[k..])
      ensures owner == old(owner) - {entry} && rings == With(old(rings), w, Removed(old(At(rings, w)), k))
    {
      hide Valid, Cursor, Owns, Good, Linked, Carried, Ring, Holds, With;
      Facts(w);
      CursorIs(w, entry, k);
      CarriesRemoved(At(rings, w), At(items, w), k);
      ghost var now := With(items, w, At(items, w)[..k - 1] + At(items, w)[k..]);
      Unlink(w, entry, k);
      items := now;
      ValidAgain(w);
    }

    ghost method Successor(w: Which, p: Node, k: nat) returns (q: Node)
      requires Valid() && Cursor(w, p, k) && k <= |At(items, w)|
      ensures Cursor(w, q, k + 1)
    {
      Has(w);
      q := p.next;
      CursorAt(w, q, k + 1);
    }

    /** The first entry of list `w` goes to the end of list `v`. */
    method MoveFirst(w: Which, v: Which, p: Node)
      requires Valid() && w != v && Cursor(w, p, 1) && At(items, w) != []
      modifies `rings, `owner, `items, owner.Keys`next, owner.Keys`prev
      ensures Valid() && owner == old(owner)[p := v] && Cursor(v, p, |At(items, v)|)
      ensures items == With(With(old(items), w, old(At(items, w))[1..]), v, old(At(items, v)) + [old(At(items, w))[0]])
    {
      hide Valid, Cursor, With;
      ghost var next := Successor(w, p, 1);
      WithoutFirst(At(items, w));
      Delete(w, p, next, 1);
      Append(v, p);
    }

    // ---------------------------------------------------------------- acknowledgements

    /** The loop of `ikcp_parse_una`: deletes during the walk. */
    method ParseUna(una: int)
      requires Valid() && Counted()
      modifies `rings, `owner, `items, `nsndBuf, owner.Keys`next, owner.Keys`prev
      ensures Valid() && Counted() && owner.Keys <= old(owner.Keys)
      ensures items == old(items).(sndBuf := S.DropBelow(Mod32, old(items).sndBuf, una))
    {
      hide Valid, Cursor, TimeDiff, S.DropBelow;
      AtHead(SndBuf);
      var p := Forward(SndBuf, heads.sndBuf, 0);
      while p != heads.sndBuf
        invariant Valid() && Counted() && owner.Keys <= old(owner.Keys)
        invariant items == old(items).(sndBuf := items.sndBuf) && Cursor(SndBuf, p, 1)
        invariant S.DropBelow(Mod32, items.sndBuf, una) == S.DropBelow(Mod32, old(items).sndBuf, una)
        decreases |items.sndBuf|
      {
        DropStep(items.sndBuf, una);
        var next := Forward(SndBuf, p, 1);
        if TimeDiff(una, p.seg.p.sn) <= 0 { return; }
        WithoutFirst(items.sndBuf);
        Delete(SndBuf, p, next, 1);
        nsndBuf := nsndBuf - 1;
        p := next;
      }
      DropNone(una);
    }

    /** The walk of `ikcp_parse_ack`, to where it stops. */
    method FindAcked(sn: int) returns (p: Node, ghost k: nat)
      requires Valid()
      ensures Cursor(SndBuf, p, k) && k > 0
      ensures forall i :: 0 <= i < k - 1 ==>
                sn != items.sndBuf[i].p.sn && TimeDiff(sn, items.sndBuf[i].p.sn) >= 0
      ensures p == heads.sndBuf || sn == p.seg.p.sn || TimeDiff(sn, p.seg.p.sn) < 0
    {
      hide Valid, Cursor;
      AtHead(SndBuf);
      p := Forward(SndBuf, heads.sndBuf, 0);
      k := 1;
      while p != heads.sndBuf && sn != p.seg.p.sn && TimeDiff(sn, p.seg.p.sn) >= 0
        invariant Cursor(SndBuf, p, k) && k > 0
        invariant forall i :: 0 <= i < k - 1 ==>
                    sn != items.sndBuf[i].p.sn && TimeDiff(sn, items.sndBuf[i].p.sn) >= 0
        decreases |items.sndBuf| - k
      {
        p := Forward(SndBuf, p, k);
        k := k + 1;
      }
    }

    /** The loop of `ikcp_parse_ack`: at most one entry is deleted. */
    method ParseAck(sn: int)
      requires Valid() && Counted()
      modifies `rings, `owner, `items, `nsndBuf, owner.Keys`next, owner.Keys`prev
      ensures Valid() && Counted() && owner.Keys <= old(owner.Keys)
      ensures items == old(items).(sndBuf := S.RemoveAcked(Mod32, old(items).sndBuf, sn))
    {
      hide Valid, Cursor, S.RemoveAcked, TimeDiff;
      var p;
      ghost var k;
      p, k := FindAcked(sn);
      L.RemoveIs(items.sndBuf, k - 1, sn);
      if p != heads.sndBuf && sn == p.seg.p.sn {
        ghost var next := Successor(SndBuf, p, k);
        Delete(SndBuf, p, next, k);
        nsndBuf := nsndBuf - 1;
      }
    }

    /** Changes the segment of an entry. */
    method Store(w: Which, p: Node, ghost k: nat, seg: S.Segment)
      requires Valid() && Cursor(w, p, k) && 0 < k <= |At(items, w)|
      modifies `items, p`seg
      ensures Valid() && items == With(old(items), w, old(At(items, w))[k - 1 := seg])
      ensures Cursor(w, p, k)
    {
      hide Valid, Cursor, Owns, Good, Linked, Carried, Ring, Holds, With;
      Facts(w);
      CursorIs(w, p, k);
      NotElsewhere(w, p, k);
      ghost var now := With(items, w, At(items, w)[k - 1 := seg]);
      p.seg := seg;
      items := now;
      assert Carries(At(rings, w), At(items, w));
      hide Carries;
      ValidAgain(w);
      CursorAt(w, p, k);
    }

    /** An entry is in one place only. */
    lemma NotElsewhere(w: Which, p: Node, k: nat)
      requires Valid() && 0 < k <= |At(items, w)| && k < |At(rings, w)| && At(rings, w)[k] == p
      ensures forall v: Which :: Owns(v) && (v != w ==> p !in At(rings, v))
      ensures forall i :: 0 <= i < |At(rings, w)| && i != k ==> At(rings, w)[i] != p
      ensures p in owner
    {
      Has(w);
      forall v: Which ensures Owns(v) && (v != w ==> p !in At(rings, v)) { Has(v); }
    }

    /** The loop of `ikcp_parse_fastack`: counts in place. */
    method ParseFastAck(sn: int)
      requires Valid() && Counted()
      modifies `items, owner.Keys`seg
      ensures Valid() && Counted()
      ensures items == old(items).(sndBuf := S.BumpBefore(Mod32, old(items).sndBuf, sn))
    {
      hide Valid, Cursor, S.BumpBefore, TimeDiff, W;
      AtHead(SndBuf);
      var p := Forward(SndBuf, heads.sndBuf, 0);
      ghost var k: nat := 1;
      ghost var buf := items.sndBuf;
      while p != heads.sndBuf && TimeDiff(sn, p.seg.p.sn) >= 0
        invariant Valid() && Counted() && Cursor(SndBuf, p, k) && k > 0
        invariant items == old(items).(sndBuf := items.sndBuf) && |items.sndBuf| == |buf|
        invariant forall i :: 0 <= i < k - 1 ==>
                    TimeDiff(sn, buf[i].p.sn) >= 0 && items.sndBuf[i] == L.Bumped(buf[i], sn)
        invariant forall i :: k - 1 <= i < |buf| ==> items.sndBuf[i] == buf[i]
        decreases |items.sndBuf| - k
      {
        if sn != p.seg.p.sn {
          Store(SndBuf, p, k, p.seg.(fastack := W(p.seg.fastack + 1)));
        }
        p := Forward(SndBuf, p, k);
        k := k + 1;
      }
      L.BumpIs(buf, items.sndBuf, k - 1, sn);
    }

    // ---------------------------------------------------------------- receiving

    /** The backward scan of `ikcp_parse_data`, to where it stops. */
    method FindPlace(sn: int) returns (p: Node, ghost k: nat)
      requires Valid()
      ensures Cursor(RcvBuf, p, k) && k <= |items.rcvBuf|
      ensures forall i :: k <= i < |items.rcvBuf| ==>
                items.rcvBuf[i].p.sn != sn && TimeDiff(sn, items.rcvBuf[i].p.sn) <= 0
      ensures p == heads.rcvBuf || p.seg.p.sn == sn || TimeDiff(sn, p.seg.p.sn) > 0
    {
      hide Valid, Cursor;
      AtHead(RcvBuf);
      p := Backward(RcvBuf, heads.rcvBuf, |items.rcvBuf| + 1);
      k := |items.rcvBuf|;
      while p != heads.rcvBuf && p.seg.p.sn != sn && TimeDiff(sn, p.seg.p.sn) <= 0
        invariant Cursor(RcvBuf, p, k) && k <= |items.rcvBuf|
        invariant forall i :: k <= i < |items.rcvBuf| ==>
                    items.rcvBuf[i].p.sn != sn && TimeDiff(sn, items.rcvBuf[i].p.sn) <= 0
        decreases k
      {
        p := Backward(RcvBuf, p, k);
        k := k - 1;
      }
    }

    /** The first half of `ikcp_parse_data`: the new segment goes in where the scan stopped,
        unless its number is there already. */
    method InsertReceived(node: Node)
      requires Valid() && Counted() && node !in owner
      modifies `rings, `owner, `items, `nrcvBuf, node`next, node`prev, owner.Keys`next, owner.Keys`prev
      ensures Valid() && Counted() && owner.Keys <= old(owner.Keys) + {node}
      ensures items == old(items).(rcvBuf := items.rcvBuf)
      ensures Packets(items.rcvBuf) == R.Insert(Mod32, Packets(old(items).rcvBuf), node.seg.p)
    {
      hide Valid, Cursor, R.Insert, TimeDiff;
      ghost var buf := items.rcvBuf;
      var p;
      ghost var k;
      p, k := FindPlace(node.seg.p.sn);
      L.InsertIs(Packets(buf), k, node.seg.p);
      PacketsInserted(buf, k, node.seg);
      if p == heads.rcvBuf || p.seg.p.sn != node.seg.p.sn {
        InsertAfter(RcvBuf, p, node, k);
        nrcvBuf := nrcvBuf + 1;
      }
    }

    /** One turn of the drain loop: a node moves from one list to the other. */
    method DrainFirst(p: Node) returns (next: Node)
      requires Valid() && Counted() && Cursor(RcvBuf, p, 1) && items.rcvBuf != []
      modifies `rings, `owner, `items, `nrcvBuf, `nrcvQue, owner.Keys`next, owner.Keys`prev
      ensures Valid() && Counted() && owner.Keys <= old(owner.Keys) && Cursor(RcvBuf, next, 1)
      ensures items == old(items).(rcvBuf := old(items).rcvBuf[1..],
                                   rcvQueue := old(items).rcvQueue + [old(items).rcvBuf[0]])
    {
      hide Valid, Cursor;
      MoveFirst(RcvBuf, RcvQueue, p);
      nrcvBuf, nrcvQue := nrcvBuf - 1, nrcvQue + 1;
      AtHead(RcvBuf);
      next := Forward(RcvBuf, heads.rcvBuf, 0);
    }

    /** The drain loop, in `ikcp_recv` and in `ikcp_parse_data`. */
    method DrainReceived(rcvNxt: int, rcvWnd: int) returns (nxt: int)
      requires Valid() && Counted()
      modifies `rings, `owner, `items, `nrcvBuf, `nrcvQue, owner.Keys`next, owner.Keys`prev
      ensures Valid() && Counted() && owner.Keys <= old(owner.Keys)
      ensures items == old(items).(rcvBuf := items.rcvBuf, rcvQueue := items.rcvQueue)
      ensures R.Receiver(Packets(items.rcvBuf), Packets(items.rcvQueue), nxt, [])
           == R.Drain(Mod32, R.Receiver(Packets(old(items).rcvBuf), Packets(old(items).rcvQueue), rcvNxt, []), rcvWnd)
    {
      hide Valid, Cursor, R.Drain, Packets;
      nxt := rcvNxt;
      AtHead(RcvBuf);
      var p := Forward(RcvBuf, heads.rcvBuf, 0);
      while p != heads.rcvBuf
        invariant Valid() && Counted() && owner.Keys <= old(owner.Keys) && Cursor(RcvBuf, p, 1)
        invariant items == old(items).(rcvBuf := items.rcvBuf, rcvQueue := items.rcvQueue)
        invariant R.Drain(Mod32, R.Receiver(Packets(items.rcvBuf), Packets(items.rcvQueue), nxt, []), rcvWnd)
               == R.Drain(Mod32, R.Receiver(Packets(old(items).rcvBuf), Packets(old(items).rcvQueue), rcvNxt, []),
                          rcvWnd)
        decreases |items.rcvBuf|
      {
        DrainStep(items.rcvBuf, items.rcvQueue, nxt, rcvWnd);
        if !(p.seg.p.sn == nxt && nrcvQue < rcvWnd) { return; }
        p := DrainFirst(p);
        nxt := W(nxt + 1);
      }
      DrainNone(items.rcvQueue, nxt, rcvWnd);
    }

    /** `ikcp_parse_data`; a segment outside the window is not linked in. */
    method ParseData(node: Node, rcvNxt: int, rcvWnd: int) returns (nxt: int)
      requires Valid() && Counted() && node !in owner
      modifies `rings, `owner, `items, `nrcvBuf, `nrcvQue, node`next, node`prev, owner.Keys`next, owner.Keys`prev
      ensures Valid() && Counted() && owner.Keys <= old(owner.Keys) + {node}
      ensures items == old(items).(rcvBuf := items.rcvBuf, rcvQueue := items.rcvQueue)
      ensures R.Receiver(Packets(items.rcvBuf), Packets(items.rcvQueue), nxt, [])
           == R.ParseData(Mod32, R.Receiver(Packets(old(items).rcvBuf), Packets(old(items).rcvQueue), rcvNxt, []),
                          rcvWnd, old(node.seg.p))
    {
      hide Valid, Cursor, R.Insert, R.Drain, Packets, TimeDiff;
      var sn := node.seg.p.sn;
      if TimeDiff(sn, W(rcvNxt + rcvWnd)) >= 0 || TimeDiff(sn, rcvNxt) < 0 { return rcvNxt; }
      InsertReceived(node);
      nxt := DrainReceived(rcvNxt, rcvWnd);
    }

    /** `ikcp_peeksize`. */
    method PeekSize() returns (length: int)
      requires Valid() && Counted()
      ensures length == R.PeekSize(Packets(items.rcvQueue))
    {
      hide Valid, Cursor;
      ghost var queue := Packets(items.rcvQueue);
      AtHead(RcvQueue);
      var p := Forward(RcvQueue, heads.rcvQueue, 0);
      if p == heads.rcvQueue { return -1; }
      if p.seg.p.frg == 0 { return |p.seg.p.data|; }
      if nrcvQue < p.seg.p.frg + 1 { return -1; }
      length := 0;
      ghost var k: nat := 0;
      assert queue[0..] == queue;
      while p != heads.rcvQueue
        invariant k <= |queue| && Cursor(RcvQueue, p, k + 1)
        invariant length + |R.MergeData(queue[k..])| == |R.MergeData(queue)|
        decreases |queue| - k
      {
        assert queue[k..][0] == queue[k] && queue[k..][1..] == queue[k + 1..];
        length := length + |p.seg.p.data|;
        if p.seg.p.frg == 0 { return; }
        p := Forward(RcvQueue, p, k + 1);
        k := k + 1;
      }
    }

    /** The walk of the merge loop goes on, and deletes the entry unless it peeks. */
    method PassEntry(peek: bool, p: Node, ghost k: nat) returns (next: Node)
      requires Valid() && Counted() && 0 < k <= |items.rcvQueue| && Cursor(RcvQueue, p, k) && (!peek ==> k == 1)
      modifies `rings, `owner, `items, `nrcvQue, owner.Keys`next, owner.Keys`prev
      ensures Valid() && Counted() && owner.Keys <= old(owner.Keys)
      ensures items == if peek then old(items) else old(items).(rcvQueue := old(items).rcvQueue[1..])
      ensures Cursor(RcvQueue, next, if peek then k + 1 else 1)
    {
      hide Valid, Cursor;
      next := Forward(RcvQueue, p, k);
      if !peek {
        WithoutFirst(items.rcvQueue);
        Delete(RcvQueue, p, next, 1);
        nrcvQue := nrcvQue - 1;
      }
    }

    /** The merge loop of `ikcp_recv`: reads during the walk, and deletes unless it peeks. */
    method MergeFragments(peek: bool) returns (data: Bytes)
      requires Valid() && Counted()
      modifies `rings, `owner, `items, `nrcvQue, owner.Keys`next, owner.Keys`prev
      ensures Valid() && Counted() && owner.Keys <= old(owner.Keys)
      ensures data == R.MergeData(Packets(old(items).rcvQueue))
      ensures items == if peek then old(items)
                       else old(items).(rcvQueue := old(items).rcvQueue[R.MergeCount(Packets(old(items).rcvQueue))..])
    {
      hide Valid, Cursor, R.MergeData, R.MergeCount;
      MergeNone();
      data := [];
      ghost var segs := items.rcvQueue;
      ghost var queue := Packets(segs);
      AtHead(RcvQueue);
      var p := Forward(RcvQueue, heads.rcvQueue, 0);
      ghost var n: nat := 0;
      assert queue[0..] == queue && segs[0..] == segs;
      var more := true;
      while more && p != heads.rcvQueue
        invariant Valid() && Counted() && owner.Keys <= old(owner.Keys) && n <= |segs|
        invariant items == if peek then old(items) else old(items).(rcvQueue := segs[n..])
        invariant Cursor(RcvQueue, p, if peek then n + 1 else 1)
        invariant more ==> data + R.MergeData(queue[n..]) == R.MergeData(queue)
        invariant more ==> n + R.MergeCount(queue[n..]) == R.MergeCount(queue)
        invariant !more ==> data == R.MergeData(queue) && n == R.MergeCount(queue)
        decreases |segs| - n, more
      {
        L.MergeStep(queue, n, data);
        assert segs[n..][1..] == segs[n + 1..];
        var seg := p.seg;
        data := data + seg.p.data;
        p := PassEntry(peek, p, if peek then n + 1 else 1);
        n := n + 1;
        if seg.p.frg == 0 { more := false; }
      }
      assert more ==> queue[n..] == [] && data + [] == data;
    }

    /** `ikcp_recv`. */
    method Recv(len: int, rcvNxt: int, rcvWnd: int) returns (code: int, data: Bytes, tell: bool, nxt: int)
      requires Valid() && Counted()
      modifies `rings, `owner, `items, `nrcvBuf, `nrcvQue, owner.Keys`next, owner.Keys`prev
      ensures Valid() && Counted() && owner.Keys <= old(owner.Keys)
      ensures items == old(items).(rcvBuf := items.rcvBuf, rcvQueue := items.rcvQueue)
      ensures R.Received(code, data, R.Receiver(Packets(items.rcvBuf), Packets(items.rcvQueue), nxt, []), tell)
           == R.Recv(Mod32, R.Receiver(Packets(old(items).rcvBuf), Packets(old(items).rcvQueue), rcvNxt, []), rcvWnd,
                     len)
    {
      hide Valid, Cursor, R.Drain, R.MergeData, R.MergeCount;
      ghost var queue := items.rcvQueue;
      if nrcvQue == 0 { return -1, [], false, rcvNxt; }
      var room := if len < 0 then -len else len;
      var peeksize := PeekSize();
      if peeksize < 0 { return -2, [], false, rcvNxt; }
      if peeksize > room { return -3, [], false, rcvNxt; }
      var recover := nrcvQue >= rcvWnd;
      L.PeekIsMerge(Packets(items.rcvQueue));
      data := MergeFragments(len < 0);
      code := |data|;
      assert len >= 0 ==> Packets(items.rcvQueue) == Packets(queue)[R.MergeCount(Packets(queue))..];
      nxt := DrainReceived(rcvNxt, rcvWnd);
      tell := nrcvQue < rcvWnd && recover;
    }

    // ---------------------------------------------------------------- sending

    /** A new node comes behind the last of `snd_queue`, which is then deleted. */
    method ReplaceLast(last: Node, seg: S.Segment)
      requires Valid() && Counted() && items.sndQueue != [] && Cursor(SndQueue, last, |items.sndQueue|)
      modifies `rings, `owner, `items, owner.Keys`next, owner.Keys`prev
      ensures Valid() && Counted() && forall x :: x in owner ==> x in old(owner) || fresh(x)
      ensures items == var segs := old(items).sndQueue; old(items).(sndQueue := segs[..|segs| - 1] + [seg])
    {
      hide Valid, Cursor;
      ghost var segs := items.sndQueue;
      var node := new Node(seg);
      CursorIs(SndQueue, last, |segs|);
      Append(SndQueue, node);
      CursorAt(SndQueue, last, |segs|);
      Delete(SndQueue, last, node, |segs|);
      Replaced(segs, seg);
    }

    /** The stream-mode branch of `ikcp_send`. */
    method ExtendTail(mss: int, data: Bytes) returns (rest: Bytes)
      requires Valid() && Counted()
      modifies `rings, `owner, `items, owner.Keys`next, owner.Keys`prev
      ensures Valid() && Counted() && forall x :: x in owner ==> x in old(owner) || fresh(x)
      ensures items == old(items).(sndQueue := items.sndQueue)
      ensures S.Extended(Chunks(items.sndQueue), rest) == S.Extend(mss, Chunks(old(items).sndQueue), data)
    {
      hide Valid, Cursor;
      rest := data;
      AtHead(SndQueue);
      ghost var segs := items.sndQueue;
      var last := Backward(SndQueue, heads.sndQueue, |segs| + 1);
      if last != heads.sndQueue && |last.seg.p.data| < mss {
        var capacity := mss - |last.seg.p.data|;
        var extend := if |data| < capacity then |data| else capacity;
        var seg := Unfilled(0, last.seg.p.data + data[..extend]);
        ReplaceLast(last, seg);
        rest := data[extend..];
        LastChunk(segs, seg);
      }
    }

    /** A new segment comes to the end of `snd_queue`. */
    method QueueOne(seg: S.Segment)
      requires Valid() && Counted()
      modifies `rings, `owner, `items, `nsndQue, owner.Keys`next, owner.Keys`prev
      ensures Valid() && Counted() && forall x :: x in owner ==> x in old(owner) || fresh(x)
      ensures items == old(items).(sndQueue := old(items).sndQueue + [seg])
    {
      hide Valid, Cursor;
      var node := new Node(seg);
      Append(SndQueue, node);
      nsndQue := nsndQue + 1;
    }

    /** The fragment loop of `ikcp_send`. */
    method QueueFragments(mss: int, stream: bool, data: Bytes, count: nat)
      requires Valid() && Counted() && mss > 0
      modifies `rings, `owner, `items, `nsndQue, owner.Keys`next, owner.Keys`prev
      ensures Valid() && Counted() && forall x :: x in owner ==> x in old(owner) || fresh(x)
      ensures items == old(items).(sndQueue := items.sndQueue)
      ensures Chunks(items.sndQueue) == Chunks(old(items).sndQueue) + S.Fragments(mss, stream, data, count)
    {
      hide Valid, Cursor, Chunks;
      var rest := data;
      var i := 0;
      while i < count
        invariant 0 <= i <= count && Valid() && Counted()
        invariant forall x :: x in owner ==> x in old(owner) || fresh(x)
        invariant items == old(items).(sndQueue := items.sndQueue)
        invariant Chunks(items.sndQueue) + S.Fragments(mss, stream, rest, count - i)
               == Chunks(old(items).sndQueue) + S.Fragments(mss, stream, data, count)
      {
        var size := if |rest| > mss then mss else |rest|;
        var seg := Unfilled(if stream then 0 else count - i - 1, rest[..size]);
        OneChunkMore(items.sndQueue, seg);
        L.Shift(Chunks(items.sndQueue), S.Chunk(seg.p.frg, seg.p.data),
                S.Fragments(mss, stream, rest[size..], count - i - 1));
        QueueOne(seg);
        rest := rest[size..];
        i := i + 1;
      }
      assert S.Fragments(mss, stream, rest, 0) == [];
    }

    /** `ikcp_send`. */
    method Send(mss: int, stream: bool, data: Bytes, len: int) returns (code: int)
      requires Valid() && Counted() && mss > 0 && len <= |data|
      modifies `rings, `owner, `items, `nsndQue, owner.Keys`next, owner.Keys`prev
      ensures Valid() && Counted() && forall x :: x in owner ==> x in old(owner) || fresh(x)
      ensures items == old(items).(sndQueue := items.sndQueue)
      ensures S.Sent(code, Chunks(items.sndQueue)) == S.Send(mss, stream, Chunks(old(items).sndQueue), len, data)
    {
      hide Valid, Chunks, S.Fragments, S.Extend;
      if len < 0 { return -1; }
      var rest := data[..len];
      if stream {
        rest := ExtendTail(mss, rest);
        if rest == [] { return 0; }
      }
      var count := S.FragmentCount(mss, |rest|);
      if count > 255 { return -2; }
      QueueFragments(mss, stream, rest, count);
      code := 0;
    }

    /** One turn of the admission loop: the node moves, and is filled in. */
    method AdmitFirst(p: Node, t: Packet, sn: int, now: int, rto: int)
      requires Valid() && Counted() && Cursor(SndQueue, p, 1) && items.sndQueue != []
      modifies `rings, `owner, `items, `nsndQue, `nsndBuf, owner.Keys
      ensures Valid() && Counted() && owner.Keys <= old(owner.Keys)
      ensures var first := old(items).sndQueue[0];
              var seg := E.NewSegment(t, S.Chunk(first.p.frg, first.p.data), sn, now, rto);
              items == old(items).(sndQueue := old(items).sndQueue[1..], sndBuf := old(items).sndBuf + [seg])
    {
      hide Valid, Cursor;
      MoveFirst(SndQueue, SndBuf, p);
      nsndQue, nsndBuf := nsndQue - 1, nsndBuf + 1;
      var seg := E.NewSegment(t, S.Chunk(p.seg.p.frg, p.seg.p.data), sn, now, rto);
      Store(SndBuf, p, |items.sndBuf|, seg);
      LastSet(old(items).sndBuf, old(items).sndQueue[0], seg);
    }

    /** The admission loop of `ikcp_flush`: nodes move from one list to the other and are filled
        in. */
    method AdmitSegments(una: int, sndNxt: int, window: int, t: Packet, now: int, rto: int) returns (nxt: int)
      requires Valid() && Counted()
      modifies `rings, `owner, `items, `nsndQue, `nsndBuf, owner.Keys
      ensures Valid() && Counted() && owner.Keys <= old(owner.Keys)
      ensures items == old(items).(sndQueue := items.sndQueue, sndBuf := items.sndBuf)
      ensures S.Sender(Chunks(items.sndQueue), items.sndBuf, una, nxt)
           == E.Admit(Mod32, S.Sender(Chunks(old(items).sndQueue), old(items).sndBuf, una, sndNxt), window, t, now, rto)
    {
      hide Valid, Cursor, E.Admit, E.NewSegment, Chunks, TimeDiff;
      nxt := sndNxt;
      while TimeDiff(nxt, W(una + window)) < 0
        invariant Valid() && Counted() && owner.Keys <= old(owner.Keys)
        invariant items == old(items).(sndQueue := items.sndQueue, sndBuf := items.sndBuf)
        invariant E.Admit(Mod32, S.Sender(Chunks(items.sndQueue), items.sndBuf, una, nxt), window, t, now, rto)
               == E.Admit(Mod32, S.Sender(Chunks(old(items).sndQueue), old(items).sndBuf, una, sndNxt), window, t,
                          now, rto)
        decreases |items.sndQueue|
      {
        AtHead(SndQueue);
        var p := Forward(SndQueue, heads.sndQueue, 0);
        AdmitStep(items.sndQueue, items.sndBuf, una, nxt, window, t, now, rto);
        if p == heads.sndQueue { return; }
        AdmitFirst(p, t, nxt, now, rto);
        nxt := W(nxt + 1);
      }
      AdmitStep(items.sndQueue, items.sndBuf, una, nxt, window, t, now, rto);
    }
  }
}
