/** The binary heap of `src/net/TimerQueue.cpp` as a value: place 0 is unused, the root is
    at place 1, and the children of place i are at 2i and 2i + 1. */
module TimerHeap {

  datatype Entry = Entry(fd: int, ts: int, interval: int, repeated: bool)

  type Heap = seq<Entry>

  function Swap(h: Heap, i: nat, j: nat): (r: Heap)
    requires i < |h| && j < |h|
    ensures |r| == |h|
  {
    h[i := h[j]][j := h[i]]
  }

  /** `heapUp`. */
  function Up(h: Heap, pos: nat): (r: Heap)
    requires 0 < pos < |h|
    ensures |r| == |h|
    decreases pos
  {
    if pos > 1 && h[pos / 2].ts > h[pos].ts then Up(Swap(h, pos, pos / 2), pos / 2) else h
  }

  /** The place `heapDown` moves to from `pos`, or `pos` itself. */
  function Smallest(h: Heap, pos: nat): (r: nat)
    requires 0 < pos && 2 * pos < |h|
    ensures pos <= r < |h| && (r == pos || r == 2 * pos || r == 2 * pos + 1)
  {
    var t := if h[2 * pos].ts < h[pos].ts then 2 * pos else pos;
    if 2 * pos + 1 < |h| && h[2 * pos + 1].ts < h[t].ts then 2 * pos + 1 else t
  }

  /** `heapDown`. */
  function Down(h: Heap, pos: nat): (r: Heap)
    requires 0 < pos
    ensures |r| == |h|
    decreases |h| - pos
  {
    if 2 * pos >= |h| then h
    else
      var t := Smallest(h, pos);
      if t == pos then h else Down(Swap(h, pos, t), t)
  }

  /** `heapInsert`. */
  function Insert(h: Heap, e: Entry): Heap
    requires |h| > 0
  {
    Up(h + [e], |h|)
  }

  /** `heapDelete`: the last entry takes the place, and only sifts down. */
  function Delete(h: Heap, pos: nat): (r: Heap)
    requires 0 < pos < |h|
    ensures |r| == |h| - 1
  {
    Down(Swap(h, pos, |h| - 1)[..|h| - 1], pos)
  }

  // ---------------------------------------------------------------- order

  predicate Ordered(h: Heap) {
    forall i :: 2 <= i < |h| ==> h[i / 2].ts <= h[i].ts
  }

  /** Ordered, except perhaps between `pos` and its parent. */
  predicate OrderedBut(h: Heap, pos: nat) {
    && (forall i :: 2 <= i < |h| && i != pos ==> h[i / 2].ts <= h[i].ts)
    && (forall i :: 2 <= i < |h| && i / 2 == pos && pos / 2 >= 1 ==> h[pos / 2].ts <= h[i].ts)
  }

  lemma {:induction false} UpOrders(h: Heap, pos: nat)
    requires 0 < pos < |h| && OrderedBut(h, pos)
    ensures Ordered(Up(h, pos))
    decreases pos
  {
    if pos > 1 && h[pos / 2].ts > h[pos].ts {
      var s := Swap(h, pos, pos / 2);
      forall i | 2 <= i < |s| && i != pos / 2 ensures s[i / 2].ts <= s[i].ts {
        assert h[i / 2].ts <= h[i].ts || i == pos;
      }
      forall i | 2 <= i < |s| && i / 2 == pos / 2 && pos / 2 / 2 >= 1 ensures s[pos / 2 / 2].ts <= s[i].ts {
        assert h[pos / 2 / 2].ts <= h[pos / 2].ts;
        assert i != pos ==> h[i / 2].ts <= h[i].ts;
      }
      UpOrders(s, pos / 2);
    } else {
      assert pos > 1 ==> h[pos / 2].ts <= h[pos].ts;
    }
  }

  /** Ordered, except perhaps between `pos` and its children. */
  predicate OrderedAbove(h: Heap, pos: nat) {
    && (forall i :: 2 <= i < |h| && i / 2 != pos ==> h[i / 2].ts <= h[i].ts)
    && (forall i :: 2 <= i < |h| && i / 2 == pos && pos / 2 >= 1 ==> h[pos / 2].ts <= h[i].ts)
  }

  lemma {:induction false} DownOrders(h: Heap, pos: nat)
    requires 0 < pos && OrderedAbove(h, pos)
    ensures Ordered(Down(h, pos))
    decreases |h| - pos
  {
    if 2 * pos >= |h| {
    } else {
      var t := Smallest(h, pos);
      if t != pos {
        var s := Swap(h, pos, t);
        DownStep(h, pos, t);
        DownOrders(s, t);
      } else {
        forall i | 2 <= i < |h| ensures h[i / 2].ts <= h[i].ts {
          if i / 2 == pos { assert i == 2 * pos || i == 2 * pos + 1; }
        }
      }
    }
  }

  lemma DownStep(h: Heap, pos: nat, t: nat)
    requires 0 < pos && 2 * pos < |h| && OrderedAbove(h, pos) && t == Smallest(h, pos) && t != pos
    ensures OrderedAbove(Swap(h, pos, t), t)
  {
    var s := Swap(h, pos, t);
    forall i | 2 <= i < |s| && i / 2 != t ensures s[i / 2].ts <= s[i].ts {
      if i / 2 == pos { assert i == 2 * pos || i == 2 * pos + 1; }
      else { assert h[i / 2].ts <= h[i].ts; }
    }
    forall i | 2 <= i < |s| && i / 2 == t ensures s[t / 2].ts <= s[i].ts {
      assert h[i / 2].ts <= h[i].ts;
    }
  }

  lemma InsertOrders(h: Heap, e: Entry)
    requires |h| > 0 && Ordered(h)
    ensures Ordered(Insert(h, e))
  {
    var g := h + [e];
    forall i | 2 <= i < |g| && i != |h| ensures g[i / 2].ts <= g[i].ts {
      assert g[i] == h[i] && g[i / 2] == h[i / 2];
    }
    UpOrders(g, |h|);
  }

  /** In an ordered heap the root is the earliest. */
  lemma {:induction false} RootIsEarliest(h: Heap, i: nat)
    requires Ordered(h) && 0 < i < |h|
    ensures h[1].ts <= h[i].ts
  {
    if i > 1 { RootIsEarliest(h, i / 2); }
  }

  /** The entry that takes the place of the deleted one is not earlier than its new parent. */
  predicate Fits(h: Heap, pos: nat)
    requires 0 < pos < |h|
  {
    pos == |h| - 1 || pos == 1 || h[pos / 2].ts <= h[|h| - 1].ts
  }

  lemma DeleteKeepsOrder(h: Heap, pos: nat)
    requires Ordered(h) && 0 < pos < |h| && Fits(h, pos)
    ensures Ordered(Delete(h, pos))
  {
    hide Down;
    var g := Swap(h, pos, |h| - 1)[..|h| - 1];
    ShortenedAbove(h, pos, g);
    DownOrders(g, pos);
  }

  lemma ShortenedAbove(h: Heap, pos: nat, g: Heap)
    requires Ordered(h) && 0 < pos < |h| && Fits(h, pos) && g == Swap(h, pos, |h| - 1)[..|h| - 1]
    ensures OrderedAbove(g, pos)
  {
    forall i | 2 <= i < |g| && i / 2 != pos ensures g[i / 2].ts <= g[i].ts {
      assert h[i / 2].ts <= h[i].ts;
    }
    forall i | 2 <= i < |g| && i / 2 == pos && pos / 2 >= 1 ensures g[pos / 2].ts <= g[i].ts {
      assert h[pos / 2].ts <= h[pos].ts && h[i / 2].ts <= h[i].ts;
    }
  }

  /** Otherwise nothing sifts it up, and the heap is out of order from then on. */
  lemma DeleteBreaksOrder(h: Heap, pos: nat)
    requires Ordered(h) && 0 < pos < |h| && !Fits(h, pos)
    ensures !Ordered(Delete(h, pos))
    ensures Delete(h, pos)[pos / 2].ts > Delete(h, pos)[pos].ts
  {
    var n := |h| - 1;
    var g := Swap(h, pos, n)[..n];
    assert h[pos / 2].ts <= h[pos].ts;
    if 2 * pos < |g| {
      assert h[2 * pos / 2].ts <= h[2 * pos].ts;
      if 2 * pos + 1 < |g| { assert h[(2 * pos + 1) / 2].ts <= h[2 * pos + 1].ts; }
      assert Smallest(g, pos) == pos;
    }
    assert Delete(h, pos) == g;
  }

  /** Cancelling keeps the heap order exactly when the moved entry fits. */
  lemma DeleteOrderIff(h: Heap, pos: nat)
    requires Ordered(h) && 0 < pos < |h|
    ensures Ordered(Delete(h, pos)) <==> Fits(h, pos)
  {
    if Fits(h, pos) { DeleteKeepsOrder(h, pos); } else { DeleteBreaksOrder(h, pos); }
  }

  // ---------------------------------------------------------------- contents

  /** The entries, without the unused place. */
  function Contents(h: Heap): multiset<Entry>
    requires |h| > 0
  {
    multiset(h[1..])
  }

  lemma SwapContents(h: Heap, i: nat, j: nat)
    requires 0 < i < |h| && 0 < j < |h|
    ensures Contents(Swap(h, i, j)) == Contents(h)
  {
    var t := h[1..];
    assert Swap(h, i, j)[1..] == t[i - 1 := t[j - 1]][j - 1 := t[i - 1]];
  }

  lemma {:induction false} UpContents(h: Heap, pos: nat)
    requires 0 < pos < |h|
    ensures Contents(Up(h, pos)) == Contents(h)
    decreases pos
  {
    if pos > 1 && h[pos / 2].ts > h[pos].ts {
      SwapContents(h, pos, pos / 2);
      UpContents(Swap(h, pos, pos / 2), pos / 2);
    }
  }

  lemma {:induction false} DownContents(h: Heap, pos: nat)
    requires 0 < pos && |h| > 0
    ensures Contents(Down(h, pos)) == Contents(h)
    decreases |h| - pos
  {
    if 2 * pos < |h| {
      var t := Smallest(h, pos);
      if t != pos {
        SwapContents(h, pos, t);
        DownContents(Swap(h, pos, t), t);
      }
    }
  }

  lemma InsertContents(h: Heap, e: Entry)
    requires |h| > 0
    ensures Contents(Insert(h, e)) == Contents(h) + multiset{e}
  {
    UpContents(h + [e], |h|);
    assert (h + [e])[1..] == h[1..] + [e];
  }

  lemma DeleteContents(h: Heap, pos: nat)
    requires 0 < pos < |h|
    ensures Contents(Delete(h, pos)) == Contents(h) - multiset{h[pos]}
    ensures h[pos] in Contents(h)
  {
    hide Down, Swap;
    var n := |h| - 1;
    var g := Swap(h, pos, n);
    SwapContents(h, pos, n);
    DownContents(g[..n], pos);
    DropLast(g);
    assert g[n] == h[pos] by { LastOfSwap(h, pos); }
    assert h[pos] in h[1..] by { assert h[1..][pos - 1] == h[pos]; }
  }

  lemma LastOfSwap(h: Heap, pos: nat)
    requires 0 < pos < |h|
    ensures Swap(h, pos, |h| - 1)[|h| - 1] == h[pos]
  {
  }

  lemma DropLast(g: Heap)
    requires |g| > 1
    ensures Contents(g[..|g| - 1]) == Contents(g) - multiset{g[|g| - 1]}
  {
    assert g[1..] == g[..|g| - 1][1..] + [g[|g| - 1]];
  }
}
