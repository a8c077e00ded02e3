/** The packet format: 24 header bytes, least significant byte first, then the data.
    Models the encode/decode helpers, `ikcp_encode_seg`, the header checks at the
    top of the loop of `ikcp_input`, and the way `ikcp_flush` packs segments into
    datagrams of at most `mtu` bytes. */
module Wire {
  import opened Word32

  type Byte = x: int | 0 <= x < 256
  type Bytes = seq<Byte>

  const OVERHEAD: int := 24
  const CMD_PUSH: int := 81
  const CMD_ACK: int := 82
  const CMD_WASK: int := 83
  const CMD_WINS: int := 84

  datatype Packet = Packet(conv: int, cmd: int, frg: int, wnd: int, ts: int, sn: int, una: int, data: Bytes)

  /** One call of the output callback: the segments written to the buffer since the last. */
  type Datagram = seq<Packet>

  predicate KnownCommand(cmd: int) {
    cmd == CMD_PUSH || cmd == CMD_ACK || cmd == CMD_WASK || cmd == CMD_WINS
  }

  /** Every field fits the width the header gives it. */
  predicate FitsHeader(p: Packet) {
    && 0 <= p.conv < TWO32 && 0 <= p.cmd < 256 && 0 <= p.frg < 256 && 0 <= p.wnd < 65536
    && 0 <= p.ts < TWO32 && 0 <= p.sn < TWO32 && 0 <= p.una < TWO32 && |p.data| < TWO32
  }

  function Put16(x: int): (r: Bytes)
    ensures |r| == 2
  {
    [x % 256, x / 256 % 256]
  }

  function Put32(x: int): (r: Bytes)
    ensures |r| == 4
  {
    [x % 256, x / 256 % 256, x / 256 / 256 % 256, x / 256 / 256 / 256 % 256]
  }

  function Get16(s: Bytes, at: nat): (r: int)
    requires at + 2 <= |s|
    ensures 0 <= r < 65536
  {
    0x100 * (s[at + 1] as int) + s[at]
  }

  function Get32(s: Bytes, at: nat): (r: Word)
    requires at + 4 <= |s|
  {
    (s[at] as int) + 0x100 * (s[at + 1] as int) + 0x1_0000 * (s[at + 2] as int) + 0x100_0000 * (s[at + 3] as int)
  }

  lemma Get32OfPut32(x: int)
    ensures Get32(Put32(x), 0) == W(x)
  {
    var a := x / 256;
    var b := a / 256;
    var c := b / 256;
    assert x == 256 * a + x % 256 && a == 256 * b + a % 256 && b == 256 * c + b % 256;
    assert c == 256 * (c / 256) + c % 256;
    WordOf(x, x % 256 + 256 * (a % 256) + 65536 * (b % 256) + 16777216 * (c % 256), c / 256);
    hide W;
  }

  lemma WordOf(x: int, low: int, high: int)
    requires x == low + TWO32 * high && 0 <= low < TWO32
    ensures W(x) == low
  {
  }

  /** `ikcp_encode_seg`, with its casts to 8 and 16 bits. */
  function Header(p: Packet): (r: Bytes)
    ensures |r| == OVERHEAD
  {
    Put32(p.conv) + [p.cmd % 256, p.frg % 256] + Put16(p.wnd) + Put32(p.ts) +
    Put32(p.sn) + Put32(p.una) + Put32(|p.data|)
  }

  function Encode(p: Packet): (r: Bytes)
    ensures |r| == OVERHEAD + |p.data|
  {
    Header(p) + p.data
  }

  /** What one turn of the loop of `ikcp_input` reads. */
  datatype Parsed = Stop | Bad(code: int) | Next(p: Packet, rest: Bytes)

  function ParseNext(conv: int, s: Bytes): (r: Parsed)
    ensures r.Next? ==> |r.rest| + OVERHEAD <= |s| && FitsHeader(r.p) && KnownCommand(r.p.cmd) && r.p.conv == conv
    ensures r.Bad? ==> r.code < 0
  {
    if |s| < OVERHEAD then Stop
    else if Get32(s, 0) != conv then Bad(-1)
    else
      var len := Get32(s, 20);
      if |s| - OVERHEAD < len then Bad(-2)
      else if !KnownCommand(s[4]) then Bad(-3)
      else
        Next(Packet(conv, s[4], s[5], Get16(s, 6), Get32(s, 8), Get32(s, 12), Get32(s, 16),
                    s[OVERHEAD..OVERHEAD + len]),
             s[OVERHEAD + len..])
  }

  datatype Parse = Parse(status: int, packets: seq<Packet>)

  /** The packets the loop of `ikcp_input` handles before it stops, and its status.
      The recursion shows that the loop ends on any bytes. */
  function ParseAll(conv: int, s: Bytes): (r: Parse)
    ensures r.status <= 0
    ensures forall p :: p in r.packets ==> FitsHeader(p) && KnownCommand(p.cmd) && p.conv == conv
    decreases |s|
  {
    match ParseNext(conv, s)
    case Stop => Parse(0, [])
    case Bad(code) => Parse(code, [])
    case Next(p, rest) =>
      var r := ParseAll(conv, rest);
      Parse(r.status, [p] + r.packets)
  }

  function EncodeAll(ps: Datagram): (r: Bytes) {
    if ps == [] then [] else EncodeAll(ps[..|ps| - 1]) + Encode(ps[|ps| - 1])
  }

  lemma {:induction false} EncodeAllFront(ps: Datagram)
    requires ps != []
    ensures EncodeAll(ps) == Encode(ps[0]) + EncodeAll(ps[1..])
  {
    hide Encode;
    var n := |ps| - 1;
    if n == 0 {
      assert ps[..0] == [] && ps[1..] == [];
    } else {
      EncodeAllFront(ps[..n]);
      assert ps[..n][1..] == ps[1..][..n - 1];
      var middle := EncodeAll(ps[..n][1..]);
      assert EncodeAll(ps[1..]) == middle + Encode(ps[n]);
      Associate(Encode(ps[0]), middle, Encode(ps[n]));
    }
  }

  lemma Associate(a: Bytes, b: Bytes, c: Bytes)
    ensures a + b + c == a + (b + c)
  {
  }

  /** The datagrams as the output callback gets them. */
  function EncodeDs(ds: seq<Datagram>): (r: seq<Bytes>)
    ensures |r| == |ds| && forall i :: 0 <= i < |r| ==> r[i] == EncodeAll(ds[i])
  {
    seq(|ds|, i requires 0 <= i < |ds| => EncodeAll(ds[i]))
  }

  /** Reading a header back from the front of an encoded packet. */
  lemma HeaderRoundTrip(p: Packet, tail: Bytes)
    requires FitsHeader(p)
    ensures var s := Encode(p) + tail;
            && Get32(s, 0) == p.conv && s[4] == p.cmd && s[5] == p.frg && Get16(s, 6) == p.wnd
            && Get32(s, 8) == p.ts && Get32(s, 12) == p.sn && Get32(s, 16) == p.una
            && Get32(s, 20) == |p.data|
            && s[OVERHEAD..OVERHEAD + |p.data|] == p.data && s[OVERHEAD + |p.data|..] == tail
  {
    var s := Encode(p) + tail;
    assert s[0..4] == Put32(p.conv);
    assert s[6..8] == Put16(p.wnd);
    assert s[8..12] == Put32(p.ts);
    assert s[12..16] == Put32(p.sn);
    assert s[16..20] == Put32(p.una);
    assert s[20..24] == Put32(|p.data|);
    SliceGet(s, 0, p.conv); SliceGet(s, 8, p.ts); SliceGet(s, 12, p.sn);
    SliceGet(s, 16, p.una); SliceGet(s, 20, |p.data|);
    assert s[6] == Put16(p.wnd)[0] && s[7] == Put16(p.wnd)[1];
  }

  lemma SliceGet(s: Bytes, at: nat, x: int)
    requires at + 4 <= |s| && s[at..at + 4] == Put32(x) && 0 <= x < TWO32
    ensures Get32(s, at) == x
  {
    var t := Put32(x);
    assert s[at] == t[0] && s[at + 1] == t[1] && s[at + 2] == t[2] && s[at + 3] == t[3];
    Get32OfPut32(x);
  }

  predicate Sendable(conv: int, p: Packet) {
    FitsHeader(p) && KnownCommand(p.cmd) && p.conv == conv
  }

  /** The parser undoes the printer: a datagram of whole packets for this conversation
      is accepted and yields exactly those packets, in order. */
  lemma {:induction false} ParseOfEncode(conv: int, ps: Datagram)
    requires forall p :: p in ps ==> Sendable(conv, p)
    ensures ParseAll(conv, EncodeAll(ps)) == Parse(0, ps)
  {
    if ps != [] {
      EncodeAllFront(ps);
      assert ps[0] in ps;
      HeaderRoundTrip(ps[0], EncodeAll(ps[1..]));
      assert ParseNext(conv, EncodeAll(ps)) == Next(ps[0], EncodeAll(ps[1..]));
      ParseOfEncode(conv, ps[1..]);
    }
  }

  /** Four bytes hold a number, least significant byte first. */
  predicate LittleEndian(s: Bytes, i: nat, x: int) {
    && i + 4 <= |s|
    && (s[i] as int) + 256 * (s[i + 1] as int) + 65536 * (s[i + 2] as int) + 16777216 * (s[i + 3] as int) == x
  }

  /** The places of the fields: conv 0, cmd 4, frg 5, wnd 6, ts 8, sn 12, una 16, len 20. */
  lemma HeaderLayout(p: Packet)
    requires FitsHeader(p)
    ensures var h := Header(p);
            && |h| == 24 && Encode(p) == h + p.data
            && LittleEndian(h, 0, p.conv) && h[4] == p.cmd && h[5] == p.frg
            && (h[6] as int) + 256 * (h[7] as int) == p.wnd
            && LittleEndian(h, 8, p.ts) && LittleEndian(h, 12, p.sn) && LittleEndian(h, 16, p.una)
            && LittleEndian(h, 20, |p.data|)
  {
    Put32Layout(p.conv);
    Put32Layout(p.ts);
    Put32Layout(p.sn);
    Put32Layout(p.una);
    Put32Layout(|p.data|);
    hide Put32;
  }

  lemma Put32Layout(x: int)
    requires 0 <= x < TWO32
    ensures LittleEndian(Put32(x), 0, x)
  {
    var a := x / 256;
    var b := a / 256;
    assert x == 256 * a + x % 256 && a == 256 * b + a % 256;
  }

  // ---------------------------------------------------------------- what the parser refuses

  /** After whole packets the loop goes on with what is left, and ends as it ends on that. */
  lemma {:induction false} ParseGoesOn(conv: int, ps: Datagram, rest: Bytes)
    requires forall p :: p in ps ==> Sendable(conv, p)
    ensures ParseAll(conv, EncodeAll(ps) + rest)
         == Parse(ParseAll(conv, rest).status, ps + ParseAll(conv, rest).packets)
    decreases |ps|
  {
    hide Encode, EncodeAll, ParseAll;
    var end := ParseAll(conv, rest).packets;
    if ps == [] {
      EncodeNone();
      assert [] + rest == rest && ps + end == end;
    } else {
      EncodeAllFront(ps);
      assert ps[0] in ps;
      Associate(Encode(ps[0]), EncodeAll(ps[1..]), rest);
      OneParsed(conv, ps[0], EncodeAll(ps[1..]) + rest);
      ParseGoesOn(conv, ps[1..], rest);
      FirstApart(ps, end);
    }
  }

  lemma EncodeNone()
    ensures EncodeAll([]) == []
  {
  }

  lemma FirstApart<X>(ps: seq<X>, end: seq<X>)
    requires ps != []
    ensures [ps[0]] + (ps[1..] + end) == ps + end
  {
  }

  lemma OneParsed(conv: int, p: Packet, more: Bytes)
    requires Sendable(conv, p)
    ensures ParseAll(conv, Encode(p) + more)
         == Parse(ParseAll(conv, more).status, [p] + ParseAll(conv, more).packets)
  {
    hide Encode, Get32, Get16;
    HeaderRoundTrip(p, more);
    assert ParseNext(conv, Encode(p) + more) == Next(p, more);
  }

  /** Less than a header ends the loop; a header of another conversation, of data that is not all
      there or of an unknown command is an error, in this order, and what follows is not read. */
  lemma RejectedBy(conv: int, p: Packet, tail: Bytes)
    requires FitsHeader(p)
    requires p.conv != conv || |tail| < |p.data| || !KnownCommand(p.cmd)
    ensures ParseAll(conv, Header(p) + tail)
         == Parse(if p.conv != conv then -1 else if |tail| < |p.data| then -2 else -3, [])
    ensures |tail| < OVERHEAD ==> ParseAll(conv, tail) == Parse(0, [])
  {
    var s := Header(p) + tail;
    HeaderRoundTrip(p.(data := []), []);
    HeaderLayout(p);
    assert s[..24] == Header(p);
    Get32OfLayout(s, 0, p.conv);
    Get32OfLayout(s, 20, |p.data|);
    hide Header, Get32, LittleEndian;
  }

  lemma Get32OfLayout(s: Bytes, i: nat, x: int)
    requires LittleEndian(s, i, x)
    ensures Get32(s, i) == x
  {
  }

  // ---------------------------------------------------------------- packing

  function Size(p: Packet): nat {
    OVERHEAD + |p.data|
  }

  function SizeAll(ps: Datagram): nat {
    if ps == [] then 0 else SizeAll(ps[..|ps| - 1]) + Size(ps[|ps| - 1])
  }

  lemma {:induction false} EncodedSize(ps: Datagram)
    ensures |EncodeAll(ps)| == SizeAll(ps)
  {
    if ps != [] {
      EncodedSize(ps[..|ps| - 1]);
    }
  }

  /** The output buffer during a flush: datagrams handed out, and what is still in the buffer. */
  datatype Outbox = Outbox(done: seq<Datagram>, cur: Datagram)

  /** Hands out the buffer; `ikcp_output` drops an empty one. */
  function Emit(b: Outbox): Outbox {
    if b.cur == [] then b else Outbox(b.done + [b.cur], [])
  }

  /** Writes one segment, first handing out the buffer when the segment does not fit. */
  function Put(mtu: int, b: Outbox, p: Packet): Outbox {
    var b' := if SizeAll(b.cur) + Size(p) > mtu then Emit(b) else b;
    b'.(cur := b'.cur + [p])
  }

  function PutAll(mtu: int, b: Outbox, ps: seq<Packet>): Outbox {
    if ps == [] then b else Put(mtu, PutAll(mtu, b, ps[..|ps| - 1]), ps[|ps| - 1])
  }

  function Flatten(ds: seq<Datagram>): seq<Packet> {
    if ds == [] then [] else Flatten(ds[..|ds| - 1]) + ds[|ds| - 1]
  }

  predicate FitsMtu(mtu: int, d: Datagram) {
    SizeAll(d) <= mtu
  }

  predicate OutboxOk(mtu: int, b: Outbox) {
    && FitsMtu(mtu, b.cur)
    && forall d :: d in b.done ==> d != [] && FitsMtu(mtu, d)
  }

  lemma PutFits(mtu: int, b: Outbox, p: Packet)
    requires OutboxOk(mtu, b) && Size(p) <= mtu
    ensures OutboxOk(mtu, Put(mtu, b, p))
  {
    SizeOneMore(b.cur, p);
    SizeOneMore([], p);
    assert [] + [p] == [p];
    hide SizeAll;
  }

  lemma PutKeeps(mtu: int, b: Outbox, p: Packet)
    ensures var c := Put(mtu, b, p); Flatten(c.done) + c.cur == Flatten(b.done) + b.cur + [p]
  {
    hide Emit, Flatten, SizeAll;
    EmitKeeps(b);
    var e := if SizeAll(b.cur) + Size(p) > mtu then Emit(b) else b;
    assert Flatten(e.done) + (e.cur + [p]) == (Flatten(e.done) + e.cur) + [p];
  }

  lemma SizeOneMore(d: Datagram, p: Packet)
    ensures SizeAll(d + [p]) == SizeAll(d) + Size(p) && SizeAll([]) == 0
  {
    assert (d + [p])[..|d|] == d;
  }

  lemma EmitKeeps(b: Outbox)
    ensures Flatten(Emit(b).done) + Emit(b).cur == Flatten(b.done) + b.cur
  {
    if b.cur != [] { assert Emit(b).done[..|Emit(b).done| - 1] == b.done; }
  }

  /** Packing keeps every packet, in order, in datagrams that fit the MTU. */
  lemma {:induction false} PackingKeepsPackets(mtu: int, b: Outbox, ps: seq<Packet>)
    requires OutboxOk(mtu, b) && forall p :: p in ps ==> Size(p) <= mtu
    ensures OutboxOk(mtu, PutAll(mtu, b, ps))
    ensures var c := PutAll(mtu, b, ps); Flatten(c.done) + c.cur == Flatten(b.done) + b.cur + ps
  {
    hide Put, Flatten, OutboxOk, Size;
    var x := Flatten(b.done) + b.cur;
    if ps == [] {
      assert x + ps == x;
    } else {
      var init, last := ps[..|ps| - 1], ps[|ps| - 1];
      PackingKeepsPackets(mtu, b, init);
      PutFits(mtu, PutAll(mtu, b, init), last);
      PutKeeps(mtu, PutAll(mtu, b, init), last);
      assert x + init + [last] == x + ps;
    }
  }

  /** All the datagrams of one flush. */
  function Pack(mtu: int, ps: seq<Packet>): seq<Datagram> {
    Emit(PutAll(mtu, Outbox([], []), ps)).done
  }

  lemma EmitLast(b: Outbox, ps: seq<Packet>)
    requires Flatten(b.done) + b.cur == ps
    ensures Flatten(Emit(b).done) == ps
  {
    if b.cur != [] {
      assert Emit(b).done[..|Emit(b).done| - 1] == b.done;
    } else {
      assert Flatten(b.done) + b.cur == Flatten(b.done);
    }
  }

  /** The datagrams hold exactly the packets, in order, and each fits the MTU. */
  lemma PackingIsWhole(mtu: int, ps: seq<Packet>)
    requires mtu >= 0 && forall p :: p in ps ==> Size(p) <= mtu
    ensures Flatten(Pack(mtu, ps)) == ps
    ensures forall d :: d in Pack(mtu, ps) ==> d != [] && SizeAll(d) <= mtu
  {
    hide Put, PutAll, Size, SizeAll;
    var b := Outbox([], []);
    assert SizeAll([]) == 0 by { SizeNone(); }
    PackingKeepsPackets(mtu, b, ps);
    assert Flatten(b.done) + b.cur + ps == ps;
    EmitLast(PutAll(mtu, b, ps), ps);
  }

  lemma SizeNone()
    ensures SizeAll([]) == 0
  {
  }

  /** The first packet of the next datagram did not fit this one. */
  predicate FullFor(mtu: int, d: Datagram, next: Datagram) {
    next != [] && SizeAll(d) + Size(next[0]) > mtu
  }

  ghost predicate Greedy(mtu: int, ds: seq<Datagram>) {
    forall j, k :: 0 <= j < k < |ds| && k == j + 1 ==> FullFor(mtu, ds[j], ds[k])
  }

  lemma {:induction false} PackingStaysGreedy(mtu: int, ps: seq<Packet>)
    ensures var b := PutAll(mtu, Outbox([], []), ps);
            if ps == [] then b == Outbox([], []) else b.cur != [] && Greedy(mtu, b.done + [b.cur])
  {
    hide FullFor;
    if ps != [] {
      var n := |ps| - 1;
      PackingStaysGreedy(mtu, ps[..n]);
      PutStaysGreedy(mtu, PutAll(mtu, Outbox([], []), ps[..n]), ps[n]);
    }
  }

  lemma PutStaysGreedy(mtu: int, b: Outbox, p: Packet)
    requires b == Outbox([], []) || (b.cur != [] && Greedy(mtu, b.done + [b.cur]))
    ensures var c := Put(mtu, b, p); c.cur != [] && Greedy(mtu, c.done + [c.cur])
  {
    hide SizeAll, Size;
    var c := Put(mtu, b, p);
    var before, after := b.done + [b.cur], c.done + [c.cur];
    forall j, k | 0 <= j < k < |after| && k == j + 1 ensures FullFor(mtu, after[j], after[k]) {
      if k < |before| { assert FullFor(mtu, before[j], before[k]); }
    }
  }

  /** Each datagram but the last is as full as the next packet lets it be. */
  lemma PackingIsGreedy(mtu: int, ps: seq<Packet>)
    ensures Greedy(mtu, Pack(mtu, ps))
  {
    hide FullFor, PutAll;
    PackingStaysGreedy(mtu, ps);
  }
}
