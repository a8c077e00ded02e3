/** Splitting a byte stream into packages: `UnpackHandler::process` over a buffer. A package
    is preceded by a header of `header` bytes, whose first four say how long it is. */
module Unpack {
  import opened Word32
  import opened Wire
  import opened Buffers
  import opened Streams

  const HEADER_BITS: nat := 32

  datatype Extracted = Package(package: Bytes, rest: Bytes) | Failed

  /** One call of `process` on the bytes that are readable. */
  function Extract(header: nat, s: Bytes): (r: Extracted)
    requires header >= 4
    ensures r.Package? ==> 0 < |r.package| && |s| == header + |r.package| + |r.rest|
  {
    if |s| > header && Peeked(s) > 0 && |s| >= Peeked(s) + header then
      Package(s[header..header + Peeked(s)], s[header + Peeked(s)..])
    else Failed
  }

  datatype Drained = Drained(packages: seq<Bytes>, rest: Bytes)

  function Prepend(packages: seq<Bytes>, d: Drained): Drained {
    Drained(packages + d.packages, d.rest)
  }

  lemma PrependTwo(a: seq<Bytes>, b: seq<Bytes>, d: Drained)
    ensures Prepend(a, Prepend(b, d)) == Prepend(a + b, d)
  {
    assert a + (b + d.packages) == (a + b) + d.packages;
  }

  lemma PrependNone(packages: seq<Bytes>, rest: Bytes, d: Drained)
    ensures Prepend(packages, Drained([], rest)) == Drained(packages, rest)
    ensures Prepend([], d) == d
  {
    assert packages + [] == packages && [] + d.packages == d.packages;
  }

  /** Calls of `process` until one fails. */
  function Drain(header: nat, s: Bytes): Drained
    requires header >= 4
    decreases |s|
  {
    match Extract(header, s)
    case Failed => Drained([], s)
    case Package(p, rest) => Prepend([p], Drain(header, rest))
  }

  /** Bytes that arrive later do not change a package that is already there. */
  lemma ExtractEarly(header: nat, s: Bytes, more: Bytes)
    requires header >= 4 && Extract(header, s).Package?
    ensures Extract(header, s + more) == Extract(header, s).(rest := Extract(header, s).rest + more)
  {
    var n := header + Peeked(s);
    assert (s + more)[header..n] == s[header..n];
    assert (s + more)[n..] == s[n..] + more;
  }

  /** Draining what is there, and going on when more has arrived, is draining it all at once. */
  lemma {:induction false} DrainInTwo(header: nat, s: Bytes, more: Bytes)
    requires header >= 4
    ensures Drain(header, s + more) == Prepend(Drain(header, s).packages, Drain(header, Drain(header, s).rest + more))
    decreases |s|
  {
    var x := Extract(header, s);
    if x.Package? {
      ExtractEarly(header, s, more);
      DrainInTwo(header, x.rest, more);
      var d := Drain(header, x.rest);
      PrependTwo([x.package], d.packages, Drain(header, d.rest + more));
    } else {
      PrependNone([], s, Drain(header, s + more));
    }
  }

  /** A stream that arrives in chunks, the buffer being drained after each of them. */
  function Feed(header: nat, had: Bytes, chunks: seq<Bytes>): Drained
    requires header >= 4
    decreases |chunks|
  {
    if chunks == [] then Drained([], had)
    else
      var d := Drain(header, had + chunks[0]);
      Prepend(d.packages, Feed(header, d.rest, chunks[1..]))
  }

  /** What is left after draining holds no whole package. */
  lemma {:induction false} NothingLeft(header: nat, s: Bytes)
    requires header >= 4
    ensures Extract(header, Drain(header, s).rest) == Failed
    decreases |s|
  {
    var x := Extract(header, s);
    if x.Package? { NothingLeft(header, x.rest); }
  }

  /** The packages are the same however the stream is cut into chunks. */
  lemma {:induction false} ChunkingIsInvisible(header: nat, had: Bytes, chunks: seq<Bytes>)
    requires header >= 4 && Extract(header, had) == Failed
    ensures Feed(header, had, chunks) == Drain(header, had + Concat(chunks))
    decreases |chunks|
  {
    hide Extract, Prepend;
    if chunks == [] {
      assert had + [] == had;
    } else {
      var all := had + chunks[0];
      var d := Drain(header, all);
      NothingLeft(header, all);
      ChunkingIsInvisible(header, d.rest, chunks[1..]);
      DrainInTwo(header, all, Concat(chunks[1..]));
      assert had + Concat(chunks) == all + Concat(chunks[1..]);
    }
  }

  // ---------------------------------------------------------------- framing and back

  /** A package framed for the stream: its length, the rest of the header, its bytes. */
  datatype Framed = Framed(filler: Bytes, package: Bytes)

  predicate Sendable(header: nat, f: Framed) {
    header >= 4 && |f.filler| == header - 4 && 0 < |f.package| < HALF
  }

  function Frame(f: Framed): Bytes {
    BigEndian(|f.package|) + f.filler + f.package
  }

  function FrameAll(fs: seq<Framed>): Bytes {
    if fs == [] then [] else Frame(fs[0]) + FrameAll(fs[1..])
  }

  function Packages(fs: seq<Framed>): seq<Bytes> {
    if fs == [] then [] else [fs[0].package] + Packages(fs[1..])
  }

  lemma ExtractFrame(header: nat, f: Framed, more: Bytes)
    requires Sendable(header, f)
    ensures Extract(header, Frame(f) + more) == Package(f.package, more)
  {
    var s := Frame(f) + more;
    PeekedOfBigEndian(|f.package|, f.filler + f.package + more);
    assert s == BigEndian(|f.package|) + (f.filler + f.package + more);
    assert s[header..header + |f.package|] == f.package;
    assert s[header + |f.package|..] == more;
  }

  /** A peer that frames its packages gets each of them across, in order, followed by
      whatever the unfinished tail of the stream yields. */
  lemma {:induction false} UnpackOfFrames(header: nat, fs: seq<Framed>, tail: Bytes)
    requires header >= 4 && forall i :: 0 <= i < |fs| ==> Sendable(header, fs[i])
    ensures Drain(header, FrameAll(fs) + tail) == Prepend(Packages(fs), Drain(header, tail))
  {
    hide Extract, Frame, Sendable, Peeked, Prepend;
    if fs == [] {
      assert FrameAll(fs) + tail == tail;
      PrependNone([], [], Drain(header, tail));
    } else {
      var more := FrameAll(fs[1..]) + tail;
      assert FrameAll(fs) + tail == Frame(fs[0]) + more;
      ExtractFrame(header, fs[0], more);
      UnpackOfFrames(header, fs[1..], tail);
      PrependTwo([fs[0].package], Packages(fs[1..]), Drain(header, tail));
    }
  }

  /** A strict prefix of a frame yields nothing. */
  lemma PartialFrame(header: nat, f: Framed, k: nat)
    requires Sendable(header, f) && k < |Frame(f)|
    ensures Extract(header, Frame(f)[..k]) == Failed
  {
    if k > header {
      PeekedOfBigEndian(|f.package|, (f.filler + f.package)[..k - 4]);
      assert Frame(f)[..k] == BigEndian(|f.package|) + (f.filler + f.package)[..k - 4];
    }
  }

  /** Framed packages sent over a stream that may cut anywhere, even inside the last frame:
      exactly the packages that arrived whole come out, in order. */
  lemma PackagesSurviveChunking(header: nat, fs: seq<Framed>, last: Framed, k: nat, chunks: seq<Bytes>)
    requires header >= 4 && forall i :: 0 <= i < |fs| ==> Sendable(header, fs[i])
    requires Sendable(header, last) && k < |Frame(last)|
    requires Concat(chunks) == FrameAll(fs) + Frame(last)[..k]
    ensures Feed(header, [], chunks) == Drained(Packages(fs), Frame(last)[..k])
  {
    var tail := Frame(last)[..k];
    ChunkingIsInvisible(header, [], chunks);
    assert [] + Concat(chunks) == Concat(chunks);
    UnpackOfFrames(header, fs, tail);
    PartialFrame(header, last, k);
    PrependNone(Packages(fs), tail, Drained([], tail));
  }

  // ---------------------------------------------------------------- when the stream is stuck

  /** Whether any later bytes can complete a package: exactly when the length, as far as it has
      arrived, is positive. A length of zero or less is never skipped, so nothing after it is
      ever unpacked. */
  lemma StuckIff(header: nat, s: Bytes)
    requires header >= 4 && |s| >= 4
    ensures (exists more: Bytes :: Extract(header, s + more).Package?) <==> Peeked(s) > 0
  {
    if Peeked(s) > 0 {
      var more: Bytes := seq(header + Peeked(s), i => 0);
      assert (s + more)[..4] == s[..4];
      assert Extract(header, s + more).Package?;
    } else {
      forall more: Bytes ensures Extract(header, s + more) == Failed {
        assert Peeked(s + more) == Peeked(s);
      }
    }
  }

  // ---------------------------------------------------------------- over the buffer

  /** `process`; not `ok` stands for the handler status FAILED. */
  method Process(buffer: Buffer) returns (ok: bool, package: Bytes)
    requires buffer.Valid()
    modifies buffer`readerIndex, buffer`writerIndex
    ensures buffer.Valid()
    ensures Extract(HEADER_BITS, old(buffer.Contents())) == if ok then Package(package, buffer.Contents()) else Failed
    ensures !ok ==> buffer.Contents() == old(buffer.Contents())
  {
    ghost var s := buffer.Contents();
    if buffer.Readable() > HEADER_BITS {
      var size := buffer.PeekInt32();
      if size > 0 && buffer.Readable() >= size + HEADER_BITS {
        buffer.Retrieve(HEADER_BITS);
        package := buffer.RetrieveAs(size);
        assert s[HEADER_BITS..] == package + buffer.Contents();
        assert package == s[HEADER_BITS..][..size] && buffer.Contents() == s[HEADER_BITS..][size..];
        return true, package;
      }
    }
    return false, [];
  }

  /** The packages in the buffer, one call after the other until one fails. */
  method ProcessAll(buffer: Buffer) returns (packages: seq<Bytes>)
    requires buffer.Valid()
    modifies buffer`readerIndex, buffer`writerIndex
    ensures buffer.Valid()
    ensures Drained(packages, buffer.Contents()) == Drain(HEADER_BITS, old(buffer.Contents()))
  {
    hide Extract, Prepend;
    packages := [];
    PrependNone([], [], Drain(HEADER_BITS, buffer.Contents()));
    while true
      invariant buffer.Valid()
      invariant Prepend(packages, Drain(HEADER_BITS, buffer.Contents())) == Drain(HEADER_BITS, old(buffer.Contents()))
      decreases |buffer.Contents()|
    {
      var ok, package := Process(buffer);
      if !ok {
        PrependNone(packages, buffer.Contents(), Drained([], []));
        return;
      }
      PrependTwo(packages, [package], Drain(HEADER_BITS, buffer.Contents()));
      packages := packages + [package];
    }
  }

  /** What the `i`-th read takes: as much as the kernel is ready to give, up to what `readv` has
      been offered, which is at least 65536 bytes. */
  predicate TookEnough(chunk: Bytes, size: nat, left: int) {
    |chunk| == Min(size, left) || EXTRA_BUFFER_LEN <= |chunk| <= Min(size, left)
  }

  /** The part of a stream that is not in the first chunks. */
  function Beyond(stream: Bytes, chunks: seq<Bytes>): int {
    |stream| - |Concat(chunks)|
  }

  /** A connection's input: `stream` arrives, the kernel being ready to give `sizes[i]` more bytes
      of it when the `i`-th read comes. Each read is appended to the buffer and the buffer
      drained. */
  method Receive(buffer: Buffer, stream: Bytes, sizes: seq<nat>) returns (packages: seq<Bytes>, chunks: seq<Bytes>)
    requires buffer.Valid() && buffer.Contents() == []
    modifies buffer, buffer.buffer
    ensures buffer.Valid() && |chunks| == |sizes| && Concat(chunks) <= stream
    ensures forall i :: 0 <= i < |sizes| ==> TookEnough(chunks[i], sizes[i], Beyond(stream, chunks[..i]))
    ensures Drained(packages, buffer.Contents()) == Drain(HEADER_BITS, Concat(chunks))
  {
    hide Extract, Prepend, Drain;
    packages, chunks := [], [];
    var taken := 0;
    NothingLeft(HEADER_BITS, []);
    DrainNone(HEADER_BITS);
    while |chunks| < |sizes|
      invariant |chunks| <= |sizes| && buffer.Valid() && 0 <= taken <= |stream|
      invariant buffer.buffer == old(buffer.buffer) || fresh(buffer.buffer)
      invariant Concat(chunks) == stream[..taken]
      invariant forall i :: 0 <= i < |chunks| ==> TookEnough(chunks[i], sizes[i], Beyond(stream, chunks[..i]))
      invariant Drained(packages, buffer.Contents()) == Drain(HEADER_BITS, Concat(chunks))
    {
      var n := Min(Min(sizes[|chunks|], |stream| - taken), ReadLimit(buffer.Writable()));
      var chunk := stream[taken..taken + n];
      var r := buffer.ReadFd(n, chunk);
      var more := ProcessAll(buffer);
      ReadAndDrain(HEADER_BITS, chunks, chunk);
      assert stream[..taken] + chunk == stream[..taken + n];
      ConcatOne(chunks, chunk);
      assert forall i :: 0 <= i <= |chunks| ==> (chunks + [chunk])[..i] == chunks[..i];
      packages, chunks, taken := packages + more, chunks + [chunk], taken + n;
    }
  }

  lemma DrainNone(header: nat)
    requires header >= 4
    ensures Drain(header, []) == Drained([], [])
  {
  }

  /** One more chunk, unpacked after what came before it. */
  lemma ReadAndDrain(header: nat, chunks: seq<Bytes>, chunk: Bytes)
    requires header >= 4
    ensures var d := Drain(header, Concat(chunks)); var e := Drain(header, d.rest + chunk);
            Drain(header, Concat(chunks + [chunk])) == Drained(d.packages + e.packages, e.rest)
  {
    ConcatOne(chunks, chunk);
    DrainInTwo(header, Concat(chunks), chunk);
  }
}
