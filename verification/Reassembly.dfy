/** Reassembling frames from a byte stream that arrives in arbitrary pieces. */
module Reassembly {
  import opened Wire
  import opened Packet

  const MAX_INBOUND := 8 * 1024 * 1024

  /** Wraps is a length within four of 2^32, where the source's 32-bit sum overflows and it panics. */
  datatype ReadResult = Frame(data: seq<Byte>, consumed: nat) | Short | Wraps

  function ReadFrame(order: ByteOrder, b: seq<Byte>): (r: ReadResult)
    ensures r.Frame? ==> SIZE_BYTES <= r.consumed <= |b|
  {
    if |b| < SIZE_BYTES then Short else
      var size := Word32At(order, b, 0);
      if size == 0 then Frame([], SIZE_BYTES)
      else if SIZE_BYTES + size >= 0x1_0000_0000 then Wraps
      else if |b| < SIZE_BYTES + size then Short
      else Frame(b[..SIZE_BYTES + size], SIZE_BYTES + size)
  }

  /** Four zero bytes are an empty frame of their own. */
  lemma ZeroLength(order: ByteOrder, rest: seq<Byte>)
    ensures ReadFrame(order, [0, 0, 0, 0] + rest) == Frame([], 4)
    ensures var (b, p) := ([0, 0, 0, 0] + rest, ParseAll(order, rest));
            ParseAll(order, b) == Parse([[]] + p.frames, p.rest, p.wraps)
  {
    var b := [0, 0, 0, 0] + rest;
    assert b[0] == 0 && b[1] == 0 && b[2] == 0 && b[3] == 0 && b[4..] == rest;
    WordFromIs(order, b, 0);
    hide Word32At;
  }

  /** Which bytes make a frame: the first word counts the bytes after it. */
  lemma FrameIs(order: ByteOrder, b: seq<Byte>)
    ensures ReadFrame(order, b) ==
            if |b| < 4 then Short
            else
              var w := WordFrom(order, b, 0);
              if w == 0 then Frame([], 4)
              else if w >= 0x1_0000_0000 - 4 then Wraps
              else if |b| < 4 + w then Short
              else Frame(b[..4 + w], 4 + w)
  {
    hide Word32At, WordFrom;
    if |b| >= 4 {
      WordFromIs(order, b, 0);
    }
  }

  class ByteReader {
    const data: seq<Byte>
    var pos: nat

    ghost predicate Valid()
      reads this
    {
      pos <= |data|
    }

    constructor (data: seq<Byte>)
      ensures Valid() && this.data == data && pos == 0
    {
      this.data, pos := data, 0;
    }

    /** Reads exactly n bytes; when fewer are left it uses them up and fails. */
    method ReadFull(n: nat) returns (ok: bool, b: seq<Byte>)
      requires Valid()
      modifies this
      ensures Valid() && (ok <==> old(pos) + n <= |data|)
      ensures pos == if ok then old(pos) + n else |data|
      ensures ok ==> b == data[old(pos)..pos]
    {
      if pos + n > |data| {
        ok, b, pos := false, [], |data|;
      } else {
        ok, b, pos := true, data[pos..pos + n], pos + n;
      }
    }
  }

  /** Reads the length, then the rest; a zero length is an empty frame. */
  method ReadMessage(order: ByteOrder, reader: ByteReader) returns (r: ReadResult)
    requires reader.Valid()
    modifies reader
    ensures reader.Valid() && r == ReadFrame(order, reader.data[old(reader.pos)..])
    ensures r.Frame? ==> reader.pos == old(reader.pos) + r.consumed
  {
    hide Word32At;
    ghost var all := reader.data[reader.pos..];
    var ok, buf := reader.ReadFull(SIZE_BYTES);
    if !ok {
      return Short;
    }
    assert all == buf + all[SIZE_BYTES..];
    WordAtFront(order, buf, all[SIZE_BYTES..]);
    var size := Word32At(order, buf, 0);
    if size == 0 {
      return Frame([], SIZE_BYTES);
    }
    if SIZE_BYTES + size >= 0x1_0000_0000 {
      return Wraps;
    }
    var rest;
    ok, rest := reader.ReadFull(size);
    if !ok {
      return Short;
    }
    assert buf + rest == all[..SIZE_BYTES + size];
    return Frame(buf + rest, SIZE_BYTES + size);
  }

  // ---- the one-shot parse

  datatype Parse = Parse(frames: seq<seq<Byte>>, rest: seq<Byte>, wraps: bool)

  function ParseAll(order: ByteOrder, b: seq<Byte>): Parse
    decreases |b|
  {
    match ReadFrame(order, b)
    case Short => Parse([], b, false)
    case Wraps => Parse([], b, true)
    case Frame(data, n) =>
      var p := ParseAll(order, b[n..]);
      Parse([data] + p.frames, p.rest, p.wraps)
  }

  /** More bytes do not change the frames already found. */
  lemma ReadFrameExtends(order: ByteOrder, a: seq<Byte>, b: seq<Byte>)
    ensures !ReadFrame(order, a).Short? ==> ReadFrame(order, a + b) == ReadFrame(order, a)
  {
    if |a| >= SIZE_BYTES {
      WordAtFront(order, a, b);
      hide Word32At;
      var size := Word32At(order, a, 0);
      if SIZE_BYTES + size <= |a| {
        assert (a + b)[..SIZE_BYTES + size] == a[..SIZE_BYTES + size];
      }
    }
  }

  /** Parsing in two pieces: the residual of the first is carried over to the second. */
  lemma {:induction false} ParseInPieces(order: ByteOrder, a: seq<Byte>, b: seq<Byte>)
    requires !ParseAll(order, a).wraps
    ensures var p := ParseAll(order, a);
            var q := ParseAll(order, p.rest + b);
            ParseAll(order, a + b) == Parse(p.frames + q.frames, q.rest, q.wraps)
    decreases |a|
  {
    hide ReadFrame;
    ReadFrameExtends(order, a, b);
    match ReadFrame(order, a)
    case Short =>
      assert [] + ParseAll(order, a + b).frames == ParseAll(order, a + b).frames;
    case Frame(data, n) =>
      assert (a + b)[n..] == a[n..] + b;
      ParseInPieces(order, a[n..], b);
      var p := ParseAll(order, a[n..]);
      var q := ParseAll(order, p.rest + b);
      assert [data] + (p.frames + q.frames) == ([data] + p.frames) + q.frames;
  }

  // ---- the connection

  datatype FeedResult = Continue | Close | Panic

  class Conn {
    const order: ByteOrder
    const capacity: nat
    var isOpen: bool
    var inbound: seq<Byte>
    var recvQ: seq<seq<Byte>>
    /** Every frame ever queued, and every byte ever accepted. */
    ghost var delivered: seq<seq<Byte>>
    ghost var stream: seq<Byte>

    /** However the stream was cut, what was queued and what is left equal the one-shot parse; the queue holds the
        frames not yet taken. */
    ghost predicate Valid()
      reads this
    {
      ParseAll(order, stream) == Parse(delivered, inbound, false) && Queued()
    }

    ghost predicate Queued()
      reads this`recvQ, this`delivered
    {
      |recvQ| <= |delivered| && recvQ == delivered[|delivered| - |recvQ|..]
    }

    constructor (order: ByteOrder, capacity: nat)
      ensures Valid() && this.order == order && this.capacity == capacity
      ensures isOpen && inbound == [] && recvQ == [] && delivered == [] && stream == []
    {
      hide ParseAll;
      this.order, this.capacity, isOpen := order, capacity, true;
      inbound, recvQ, delivered, stream := [], [], [], [];
      ParseUnfold(order, []);
    }

    /** The receiving side may have taken any number of frames by the time the queue is tried; the frame is queued
        exactly if there is room then. */
    method TryEnqueue(data: seq<Byte>) returns (ok: bool, taken: nat)
      modifies this`recvQ, this`delivered
      ensures taken <= |old(recvQ)| && ok == (|old(recvQ)| - taken < capacity)
      ensures recvQ == old(recvQ)[taken..] + if ok then [data] else []
      ensures delivered == old(delivered) + if ok then [data] else []
      ensures old(Queued()) ==> Queued()
    {
      taken :| taken <= |recvQ|;
      recvQ := recvQ[taken..];
      ok := |recvQ| < capacity;
      if ok {
        recvQ := recvQ + [data];
        delivered := delivered + [data];
      }
    }

    /** Appends a piece of the stream and queues every complete frame. */
    method Feed(raw: seq<Byte>) returns (r: FeedResult)
      requires Valid()
      modifies this
      ensures r == Continue ==> Valid() && stream == old(stream) + raw
      ensures raw == [] ==> r == Continue
      ensures raw != [] && (!old(isOpen) || |old(inbound)| + |raw| > 8 * 1024 * 1024) ==> r == Close && delivered == old(delivered)
      ensures r == Panic ==> ParseAll(order, old(inbound) + raw).wraps
      ensures old(delivered) <= delivered <= old(delivered) + ParseAll(order, old(inbound) + raw).frames
      ensures isOpen == old(isOpen)
      ensures old(isOpen) && |old(inbound)| + |raw| <= 8 * 1024 * 1024 && r == Close ==>
                |old(recvQ)| + |ParseAll(order, old(inbound) + raw).frames| > capacity
    {
      hide ParseAll, Queued;
      if |raw| == 0 {
        assert stream + raw == stream;
        return Continue;
      }
      if !isOpen {
        return Close;
      }
      inbound := inbound + raw;
      if |inbound| > MAX_INBOUND {
        return Close;
      }
      ghost var whole := ParseAll(order, inbound);
      ParseInPieces(order, stream, raw);
      r := Drain();
      if r == Continue {
        stream := stream + raw;
      }
    }

    /** The loop over complete frames. It gives up only on a full queue. */
    method Drain() returns (r: FeedResult)
      requires Queued()
      modifies this`inbound, this`recvQ, this`delivered
      ensures var p := ParseAll(order, old(inbound));
              && old(delivered) <= delivered <= old(delivered) + p.frames
              && (r == Continue ==> delivered == old(delivered) + p.frames && inbound == p.rest && !p.wraps)
              && (r == Panic ==> p.wraps)
              && (r == Close ==> |old(recvQ)| + |p.frames| > capacity)
      ensures Queued()
    {
      hide ParseAll, ReadFrame, Queued;
      ghost var p := ParseAll(order, inbound);
      ParseUnfold(order, []);
      while |inbound| > 0
        invariant var q := ParseAll(order, inbound);
                  && old(delivered) <= delivered
                  && delivered + q.frames == old(delivered) + p.frames && q.rest == p.rest && q.wraps == p.wraps
                  && |recvQ| + |q.frames| <= |old(recvQ)| + |p.frames|
        invariant Queued()
        decreases |inbound|
      {
        ParseUnfold(order, inbound);
        var reader := new ByteReader(inbound);
        var m := ReadMessage(order, reader);
        assert reader.data[0..] == inbound;
        if m.Short? {
          return Continue;
        }
        if m.Wraps? {
          return Panic;
        }
        inbound := inbound[m.consumed..];
        ghost var later := ParseAll(order, inbound).frames;
        assert delivered + ([m.data] + later) == (delivered + [m.data]) + later;
        var ok, _ := TryEnqueue(m.data);
        if !ok {
          return Close;
        }
      }
      return Continue;
    }
  }

  lemma ParseUnfold(order: ByteOrder, b: seq<Byte>)
    ensures var m := ReadFrame(order, b);
            if m.Frame? then
              var p := ParseAll(order, b[m.consumed..]);
              ParseAll(order, b) == Parse([m.data] + p.frames, p.rest, p.wraps)
            else ParseAll(order, b) == Parse([], b, m.Wraps?)
    ensures b == [] ==> ParseAll(order, b) == Parse([], [], false)
  {
  }

  // ---- end to end

  function Concat(pieces: seq<seq<Byte>>): seq<Byte> {
    if pieces == [] then [] else pieces[0] + Concat(pieces[1..])
  }

  ghost predicate Fits(o: Options, m: Message) {
    HEADER_SIZE + |m.body| <= o.bufferBytes && HEADER_SIZE + |m.body| <= MAX_INT32
  }

  ghost function WireFrames(o: Options, ms: seq<Message>): (f: seq<seq<Byte>>)
    requires forall i :: 0 <= i < |ms| ==> Fits(o, ms[i])
    ensures |f| == |ms|
  {
    seq(|ms|, i requires 0 <= i < |ms| && Fits(o, ms[i]) => WireFrame(o.order, ms[i]))
  }

  lemma ReadOneFrame(order: ByteOrder, m: Message, rest: seq<Byte>)
    requires HEADER_SIZE + |m.body| <= MAX_INT32
    ensures ReadFrame(order, WireFrame(order, m) + rest) == Frame(WireFrame(order, m), |WireFrame(order, m)|)
  {
    hide Word32At, Header;
    var f := WireFrame(order, m);
    HeaderWords(order, m, m.body + [0, 0, 0, 0] + rest);
    assert f + rest == Header(order, m) + (m.body + [0, 0, 0, 0] + rest);
    assert (f + rest)[..|f|] == f;
  }

  /** A stream of packed messages parses into exactly their frames. */
  lemma {:induction false} StreamParses(o: Options, ms: seq<Message>)
    requires forall i :: 0 <= i < |ms| ==> Fits(o, ms[i])
    ensures ParseAll(o.order, Concat(WireFrames(o, ms))) == Parse(WireFrames(o, ms), [], false)
  {
    if ms != [] {
      StreamParses(o, ms[1..]);
      var frames := WireFrames(o, ms);
      assert frames == [WireFrame(o.order, ms[0])] + WireFrames(o, ms[1..]);
      hide ReadFrame, ParseAll, WireFrame, WireFrames;
      assert frames[1..] == WireFrames(o, ms[1..]);
      var rest := Concat(frames[1..]);
      ReadOneFrame(o.order, ms[0], rest);
      ParseUnfold(o.order, frames[0] + rest);
      assert (frames[0] + rest)[|frames[0]|..] == rest;
    } else {
      ParseUnfold(o.order, []);
    }
  }

  /** A connection that has received a stream of packed messages, in whatever pieces, holds no residue, and
      its frames unpack to the original messages in order. */
  lemma ReceivedInOrder(c: Conn, o: Options, ms: seq<Message>)
    requires c.Valid() && c.order == o.order
    requires forall i :: 0 <= i < |ms| ==> Fits(o, ms[i])
    requires c.stream == Concat(WireFrames(o, ms))
    ensures c.inbound == [] && |c.delivered| == |ms|
    ensures forall i :: 0 <= i < |ms| ==> Unpack(o, c.delivered[i]) == Unpacked(ms[i], HEADER_SIZE + |ms[i].body|)
  {
    StreamParses(o, ms);
    hide ParseAll, Unpack, Header;
    forall i | 0 <= i < |ms| ensures Unpack(o, c.delivered[i]) == Unpacked(ms[i], HEADER_SIZE + |ms[i].body|) {
      UnpackPacked(o, ms[i], [0, 0, 0, 0]);
    }
  }

  /** While the stream is still arriving, the frames so far are the first ones. */
  lemma ArrivedSoFar(c: Conn, o: Options, ms: seq<Message>, missing: seq<Byte>)
    requires c.Valid() && c.order == o.order
    requires forall i :: 0 <= i < |ms| ==> Fits(o, ms[i])
    requires c.stream + missing == Concat(WireFrames(o, ms))
    ensures c.delivered <= WireFrames(o, ms)
  {
    StreamParses(o, ms);
    hide ParseAll;
    ParseInPieces(o.order, c.stream, missing);
  }

  /** A packed buffer is not a wire frame: its length field promises four bytes more than it has. */
  lemma BufferIsNotAFrame(order: ByteOrder, m: Message)
    requires HEADER_SIZE + |m.body| <= MAX_INT32
    ensures ReadFrame(order, Header(order, m) + m.body) == Short
  {
    hide Word32At, Header;
    HeaderWords(order, m, m.body);
  }
}
