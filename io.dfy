/** codec/io.go: length-prefixed frames over a byte stream, and the two
    loops that push a buffer into a writer and fill a buffer from a reader,
    retrying after transient (net.Error) failures.

    The connection is modelled by two objects.  A Writer accumulates the
    bytes it accepts; a Reader hands out the bytes still to be read.  What
    the network does to individual calls is a schedule of faults, consumed
    one entry per Write or Read call; once the schedule is exhausted the
    calls behave ordinarily. */
module FrameIO {
  import opened Errors
  import opened Binary

  /** The outcome of one Write or Read call: how many bytes moved, and the error. */
  datatype Transfer = Transfer(n: nat, err: Option<Error>)

  /** A Write call that fails: it accepts at most n bytes and returns err
      (io.Writer must return an error whenever it accepts fewer bytes than
      offered, so a failing Write always carries one). */
  datatype WriteFault = WriteFault(n: nat, err: Error)

  /** A Read call that delivers at most n bytes and returns err; with no
      error it is a short read. */
  datatype ReadFault = ReadFault(n: nat, err: Option<Error>)

  /** How many entries of a schedule of length len are still to come after
      `calls` calls. */
  function Pending(len: nat, calls: nat): nat {
    if calls < len then len - calls else 0
  }

  /* ---------------------------------------------------------------------- */
  /* The two ends of the connection                                          */
  /* ---------------------------------------------------------------------- */

  /** The call numbered `calls` to w.Write(p), with |p| == k bytes offered. */
  function WriteCall(faults: seq<WriteFault>, calls: nat, k: nat): (t: Transfer)
    ensures t.n <= k
    ensures t.err.None? <==> calls >= |faults|
    ensures t.err.None? ==> t.n == k
  {
    if calls < |faults| then Transfer(Min(faults[calls].n, k), Some(faults[calls].err))
    else Transfer(k, None)
  }

  /** The call numbered `calls` to r.Read(p), with |p| == k bytes of room and
      `avail` bytes left on the stream: an ordinary Read returns what is
      available, or io.EOF at the end of the stream. */
  function ReadCall(avail: nat, faults: seq<ReadFault>, calls: nat, k: nat): (t: Transfer)
    ensures t.n <= k && t.n <= avail
    ensures calls >= |faults| && k > 0 ==> (t.err.None? <==> t.n > 0)
  {
    if calls < |faults| then Transfer(Min(Min(faults[calls].n, k), avail), faults[calls].err)
    else if avail == 0 && k > 0 then Transfer(0, Some(EOF))
    else Transfer(Min(k, avail), None)
  }

  /** The writing end of the connection, as a writer whose failures are
      one-shot: a failed Write does not affect the next one.  The codecs write
      through a bufio.Writer, which keeps its first error instead; module
      BufferedWrite models that writer. */
  class Writer {
    /** Every byte accepted so far, in order. */
    var out: seq<byte>
    /** Outcomes of the first Write calls; the later ones succeed. */
    const faults: seq<WriteFault>
    /** Write calls made so far. */
    var calls: nat

    constructor (faults: seq<WriteFault>)
      ensures out == [] && this.faults == faults && calls == 0
    {
      out := [];
      this.faults := faults;
      calls := 0;
    }

    /** io.Writer.Write(p). */
    method Write(p: seq<byte>) returns (n: nat, err: Option<Error>)
      modifies this
      ensures Transfer(n, err) == WriteCall(faults, old(calls), |p|)
      ensures out == old(out) + p[..n] && calls == old(calls) + 1
    {
      var t := WriteCall(faults, calls, |p|);
      n, err := t.n, t.err;
      out := out + p[..n];
      calls := calls + 1;
    }
  }

  /** The reading end of the connection (the codecs' bufio.Reader). */
  class Reader {
    /** Every byte the peer sent. */
    const stream: seq<byte>
    /** How many of them have been read. */
    var pos: nat
    /** Outcomes of the first Read calls; the later ones are ordinary. */
    const faults: seq<ReadFault>
    /** Read calls made so far. */
    var calls: nat

    predicate Valid()
      reads this
    {
      pos <= |stream|
    }

    constructor (stream: seq<byte>, faults: seq<ReadFault>)
      ensures Valid()
      ensures this.stream == stream && pos == 0 && this.faults == faults && calls == 0
    {
      this.stream := stream;
      pos := 0;
      this.faults := faults;
      calls := 0;
    }

    /** io.Reader.Read(buf[off:]): the bytes read land at buf[off..]. */
    method Read(buf: array<byte>, off: nat) returns (n: nat, err: Option<Error>)
      requires Valid() && off <= buf.Length
      modifies this, buf
      ensures Valid()
      ensures Transfer(n, err) == ReadCall(|stream| - old(pos), faults, old(calls), buf.Length - off)
      ensures pos == old(pos) + n && calls == old(calls) + 1
      ensures forall i :: off <= i < off + n ==> buf[i] == stream[old(pos) + i - off]
      ensures forall i :: 0 <= i < buf.Length && !(off <= i < off + n) ==> buf[i] == old(buf[i])
    {
      var t := ReadCall(|stream| - pos, faults, calls, buf.Length - off);
      n, err := t.n, t.err;
      var m := Copy(buf, off, stream[pos..pos + n]);
      forall i | off <= i < off + n
        ensures buf[i] == stream[pos + i - off]
      {
        assert buf[i] == buf[..off + n][i] == stream[pos..pos + n][..m][i - off];
      }
      forall i | 0 <= i < buf.Length && !(off <= i < off + n)
        ensures buf[i] == old(buf[i])
      {
        if i < off {
          assert buf[i] == buf[..off + n][i];
        } else {
          assert buf[i] == buf[off + n..][i - off - n];
        }
      }
      pos := pos + n;
      calls := calls + 1;
    }

    /** binary.ReadUvarint(r.(io.ByteReader)): takes the bytes of one uvarint
        off the stream, byte by byte.  The fault schedule is not consulted,
        so this fails only at the end of the stream or on overflow. */
    method ReadUvarint() returns (r: VarintRead)
      requires Valid()
      modifies this
      ensures Valid()
      ensures r == Binary.ReadUvarint(stream[old(pos)..])
      ensures pos == old(pos) + r.used && calls == old(calls)
    {
      r := Binary.ReadUvarint(stream[pos..]);
      pos := pos + r.used;
    }
  }

  /* ---------------------------------------------------------------------- */
  /* write: push a whole buffer, retrying after net.Error                    */
  /* ---------------------------------------------------------------------- */

  /** What `write` achieves: how many bytes the writer accepted, the error
      returned, and the number of Write calls made by then. */
  datatype WriteOutcome = WriteOutcome(sent: nat, err: Option<Error>, calls: nat)

  /** `write(w, data)` with |data| == len from the point where `index` bytes
      are accepted and Write call `calls` is next: a Write that fails with a
      net.Error has its n bytes counted and is retried on the rest; any
      other outcome, success included, ends the loop. */
  function WriteLoop(faults: seq<WriteFault>, calls: nat, len: nat, index: nat): (o: WriteOutcome)
    requires index <= len
    ensures index <= o.sent <= len
    ensures o.err.None? ==> o.sent == len
    ensures o.err.Some? ==> !IsNetError(o.err.value)
    ensures o.calls >= calls
    decreases Pending(|faults|, calls)
  {
    if index == len then WriteOutcome(index, None, calls)
    else
      var t := WriteCall(faults, calls, len - index);
      if t.err.None? || !IsNetError(t.err.value) then WriteOutcome(index + t.n, t.err, calls + 1)
      else WriteLoop(faults, calls + 1, len, index + t.n)
  }

  /** codec.write(w, data). */
  method WriteAll(w: Writer, data: seq<byte>) returns (err: Option<Error>)
    modifies w
    ensures var o := WriteLoop(w.faults, old(w.calls), |data|, 0);
      err == o.err && w.out == old(w.out) + data[..o.sent] && w.calls == o.calls
  {
    var index: nat := 0;
    ghost var total := WriteLoop(w.faults, w.calls, |data|, 0);
    while index < |data|
      invariant index <= |data|
      invariant w.out == old(w.out) + data[..index]
      invariant total == WriteLoop(w.faults, w.calls, |data|, index)
      decreases Pending(|w.faults|, w.calls)
    {
      var n, e := w.Write(data[index..]);
      assert data[..index] + data[index..][..n] == data[..index + n];
      if e.None? || !IsNetError(e.value) {
        return e;
      }
      index := index + n;
    }
    assert data[..index] == data;
    err := None;
  }

  /** Transient failures only: every fault is a net.Error. */
  predicate WritesRecover(faults: seq<WriteFault>) {
    forall i :: 0 <= i < |faults| ==> IsNetError(faults[i].err)
  }

  /** When every failure is transient, `write` delivers the whole buffer
      and returns nil. */
  lemma {:induction false} WriteRecovers(faults: seq<WriteFault>, calls: nat, len: nat, index: nat)
    requires index <= len && WritesRecover(faults)
    ensures WriteLoop(faults, calls, len, index).err == None
    decreases Pending(|faults|, calls)
  {
    if index < len && calls < |faults| {
      WriteRecovers(faults, calls + 1, len, index + WriteCall(faults, calls, len - index).n);
    }
  }

  /** A fault that is not a net.Error stops `write` at once, even if some of
      the call's bytes were accepted. */
  lemma WriteStopsOnFatal(faults: seq<WriteFault>, calls: nat, len: nat, index: nat)
    requires index < len && calls < |faults| && !IsNetError(faults[calls].err)
    ensures WriteLoop(faults, calls, len, index)
         == WriteOutcome(index + Min(faults[calls].n, len - index), Some(faults[calls].err), calls + 1)
  {
  }

  /* ---------------------------------------------------------------------- */
  /* read: fill a whole buffer, retrying after net.Error                     */
  /* ---------------------------------------------------------------------- */

  /** What `read` achieves: how many bytes it took from the stream (all of
      them stored at the front of the buffer), the error, and the number of
      Read calls made by then. */
  datatype ReadOutcome = ReadOutcome(got: nat, err: Option<Error>, calls: nat)

  /** `read(r, data)` with |data| == k from the point where `index` bytes are
      stored, `avail` more are on the stream and Read call `calls` is next:
      every call's bytes count, a net.Error or no error continues, any other
      error ends the loop. */
  function ReadLoop(avail: nat, faults: seq<ReadFault>, calls: nat, k: nat, index: nat): (o: ReadOutcome)
    requires index <= k
    ensures index <= o.got <= k
    ensures o.got <= index + avail
    ensures o.err.None? ==> o.got == k
    ensures o.err.Some? ==> !IsNetError(o.err.value)
    decreases Pending(|faults|, calls), k - index
  {
    if index == k then ReadOutcome(index, None, calls)
    else
      var t := ReadCall(avail, faults, calls, k - index);
      if t.err.Some? && !IsNetError(t.err.value) then ReadOutcome(index + t.n, t.err, calls + 1)
      else ReadLoop(avail - t.n, faults, calls + 1, k, index + t.n)
  }

  /** codec.read(r, data): data is buf. */
  method ReadFull(r: Reader, buf: array<byte>) returns (err: Option<Error>)
    requires r.Valid()
    modifies r, buf
    ensures r.Valid()
    ensures var o := ReadLoop(|r.stream| - old(r.pos), r.faults, old(r.calls), buf.Length, 0);
      err == o.err && r.pos == old(r.pos) + o.got && r.calls == o.calls
      && (forall i :: 0 <= i < o.got ==> buf[i] == r.stream[old(r.pos) + i])
      && (forall i :: o.got <= i < buf.Length ==> buf[i] == old(buf[i]))
  {
    var index: nat := 0;
    ghost var start := r.pos;
    ghost var total := ReadLoop(|r.stream| - r.pos, r.faults, r.calls, buf.Length, 0);
    while index < buf.Length
      invariant r.Valid() && index <= buf.Length && r.pos == start + index
      invariant forall i :: 0 <= i < index ==> buf[i] == r.stream[start + i]
      invariant forall i :: index <= i < buf.Length ==> buf[i] == old(buf[i])
      invariant total == ReadLoop(|r.stream| - r.pos, r.faults, r.calls, buf.Length, index)
      decreases Pending(|r.faults|, r.calls), buf.Length - index
    {
      var n, e := r.Read(buf, index);
      if e.Some? && !IsNetError(e.value) {
        return e;
      }
      index := index + n;
    }
    err := None;
  }

  /** `buf := make([]byte, len); read(r, buf)`: how the codecs take a body
      of known length off the stream.  On success the body is the next len
      bytes of the stream. */
  method ReadBody(r: Reader, len: nat) returns (body: seq<byte>, err: Option<Error>)
    requires r.Valid()
    modifies r
    ensures r.Valid()
    ensures var o := ReadLoop(|r.stream| - old(r.pos), r.faults, old(r.calls), len, 0);
      err == o.err && r.pos == old(r.pos) + o.got && r.calls == o.calls
      && (err.None? ==> body == r.stream[old(r.pos)..][..len])
  {
    var buf := new byte[len];
    err := ReadFull(r, buf);
    body := buf[..];
    if err.None? {
      assert body == r.stream[old(r.pos)..][..len];
    }
  }

  /** Transient failures only: every fault is a short read or a net.Error. */
  predicate ReadsRecover(faults: seq<ReadFault>) {
    forall i :: 0 <= i < |faults| ==> faults[i].err.None? || IsNetError(faults[i].err.value)
  }

  /** When the stream holds enough bytes and every failure is transient,
      `read` fills the buffer and returns nil. */
  lemma {:induction false} ReadRecovers(avail: nat, faults: seq<ReadFault>, calls: nat, k: nat, index: nat)
    requires index <= k && k - index <= avail && ReadsRecover(faults)
    ensures ReadLoop(avail, faults, calls, k, index).err == None
    decreases Pending(|faults|, calls), k - index
  {
    if index < k {
      var t := ReadCall(avail, faults, calls, k - index);
      ReadRecovers(avail - t.n, faults, calls + 1, k, index + t.n);
    }
  }

  /** A stream that ends early makes `read` fail with io.EOF once no fault
      intervenes, after taking every byte left. */
  lemma ReadShortStream(avail: nat, faults: seq<ReadFault>, calls: nat, k: nat)
    requires avail < k && calls >= |faults|
    ensures ReadLoop(avail, faults, calls, k, 0)
         == ReadOutcome(avail, Some(EOF), calls + if avail == 0 then 1 else 2)
  {
    if avail > 0 {
      assert ReadLoop(0, faults, calls + 1, k, avail) == ReadOutcome(avail, Some(EOF), calls + 2);
    }
  }

  /* ---------------------------------------------------------------------- */
  /* Frames                                                                  */
  /* ---------------------------------------------------------------------- */

  /** The bytes of one frame: the uvarint payload length, then the payload. */
  function FrameBytes(data: seq<byte>): seq<byte> {
    UvarintBytes(|data|) + data
  }

  /** `sendFrame(w, data)` with |data| == len: the length prefix is written
      first, and the payload only if the prefix went through.  `sent`
      counts bytes of the frame. */
  function SendLoop(faults: seq<WriteFault>, calls: nat, len: nat): (o: WriteOutcome)
    ensures o.sent <= |UvarintBytes(len)| + len
    ensures o.err.None? ==> o.sent == |UvarintBytes(len)| + len
    ensures o.err.Some? ==> !IsNetError(o.err.value)
  {
    var prefix := WriteLoop(faults, calls, |UvarintBytes(len)|, 0);
    if prefix.err.Some? then prefix
    else
      var payload := WriteLoop(faults, prefix.calls, len, 0);
      WriteOutcome(prefix.sent + payload.sent, payload.err, payload.calls)
  }

  /** codec.sendFrame(w, data). */
  method SendFrame(w: Writer, data: seq<byte>) returns (err: Option<Error>)
    requires |data| < TWO64
    modifies w
    ensures var o := SendLoop(w.faults, old(w.calls), |data|);
      err == o.err && w.out == old(w.out) + FrameBytes(data)[..o.sent] && w.calls == o.calls
  {
    var size := new byte[MaxVarintLen64];
    if |data| == 0 {
      var n := PutUvarint(size, 0, 0);
      err := WriteAll(w, size[..n]);
      assert FrameBytes(data) == size[..n];
      return;
    }
    UvarintFits(|data|);
    var n := PutUvarint(size, 0, |data|);
    var prefix := size[..n];
    ghost var before := w.out;
    ghost var first := WriteLoop(w.faults, w.calls, n, 0);
    err := WriteAll(w, prefix);
    if err.Some? {
      FrameBytesPrefix(data, first.sent);
      return;
    }
    assert prefix[..first.sent] == prefix;
    ghost var second := WriteLoop(w.faults, w.calls, |data|, 0);
    err := WriteAll(w, data);
    FrameBytesPayload(before, data, second.sent);
  }

  /** The first k bytes of a frame, k within the length prefix. */
  lemma FrameBytesPrefix(data: seq<byte>, k: nat)
    requires k <= |UvarintBytes(|data|)|
    ensures FrameBytes(data)[..k] == UvarintBytes(|data|)[..k]
  {
  }

  /** The first bytes of a frame past the length prefix. */
  lemma FrameBytesPayload(before: seq<byte>, data: seq<byte>, k: nat)
    requires k <= |data|
    ensures before + UvarintBytes(|data|) + data[..k] == before + FrameBytes(data)[..|UvarintBytes(|data|)| + k]
  {
    assert FrameBytes(data)[..|UvarintBytes(|data|)| + k] == UvarintBytes(|data|) + data[..k];
  }

  /** sendFrame with an empty payload writes the single byte 0x00. */
  lemma EmptyFrameBytes()
    ensures FrameBytes([]) == [0]
  {
  }

  /** When every write failure is transient, sendFrame writes the whole
      frame and returns nil. */
  lemma SendRecovers(faults: seq<WriteFault>, calls: nat, len: nat)
    requires WritesRecover(faults)
    ensures SendLoop(faults, calls, len).err == None
  {
    WriteRecovers(faults, calls, |UvarintBytes(len)|, 0);
    WriteRecovers(faults, WriteLoop(faults, calls, |UvarintBytes(len)|, 0).calls, len, 0);
  }

  /** What receiveFrame returns, how many bytes it took off the stream, and
      the number of Read calls made by then. */
  datatype FrameOutcome = FrameOutcome(data: seq<byte>, err: Option<Error>, used: nat, calls: nat)

  /** `receiveFrame(r)` on a stream whose unread bytes are `input`: the
      uvarint size, then exactly that many bytes; any error yields nil data. */
  function ReceiveLoop(input: seq<byte>, faults: seq<ReadFault>, calls: nat): (o: FrameOutcome)
    ensures o.used <= |input|
    ensures o.err.Some? ==> o.data == []
    ensures o.err.None? ==> |o.data| < o.used
  {
    var size := Binary.ReadUvarint(input);
    if size.err.Some? then FrameOutcome([], size.err, size.used, calls)
    else if size.value == 0 then FrameOutcome([], None, size.used, calls)
    else
      var body := ReadLoop(|input| - size.used, faults, calls, size.value, 0);
      if body.err.Some? then FrameOutcome([], body.err, size.used + body.got, body.calls)
      else FrameOutcome(input[size.used..size.used + size.value], None, size.used + size.value, body.calls)
  }

  /** codec.receiveFrame(r). */
  method ReceiveFrame(r: Reader) returns (data: seq<byte>, err: Option<Error>)
    requires r.Valid()
    modifies r
    ensures r.Valid()
    ensures var o := ReceiveLoop(r.stream[old(r.pos)..], r.faults, old(r.calls));
      data == o.data && err == o.err && r.pos == old(r.pos) + o.used && r.calls == o.calls
  {
    var size := r.ReadUvarint();
    if size.err.Some? {
      return [], size.err;
    }
    data := [];
    if size.value != 0 {
      var buf := new byte[size.value];
      err := ReadFull(r, buf);
      if err.Some? {
        return [], err;
      }
      data := buf[..];
      assert data == r.stream[old(r.pos)..][size.used..size.used + size.value];
    }
    err := None;
  }

  /** receiveFrame reads back what sendFrame wrote, whatever follows it on
      the stream, and stops right after it, provided every read failure is
      transient. */
  lemma FrameRoundTrip(data: seq<byte>, rest: seq<byte>, faults: seq<ReadFault>, calls: nat)
    requires |data| < TWO64 && ReadsRecover(faults)
    ensures var o := ReceiveLoop(FrameBytes(data) + rest, faults, calls);
      o.data == data && o.err == None && o.used == |FrameBytes(data)|
  {
    var input := FrameBytes(data) + rest;
    assert input == UvarintBytes(|data|) + (data + rest);
    ReadUvarintRoundTrip(|data|, data + rest);
    var n := |UvarintBytes(|data|)|;
    assert input[n..n + |data|] == data;
    if |data| > 0 {
      ReadRecovers(|input| - n, faults, calls, |data|, 0);
    }
  }

  /** A frame of size 0 yields an empty payload without any Read call. */
  lemma EmptyFrame(rest: seq<byte>, faults: seq<ReadFault>, calls: nat)
    ensures ReceiveLoop([0] + rest, faults, calls) == FrameOutcome([], None, 1, calls)
  {
  }

  /** A stream that ends inside the payload makes receiveFrame fail with
      io.EOF (not io.ErrUnexpectedEOF) and nil data, after taking every
      byte there was. */
  lemma TruncatedFrame(size: u64, body: seq<byte>, faults: seq<ReadFault>, calls: nat)
    requires |body| < size && calls >= |faults|
    ensures var o := ReceiveLoop(UvarintBytes(size) + body, faults, calls);
      o.data == [] && o.err == Some(EOF) && o.used == |UvarintBytes(size)| + |body|
  {
    ReadUvarintRoundTrip(size, body);
    ReadShortStream(|body|, faults, calls, size);
  }

  /* ---------------------------------------------------------------------- */
  /* Messages: a header frame followed by a raw body                         */
  /* ---------------------------------------------------------------------- */

  /** What WriteRequest and WriteResponse put on the stream: the marshalled
      header as a frame, then the compressed body with no length prefix of
      its own (the header carries its length). */
  datatype Message = Message(header: seq<byte>, body: seq<byte>)

  function Wire(m: Message): seq<byte> {
    FrameBytes(m.header) + m.body
  }

  /** `sendFrame(w, header)` and, if it succeeds, `write(w, body)`; `sent`
      counts bytes of Wire(m). */
  function MessageLoop(faults: seq<WriteFault>, calls: nat, m: Message): (o: WriteOutcome)
    ensures o.sent <= |Wire(m)|
    ensures o.err.None? ==> o.sent == |Wire(m)|
    ensures o.err.Some? ==> !IsNetError(o.err.value)
  {
    var frame := SendLoop(faults, calls, |m.header|);
    if frame.err.Some? then frame
    else
      var body := WriteLoop(faults, frame.calls, |m.body|, 0);
      WriteOutcome(frame.sent + body.sent, body.err, body.calls)
  }

  /** When every write failure is transient, the whole message goes out. */
  lemma MessageRecovers(faults: seq<WriteFault>, calls: nat, m: Message)
    requires WritesRecover(faults)
    ensures MessageLoop(faults, calls, m).err == None
  {
    SendRecovers(faults, calls, |m.header|);
    WriteRecovers(faults, SendLoop(faults, calls, |m.header|).calls, |m.body|, 0);
  }

  /** The bytes written when the header frame fails part-way. */
  lemma WirePrefix(m: Message, k: nat)
    requires k <= |FrameBytes(m.header)|
    ensures Wire(m)[..k] == FrameBytes(m.header)[..k]
  {
  }

  /** The bytes written once the header frame went through and k bytes of
      the body followed. */
  lemma WireBody(before: seq<byte>, m: Message, k: nat)
    requires k <= |m.body|
    ensures before + FrameBytes(m.header) + m.body[..k] == before + Wire(m)[..|FrameBytes(m.header)| + k]
  {
    assert Wire(m)[..|FrameBytes(m.header)| + k] == FrameBytes(m.header) + m.body[..k];
  }

  /** `sendFrame(w, header)` and, if it succeeds, `write(w, body)`: how
      WriteRequest and WriteResponse put a message on the stream. */
  method SendMessage(w: Writer, m: Message) returns (err: Option<Error>)
    requires |m.header| < TWO64
    modifies w
    ensures var o := MessageLoop(w.faults, old(w.calls), m);
      err == o.err && w.out == old(w.out) + Wire(m)[..o.sent] && w.calls == o.calls
  {
    ghost var before := w.out;
    ghost var first := SendLoop(w.faults, w.calls, |m.header|);
    err := SendFrame(w, m.header);
    if err.Some? {
      WirePrefix(m, first.sent);
      return;
    }
    ghost var second := WriteLoop(w.faults, w.calls, |m.body|, 0);
    err := WriteAll(w, m.body);
    WireBody(before, m, second.sent);
  }

  /** What ReadRequestHeader / ReadResponseHeader leave behind: the fields of
      the codec's header object, the error, how many bytes they took from
      the stream and the number of Read calls made by then. */
  datatype HeaderRead<H> = HeaderRead(fields: H, err: Option<Error>, used: nat, calls: nat)

  /** Receiving a message's header frame leaves its body at the front of
      the stream. */
  lemma MessageFrame(m: Message, rest: seq<byte>, faults: seq<ReadFault>, calls: nat)
    requires |m.header| < TWO64 && ReadsRecover(faults)
    ensures var o := ReceiveLoop(Wire(m) + rest, faults, calls);
      o.data == m.header && o.err == None && o.used == |FrameBytes(m.header)|
      && (Wire(m) + rest)[o.used..] == m.body + rest
  {
    assert Wire(m) + rest == FrameBytes(m.header) + (m.body + rest);
    FrameRoundTrip(m.header, m.body + rest, faults, calls);
  }
}
