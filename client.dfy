/** codec/client.go: the client side of the codec.  WriteRequest sends a
    request header frame followed by the compressed arguments and remembers
    the method of each outstanding sequence number; ReadResponseHeader and
    ReadResponseBody take a response apart again. */
module Client {
  import opened Errors
  import opened Binary
  import opened Compressor
  import opened Header
  import opened FrameIO
  import opened Rpc

  /** The header WriteRequest fills for request req whose compressed body is c. */
  function RequestHeaderFor<V>(p: Plugins<V>, tag: CompressType, req: Request, c: seq<byte>): RequestFields {
    RequestFields(tag, req.serviceMethod, req.sequence, Truncate32(|c|), p.crc(c))
  }

  /** What WriteRequest puts on the stream for req and its arguments, or
      the error that stops it before anything is written. */
  function RequestMessage<V>(p: Plugins<V>, tag: CompressType, req: Request, params: V): Result<Message> {
    match EncodeBody(p, tag, Some(params))
    case Failure(e) => Failure(e)
    case Success(c) => Success(Message(RequestBytes(RequestHeaderFor(p, tag, req, c)), c))
  }

  /** `c.pending[id]`: the method recorded for id, or "" when there is none. */
  function MethodOf(pending: map<u64, seq<byte>>, id: u64): seq<byte> {
    if id in pending then pending[id] else []
  }

  /** ReadResponseHeader on a stream whose unread bytes are `input`: the
      header object is reset, a frame is received and unmarshalled into it.
      A frame that cannot be received leaves the header reset; one that
      cannot be unmarshalled leaves the fields decoded before the failure. */
  function ReceiveResponseHeader(input: seq<byte>, faults: seq<ReadFault>, calls: nat): (o: HeaderRead<ResponseFields>)
    ensures o.used <= |input|
  {
    var f := ReceiveLoop(input, faults, calls);
    if f.err.Some? then HeaderRead(ZeroResponse, f.err, f.used, f.calls)
    else
      var d := DecodeResponse(ZeroResponse, f.data);
      HeaderRead(d.header, d.err, f.used, f.calls)
  }

  /** The checks ReadResponseBody makes on a body read in full: the tag of
      the response must be the client's own, then the common checksum /
      decompress / unmarshal steps apply. */
  function DecodeReply<V>(p: Plugins<V>, tag: CompressType, h: ResponseFields, body: seq<byte>): (r: Result<V>)
    ensures h.compressType != tag ==> r == Failure(CompressorTypeMismatchError)
    ensures h.compressType == tag && h.checksum != 0 && p.crc(body) != h.checksum
            ==> r == Failure(UnexpectedChecksumError)
    ensures r.Success? ==> h.checksum == 0 || p.crc(body) == h.checksum
  {
    if h.compressType != tag then Failure(CompressorTypeMismatchError)
    else DecodeBody(p, h.compressType, h.checksum, body)
  }

  /** ReadResponseBody after header h, on a stream whose unread bytes are
      `input`: exactly h.responseLen bytes are read (they are dropped when no
      reply is wanted) and then decoded.  A body read in full has been taken off the
      stream whatever the checks after it decide, which keeps the stream in
      step for the next message. */
  function ReceiveReply<V>(p: Plugins<V>, tag: CompressType, h: ResponseFields, input: seq<byte>,
                           faults: seq<ReadFault>, calls: nat, wants: bool): (o: BodyRead<V>)
    ensures o.used <= |input|
    ensures o.value.Some? ==> wants && o.err.None?
    ensures o.err.None? ==> o.used == h.responseLen
    ensures var got := ReadLoop(|input|, faults, calls, h.responseLen, 0);
      (got.err.Some? ==> o.value.None? && o.err == got.err)
      && (got.err.None? ==> o.used == h.responseLen && o.calls == got.calls
                            && (wants ==> (o.value, o.err) == Deliver(DecodeReply(p, tag, h, input[..h.responseLen])))
                            && (!wants ==> o.value.None? && o.err.None?))
  {
    var got := ReadLoop(|input|, faults, calls, h.responseLen, 0);
    if got.err.Some? then BodyRead(None, got.err, got.got, got.calls)
    else if !wants then BodyRead(None, None, got.got, got.calls)
    else
      var (v, e) := Deliver(DecodeReply(p, tag, h, input[..h.responseLen]));
      BodyRead(v, e, got.got, got.calls)
  }

  /** clientCodec: the two ends of the connection, the configured compressor
      and serializer, the header object reused for every response, and the
      method of every request still awaiting its response. */
  class ClientCodec<V> {
    const r: Reader
    const w: Writer
    const compressor: CompressType
    const plugins: Plugins<V>
    const responseHeader: ResponseHeader
    var pending: map<u64, seq<byte>>

    /** NewClientCodec. */
    constructor (r: Reader, w: Writer, compressor: CompressType, plugins: Plugins<V>)
      ensures this.r == r && this.w == w && this.compressor == compressor && this.plugins == plugins
      ensures fresh(responseHeader) && responseHeader.Fields() == ZeroResponse
      ensures pending == map[]
    {
      this.r := r;
      this.w := w;
      this.compressor := compressor;
      this.plugins := plugins;
      responseHeader := new ResponseHeader();
      pending := map[];
    }

    /** clientCodec.WriteRequest.  The method is recorded under the request's
        sequence number first, whatever happens next.  A configuration,
        serializer or compressor error returns before anything is written;
        otherwise the header frame and the body go out as far as the writer
        lets them. */
    method WriteRequest(req: Request, params: V) returns (err: Option<Error>)
      requires IsGoString(req.serviceMethod)
      modifies this, w
      ensures pending == old(pending)[req.sequence := req.serviceMethod]
      ensures match RequestMessage(plugins, compressor, req, params)
        case Failure(e) => err == Some(e) && w.out == old(w.out) && w.calls == old(w.calls)
        case Success(m) =>
          var o := MessageLoop(w.faults, old(w.calls), m);
          err == o.err && w.out == old(w.out) + Wire(m)[..o.sent] && w.calls == o.calls
    {
      pending := pending[req.sequence := req.serviceMethod];
      var a := Lookup(compressor);
      if a.None? {
        return Some(NotFoundCompressorError);
      }
      var body := plugins.marshal(params);
      if body.Failure? {
        return Some(body.error);
      }
      var compressed := plugins.compress(a.value, body.value);
      if compressed.Failure? {
        return Some(compressed.error);
      }
      var c := compressed.value;
      var h := new RequestHeader();
      h.id := req.sequence;
      h.serviceMethod := req.serviceMethod;
      h.requestLen := Truncate32(|c|);
      h.compressType := compressor;
      h.checksum := plugins.crc(c);
      var header := h.Marshall();
      var m := Message(header, c);
      assert RequestMessage(plugins, compressor, req, params) == Success(m);
      err := SendMessage(w, m);
    }

    /** clientCodec.ReadResponseHeader(resp).  On success the response
        carries the header's ID, the method recorded for it ("" when none
        was) and the header's error text, and the ID is no longer pending;
        on failure neither resp nor the pending map changes. */
    method ReadResponseHeader(resp: Response) returns (next: Response, err: Option<Error>)
      requires r.Valid()
      modifies this, r, responseHeader
      ensures r.Valid()
      ensures var o := ReceiveResponseHeader(r.stream[old(r.pos)..], r.faults, old(r.calls));
        responseHeader.Fields() == o.fields && err == o.err
        && r.pos == old(r.pos) + o.used && r.calls == o.calls
        && (o.err.Some? ==> next == resp && pending == old(pending))
        && (o.err.None? ==> next == Response(o.fields.id, MethodOf(old(pending), o.fields.id), o.fields.error)
                            && pending == old(pending) - {o.fields.id})
    {
      responseHeader.ResetHeader();
      var data, e := ReceiveFrame(r);
      if e.Some? {
        return resp, e;
      }
      err := responseHeader.Unmarshall(data);
      if err.Some? {
        return resp, err;
      }
      var id := responseHeader.id;
      next := Response(id, if id in pending then pending[id] else [], responseHeader.error);
      pending := pending - {id};
    }

    /** clientCodec.ReadResponseBody(param), with `wantsReply` false for a
        nil param: the reply is decoded only when one is wanted, but the
        body is always taken off the stream. */
    method ReadResponseBody(wantsReply: bool) returns (reply: Option<V>, err: Option<Error>)
      requires r.Valid()
      modifies r
      ensures r.Valid()
      ensures var o := ReceiveReply(plugins, compressor, responseHeader.Fields(), r.stream[old(r.pos)..],
                                    r.faults, old(r.calls), wantsReply);
        reply == o.value && err == o.err && r.pos == old(r.pos) + o.used && r.calls == o.calls
    {
      if !wantsReply {
        if responseHeader.responseLen != 0 {
          var _, e := ReadBody(r, responseHeader.responseLen);
          return None, e;
        }
        return None, None;
      }
      var body;
      body, err := ReadBody(r, responseHeader.responseLen);
      if err.Some? {
        return None, err;
      }
      reply, err := DecodeResponseBody(body);
    }

    /** The checks ReadResponseBody makes once the body is read, in the
        order of the source. */
    method DecodeResponseBody(body: seq<byte>) returns (reply: Option<V>, err: Option<Error>)
      ensures (reply, err) == Deliver(DecodeReply(plugins, compressor, responseHeader.Fields(), body))
    {
      var t := responseHeader.GetCompressType();
      if t != compressor {
        return None, Some(CompressorTypeMismatchError);
      }
      if responseHeader.checksum != 0 && plugins.crc(body) != responseHeader.checksum {
        return None, Some(UnexpectedChecksumError);
      }
      var a := Lookup(responseHeader.compressType);
      if a.None? {
        return None, Some(NilCompressorPanic);
      }
      var raw := plugins.decompress(a.value, body);
      if raw.Failure? {
        return None, Some(raw.error);
      }
      var v := plugins.unmarshal(raw.value);
      if v.Failure? {
        return None, Some(v.error);
      }
      reply, err := Some(v.value), None;
    }
  }
}
