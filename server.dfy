/** codec/server.go: the server side of the codec.  ReadRequestHeader
    numbers every request it accepts with the codec's own sequence counter
    and remembers the client's sequence number and compressor under it;
    WriteResponse looks the request up again, answers under the client's
    number with the client's compressor, and forgets it. */
module Server {
  import opened Errors
  import opened Binary
  import opened Compressor
  import opened Header
  import opened FrameIO
  import opened Rpc

  /** reqCtx: what the server keeps about an accepted request until it
      answers it. */
  datatype ReqCtx = ReqCtx(requestID: u64, compressType: CompressType)

  /** `s.seq++` on a uint64 counter. */
  function NextSeq(s: u64): (r: u64)
    ensures s < TWO64 - 1 ==> r == s + 1
    ensures s == TWO64 - 1 ==> r == 0
  {
    (s + 1) % TWO64
  }

  /** The counter after n accepted requests, starting from a new codec. */
  function SeqAfter(n: nat): u64 {
    if n == 0 then 0 else NextSeq(SeqAfter(n - 1))
  }

  /** The n-th accepted request is numbered n, modulo 2^64. */
  lemma {:induction false} SeqAfterCounts(n: nat)
    ensures SeqAfter(n) == n % TWO64
  {
    if n > 0 {
      SeqAfterCounts(n - 1);
    }
  }

  /** The first 2^64 - 1 requests a codec accepts get different numbers,
      none of them 0 (the next one wraps around to 0). */
  lemma SeqDistinct(i: nat, j: nat)
    requires 0 < i < j < TWO64
    ensures SeqAfter(i) != SeqAfter(j) && SeqAfter(i) != 0
  {
    SeqAfterCounts(i);
    SeqAfterCounts(j);
  }

  /** ReadRequestHeader on a stream whose unread bytes are `input`: the
      header object is reset, a frame is received and unmarshalled into it.
      A frame that cannot be received leaves the header reset; one that
      cannot be unmarshalled leaves the fields decoded before the failure. */
  function ReceiveRequestHeader(input: seq<byte>, faults: seq<ReadFault>, calls: nat): (o: HeaderRead<RequestFields>)
    ensures o.used <= |input|
  {
    var f := ReceiveLoop(input, faults, calls);
    if f.err.Some? then HeaderRead(ZeroRequest, f.err, f.used, f.calls)
    else
      var d := DecodeRequest(ZeroRequest, f.data);
      HeaderRead(d.header, d.err, f.used, f.calls)
  }

  /** The checks ReadRequestBody makes on a body read in full: the tag of
      the request must be registered, then the common checksum /
      decompress / unmarshal steps apply. */
  function DecodeArgs<V>(p: Plugins<V>, h: RequestFields, body: seq<byte>): (r: Result<V>)
    ensures Lookup(h.compressType).None? ==> r == Failure(NotFoundCompressorError)
    ensures Lookup(h.compressType).Some? && h.checksum != 0 && p.crc(body) != h.checksum
            ==> r == Failure(UnexpectedChecksumError)
    ensures r.Success? ==> h.checksum == 0 || p.crc(body) == h.checksum
  {
    if Lookup(h.compressType).None? then Failure(NotFoundCompressorError)
    else DecodeBody(p, h.compressType, h.checksum, body)
  }

  /** ReadRequestBody after header h, on a stream whose unread bytes are
      `input`: exactly h.requestLen bytes are read (they are dropped when no
      arguments are wanted) and then decoded.  A body read in full has been taken off the
      stream whatever the checks after it decide, which keeps the stream in
      step for the next message. */
  function ReceiveArgs<V>(p: Plugins<V>, h: RequestFields, input: seq<byte>,
                          faults: seq<ReadFault>, calls: nat, wants: bool): (o: BodyRead<V>)
    ensures o.used <= |input|
    ensures o.value.Some? ==> wants && o.err.None?
    ensures o.err.None? ==> o.used == h.requestLen
    ensures var got := ReadLoop(|input|, faults, calls, h.requestLen, 0);
      (got.err.Some? ==> o.value.None? && o.err == got.err)
      && (got.err.None? ==> o.used == h.requestLen && o.calls == got.calls
                            && (wants ==> (o.value, o.err) == Deliver(DecodeArgs(p, h, input[..h.requestLen])))
                            && (!wants ==> o.value.None? && o.err.None?))
  {
    var got := ReadLoop(|input|, faults, calls, h.requestLen, 0);
    if got.err.Some? then BodyRead(None, got.err, got.got, got.calls)
    else if !wants then BodyRead(None, None, got.got, got.calls)
    else
      var (v, e) := Deliver(DecodeArgs(p, h, input[..h.requestLen]));
      BodyRead(v, e, got.got, got.calls)
  }

  /** The header WriteResponse fills for the request ctx, answered by resp
      with compressed body c. */
  function ResponseHeaderFor<V>(p: Plugins<V>, ctx: ReqCtx, resp: Response, c: seq<byte>): ResponseFields {
    ResponseFields(ctx.compressType, ctx.requestID, resp.error, Truncate32(|c|), p.crc(c))
  }

  /** What WriteResponse puts on the stream for the request ctx, answered by
      resp and the reply value param, or the error that stops it before
      anything is written.  An error response carries no value. */
  function ResponseMessage<V>(p: Plugins<V>, ctx: ReqCtx, resp: Response, param: Option<V>): Result<Message> {
    var value := if resp.error != [] then None else param;
    match EncodeBody(p, ctx.compressType, value)
    case Failure(e) => Failure(e)
    case Success(c) => Success(Message(ResponseBytes(ResponseHeaderFor(p, ctx, resp, c)), c))
  }

  /** An error response carries no value, whatever the service returned:
      the serializer is not called and the body is the compressor's output
      for empty input. */
  lemma ErrorResponseHasNoValue<V>(p: Plugins<V>, ctx: ReqCtx, resp: Response, param: Option<V>)
    requires resp.error != []
    ensures ResponseMessage(p, ctx, resp, param) == ResponseMessage(p, ctx, resp, None)
    ensures Lookup(ctx.compressType).Some? && p.compress(Lookup(ctx.compressType).value, []).Success? ==>
      ResponseMessage(p, ctx, resp, param).Success?
      && ResponseMessage(p, ctx, resp, param).value.body == p.compress(Lookup(ctx.compressType).value, []).value
  {
  }

  /** serverCodec: the two ends of the connection, the serializer, the
      header object reused for every request, the request counter and the
      requests accepted but not yet answered, by server sequence number. */
  class ServerCodec<V> {
    const r: Reader
    const w: Writer
    const plugins: Plugins<V>
    const requestHeader: RequestHeader
    var counter: u64
    var pending: map<u64, ReqCtx>

    /** NewServerCodec. */
    constructor (r: Reader, w: Writer, plugins: Plugins<V>)
      ensures this.r == r && this.w == w && this.plugins == plugins
      ensures fresh(requestHeader) && requestHeader.Fields() == ZeroRequest
      ensures counter == 0 && pending == map[]
    {
      this.r := r;
      this.w := w;
      this.plugins := plugins;
      requestHeader := new RequestHeader();
      counter := 0;
      pending := map[];
    }

    /** serverCodec.ReadRequestHeader(req).  On success the counter moves
        on, the request's sequence number and tag are remembered under it,
        and req carries the new number and the method; on failure neither
        req, the counter nor the pending map changes. */
    method ReadRequestHeader(req: Request) returns (next: Request, err: Option<Error>)
      requires r.Valid()
      modifies this, r, requestHeader
      ensures r.Valid()
      ensures var o := ReceiveRequestHeader(r.stream[old(r.pos)..], r.faults, old(r.calls));
        requestHeader.Fields() == o.fields && err == o.err
        && r.pos == old(r.pos) + o.used && r.calls == o.calls
        && (o.err.Some? ==> next == req && counter == old(counter) && pending == old(pending))
        && (o.err.None? ==> counter == NextSeq(old(counter))
                            && pending == old(pending)[counter := ReqCtx(o.fields.id, o.fields.compressType)]
                            && next == Request(counter, o.fields.serviceMethod))
    {
      requestHeader.ResetHeader();
      var data, e := ReceiveFrame(r);
      if e.Some? {
        return req, e;
      }
      err := requestHeader.Unmarshall(data);
      if err.Some? {
        return req, err;
      }
      counter := NextSeq(counter);
      var t := requestHeader.GetCompressType();
      pending := pending[counter := ReqCtx(requestHeader.id, t)];
      next := Request(counter, requestHeader.serviceMethod);
    }

    /** serverCodec.ReadRequestBody(param), with `wantsArgs` false for a nil
        param: the arguments are decoded only when wanted, but the body is
        always taken off the stream. */
    method ReadRequestBody(wantsArgs: bool) returns (args: Option<V>, err: Option<Error>)
      requires r.Valid()
      modifies r
      ensures r.Valid()
      ensures var o := ReceiveArgs(plugins, requestHeader.Fields(), r.stream[old(r.pos)..],
                                   r.faults, old(r.calls), wantsArgs);
        args == o.value && err == o.err && r.pos == old(r.pos) + o.used && r.calls == o.calls
    {
      if !wantsArgs {
        if requestHeader.requestLen != 0 {
          var _, e := ReadBody(r, requestHeader.requestLen);
          return None, e;
        }
        return None, None;
      }
      var body;
      body, err := ReadBody(r, requestHeader.requestLen);
      if err.Some? {
        return None, err;
      }
      args, err := DecodeRequestBody(body);
    }

    /** The checks ReadRequestBody makes once the body is read, in the
        order of the source. */
    method DecodeRequestBody(body: seq<byte>) returns (args: Option<V>, err: Option<Error>)
      ensures (args, err) == Deliver(DecodeArgs(plugins, requestHeader.Fields(), body))
    {
      if Lookup(requestHeader.compressType).None? {
        return None, Some(NotFoundCompressorError);
      }
      if requestHeader.checksum != 0 && plugins.crc(body) != requestHeader.checksum {
        return None, Some(UnexpectedChecksumError);
      }
      var a := Lookup(requestHeader.compressType);
      var raw := plugins.decompress(a.value, body);
      if raw.Failure? {
        return None, Some(raw.error);
      }
      var v := plugins.unmarshal(raw.value);
      if v.Failure? {
        return None, Some(v.error);
      }
      args, err := Some(v.value), None;
    }

    /** serverCodec.WriteResponse(resp, param), with param None for nil.  A
        sequence number that is not pending is refused and nothing changes;
        otherwise the request is forgotten first, whatever happens next,
        and the response goes out under the client's own sequence number and
        compressor, as far as the writer lets it. */
    method WriteResponse(resp: Response, param: Option<V>) returns (err: Option<Error>)
      requires IsGoString(resp.error)
      modifies this, w
      ensures counter == old(counter)
      ensures resp.sequence !in old(pending) ==>
        err == Some(InvalidSequenceError) && pending == old(pending)
        && w.out == old(w.out) && w.calls == old(w.calls)
      ensures resp.sequence in old(pending) ==>
        pending == old(pending) - {resp.sequence}
        && match ResponseMessage(plugins, old(pending)[resp.sequence], resp, param)
           case Failure(e) => err == Some(e) && w.out == old(w.out) && w.calls == old(w.calls)
           case Success(m) =>
             var o := MessageLoop(w.faults, old(w.calls), m);
             err == o.err && w.out == old(w.out) + Wire(m)[..o.sent] && w.calls == o.calls
    {
      if resp.sequence !in pending {
        return Some(InvalidSequenceError);
      }
      var ctx := pending[resp.sequence];
      pending := pending - {resp.sequence};
      var value := param;
      if resp.error != [] {
        value := None;
      }
      var a := Lookup(ctx.compressType);
      if a.None? {
        return Some(NotFoundCompressorError);
      }
      var body: seq<byte> := [];
      if value.Some? {
        var marshalled := plugins.marshal(value.value);
        if marshalled.Failure? {
          return Some(marshalled.error);
        }
        body := marshalled.value;
      }
      var compressed := plugins.compress(a.value, body);
      if compressed.Failure? {
        return Some(compressed.error);
      }
      var c := compressed.value;
      var h := new ResponseHeader();
      h.id := ctx.requestID;
      h.error := resp.error;
      h.checksum := plugins.crc(c);
      h.compressType := ctx.compressType;
      h.responseLen := Truncate32(|c|);
      var header := h.Marshall();
      var m := Message(header, c);
      assert ResponseMessage(plugins, ctx, resp, param) == Success(m);
      err := SendMessage(w, m);
    }
  }
}
