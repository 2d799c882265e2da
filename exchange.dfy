/** One call across the two codecs.  What the client's WriteRequest puts on
    the stream is what the server's ReadRequestHeader and ReadRequestBody
    take off it, and what the server's WriteResponse puts on the stream is
    what the client's ReadResponseHeader and ReadResponseBody take off it.
    Each of these holds whatever bytes follow on the stream.  It needs three
    conditions: every read failure is transient, the compressed body is
    shorter than 2^32 bytes (the header stores its length as a uint32), and
    the serializer and the compressor round-trip the value. */
module Exchange {
  import opened Errors
  import opened Binary
  import opened Compressor
  import opened Header
  import opened FrameIO
  import opened Rpc
  import opened Client
  import opened Server

  /* ---------------------------------------------------------------------- */
  /* Client to server                                                        */
  /* ---------------------------------------------------------------------- */

  /** The server reads back the header the client sent, and the body is
      next on the stream. */
  lemma RequestHeaderDelivered<V>(p: Plugins<V>, tag: CompressType, req: Request, params: V,
                                  rest: seq<byte>, faults: seq<ReadFault>, calls: nat)
    requires IsGoString(req.serviceMethod) && ReadsRecover(faults)
    requires RequestMessage(p, tag, req, params).Success?
    ensures var m := RequestMessage(p, tag, req, params).value;
      var o := ReceiveRequestHeader(Wire(m) + rest, faults, calls);
      o.err == None && o.fields == RequestHeaderFor(p, tag, req, m.body)
      && (Wire(m) + rest)[o.used..] == m.body + rest
  {
    var m := RequestMessage(p, tag, req, params).value;
    var h := RequestHeaderFor(p, tag, req, m.body);
    RequestBytesFit(h);
    MessageFrame(m, rest, faults, calls);
    RequestRoundTrip(ZeroRequest, h);
  }

  /** The server decodes the client's arguments from the body that follows
      the header, and takes exactly the body off the stream. */
  lemma ArgumentsDelivered<V>(p: Plugins<V>, tag: CompressType, req: Request, params: V,
                              rest: seq<byte>, faults: seq<ReadFault>, calls: nat)
    requires ReadsRecover(faults) && Lookup(tag).Some?
    requires SerializationRoundTrips(p, params)
    requires CompressionRoundTrips(p, Lookup(tag).value, p.marshal(params).value)
    requires |EncodeBody(p, tag, Some(params)).value| < TWO32
    ensures var m := RequestMessage(p, tag, req, params).value;
      var o := ReceiveArgs(p, RequestHeaderFor(p, tag, req, m.body), m.body + rest, faults, calls, true);
      o.value == Some(params) && o.err == None && o.used == |m.body|
  {
    var c := EncodeBody(p, tag, Some(params)).value;
    BodyRoundTrip(p, tag, params);
    Truncate32Small(|c|);
    ReadRecovers(|c + rest|, faults, calls, |c|, 0);
    assert (c + rest)[..|c|] == c;
  }

  /** A whole request: the server accepts the header the client sent and
      then decodes the client's arguments from what follows. */
  lemma RequestDelivered<V>(p: Plugins<V>, tag: CompressType, req: Request, params: V,
                            rest: seq<byte>, faults: seq<ReadFault>, calls: nat)
    requires IsGoString(req.serviceMethod) && ReadsRecover(faults) && Lookup(tag).Some?
    requires SerializationRoundTrips(p, params)
    requires CompressionRoundTrips(p, Lookup(tag).value, p.marshal(params).value)
    requires |EncodeBody(p, tag, Some(params)).value| < TWO32
    ensures RequestMessage(p, tag, req, params).Success?
    ensures var m := RequestMessage(p, tag, req, params).value;
      var o := ReceiveRequestHeader(Wire(m) + rest, faults, calls);
      var b := ReceiveArgs(p, o.fields, (Wire(m) + rest)[o.used..], faults, o.calls, true);
      o.err == None && o.fields.id == req.sequence && o.fields.serviceMethod == req.serviceMethod
      && o.fields.compressType == tag && o.fields.requestLen == |m.body| && o.fields.checksum == p.crc(m.body)
      && b.value == Some(params) && b.err == None && o.used + b.used == |Wire(m)|
  {
    var m := RequestMessage(p, tag, req, params).value;
    RequestHeaderDelivered(p, tag, req, params, rest, faults, calls);
    var o := ReceiveRequestHeader(Wire(m) + rest, faults, calls);
    ArgumentsDelivered(p, tag, req, params, rest, faults, o.calls);
    Truncate32Small(|m.body|);
  }

  /* ---------------------------------------------------------------------- */
  /* Server to client                                                        */
  /* ---------------------------------------------------------------------- */

  /** The client reads back the header the server sent, and the body is
      next on the stream. */
  lemma ResponseHeaderDelivered<V>(p: Plugins<V>, ctx: ReqCtx, resp: Response, param: Option<V>,
                                   rest: seq<byte>, faults: seq<ReadFault>, calls: nat)
    requires IsGoString(resp.error) && ReadsRecover(faults)
    requires ResponseMessage(p, ctx, resp, param).Success?
    ensures var m := ResponseMessage(p, ctx, resp, param).value;
      var o := ReceiveResponseHeader(Wire(m) + rest, faults, calls);
      o.err == None && o.fields == ResponseHeaderFor(p, ctx, resp, m.body)
      && (Wire(m) + rest)[o.used..] == m.body + rest
  {
    var m := ResponseMessage(p, ctx, resp, param).value;
    var h := ResponseHeaderFor(p, ctx, resp, m.body);
    ResponseBytesFit(h);
    MessageFrame(m, rest, faults, calls);
    ResponseRoundTrip(ZeroResponse, h);
  }

  /** The client decodes the reply of a successful call from the body that
      follows the header, provided the server answered with the client's
      own compressor. */
  lemma ReplyDelivered<V>(p: Plugins<V>, ctx: ReqCtx, resp: Response, reply: V,
                          rest: seq<byte>, faults: seq<ReadFault>, calls: nat)
    requires resp.error == [] && ReadsRecover(faults) && Lookup(ctx.compressType).Some?
    requires SerializationRoundTrips(p, reply)
    requires CompressionRoundTrips(p, Lookup(ctx.compressType).value, p.marshal(reply).value)
    requires |EncodeBody(p, ctx.compressType, Some(reply)).value| < TWO32
    ensures var m := ResponseMessage(p, ctx, resp, Some(reply)).value;
      var o := ReceiveReply(p, ctx.compressType, ResponseHeaderFor(p, ctx, resp, m.body), m.body + rest,
                            faults, calls, true);
      o.value == Some(reply) && o.err == None && o.used == |m.body|
  {
    var c := EncodeBody(p, ctx.compressType, Some(reply)).value;
    BodyRoundTrip(p, ctx.compressType, reply);
    Truncate32Small(|c|);
    ReadRecovers(|c + rest|, faults, calls, |c|, 0);
    assert (c + rest)[..|c|] == c;
  }

  /** An error response reaches the client with its error text, and the
      client's ReadResponseBody(nil) takes exactly its body off the stream
      and reports no error. */
  lemma ErrorResponseDelivered<V>(p: Plugins<V>, tag: CompressType, ctx: ReqCtx, resp: Response, param: Option<V>,
                                  rest: seq<byte>, faults: seq<ReadFault>, calls: nat)
    requires IsGoString(resp.error) && resp.error != [] && ReadsRecover(faults)
    requires Lookup(ctx.compressType).Some?
    requires p.compress(Lookup(ctx.compressType).value, []).Success?
    requires |p.compress(Lookup(ctx.compressType).value, []).value| < TWO32
    ensures ResponseMessage(p, ctx, resp, param).Success?
    ensures var m := ResponseMessage(p, ctx, resp, param).value;
      var o := ReceiveResponseHeader(Wire(m) + rest, faults, calls);
      var b := ReceiveReply(p, tag, o.fields, (Wire(m) + rest)[o.used..], faults, o.calls, false);
      o.err == None && o.fields.error == resp.error && o.fields.id == ctx.requestID
      && b.value == None && b.err == None && o.used + b.used == |Wire(m)|
  {
    ErrorResponseHasNoValue(p, ctx, resp, param);
    var m := ResponseMessage(p, ctx, resp, param).value;
    ResponseHeaderDelivered(p, ctx, resp, param, rest, faults, calls);
    var o := ReceiveResponseHeader(Wire(m) + rest, faults, calls);
    Truncate32Small(|m.body|);
    ReadRecovers(|m.body + rest|, faults, o.calls, |m.body|, 0);
  }

  /* ---------------------------------------------------------------------- */
  /* A whole call                                                            */
  /* ---------------------------------------------------------------------- */

  /** The server remembers a request under its own number with the client's
      sequence number and compressor (ReadRequestHeader), and answers it
      with them (WriteResponse).  So the response header the client reads
      carries the client's own sequence number, under which the client
      finds the method it recorded in WriteRequest, and the reply decodes
      with the client's compressor. */
  lemma CallRoundTrip<V>(p: Plugins<V>, tag: CompressType, req: Request, params: V, reply: V,
                         resp: Response, pending: map<u64, seq<byte>>,
                         rest1: seq<byte>, rest2: seq<byte>,
                         faults1: seq<ReadFault>, faults2: seq<ReadFault>, calls1: nat, calls2: nat)
    requires IsGoString(req.serviceMethod) && resp.error == []
    requires ReadsRecover(faults1) && ReadsRecover(faults2) && Lookup(tag).Some?
    requires SerializationRoundTrips(p, params)
    requires CompressionRoundTrips(p, Lookup(tag).value, p.marshal(params).value)
    requires |EncodeBody(p, tag, Some(params)).value| < TWO32
    requires SerializationRoundTrips(p, reply)
    requires CompressionRoundTrips(p, Lookup(tag).value, p.marshal(reply).value)
    requires |EncodeBody(p, tag, Some(reply)).value| < TWO32
    ensures RequestMessage(p, tag, req, params).Success?
    ensures var m1 := RequestMessage(p, tag, req, params).value;
      var h1 := ReceiveRequestHeader(Wire(m1) + rest1, faults1, calls1);
      var ctx := ReqCtx(h1.fields.id, h1.fields.compressType);
      ResponseMessage(p, ctx, resp, Some(reply)).Success?
      && var m2 := ResponseMessage(p, ctx, resp, Some(reply)).value;
      var h2 := ReceiveResponseHeader(Wire(m2) + rest2, faults2, calls2);
      var b2 := ReceiveReply(p, tag, h2.fields, (Wire(m2) + rest2)[h2.used..], faults2, h2.calls, true);
      h2.err == None && h2.fields.id == req.sequence
      && MethodOf(pending[req.sequence := req.serviceMethod], h2.fields.id) == req.serviceMethod
      && b2.value == Some(reply) && b2.err == None
  {
    var m1 := RequestMessage(p, tag, req, params).value;
    RequestDelivered(p, tag, req, params, rest1, faults1, calls1);
    var h1 := ReceiveRequestHeader(Wire(m1) + rest1, faults1, calls1);
    var ctx := ReqCtx(h1.fields.id, h1.fields.compressType);
    assert ctx == ReqCtx(req.sequence, tag);
    var m2 := ResponseMessage(p, ctx, resp, Some(reply)).value;
    ResponseHeaderDelivered(p, ctx, resp, Some(reply), rest2, faults2, calls2);
    var h2 := ReceiveResponseHeader(Wire(m2) + rest2, faults2, calls2);
    ReplyDelivered(p, ctx, resp, reply, rest2, faults2, h2.calls);
  }
}
