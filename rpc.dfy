/** What the codecs exchange with the layers around them: net/rpc's Request
    and Response records, and the collaborators whose internals are not part
    of this model (the serializer, each compressor's Compress / Decompress,
    and CRC-32/IEEE), passed in as functions. */
module Rpc {
  import opened Errors
  import opened Binary
  import opened Compressor

  /** The fields of net/rpc's Request the codecs read or fill. */
  datatype Request = Request(sequence: u64, serviceMethod: seq<byte>)

  /** The fields of net/rpc's Response the codecs read or fill. */
  datatype Response = Response(sequence: u64, serviceMethod: seq<byte>, error: seq<byte>)

  /** The opaque collaborators.  V is the type of the values the serializer
      turns into bytes (call arguments and replies).
      - marshal / unmarshal: serializer.Serializer's Marshal and UnMarshal;
      - compress / decompress: Compress and Decompress of the compressor the
        registry holds for an algorithm;
      - crc: crc32.ChecksumIEEE, the CRC-32 of IEEE 802.3 clause 3.2.9. */
  datatype Plugins<!V> = Plugins(
    marshal: V -> Result<seq<byte>>,
    unmarshal: seq<byte> -> Result<V>,
    compress: (Algorithm, seq<byte>) -> Result<seq<byte>>,
    decompress: (Algorithm, seq<byte>) -> Result<seq<byte>>,
    crc: seq<byte> -> u32)

  /** The compressor for a round-trips `body`: compressing succeeds and
      decompressing its output gives `body` back.  The model never assumes it;
      lemmas that need it take it as a hypothesis. */
  ghost predicate CompressionRoundTrips<V>(p: Plugins<V>, a: Algorithm, body: seq<byte>) {
    p.compress(a, body).Success? && p.decompress(a, p.compress(a, body).value) == Success(body)
  }

  /** The serializer round-trips v. */
  ghost predicate SerializationRoundTrips<V>(p: Plugins<V>, v: V) {
    p.marshal(v).Success? && p.unmarshal(p.marshal(v).value) == Success(v)
  }

  /** The body both codecs send: the value marshalled (no bytes when there
      is no value), then compressed by the compressor registered under tag.
      An unregistered tag fails before anything is marshalled. */
  function EncodeBody<V>(p: Plugins<V>, tag: CompressType, v: Option<V>): (r: Result<seq<byte>>)
    ensures Lookup(tag).None? ==> r == Failure(NotFoundCompressorError)
  {
    match Lookup(tag)
    case None => Failure(NotFoundCompressorError)
    case Some(a) =>
      if v.None? then p.compress(a, [])
      else
        match p.marshal(v.value)
        case Failure(e) => Failure(e)
        case Success(raw) => p.compress(a, raw)
  }

  /** The common tail of ReadRequestBody and ReadResponseBody: a non-zero
      checksum must equal the body's CRC-32, then the body is decompressed
      by the compressor registered under tag and unmarshalled.  Calling
      Decompress through an absent registry entry is a Go runtime panic. */
  function DecodeBody<V>(p: Plugins<V>, tag: CompressType, checksum: u32, body: seq<byte>): (r: Result<V>)
    ensures r.Success? ==> checksum == 0 || p.crc(body) == checksum
    ensures r.Success? ==> Lookup(tag).Some?
  {
    if checksum != 0 && p.crc(body) != checksum then Failure(UnexpectedChecksumError)
    else
      match Lookup(tag)
      case None => Failure(NilCompressorPanic)
      case Some(a) =>
        match p.decompress(a, body)
        case Failure(e) => Failure(e)
        case Success(raw) => p.unmarshal(raw)
  }

  /** Decoding undoes encoding: a value sent under a registered tag, with the
      checksum of what was sent, comes back unchanged, provided the serializer
      and the compressor round-trip it. */
  lemma BodyRoundTrip<V>(p: Plugins<V>, tag: CompressType, v: V)
    requires Lookup(tag).Some? && SerializationRoundTrips(p, v)
    requires CompressionRoundTrips(p, Lookup(tag).value, p.marshal(v).value)
    ensures var c := EncodeBody(p, tag, Some(v));
      c.Success? && DecodeBody(p, tag, p.crc(c.value), c.value) == Success(v)
  {
  }

  /** A checksum of 0 is never checked: the body is decoded exactly as if
      the header carried its true CRC-32. */
  lemma ZeroChecksumSkips<V>(p: Plugins<V>, tag: CompressType, body: seq<byte>)
    ensures DecodeBody(p, tag, 0, body) == DecodeBody(p, tag, p.crc(body), body)
  {
  }

  /** A Result as the Go code returns it: the value (or nothing) and the
      error (or nil). */
  function Deliver<V>(r: Result<V>): (Option<V>, Option<Error>) {
    match r
    case Success(v) => (Some(v), None)
    case Failure(e) => (None, Some(e))
  }

  /** What ReadRequestBody / ReadResponseBody leave behind: the value
      decoded (when one was wanted and everything succeeded), the error, how
      many bytes they took from the stream and the number of Read calls made
      by then. */
  datatype BodyRead<V> = BodyRead(value: Option<V>, err: Option<Error>, used: nat, calls: nat)
}
